/** Planning and filling one allocation that holds a header and several row arrays
    (`serialized_file_storage_append_array_internal` of src/io/serialized_file_directory.c). */
module RetainedStorage {
  import opened Bytes
  import opened MetadataReader

  /** The array that follows `total` bytes: its offset and the new total, unless size_t overflows. */
  function AppendArray(total: nat, alignment: nat, count: nat, width: nat): (r: Option<(nat, nat)>)
    requires alignment > 0
    ensures r.Some? ==> r.value.0 >= total && r.value.1 == r.value.0 + count * width && r.value.1 <= SIZE_MAX
    ensures r.Some? ==> r.value.0 < total + alignment
  {
    var remainder := total % alignment;
    var padding := if remainder == 0 then 0 else alignment - remainder;
    if total + padding > SIZE_MAX || count * width > SIZE_MAX || total + padding + count * width > SIZE_MAX then None
    else Some((total + padding, total + padding + count * width))
  }

  /** The array starts at the first multiple of its alignment that is not below `total`, and is refused exactly
      when its end there is beyond size_t. */
  lemma ArrayIsAppended(total: nat, alignment: nat, count: nat, width: nat, offset: nat)
    requires alignment > 0 && total <= offset < total + alignment && offset % alignment == 0
    ensures AppendArray(total, alignment, count, width) ==
      if offset + count * width <= 0xFFFF_FFFF_FFFF_FFFF then Some((offset, offset + count * width)) else None
  {
    FirstMultiple(total, alignment, offset);
  }

  lemma QuotientAndRemainder(n: nat, a: nat) returns (q: nat, r: nat)
    requires a > 0
    ensures n == a * q + r && r == n % a && r < a
  {
    q, r := n / a, n % a;
  }

  lemma FirstMultiple(total: nat, alignment: nat, offset: nat)
    requires alignment > 0 && total <= offset < total + alignment && offset % alignment == 0
    ensures offset - total == if total % alignment == 0 then 0 else alignment - total % alignment
  {
    var q, r := QuotientAndRemainder(total, alignment);
    var p, zero := QuotientAndRemainder(offset, alignment);
    OneMultiple(alignment, q, r, p);
  }

  lemma OneMultiple(a: nat, q: nat, r: nat, p: nat)
    requires r < a && a * q + r <= a * p < a * q + r + a
    ensures a * p == if r == 0 then a * q else a * q + a
  {
    assert a * (q + 1) == a * q + a && a * (p + 1) == a * p + a && a * (q + 2) == a * q + 2 * a;
    if p > q + 1 {
      ProductIsMonotone(a, q + 2, p);
    } else if p < q {
      ProductIsMonotone(a, p + 1, q);
    }
  }

  datatype Array = Array(alignment: nat, width: nat)

  /** The size of a header followed by one array per kind of row. */
  function PlanArrays(total: nat, arrays: seq<Array>, counts: seq<nat>): Option<nat>
    requires |arrays| == |counts| && Aligned(arrays)
    decreases |arrays|
  {
    if arrays == [] then Some(total)
    else
      assert arrays[0] in arrays && forall a :: a in arrays[1..] ==> a in arrays;
      match AppendArray(total, arrays[0].alignment, counts[0], arrays[0].width)
      case None => None
      case Some((_, next)) => PlanArrays(next, arrays[1..], counts[1..])
  }

  predicate Aligned(arrays: seq<Array>) {
    forall a {:trigger a in arrays} :: a in arrays ==> a.alignment > 0
  }

  /** Each array begins at the first multiple of its alignment behind the one before and ends within size_t. */
  ghost predicate LaidOut(arrays: seq<Array>, counts: seq<nat>, ends: seq<nat>)
    requires |arrays| == |counts| && Aligned(arrays)
  {
    && |ends| == |arrays| + 1
    && forall i {:trigger arrays[i]} :: 0 <= i < |arrays| ==>
         Fills(arrays[i].alignment, arrays[i].width, counts[i], ends[i], ends[i + 1])
  }

  ghost predicate Fills(alignment: nat, width: nat, count: nat, start: nat, end: nat) {
    exists offset: nat {:trigger BeginsAt(alignment, start, offset)} ::
      BeginsAt(alignment, start, offset) && end == offset + count * width <= 0xFFFF_FFFF_FFFF_FFFF
  }

  predicate BeginsAt(alignment: nat, start: nat, offset: nat) {
    alignment > 0 && start <= offset < start + alignment && offset % alignment == 0
  }

  lemma FillsExactly(alignment: nat, width: nat, count: nat, start: nat, end: nat)
    requires alignment > 0
    ensures Fills(alignment, width, count, start, end) <==>
              var r := AppendArray(start, alignment, count, width); r.Some? && r.value.1 == end
  {
    var offset := NextMultiple(start, alignment);
    ArrayIsAppended(start, alignment, count, width, offset);
    if other: nat :| BeginsAt(alignment, start, other) && end == other + count * width <= 0xFFFF_FFFF_FFFF_FFFF {
      ArrayIsAppended(start, alignment, count, width, other);
    }
    assert BeginsAt(alignment, start, offset);
  }

  lemma NextMultiple(start: nat, alignment: nat) returns (offset: nat)
    requires alignment > 0
    ensures BeginsAt(alignment, start, offset)
  {
    var q, r := QuotientAndRemainder(start, alignment);
    if r == 0 {
      offset := start;
    } else {
      offset := alignment * (q + 1);
      assert offset == alignment * q + alignment;
      MultipleHasNoRemainder(alignment, q + 1);
    }
  }

  lemma MultipleHasNoRemainder(a: nat, q: nat)
    requires a > 0
    ensures a * q % a == 0
  {
    var p, r := QuotientAndRemainder(a * q, a);
    OneMultiple(a, p, r, q);
  }

  /** The plan ends where the arrays, laid out one behind the other, end. */
  lemma {:induction false} PlansExactly(total: nat, arrays: seq<Array>, counts: seq<nat>, end: nat)
    requires |arrays| == |counts| && Aligned(arrays)
    ensures PlanArrays(total, arrays, counts) == Some(end) <==>
              exists ends {:trigger LaidOut(arrays, counts, ends)} ::
                LaidOut(arrays, counts, ends) && ends[0] == total && ends[|arrays|] == end
    decreases |arrays|
  {
    if arrays == [] {
      assert LaidOut(arrays, counts, [total]);
    } else {
      assert arrays[0] in arrays && forall a :: a in arrays[1..] ==> a in arrays;
      var tail, rest := arrays[1..], counts[1..];
      var first := AppendArray(total, arrays[0].alignment, counts[0], arrays[0].width);
      if PlanArrays(total, arrays, counts) == Some(end) {
        PlansExactly(first.value.1, tail, rest, end);
        var ends :| LaidOut(tail, rest, ends) && ends[0] == first.value.1 && ends[|tail|] == end;
        FillsExactly(arrays[0].alignment, arrays[0].width, counts[0], total, first.value.1);
        LaidOutCons(arrays, counts, [total] + ends);
      }
      if ends :| LaidOut(arrays, counts, ends) && ends[0] == total && ends[|arrays|] == end {
        LaidOutCons(arrays, counts, ends);
        FillsExactly(arrays[0].alignment, arrays[0].width, counts[0], total, ends[1]);
        assert ends[1..][|tail|] == end && ends[1..][0] == ends[1];
        PlansExactly(ends[1], tail, rest, end);
      }
    }
  }

  lemma LaidOutCons(arrays: seq<Array>, counts: seq<nat>, ends: seq<nat>)
    requires |arrays| == |counts| > 0 && Aligned(arrays) && |ends| == |arrays| + 1
    ensures Aligned(arrays[1..])
    ensures LaidOut(arrays, counts, ends)
            <==> && Fills(arrays[0].alignment, arrays[0].width, counts[0], ends[0], ends[1])
                 && LaidOut(arrays[1..], counts[1..], ends[1..])
  {
    assert forall a :: a in arrays[1..] ==> a in arrays;
    var tail, rest, behind := arrays[1..], counts[1..], ends[1..];
    if LaidOut(arrays, counts, ends) {
      forall i | 0 <= i < |tail| ensures Fills(tail[i].alignment, tail[i].width, rest[i], behind[i], behind[i + 1]) {
        assert tail[i] == arrays[i + 1];
      }
    }
    if Fills(arrays[0].alignment, arrays[0].width, counts[0], ends[0], ends[1]) && LaidOut(tail, rest, behind) {
      forall i | 0 <= i < |arrays|
        ensures Fills(arrays[i].alignment, arrays[i].width, counts[i], ends[i], ends[i + 1])
      {
        if i > 0 {
          assert tail[i - 1] == arrays[i] && rest[i - 1] == counts[i];
          assert behind[i - 1] == ends[i] && behind[i] == ends[i + 1];
        }
      }
    }
  }

  // ----- Filling retained tables -----

  /** The first rows of a table. */
  ghost predicate Stored<R>(table: array<Row<R>>, rows: seq<Row<R>>)
    reads table
  {
    |rows| <= table.Length && table[..|rows|] == rows
  }

  lemma StoredAll<R>(table: array<Row<R>>, rows: seq<Row<R>>)
    requires Stored(table, rows) && |rows| == table.Length
    ensures table[..] == rows
  {
  }

  method Store<R>(table: array<Row<R>>, i: nat, row: Row<R>, ghost rows: seq<Row<R>>, retain: bool)
    requires |rows| == i && (retain ==> i < table.Length && Stored(table, rows))
    modifies table
    ensures retain ==> Stored(table, rows + [row])
  {
    if retain {
      table[i] := row;
    }
  }

  /** Why a two-pass creation stopped. */
  datatype Failure = ScanFailed(reason: Reason) | RetainedLimit | OutOfMemory | OutOfWork
}
