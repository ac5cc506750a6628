/** The sort-and-sweep check of an object table (`validate_object_table` of src/io/serialized_file.c).
    The two orders qsort leaves the record array in are parameters: each is any ordered permutation. */
module ObjectTable {
  import opened Bytes
  import opened Pairs

  datatype Record = Record(pathId: i64, byteOffset: u64, byteSize: u32)

  /** The stored end of a record, in 64-bit arithmetic. */
  function ByteEnd(r: Record): u64 {
    (r.byteOffset + r.byteSize) % 0x1_0000_0000_0000_0000
  }

  predicate InRange(r: Record) {
    r.byteOffset + r.byteSize < 0x1_0000_0000_0000_0000
  }

  // ----- What the check is for -----

  predicate DistinctIds(a: Record, b: Record) {
    a.pathId != b.pathId
  }

  /** No byte belongs to both ranges. */
  ghost predicate DisjointRanges(a: Record, b: Record) {
    forall x {:trigger Holds(a, x)} {:trigger Holds(b, x)} :: !(Holds(a, x) && Holds(b, x))
  }

  predicate Holds(r: Record, x: int) {
    r.byteOffset <= x < r.byteOffset + r.byteSize
  }

  ghost predicate ValidTable(objects: seq<Record>) {
    Pairwise(objects, DistinctIds) && forall i, j :: 0 <= i < j < |objects| ==> DisjointRanges(objects[i], objects[j])
  }

  /** Disjointness by endpoints, which is what the sweep looks at. */
  predicate Apart(a: Record, b: Record) {
    a.byteSize == 0 || b.byteSize == 0 || a.byteOffset + a.byteSize <= b.byteOffset
      || b.byteOffset + b.byteSize <= a.byteOffset
  }

  lemma ApartIsDisjoint(a: Record, b: Record)
    ensures Apart(a, b) <==> DisjointRanges(a, b)
  {
    if !Apart(a, b) {
      var x := if a.byteOffset < b.byteOffset then b.byteOffset else a.byteOffset;
      assert Holds(a, x) && Holds(b, x);
    }
  }

  // ----- The two orders -----

  predicate IdsAscend(s: seq<Record>) {
    forall i, j :: 0 <= i < j < |s| ==> s[i].pathId <= s[j].pathId
  }

  /** `compare_object_range` never goes down. */
  predicate NotAfter(a: Record, b: Record) {
    a.byteOffset < b.byteOffset || (a.byteOffset == b.byteOffset && ByteEnd(a) <= ByteEnd(b))
  }

  predicate RangesAscend(s: seq<Record>) {
    forall i, j :: 0 <= i < j < |s| ==> NotAfter(s[i], s[j])
  }

  predicate Permutes(s: seq<Record>, objects: seq<Record>) {
    multiset(s) == multiset(objects)
  }

  /** Neighbours decide whether an ordered list of identifiers has duplicates. */
  method NoNeighbourIds(byId: seq<Record>) returns (ok: bool)
    requires IdsAscend(byId)
    ensures ok <==> Pairwise(byId, DistinctIds)
  {
    var i := 1;
    while i < |byId|
      invariant 1 <= i && forall k, l :: 0 <= k < l < i && l < |byId| ==> byId[k].pathId < byId[l].pathId
    {
      if byId[i - 1].pathId == byId[i].pathId {
        assert !DistinctIds(byId[i - 1], byId[i]);
        return false;
      }
      assert byId[i - 1].pathId < byId[i].pathId;
      i := i + 1;
    }
    ok := true;
  }

  /** The sweep: every non-empty range must start at or after the end of the last non-empty one. */
  method Sweep(byRange: seq<Record>) returns (ok: bool)
    requires RangesAscend(byRange) && forall i {:trigger byRange[i]} :: 0 <= i < |byRange| ==> InRange(byRange[i])
    ensures ok <==> Pairwise(byRange, Apart)
  {
    var some, previousEnd: u64 := false, 0;
    ghost var last := 0;
    for i := 0 to |byRange|
      invariant some ==> last < i && byRange[last].byteSize > 0 && previousEnd == ByteEnd(byRange[last])
      invariant !some ==> forall k :: 0 <= k < i ==> byRange[k].byteSize == 0
      invariant forall k :: 0 <= k < i && byRange[k].byteSize > 0 ==>
        byRange[k].byteOffset + byRange[k].byteSize <= previousEnd
      invariant forall k, l :: 0 <= k < l < i ==> Apart(byRange[k], byRange[l])
    {
      var r := byRange[i];
      if r.byteSize == 0 {
        continue;
      }
      if some && r.byteOffset < previousEnd {
        assert NotAfter(byRange[last], r);
        assert !Apart(byRange[last], byRange[i]);
        return false;
      }
      previousEnd, some, last := ByteEnd(r), true, i;
    }
    ok := true;
  }

  /** `validate_object_table`: accepted exactly when all identifiers differ and no byte belongs to two objects. */
  method ValidateObjectTable(objects: seq<Record>, byId: seq<Record>, byRange: seq<Record>) returns (ok: bool)
    requires Permutes(byId, objects) && IdsAscend(byId)
    requires Permutes(byRange, objects) && RangesAscend(byRange)
    requires forall r {:trigger InRange(r)} :: r in objects ==> InRange(r)
    ensures ok <==> ValidTable(objects)
  {
    TableByContents(objects, byId, byRange);
    if |objects| < 2 {
      return true;
    }
    ok := NoNeighbourIds(byId);
    if !ok {
      return;
    }
    forall i | 0 <= i < |byRange| ensures InRange(byRange[i]) {
      assert byRange[i] in multiset(byRange) && byRange[i] in multiset(objects);
    }
    ok := Sweep(byRange);
  }

  lemma TableByContents(objects: seq<Record>, byId: seq<Record>, byRange: seq<Record>)
    requires Permutes(byId, objects) && Permutes(byRange, objects)
    ensures ValidTable(objects) <==> Pairwise(byId, DistinctIds) && Pairwise(byRange, Apart)
  {
    OrderDoesNotMatter(byId, objects, DistinctIds);
    OrderDoesNotMatter(byRange, objects, Apart);
    forall i, j | 0 <= i < j < |objects|
      ensures Apart(objects[i], objects[j]) <==> DisjointRanges(objects[i], objects[j]) {
      ApartIsDisjoint(objects[i], objects[j]);
    }
  }

  /** An illustration of the range premise: two records such as no directory admits, whose overlap a wrapped
      end would hide from the sweep. */
  lemma WrappedEndHidesOverlap()
    ensures var a, b := Record(1, 0xFFFF_FFFF_FFFF_FFF0, 0x20), Record(2, 0xFFFF_FFFF_FFFF_FFF8, 4);
            && RangesAscend([a, b]) && !InRange(a) && !DisjointRanges(a, b)
            && !(b.byteOffset < ByteEnd(a))
  {
    var a, b := Record(1, 0xFFFF_FFFF_FFFF_FFF0, 0x20), Record(2, 0xFFFF_FFFF_FFFF_FFF8, 4);
    assert Holds(a, 0xFFFF_FFFF_FFFF_FFF8) && Holds(b, 0xFFFF_FFFF_FFFF_FFF8);
  }
}
