/** Name requests: their radix order and the naive string resolution they must agree with. */
module SchemaNames {
  import opened Bytes

  const RADIX_PASSES: nat := 4
  const RADIX_BUCKETS: nat := 256
  const COMMON_BIT: nat := 0x8000_0000

  /** One string offset to resolve. Slot 2n is the type name of node n, slot 2n+1 its field name. */
  datatype NameRequest = NameRequest(encodedOffset: u32, slot: nat)

  // ----- Naive resolution (resolve_string_in_table of src/io/typetree.c) -----

  /** The string that starts at `offset`, if `offset` is a string start with a terminator. */
  function ResolveInTable(table: seq<byte>, offset: nat): Option<seq<byte>> {
    if offset >= |table| then None
    else if offset > 0 && table[offset - 1] != 0 then None
    else if offset + StrLen(table[offset..]) == |table| then None
    else Some(CText(table[offset..]))
  }

  predicate IsCommon(encoded: u32) {
    encoded >= COMMON_BIT
  }

  function TableOffset(encoded: u32): nat {
    if IsCommon(encoded) then encoded - COMMON_BIT else encoded
  }

  /** `typetree_resolve_string`: the high bit selects the common table. */
  function Resolve(local: seq<byte>, common: seq<byte>, encoded: u32): Option<seq<byte>> {
    ResolveInTable(if IsCommon(encoded) then common else local, TableOffset(encoded))
  }

  /** A terminator at `end - 1` with none before it in [start, end) resolves exactly the string start. */
  lemma ResolveInSegment(table: seq<byte>, start: nat, end: nat, offset: nat)
    requires start <= offset < end <= |table|
    requires start == 0 || table[start - 1] == 0
    requires forall k :: start <= k < end - 1 ==> table[k] != 0
    requires table[end - 1] == 0 || end == |table|
    ensures ResolveInTable(table, offset)
         == if offset == start && table[end - 1] == 0 then Some(table[start..end - 1]) else None
  {
    if offset == start {
      if table[end - 1] == 0 {
        StrLenIsFirstZero(table[start..], end - 1 - start);
        assert CText(table[start..]) == table[start..end - 1];
      } else {
        StrLenIsFirstZero(table[start..], |table| - start);
      }
    }
  }

  // ----- One stable counting pass -----

  /** `(x >> 8 * pass) & 0xff`. */
  function Digit(x: u32, pass: nat): (d: nat)
    requires pass < RADIX_PASSES
    ensures d < RADIX_BUCKETS
  {
    (match pass case 0 => x case 1 => x / 0x100 case 2 => x / 0x1_0000 case _ => x / 0x100_0000) % 0x100
  }

  /** The value of the digits below `pass`. */
  function Low(x: u32, pass: nat): nat
    requires pass <= RADIX_PASSES
  {
    match pass case 0 => 0 case 1 => x % 0x100 case 2 => x % 0x1_0000 case 3 => x % 0x100_0000 case _ => x
  }

  function Weight(pass: nat): nat {
    match pass case 0 => 1 case 1 => 0x100 case 2 => 0x1_0000 case _ => 0x100_0000
  }

  lemma SplitTwoBytes(x: u32)
    ensures x % 0x1_0000 == 0x100 * (x / 0x100 % 0x100) + x % 0x100
  {
    var q, r := x / 0x100, x % 0x100;
    assert x == 0x1_0000 * (q / 0x100) + (0x100 * (q % 0x100) + r);
  }

  lemma SplitThreeBytes(x: u32)
    ensures x % 0x100_0000 == 0x1_0000 * (x / 0x1_0000 % 0x100) + x % 0x1_0000
  {
    var q, r := x / 0x1_0000, x % 0x1_0000;
    assert x == 0x100_0000 * (q / 0x100) + (0x1_0000 * (q % 0x100) + r);
  }

  lemma LowSplits(x: u32, pass: nat)
    requires pass < RADIX_PASSES
    ensures Low(x, pass + 1) == Weight(pass) * Digit(x, pass) + Low(x, pass) && Low(x, pass) < Weight(pass)
  {
    if pass == 1 {
      SplitTwoBytes(x);
    } else if pass == 2 {
      SplitThreeBytes(x);
    }
  }

  lemma LowStep(x: u32, y: u32, pass: nat)
    requires pass < RADIX_PASSES
    ensures Digit(x, pass) < Digit(y, pass) ==> Low(x, pass + 1) < Low(y, pass + 1)
    ensures Digit(x, pass) == Digit(y, pass) ==>
              (Low(x, pass + 1) < Low(y, pass + 1) <==> Low(x, pass) < Low(y, pass))
              && (Low(x, pass + 1) == Low(y, pass + 1) <==> Low(x, pass) == Low(y, pass))
  {
    LowSplits(x, pass);
    LowSplits(y, pass);
    if Digit(x, pass) < Digit(y, pass) {
      WeightedOrder(Weight(pass), Digit(x, pass), Low(x, pass), Digit(y, pass), Low(y, pass));
    }
  }

  lemma WeightedOrder(w: nat, d: nat, r: nat, e: nat, t: nat)
    requires r < w && t < w && d < e
    ensures w * d + r < w * e + t
  {
    ProductIsMonotone(w, d + 1, e);
    assert w * (d + 1) == w * d + w;
  }

  /** The requests whose digit is `bucket`, in order. */
  function Filter(s: seq<NameRequest>, pass: nat, bucket: nat): seq<NameRequest>
    requires pass < RADIX_PASSES
  {
    if s == [] then []
    else
      var last := s[|s| - 1];
      Filter(s[..|s| - 1], pass, bucket) + (if Digit(last.encodedOffset, pass) == bucket then [last] else [])
  }

  /** The buckets below `buckets`, one after the other: the result of a stable pass. */
  function Gather(s: seq<NameRequest>, pass: nat, buckets: nat): seq<NameRequest>
    requires pass < RADIX_PASSES
  {
    if buckets == 0 then [] else Gather(s, pass, buckets - 1) + Filter(s, pass, buckets - 1)
  }

  /** (low digits, slot) increases strictly: sorted on the digits so far, ties in original order. */
  predicate Before(a: NameRequest, b: NameRequest, pass: nat)
    requires pass <= RADIX_PASSES
  {
    var x, y := Low(a.encodedOffset, pass), Low(b.encodedOffset, pass);
    x < y || (x == y && a.slot < b.slot)
  }

  predicate Ordered(s: seq<NameRequest>, pass: nat)
    requires pass <= RADIX_PASSES
  {
    forall i, j :: 0 <= i < j < |s| ==> Before(s[i], s[j], pass)
  }

  lemma {:induction false} FilterKeepsOrder(s: seq<NameRequest>, pass: nat, bucket: nat)
    requires pass < RADIX_PASSES && Ordered(s, pass)
    ensures Ordered(Filter(s, pass, bucket), pass)
    ensures forall r :: r in Filter(s, pass, bucket) <==> r in s && Digit(r.encodedOffset, pass) == bucket
  {
    if s != [] {
      var rest, last := s[..|s| - 1], s[|s| - 1];
      assert s == rest + [last];
      FilterKeepsOrder(rest, pass, bucket);
      forall r | r in Filter(rest, pass, bucket)
        ensures Before(r, last, pass)
      {
        var i :| 0 <= i < |rest| && rest[i] == r;
        assert Before(s[i], s[|s| - 1], pass);
      }
    }
  }

  /** A stable pass over requests ordered by the lower digits orders them by one digit more. */
  lemma {:induction false} GatherOrders(s: seq<NameRequest>, pass: nat, buckets: nat)
    requires pass < RADIX_PASSES && Ordered(s, pass)
    ensures Ordered(Gather(s, pass, buckets), pass + 1)
    ensures forall r :: r in Gather(s, pass, buckets) <==> r in s && Digit(r.encodedOffset, pass) < buckets
  {
    if buckets > 0 {
      var front, back := Gather(s, pass, buckets - 1), Filter(s, pass, buckets - 1);
      GatherOrders(s, pass, buckets - 1);
      FilterKeepsOrder(s, pass, buckets - 1);
      var all := front + back;
      forall i, j | 0 <= i < j < |all|
        ensures Before(all[i], all[j], pass + 1)
      {
        LowStep(all[i].encodedOffset, all[j].encodedOffset, pass);
        if |front| <= i {
          assert all[i] == back[i - |front|] && all[j] == back[j - |front|];
          assert all[i] in back && all[j] in back;
        } else if j < |front| {
          assert Before(front[i], front[j], pass + 1);
        } else {
          assert all[i] in front && all[j] in back;
        }
      }
    }
  }

  // ----- Sizes of buckets -----

  lemma {:induction false} FilterSizes(s: seq<NameRequest>, r: NameRequest, pass: nat, bucket: nat)
    requires pass < RADIX_PASSES
    ensures Filter(s + [r], pass, bucket)
         == Filter(s, pass, bucket) + (if Digit(r.encodedOffset, pass) == bucket then [r] else [])
  {
    assert (s + [r])[..|s|] == s;
  }

  lemma {:induction false} GatherSizeStep(s: seq<NameRequest>, r: NameRequest, pass: nat, buckets: nat)
    requires pass < RADIX_PASSES
    ensures |Gather(s + [r], pass, buckets)|
         == |Gather(s, pass, buckets)| + (if Digit(r.encodedOffset, pass) < buckets then 1 else 0)
  {
    if buckets > 0 {
      GatherSizeStep(s, r, pass, buckets - 1);
      FilterSizes(s, r, pass, buckets - 1);
    }
  }

  lemma {:induction false} GatherIsComplete(s: seq<NameRequest>, pass: nat)
    requires pass < RADIX_PASSES
    ensures |Gather(s, pass, RADIX_BUCKETS)| == |s|
  {
    if s == [] {
      GatherOfNothing(pass, RADIX_BUCKETS);
    } else {
      GatherIsComplete(s[..|s| - 1], pass);
      assert s == s[..|s| - 1] + [s[|s| - 1]];
      GatherSizeStep(s[..|s| - 1], s[|s| - 1], pass, RADIX_BUCKETS);
    }
  }

  lemma {:induction false} GatherOfNothing(pass: nat, buckets: nat)
    requires pass < RADIX_PASSES
    ensures Gather([], pass, buckets) == []
  {
    if buckets > 0 {
      GatherOfNothing(pass, buckets - 1);
    }
  }

  // ----- Counting, starting offsets and scattering -----

  lemma {:induction false} GatherGrows(s: seq<NameRequest>, pass: nat, b: nat, c: nat)
    requires pass < RADIX_PASSES && b <= c
    ensures |Gather(s, pass, b)| <= |Gather(s, pass, c)|
    ensures b < c ==> |Gather(s, pass, b)| + |Filter(s, pass, b)| <= |Gather(s, pass, c)|
  {
    if b < c {
      GatherGrows(s, pass, b, c - 1);
    }
  }

  lemma {:induction false} FilterOfPrefixIsShorter(s: seq<NameRequest>, n: nat, pass: nat, bucket: nat)
    requires pass < RADIX_PASSES && n <= |s|
    ensures |Filter(s[..n], pass, bucket)| <= |Filter(s, pass, bucket)|
  {
    if n == |s| {
      assert s[..n] == s;
    } else {
      assert s[..|s| - 1][..n] == s[..n];
      FilterOfPrefixIsShorter(s[..|s| - 1], n, pass, bucket);
    }
  }

  lemma FilterPrefixStep(s: seq<NameRequest>, n: nat, pass: nat, bucket: nat)
    requires pass < RADIX_PASSES && n < |s|
    ensures Filter(s[..n + 1], pass, bucket)
         == Filter(s[..n], pass, bucket) + (if Digit(s[n].encodedOffset, pass) == bucket then [s[n]] else [])
  {
    assert s[..n + 1] == s[..n] + [s[n]];
    FilterSizes(s[..n], s[n], pass, bucket);
  }

  /** Bucket `b` holds its requests among the first `n`, and `offset` is its next free position. */
  predicate BucketFilled(dest: seq<NameRequest>, offset: nat, s: seq<NameRequest>, n: nat, pass: nat, b: nat)
    requires pass < RADIX_PASSES && n <= |s|
  {
    var start := |Gather(s, pass, b)|;
    && offset == start + |Filter(s[..n], pass, b)| <= |dest|
    && dest[start..offset] == Filter(s[..n], pass, b)
  }

  predicate Scattered(dest: seq<NameRequest>, offsets: seq<nat>, s: seq<NameRequest>, n: nat, pass: nat)
    requires pass < RADIX_PASSES && n <= |s| && |offsets| == RADIX_BUCKETS
  {
    forall b :: 0 <= b < RADIX_BUCKETS ==> BucketFilled(dest, offsets[b], s, n, pass, b)
  }

  /** The position a request is scattered to is inside its own bucket's region. */
  lemma ScatterPosition(s: seq<NameRequest>, n: nat, pass: nat, b: nat)
    requires pass < RADIX_PASSES && n < |s| && b == Digit(s[n].encodedOffset, pass)
    ensures |Gather(s, pass, b)| + |Filter(s[..n], pass, b)| < |Gather(s, pass, b + 1)| <= |s|
  {
    FilterPrefixStep(s, n, pass, b);
    FilterOfPrefixIsShorter(s, n + 1, pass, b);
    GatherGrows(s, pass, b + 1, RADIX_BUCKETS);
    GatherIsComplete(s, pass);
  }

  lemma ScatterStep(dest: seq<NameRequest>, offsets: seq<nat>, s: seq<NameRequest>, n: nat, pass: nat)
    requires pass < RADIX_PASSES && n < |s| == |dest| && |offsets| == RADIX_BUCKETS
    requires Scattered(dest, offsets, s, n, pass)
    ensures var d := Digit(s[n].encodedOffset, pass);
            offsets[d] < |dest| && Scattered(dest[offsets[d] := s[n]], offsets[d := offsets[d] + 1], s, n + 1, pass)
  {
    var d := Digit(s[n].encodedOffset, pass);
    PlaceIsFree(dest, offsets, s, n, pass, d);
    var dest', offsets' := dest[offsets[d] := s[n]], offsets[d := offsets[d] + 1];
    forall b | 0 <= b < RADIX_BUCKETS
      ensures BucketFilled(dest', offsets'[b], s, n + 1, pass, b)
    {
      BucketStep(dest, offsets, s, n, pass, b, d);
    }
  }

  lemma PlaceIsFree(dest: seq<NameRequest>, offsets: seq<nat>, s: seq<NameRequest>, n: nat, pass: nat, d: nat)
    requires pass < RADIX_PASSES && n < |s| == |dest| && |offsets| == RADIX_BUCKETS
    requires Scattered(dest, offsets, s, n, pass) && d == Digit(s[n].encodedOffset, pass)
    ensures offsets[d] < |dest|
  {
    assert BucketFilled(dest, offsets[d], s, n, pass, d);
    ScatterPosition(s, n, pass, d);
  }

  lemma BucketStep(dest: seq<NameRequest>, offsets: seq<nat>, s: seq<NameRequest>, n: nat, pass: nat, b: nat, d: nat)
    requires pass < RADIX_PASSES && n < |s| == |dest| && |offsets| == RADIX_BUCKETS && b < RADIX_BUCKETS
    requires Scattered(dest, offsets, s, n, pass) && d == Digit(s[n].encodedOffset, pass) && offsets[d] < |dest|
    ensures BucketFilled(dest[offsets[d] := s[n]], offsets[d := offsets[d] + 1][b], s, n + 1, pass, b)
  {
    assert BucketFilled(dest, offsets[b], s, n, pass, b) && BucketFilled(dest, offsets[d], s, n, pass, d);
    if b == d {
      BucketTakes(dest, offsets[d], s, n, pass);
    } else {
      BucketsApart(s, n, pass, b, d);
      BucketStays(dest, offsets[b], offsets[d], s, n, pass, b);
    }
  }

  /** The bucket of a request holds one more of them. */
  lemma BucketTakes(dest: seq<NameRequest>, offset: nat, s: seq<NameRequest>, n: nat, pass: nat)
    requires pass < RADIX_PASSES && n < |s| == |dest|
    requires offset < |dest| && BucketFilled(dest, offset, s, n, pass, Digit(s[n].encodedOffset, pass))
    ensures BucketFilled(dest[offset := s[n]], offset + 1, s, n + 1, pass, Digit(s[n].encodedOffset, pass))
  {
    var d := Digit(s[n].encodedOffset, pass);
    var start := |Gather(s, pass, d)|;
    FilterPrefixStep(s, n, pass, d);
    assert dest[offset := s[n]][start..offset + 1] == dest[start..offset] + [s[n]];
  }

  /** Every other bucket lies apart from the position that is written. */
  lemma BucketsApart(s: seq<NameRequest>, n: nat, pass: nat, b: nat, d: nat)
    requires pass < RADIX_PASSES && n < |s| && b < RADIX_BUCKETS && b != d == Digit(s[n].encodedOffset, pass)
    ensures var at := |Gather(s, pass, d)| + |Filter(s[..n], pass, d)|;
            at < |Gather(s, pass, b)| || |Gather(s, pass, b)| + |Filter(s[..n], pass, b)| <= at
  {
    if b < d {
      FilterOfPrefixIsShorter(s, n, pass, b);
      GatherGrows(s, pass, b, d);
    } else {
      ScatterPosition(s, n, pass, d);
      GatherGrows(s, pass, d + 1, b);
    }
  }

  lemma BucketStays(dest: seq<NameRequest>, offset: nat, at: nat, s: seq<NameRequest>, n: nat, pass: nat, b: nat)
    requires pass < RADIX_PASSES && n < |s| && at < |dest| && b != Digit(s[n].encodedOffset, pass)
    requires BucketFilled(dest, offset, s, n, pass, b)
    requires at < |Gather(s, pass, b)| || offset <= at
    ensures BucketFilled(dest[at := s[n]], offset, s, n + 1, pass, b)
  {
    FilterPrefixStep(s, n, pass, b);
    var start := |Gather(s, pass, b)|;
    assert dest[at := s[n]][start..offset] == dest[start..offset];
  }

  lemma {:induction false} ScatteredIsGather(dest: seq<NameRequest>, offsets: seq<nat>, s: seq<NameRequest>, pass: nat,
                                             buckets: nat)
    requires pass < RADIX_PASSES && |s| == |dest| && |offsets| == RADIX_BUCKETS && buckets <= RADIX_BUCKETS
    requires Scattered(dest, offsets, s, |s|, pass)
    ensures |Gather(s, pass, buckets)| <= |dest| && dest[..|Gather(s, pass, buckets)|] == Gather(s, pass, buckets)
  {
    if buckets > 0 {
      ScatteredIsGather(dest, offsets, s, pass, buckets - 1);
      assert BucketFilled(dest, offsets[buckets - 1], s, |s|, pass, buckets - 1);
      assert s[..|s|] == s;
      var m, n := |Gather(s, pass, buckets - 1)|, |Gather(s, pass, buckets)|;
      assert dest[..n] == dest[..m] + dest[m..n];
    }
  }

  lemma EmptyScatter(dest: seq<NameRequest>, s: seq<NameRequest>, pass: nat, b: nat)
    requires pass < RADIX_PASSES && b < RADIX_BUCKETS && |dest| == |s|
    ensures BucketFilled(dest, |Gather(s, pass, b)|, s, 0, pass, b)
  {
    GatherGrows(s, pass, b, RADIX_BUCKETS);
    GatherIsComplete(s, pass);
    assert s[..0] == [];
  }
}
