/** The bytewise order of strings: memcmp on the common length, strcmp on C strings. */
module ByteOrder {
  import opened Bytes

  function CompareInt(a: int, b: int): (r: int) {
    if a < b then -1 else if a > b then 1 else 0
  }

  /** memcmp over the common length, then the shorter string first. */
  function CompareBytes(a: seq<byte>, b: seq<byte>): int {
    if a == [] || b == [] then CompareInt(|a|, |b|)
    else if a[0] != b[0] then CompareInt(a[0] as int, b[0] as int)
    else CompareBytes(a[1..], b[1..])
  }

  lemma {:induction false} BytesTotal(a: seq<byte>, b: seq<byte>)
    ensures CompareBytes(a, b) == 0 <==> a == b
    ensures CompareBytes(a, b) == -CompareBytes(b, a)
  {
    if a != [] && b != [] {
      BytesTotal(a[1..], b[1..]);
      assert a == [a[0]] + a[1..] && b == [b[0]] + b[1..];
    }
  }

  lemma {:induction false} BytesTransitive(a: seq<byte>, b: seq<byte>, c: seq<byte>)
    requires CompareBytes(a, b) <= 0 && CompareBytes(b, c) <= 0
    ensures CompareBytes(a, c) <= 0
    ensures CompareBytes(a, b) < 0 || CompareBytes(b, c) < 0 ==> CompareBytes(a, c) < 0
  {
    if a != [] && b != [] && c != [] && a[0] == b[0] == c[0] {
      BytesTransitive(a[1..], b[1..], c[1..]);
    }
  }

  lemma TotalAt(a: seq<byte>, b: seq<byte>, c: seq<byte>)
    ensures CompareBytes(a, b) <= 0 && CompareBytes(b, c) <= 0 ==> CompareBytes(a, c) <= 0
    ensures CompareBytes(a, b) <= 0 && CompareBytes(b, c) < 0 ==> CompareBytes(a, c) < 0
    ensures CompareBytes(a, b) < 0 && CompareBytes(b, c) <= 0 ==> CompareBytes(a, c) < 0
  {
    if CompareBytes(a, b) <= 0 && CompareBytes(b, c) <= 0 {
      BytesTransitive(a, b, c);
    }
  }

  // ----- What the order is -----

  /** At the first place where they differ, `a` has ended or has the smaller byte. */
  ghost predicate Precedes(a: seq<byte>, b: seq<byte>) {
    exists k {:trigger FirstSmaller(a, b, k)} :: FirstSmaller(a, b, k)
  }

  predicate FirstSmaller(a: seq<byte>, b: seq<byte>, k: nat) {
    && k <= |a| && k < |b| && a[..k] == b[..k]
    && (k < |a| ==> a[k] < b[k])
  }

  lemma {:induction false} ComparedIsFirstSmaller(a: seq<byte>, b: seq<byte>) returns (k: nat)
    requires CompareBytes(a, b) < 0
    ensures FirstSmaller(a, b, k)
  {
    if a == [] || a[0] != b[0] {
      k := 0;
    } else {
      k := ComparedIsFirstSmaller(a[1..], b[1..]);
      assert a[..k + 1] == [a[0]] + a[1..][..k] && b[..k + 1] == [b[0]] + b[1..][..k];
      k := k + 1;
    }
  }

  lemma {:induction false} FirstSmallerCompares(a: seq<byte>, b: seq<byte>, k: nat)
    requires FirstSmaller(a, b, k)
    ensures CompareBytes(a, b) < 0
    decreases k
  {
    if k > 0 {
      assert a[0] == a[..k][0] == b[..k][0] == b[0];
      assert a[1..][..k - 1] == a[..k][1..] && b[1..][..k - 1] == b[..k][1..];
      FirstSmallerCompares(a[1..], b[1..], k - 1);
    }
  }

  /** A comparison is negative exactly when the first string precedes the second. */
  lemma ComparesAsPrecedes(a: seq<byte>, b: seq<byte>)
    ensures CompareBytes(a, b) < 0 <==> Precedes(a, b)
    ensures CompareBytes(a, b) > 0 <==> Precedes(b, a)
  {
    BytesTotal(a, b);
    OneWay(a, b);
    OneWay(b, a);
  }

  lemma OneWay(a: seq<byte>, b: seq<byte>)
    ensures CompareBytes(a, b) < 0 <==> Precedes(a, b)
  {
    if CompareBytes(a, b) < 0 {
      var k := ComparedIsFirstSmaller(a, b);
    }
    if k :| FirstSmaller(a, b, k) {
      FirstSmallerCompares(a, b, k);
    }
  }
}
