/** Lists of fixed-width little-endian words, as the registry writer emits and its reader takes them. */
module RegistryWords {
  import opened Bytes

  /** What is left of the input after one read, or nothing when the input is too short. */
  datatype Taken<+T> = Short | Taken(value: T, rest: seq<byte>)

  function TakeBytes(n: nat, s: seq<byte>): Taken<seq<byte>> {
    if |s| < n then Short else Taken(s[..n], s[n..])
  }

  function TakeWords(widths: seq<nat>, s: seq<byte>): Taken<seq<nat>> {
    if widths == [] then Taken([], s)
    else if |s| < widths[0] then Short
    else
      match TakeWords(widths[1..], s[widths[0]..])
      case Short => Short
      case Taken(words, rest) => Taken([FromLittleEndian(s[..widths[0]])] + words, rest)
  }

  function PutWords(widths: seq<nat>, words: seq<nat>): seq<byte>
    requires |widths| == |words|
  {
    if widths == [] then [] else ToLittleEndian(words[0], widths[0]) + PutWords(widths[1..], words[1..])
  }

  predicate Fit(widths: seq<nat>, words: seq<nat>) {
    |widths| == |words| && forall i {:trigger words[i]} :: 0 <= i < |widths| ==> words[i] < Pow256(widths[i])
  }

  lemma BytesRead(a: seq<byte>, rest: seq<byte>)
    ensures TakeBytes(|a|, a + rest) == Taken(a, rest)
  {
    Cut(a, rest);
  }

  lemma BytesPrintBack(n: nat, s: seq<byte>)
    requires TakeBytes(n, s).Taken?
    ensures s == TakeBytes(n, s).value + TakeBytes(n, s).rest && |TakeBytes(n, s).value| == n
  {
  }

  lemma {:induction false} WordsRead(widths: seq<nat>, words: seq<nat>, rest: seq<byte>)
    requires Fit(widths, words)
    ensures TakeWords(widths, PutWords(widths, words) + rest) == Taken(words, rest)
  {
    if widths == [] {
      assert PutWords(widths, words) + rest == rest;
    } else {
      var first, tail := ToLittleEndian(words[0], widths[0]), PutWords(widths[1..], words[1..]);
      assert Fit(widths[1..], words[1..]);
      WordsRead(widths[1..], words[1..], rest);
      Assoc(first, tail, rest);
      Cut(first, tail + rest);
      LittleEndianRoundTrip(words[0], widths[0]);
      assert words == [words[0]] + words[1..];
    }
  }

  lemma {:induction false} WordsPrintBack(widths: seq<nat>, s: seq<byte>)
    requires TakeWords(widths, s).Taken?
    ensures Fit(widths, TakeWords(widths, s).value)
    ensures s == PutWords(widths, TakeWords(widths, s).value) + TakeWords(widths, s).rest
  {
    if widths == [] {
      assert [] + s == s;
    } else {
      var w := widths[0];
      var r, words := TakeWords(widths[1..], s[w..]), TakeWords(widths, s).value;
      WordsPrintBack(widths[1..], s[w..]);
      LittleEndianIsUnique(s[..w]);
      assert words[1..] == r.value;
      assert s == s[..w] + s[w..];
      Assoc(s[..w], PutWords(widths[1..], r.value), r.rest);
      FitCons(widths, words);
    }
  }

  lemma FitCons(widths: seq<nat>, words: seq<nat>)
    requires widths != [] && words != [] && words[0] < Pow256(widths[0]) && Fit(widths[1..], words[1..])
    ensures Fit(widths, words)
  {
    forall i | 0 <= i < |widths| ensures words[i] < Pow256(widths[i]) {
      if i > 0 {
        assert words[i] == words[1..][i - 1] && widths[i] == widths[1..][i - 1];
      }
    }
  }
}
