/** Asking the reference index for an identity (src/io/serialized_file_reference_index.c). A row is its class
    name, namespace and assembly name without their terminators. */
module ReferenceIndex {
  import opened Bytes
  import opened MatchTally
  import opened ManagedRows
  import Managed

  type Names = seq<seq<byte>>

  datatype Limits = Limits(maxComponent: nat, maxKey: nat, maxWork: nat)

  datatype Status = Ok | ComponentLimit | KeyLimit | WorkLimit

  predicate ValidRows(rows: seq<Names>) {
    forall i {:trigger rows[i]} :: 0 <= i < |rows| ==> |rows[i]| == 3
  }

  function Flags(rows: seq<Names>, key: Names): (r: seq<bool>)
    ensures |r| == |rows|
  {
    seq(|rows|, i requires 0 <= i < |rows| => rows[i] == key)
  }

  /** One unit for each row and the work of comparing its names. */
  function ScanCost(rows: seq<Names>, key: Names): nat
    requires ValidRows(rows) && |key| == 3
  {
    if rows == [] then 0
    else
      assert rows[|rows| - 1] in rows && ValidRows(rows[..|rows| - 1]);
      ScanCost(rows[..|rows| - 1], key) + 1 + CompareNames(rows[|rows| - 1], key).cost
  }

  /** The scan and one unit before and after it. */
  function QueryCost(rows: seq<Names>, key: Names): nat
    requires ValidRows(rows) && |key| == 3
  {
    ScanCost(rows, key) + 2
  }

  predicate KeyFits(key: Names, limits: Limits)
    requires |key| == 3
  {
    && |key[0]| <= limits.maxComponent && |key[1]| <= limits.maxComponent && |key[2]| <= limits.maxComponent
    && |key[0]| + |key[1]| + |key[2]| <= limits.maxKey
  }

  method CheckKey(key: Names, limits: Limits) returns (status: Status)
    requires |key| == 3
    ensures status == Ok <==> KeyFits(key, limits)
    ensures status != WorkLimit
  {
    var size := 0;
    for component := 0 to 3
      invariant forall i {:trigger key[i]} :: 0 <= i < component ==> |key[i]| <= limits.maxComponent
      invariant size == (if component > 0 then |key[0]| else 0) + (if component > 1 then |key[1]| else 0)
                        + (if component > 2 then |key[2]| else 0)
      invariant size <= limits.maxKey
    {
      if |key[component]| > limits.maxComponent {
        return ComponentLimit;
      }
      if |key[component]| > limits.maxKey - size {
        return KeyLimit;
      }
      size := size + |key[component]|;
    }
    status := Ok;
  }

  /** `query_row`: a length for one unit, equal bytes for their length. */
  method QueryRow(names: Names, key: Names, maxWork: nat, work: nat) returns (ok: bool, equal: bool, spent: nat)
    requires |names| == |key| == 3 && work <= maxWork
    ensures ok == (work + CompareNames(names, key).cost <= maxWork) && work <= spent <= maxWork
    ensures ok ==> equal == (names == key) && spent == work + CompareNames(names, key).cost
  {
    spent := work;
    ghost var verdict := CompareNames(names, key);
    assert names[0..] == names && key[0..] == key;
    for component := 0 to 3
      invariant work <= spent <= maxWork
        && spent + CompareNames(names[component..], key[component..]).cost == work + verdict.cost
      invariant CompareNames(names[component..], key[component..]).same == verdict.same
    {
      assert names[component..][1..] == names[component + 1..] && key[component..][1..] == key[component + 1..];
      if 1 > maxWork - spent {
        return false, false, spent;
      }
      spent := spent + 1;
      if |names[component]| != |key[component]| {
        return true, false, spent;
      }
      if |names[component]| > maxWork - spent {
        return false, false, spent;
      }
      spent := spent + |names[component]|;
      if names[component] != key[component] {
        return true, false, spent;
      }
    }
    return true, true, spent;
  }

  /** `serialized_file_reference_index_query`: within its limits, exactly how many rows equal the key and where the
      first two are, at exactly the announced cost. */
  method QueryIndex(rows: seq<Names>, key: Names, limits: Limits) returns (status: Status, t: Tally, work: nat)
    requires ValidRows(rows) && |key| == 3
    ensures status == Ok <==> KeyFits(key, limits) && QueryCost(rows, key) <= limits.maxWork
    ensures status == Ok ==> t == TallyOf(Flags(rows, key)) && work == QueryCost(rows, key)
    ensures work <= limits.maxWork
  {
    t, work := Tally(0, None, None), 0;
    if limits.maxWork < 1 {
      return WorkLimit, t, work;
    }
    work := 1;
    status := CheckKey(key, limits);
    if status != Ok {
      return;
    }
    ghost var flags := Flags(rows, key);
    assert rows[..0] == [] && flags[..0] == [];
    for ordinal := 0 to |rows|
      invariant work == 1 + ScanCost(rows[..ordinal], key) && work <= limits.maxWork && t == TallyOf(flags[..ordinal])
    {
      assert rows[..ordinal + 1][..ordinal] == rows[..ordinal];
      CostGrows(rows, ordinal + 1, key);
      NextFlag(flags, ordinal);
      if 1 > limits.maxWork - work {
        return WorkLimit, t, work;
      }
      work := work + 1;
      var ok, equal;
      ok, equal, work := QueryRow(rows[ordinal], key, limits.maxWork, work);
      if !ok {
        return WorkLimit, t, work;
      }
      t := Count(t, ordinal, equal);
    }
    assert rows[..|rows|] == rows && flags[..|rows|] == flags;
    if 1 > limits.maxWork - work {
      return WorkLimit, t, work;
    }
    work := work + 1;
  }

  lemma {:induction false} CostGrows(rows: seq<Names>, n: nat, key: Names)
    requires ValidRows(rows) && |key| == 3 && n <= |rows|
    ensures ValidRows(rows[..n]) && ScanCost(rows[..n], key) <= ScanCost(rows, key)
    decreases |rows|
  {
    if n == |rows| {
      assert rows[..n] == rows;
    } else {
      var front := rows[..|rows| - 1];
      assert front[..n] == rows[..n];
      CostGrows(front, n, key);
    }
  }

  /** The match the managed reader acts on. */
  function MatchOf(t: Tally): Managed.Match {
    if t.count == 0 || t.first.None? then Managed.Missing
    else if t.count == 1 then Managed.Unique(t.first.value)
    else Managed.Ambiguous
  }

  /** A unique match is the one row with the key's names; a missing match means there is none. */
  lemma MatchIsExact(rows: seq<Names>, key: Names, ordinal: nat)
    ensures MatchOf(TallyOf(Flags(rows, key))) == Managed.Unique(ordinal) <==>
              ordinal < |rows| && rows[ordinal] == key && forall i {:trigger rows[i]} ::
                0 <= i < |rows| && rows[i] == key ==> i == ordinal
    ensures MatchOf(TallyOf(Flags(rows, key))).Missing? <==> key !in rows
  {
    var flags := Flags(rows, key);
    var t := TallyOf(flags);
    TallyMeans(flags);
    forall i: nat | i < |rows| ensures rows[i] == key <==> flags[i] {
    }
    assert key in rows <==> true in flags by {
      if key in rows {
        var i :| 0 <= i < |rows| && rows[i] == key;
        assert flags[i];
      }
    }
    if t.count > 0 {
      var first := t.first.value;
      if t.count == 1 {
        forall i: nat | i < |rows| ensures rows[i] == key ==> i == first {
          OnlyMatch(flags, i);
        }
      }
    }
  }
}
