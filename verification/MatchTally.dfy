/** Counting matches in one scan: how many, and where the first two are. */
module MatchTally {
  import opened Bytes

  datatype Tally = Tally(count: nat, first: Option<nat>, second: Option<nat>)

  /** The tally once one more item has been looked at. */
  function Count(t: Tally, ordinal: nat, matches: bool): Tally {
    if !matches then t
    else if t.count == 0 then Tally(1, Some(ordinal), t.second)
    else if t.count == 1 then Tally(2, t.first, Some(ordinal))
    else t.(count := t.count + 1)
  }

  function TallyOf(flags: seq<bool>): Tally {
    if flags == [] then Tally(0, None, None)
    else Count(TallyOf(flags[..|flags| - 1]), |flags| - 1, flags[|flags| - 1])
  }

  lemma NextFlag(flags: seq<bool>, i: nat)
    requires i < |flags|
    ensures TallyOf(flags[..i + 1]) == Count(TallyOf(flags[..i]), i, flags[i])
  {
    assert flags[..i + 1][..i] == flags[..i];
  }

  /** The first place is the least match and the second the next one; one match means no other. */
  lemma {:induction false} TallyMeans(flags: seq<bool>)
    ensures var t := TallyOf(flags);
            && (t.count == 0 <==> true !in flags)
            && (t.count > 0 ==>
                t.first.Some? && t.first.value < |flags| && flags[t.first.value]
                && true !in flags[..t.first.value])
            && (t.count == 1 <==> t.count > 0 && true !in flags[t.first.value + 1..])
            && (t.count > 1 ==>
                  && t.second.Some? && t.first.value < t.second.value < |flags| && flags[t.second.value]
                  && true !in flags[t.first.value + 1..t.second.value])
            && (t.count <= 1 ==> t.second == None) && (t.count == 0 ==> t.first == None)
  {
    if flags != [] {
      var front, n := flags[..|flags| - 1], |flags| - 1;
      TallyMeans(front);
      var t := TallyOf(front);
      assert flags == front + [flags[n]];
      if t.count > 0 {
        assert flags[..t.first.value] == front[..t.first.value];
        assert flags[t.first.value + 1..] == front[t.first.value + 1..] + [flags[n]];
        assert flags[t.first.value + 1..n] == front[t.first.value + 1..];
      }
      if t.count > 1 {
        assert flags[t.first.value + 1..t.second.value] == front[t.first.value + 1..t.second.value];
      } else if t.count == 0 && flags[n] {
        assert flags[..n] == front && flags[n + 1..] == [];
      }
    }
  }

  lemma NotInSlice(flags: seq<bool>, a: nat, b: nat, i: nat)
    requires a <= i < b <= |flags| && true !in flags[a..b]
    ensures !flags[i]
  {
    assert flags[a..b][i - a] == flags[i];
  }

  /** When there is one match, it is the first place. */
  lemma OnlyMatch(flags: seq<bool>, i: nat)
    requires TallyOf(flags).count == 1 && i < |flags|
    ensures TallyOf(flags).first.Some? && (flags[i] <==> i == TallyOf(flags).first.value)
  {
    TallyMeans(flags);
    var first := TallyOf(flags).first.value;
    if i < first {
      NotInSlice(flags, 0, first, i);
    } else if i > first {
      assert flags[first + 1..] == flags[first + 1..|flags|];
      NotInSlice(flags, first + 1, |flags|, i);
    }
  }
}
