/** Properties of all pairs of a list, and when they do not depend on its order. */
module Pairs {
  ghost predicate Pairwise<T(!new)>(s: seq<T>, related: (T, T) -> bool) {
    forall i, j :: 0 <= i < j < |s| ==> related(s[i], s[j])
  }

  ghost predicate Symmetric<T(!new)>(related: (T, T) -> bool) {
    forall a, b :: related(a, b) == related(b, a)
  }

  ghost predicate PairwiseIn<T(!new)>(m: multiset<T>, related: (T, T) -> bool) {
    forall a, b :: a in m && b in m && (a != b || m[a] >= 2) ==> related(a, b)
  }

  lemma TwiceMeansTwoPlaces<T(!new)>(s: seq<T>, a: T) returns (i: nat, j: nat)
    requires multiset(s)[a] >= 2
    ensures i < j < |s| && s[i] == a == s[j]
  {
    i :| 0 <= i < |s| && s[i] == a;
    var front, back := s[..i], s[i + 1..];
    assert s == front + [a] + back;
    assert multiset(s) == multiset(front) + multiset{a} + multiset(back);
    if a in front {
      j := i;
      i :| 0 <= i < |front| && front[i] == a;
    } else {
      assert a in multiset(back);
      var k :| 0 <= k < |back| && back[k] == a;
      j := i + 1 + k;
    }
  }

  lemma TwoPlacesMeanTwice<T(!new)>(s: seq<T>, i: nat, j: nat)
    requires i < j < |s| && s[i] == s[j]
    ensures multiset(s)[s[i]] >= 2
  {
    assert s == s[..j] + s[j..];
    assert s[i] in s[..j] && s[i] in s[j..];
    assert multiset(s) == multiset(s[..j]) + multiset(s[j..]);
    assert multiset(s[..j])[s[i]] >= 1 && multiset(s[j..])[s[i]] >= 1;
  }

  lemma PairwiseByContents<T(!new)>(s: seq<T>, related: (T, T) -> bool)
    requires Symmetric(related)
    ensures Pairwise(s, related) <==> PairwiseIn(multiset(s), related)
  {
    var m := multiset(s);
    if Pairwise(s, related) {
      forall a, b | a in m && b in m && (a != b || m[a] >= 2) ensures related(a, b) {
        if a == b {
          var i, j := TwiceMeansTwoPlaces(s, a);
        } else {
          var i :| 0 <= i < |s| && s[i] == a;
          var j :| 0 <= j < |s| && s[j] == b;
          assert if i < j then related(s[i], s[j]) else related(s[j], s[i]);
        }
      }
    }
    if PairwiseIn(m, related) {
      forall i, j | 0 <= i < j < |s| ensures related(s[i], s[j]) {
        if s[i] == s[j] {
          TwoPlacesMeanTwice(s, i, j);
        }
        assert s[i] in m && s[j] in m;
      }
    }
  }

  lemma OrderDoesNotMatter<T(!new)>(a: seq<T>, b: seq<T>, related: (T, T) -> bool)
    requires Symmetric(related) && multiset(a) == multiset(b)
    ensures Pairwise(a, related) <==> Pairwise(b, related)
  {
    PairwiseByContents(a, related);
    PairwiseByContents(b, related);
  }
}
