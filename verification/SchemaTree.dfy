/** What the links of a compiled schema mean: the preorder tree written as a list of levels. */
module SchemaTree {
  import opened Bytes

  /** SIZE_MAX marks an absent parent, child or sibling. */
  const ABSENT: nat := SIZE_MAX

  predicate LegalAt(levels: seq<nat>, i: nat)
    requires i < |levels|
  {
    if i == 0 then levels[0] == 0 else 1 <= levels[i] <= levels[i - 1] + 1
  }

  predicate LegalPrefix(levels: seq<nat>, n: nat) {
    n <= |levels| && forall i :: 0 <= i < n ==> LegalAt(levels, i)
  }

  /** One level-0 root and no jump upward by more than one. */
  predicate Legal(levels: seq<nat>) {
    LegalPrefix(levels, |levels|)
  }

  /** The naive definition of `subtree_end` in src/io/typetree.c, cut off at `n`. */
  function ScanEnd(levels: seq<nat>, level: nat, end: nat, n: nat): (r: nat)
    requires end <= n <= |levels|
    ensures end <= r <= n
    decreases n - end
  {
    if end < n && levels[end] > level then ScanEnd(levels, level, end + 1, n) else end
  }

  function EndWithin(levels: seq<nat>, i: nat, n: nat): (r: nat)
    requires i < n <= |levels|
    ensures i < r <= n
  {
    ScanEnd(levels, levels[i], i + 1, n)
  }

  function SubtreeEnd(levels: seq<nat>, i: nat): (r: nat)
    requires i < |levels|
    ensures i < r <= |levels|
  {
    EndWithin(levels, i, |levels|)
  }

  /** The nearest node before `n` whose level is at most `level`. */
  function LastAtMost(levels: seq<nat>, n: nat, level: nat): (r: nat)
    requires n <= |levels|
    ensures r == ABSENT || r < n
  {
    if n == 0 then ABSENT
    else if levels[n - 1] <= level then n - 1
    else LastAtMost(levels, n - 1, level)
  }

  function Parent(levels: seq<nat>, i: nat): (r: nat)
    requires i < |levels|
    ensures r == ABSENT || r < i
  {
    if levels[i] == 0 then ABSENT else LastAtMost(levels, i, levels[i] - 1)
  }

  function FirstWithin(levels: seq<nat>, i: nat, n: nat): nat
    requires i < n <= |levels|
  {
    if i + 1 < n && levels[i + 1] > levels[i] then i + 1 else ABSENT
  }

  function NextWithin(levels: seq<nat>, i: nat, n: nat): nat
    requires i < n <= |levels|
  {
    var e := EndWithin(levels, i, n);
    if e < n && levels[e] == levels[i] then e else ABSENT
  }

  function CountWithin(levels: seq<nat>, i: nat, n: nat): nat
    requires i < n <= |levels|
    decreases n
  {
    if n == i + 1 then 0
    else CountWithin(levels, i, n - 1) + (if Parent(levels, n - 1) == i then 1 else 0)
  }

  /** The five relationship fields of a node. */
  datatype Links = Links(parent: nat, firstChild: nat, nextSibling: nat, childCount: nat, subtreeEnd: nat)

  /** The links of node `i` once nodes [0, n) have been linked and no subtree reaching `n` is closed. */
  function LinksWithin(levels: seq<nat>, i: nat, n: nat): Links
    requires i < n <= |levels|
  {
    var e := EndWithin(levels, i, n);
    Links(Parent(levels, i), FirstWithin(levels, i, n), NextWithin(levels, i, n), CountWithin(levels, i, n),
          if e < n then e else 0)
  }

  function LinksOf(levels: seq<nat>, i: nat): Links
    requires i < |levels|
  {
    LinksWithin(levels, i, |levels|).(subtreeEnd := SubtreeEnd(levels, i))
  }

  // ----- Steps of the definitions, one node at a time -----

  lemma {:induction false} ScanEndStep(levels: seq<nat>, level: nat, end: nat, n: nat)
    requires end <= n < |levels|
    ensures var e := ScanEnd(levels, level, end, n);
            ScanEnd(levels, level, end, n + 1) == if e < n then e else if levels[n] > level then n + 1 else n
    decreases n - end
  {
    if end < n && levels[end] > level {
      ScanEndStep(levels, level, end + 1, n);
    }
  }

  lemma {:induction false} ScanEndIsFirstStop(levels: seq<nat>, level: nat, end: nat, n: nat)
    requires end <= n <= |levels|
    ensures var e := ScanEnd(levels, level, end, n);
            && (forall k :: end <= k < e ==> levels[k] > level)
            && (e < n ==> levels[e] <= level)
    decreases n - end
  {
    if end < n && levels[end] > level {
      ScanEndIsFirstStop(levels, level, end + 1, n);
    }
  }

  lemma {:induction false} LastAtMostIsLast(levels: seq<nat>, n: nat, level: nat)
    requires n <= |levels| <= SIZE_MAX
    ensures var r := LastAtMost(levels, n, level);
            && (r != ABSENT ==> levels[r] <= level && forall k :: r < k < n ==> levels[k] > level)
            && (r == ABSENT ==> forall k :: 0 <= k < n ==> levels[k] > level)
  {
    if n > 0 && levels[n - 1] > level {
      LastAtMostIsLast(levels, n - 1, level);
    }
  }

  /** A node is open at `n` exactly when it is the current ancestor of its own level. */
  lemma OpenIsAncestor(levels: seq<nat>, i: nat, n: nat)
    requires i < n <= |levels| <= SIZE_MAX
    ensures EndWithin(levels, i, n) == n <==> LastAtMost(levels, n, levels[i]) == i
    ensures EndWithin(levels, i, n) == n ==> levels[i] <= levels[n - 1]
  {
    ScanEndIsFirstStop(levels, levels[i], i + 1, n);
    LastAtMostIsLast(levels, n, levels[i]);
  }

  /** In a legal list the level just below the last node is where the ancestor of each level sits. */
  lemma {:induction false} AncestorHasItsLevel(levels: seq<nat>, n: nat, level: nat)
    requires LegalPrefix(levels, n) && 0 < n <= |levels| <= SIZE_MAX && level <= levels[n - 1]
    ensures var r := LastAtMost(levels, n, level); r != ABSENT && levels[r] == level
  {
    if levels[n - 1] > level {
      assert LegalAt(levels, n - 1);
      AncestorHasItsLevel(levels, n - 1, level);
    }
  }

  /** The previous child of the parent of node `n`: the ancestor at the level of `n` itself. */
  function PreviousChild(levels: seq<nat>, n: nat): nat
    requires 0 < n < |levels|
  {
    if levels[n] <= levels[n - 1] then LastAtMost(levels, n, levels[n]) else ABSENT
  }

  /** Linking node `n` updates its parent, its previous sibling, and the ends of the subtrees it closes. */
  lemma LinkStep(levels: seq<nat>, i: nat, n: nat)
    requires i < n < |levels| <= SIZE_MAX && LegalPrefix(levels, n + 1)
    ensures var before := LinksWithin(levels, i, n);
            var p, c := Parent(levels, n), PreviousChild(levels, n);
            var closes := EndWithin(levels, i, n) == n && levels[n] <= levels[i];
            LinksWithin(levels, i, n + 1) == Links(
              before.parent,
              if i == p && c == ABSENT then n else before.firstChild,
              if i == c then n else before.nextSibling,
              before.childCount + (if i == p then 1 else 0),
              if closes then n else before.subtreeEnd)
  {
    assert LegalAt(levels, n);
    var p, c := Parent(levels, n), PreviousChild(levels, n);
    ScanEndStep(levels, levels[i], i + 1, n);
    OpenIsAncestor(levels, i, n);
    AncestorHasItsLevel(levels, n, levels[n] - 1);
    LastAtMostIsLast(levels, n, levels[n] - 1);
    if levels[n] <= levels[n - 1] {
      AncestorHasItsLevel(levels, n, levels[n]);
      OpenIsAncestor(levels, c, n);
    }
  }

  /** The links at `n` when the open subtrees of level `active` and above are already closed. */
  function PartlyClosed(levels: seq<nat>, i: nat, n: nat, active: nat): Links
    requires i < n <= |levels|
  {
    var links := LinksWithin(levels, i, n);
    if EndWithin(levels, i, n) == n && levels[i] >= active then links.(subtreeEnd := n) else links
  }

  /** Closing the ancestor at level `a` changes the end of that one node. */
  lemma CloseStep(levels: seq<nat>, i: nat, n: nat, a: nat)
    requires i < n <= |levels| <= SIZE_MAX && LegalPrefix(levels, n) && a <= levels[n - 1]
    ensures PartlyClosed(levels, i, n, a)
         == if i == LastAtMost(levels, n, a) then PartlyClosed(levels, i, n, a + 1).(subtreeEnd := n)
            else PartlyClosed(levels, i, n, a + 1)
  {
    OpenIsAncestor(levels, i, n);
    AncestorHasItsLevel(levels, n, a);
  }

  /** The links of node `i` after node `n` is hooked under `p`, behind the previous child `c`. */
  function Hooked(before: Links, i: nat, p: nat, c: nat, n: nat): Links {
    Links(before.parent,
          if i == p && c == ABSENT then n else before.firstChild,
          if i == c then n else before.nextSibling,
          before.childCount + (if i == p then 1 else 0),
          before.subtreeEnd)
  }

  lemma PreviousChildFollowsParent(levels: seq<nat>, n: nat)
    requires 0 < n < |levels| <= SIZE_MAX && LegalPrefix(levels, n + 1)
    ensures var p, c := Parent(levels, n), PreviousChild(levels, n);
            p < n && (c == ABSENT || p < c < n)
  {
    assert LegalAt(levels, n);
    AncestorHasItsLevel(levels, n, levels[n] - 1);
    LastAtMostIsLast(levels, n, levels[n] - 1);
    if levels[n] <= levels[n - 1] {
      AncestorHasItsLevel(levels, n, levels[n]);
      LastAtMostIsLast(levels, n, levels[n]);
    }
  }

  /** Before node `n` is linked, the closed nodes are those it closes. */
  lemma LinkAfterClosing(levels: seq<nat>, i: nat, n: nat)
    requires i < n < |levels| <= SIZE_MAX && LegalPrefix(levels, n + 1)
    ensures var before := PartlyClosed(levels, i, n, levels[n]);
            var p, c := Parent(levels, n), PreviousChild(levels, n);
            LinksWithin(levels, i, n + 1) == Hooked(before, i, p, c, n)
  {
    LinkStep(levels, i, n);
  }

  /** A new node has no children yet and its subtree is open. */
  lemma NewLinks(levels: seq<nat>, n: nat)
    requires n < |levels|
    ensures LinksWithin(levels, n, n + 1) == Links(Parent(levels, n), ABSENT, ABSENT, 0, 0)
  {
  }

  // ----- What the links mean -----

  /** The parent is the nearest earlier node one level up, and its subtree holds the child. */
  lemma ParentIsNearestOneLevelUp(levels: seq<nat>, i: nat)
    requires Legal(levels) && 0 < i < |levels| <= SIZE_MAX
    ensures var p := Parent(levels, i);
            && p < i < SubtreeEnd(levels, p) && levels[p] == levels[i] - 1
            && forall k :: p < k < i ==> levels[k] >= levels[i]
  {
    assert LegalAt(levels, i);
    var p := Parent(levels, i);
    AncestorHasItsLevel(levels, i, levels[i] - 1);
    LastAtMostIsLast(levels, i, levels[i] - 1);
    ScanEndIsFirstStop(levels, levels[p], p + 1, |levels|);
  }

  /** Subtree intervals are nested or disjoint. */
  lemma SubtreesAreLaminar(levels: seq<nat>, i: nat, j: nat)
    requires i < j < |levels|
    ensures SubtreeEnd(levels, j) <= SubtreeEnd(levels, i) || SubtreeEnd(levels, i) <= j
  {
    ScanEndIsFirstStop(levels, levels[i], i + 1, |levels|);
    ScanEndIsFirstStop(levels, levels[j], j + 1, |levels|);
  }

  /** The direct children of `p` among [from, |levels|), in order. */
  function ChildrenFrom(levels: seq<nat>, p: nat, from: nat): seq<nat>
    requires p < from <= |levels|
    decreases |levels| - from
  {
    if from == |levels| then []
    else if Parent(levels, from) == p then [from] + ChildrenFrom(levels, p, from + 1)
    else ChildrenFrom(levels, p, from + 1)
  }

  /** Following `nextSibling` links from node `c`. */
  function Chain(levels: seq<nat>, c: nat): seq<nat>
    requires c == ABSENT || c < |levels|
    decreases if c == ABSENT then 0 else |levels| + 1 - c
  {
    if c == ABSENT || c >= |levels| then []
    else [c] + Chain(levels, LinksOf(levels, c).nextSibling)
  }

  lemma {:induction false} NoChildrenBetween(levels: seq<nat>, p: nat, from: nat, until: nat)
    requires p < from <= until <= |levels|
    requires forall k :: from <= k < until ==> Parent(levels, k) != p
    ensures ChildrenFrom(levels, p, from) == ChildrenFrom(levels, p, until)
    decreases until - from
  {
    if from < until {
      NoChildrenBetween(levels, p, from + 1, until);
    }
  }

  /** Between a node and the end of its subtree there is no child of anything outside it. */
  lemma InnerNodesHaveInnerParents(levels: seq<nat>, c: nat, k: nat)
    requires Legal(levels) && c < |levels| <= SIZE_MAX && c < k < SubtreeEnd(levels, c)
    ensures c <= Parent(levels, k) < k
  {
    ScanEndIsFirstStop(levels, levels[c], c + 1, |levels|);
    assert levels[k] > levels[c];
    LastAtMostIsLast(levels, k, levels[k] - 1);
    ParentIsNearestOneLevelUp(levels, k);
  }

  lemma NodesAfterSubtreeAreNotChildren(levels: seq<nat>, p: nat, k: nat)
    requires Legal(levels) && p < |levels| <= SIZE_MAX && SubtreeEnd(levels, p) <= k < |levels|
    ensures Parent(levels, k) != p
  {
    ParentIsNearestOneLevelUp(levels, k);
    var e := SubtreeEnd(levels, p);
    ScanEndIsFirstStop(levels, levels[p], p + 1, |levels|);
    assert levels[e] <= levels[p];
  }

  /** No child of `p` lies inside the subtree of a child `c`. */
  lemma ChildrenSkipSubtree(levels: seq<nat>, p: nat, c: nat)
    requires Legal(levels) && |levels| <= SIZE_MAX && p < c < |levels|
    ensures ChildrenFrom(levels, p, c + 1) == ChildrenFrom(levels, p, SubtreeEnd(levels, c))
  {
    var e := SubtreeEnd(levels, c);
    forall k | c < k < e
      ensures Parent(levels, k) != p
    {
      InnerNodesHaveInnerParents(levels, c, k);
    }
    NoChildrenBetween(levels, p, c + 1, e);
  }

  /** When the subtree of child `c` is not followed by a sibling, the parent's subtree ends there too. */
  lemma LastChildEndsTheParent(levels: seq<nat>, p: nat, c: nat)
    requires Legal(levels) && |levels| <= SIZE_MAX && p < c < |levels| && Parent(levels, c) == p
    requires NextWithin(levels, c, |levels|) == ABSENT
    ensures ChildrenFrom(levels, p, SubtreeEnd(levels, c)) == []
  {
    var e := SubtreeEnd(levels, c);
    ScanEndIsFirstStop(levels, levels[c], c + 1, |levels|);
    ScanEndIsFirstStop(levels, levels[p], p + 1, |levels|);
    ParentIsNearestOneLevelUp(levels, c);
    SubtreesAreLaminar(levels, p, c);
    forall k | e <= k < |levels|
      ensures Parent(levels, k) != p
    {
      NodesAfterSubtreeAreNotChildren(levels, p, k);
    }
    NoChildrenBetween(levels, p, e, |levels|);
  }

  lemma {:induction false} SiblingChainFrom(levels: seq<nat>, p: nat, c: nat)
    requires Legal(levels) && |levels| <= SIZE_MAX && p < c < |levels| && Parent(levels, c) == p
    ensures Chain(levels, c) == ChildrenFrom(levels, p, c)
    decreases |levels| - c
  {
    assert LegalAt(levels, c);
    ChildrenSkipSubtree(levels, p, c);
    var next := LinksOf(levels, c).nextSibling;
    if next == ABSENT {
      LastChildEndsTheParent(levels, p, c);
    } else {
      NextHasSameParent(levels, c);
      SiblingChainFrom(levels, p, next);
    }
  }

  lemma NextHasSameParent(levels: seq<nat>, c: nat)
    requires Legal(levels) && |levels| <= SIZE_MAX && 0 < c < |levels|
    requires SubtreeEnd(levels, c) < |levels| && levels[SubtreeEnd(levels, c)] == levels[c]
    ensures Parent(levels, SubtreeEnd(levels, c)) == Parent(levels, c)
  {
    var e := SubtreeEnd(levels, c);
    ScanEndIsFirstStop(levels, levels[c], c + 1, |levels|);
    ParentIsNearestOneLevelUp(levels, c);
    ParentIsNearestOneLevelUp(levels, e);
    var p, q := Parent(levels, c), Parent(levels, e);
    assert levels[p] == levels[q] < levels[c] == levels[e];
    assert forall k :: c < k < e ==> levels[k] > levels[c];
    assert forall k :: p < k < c ==> levels[k] >= levels[c];
    assert forall k :: q < k < e ==> levels[k] >= levels[e];
  }

  lemma {:induction false} ChildCountIsCount(levels: seq<nat>, p: nat, from: nat)
    requires p < from <= |levels|
    ensures CountWithin(levels, p, |levels|) == CountWithin(levels, p, from) + |ChildrenFrom(levels, p, from)|
    decreases |levels| - from
  {
    if from < |levels| {
      ChildCountIsCount(levels, p, from + 1);
    }
  }

  /** The sibling chain of a node enumerates exactly its `childCount` direct children in order. */
  lemma SiblingChainIsChildren(levels: seq<nat>, p: nat)
    requires Legal(levels) && p < |levels| <= SIZE_MAX
    ensures var links := LinksOf(levels, p);
            && Chain(levels, links.firstChild) == ChildrenFrom(levels, p, p + 1)
            && links.childCount == |ChildrenFrom(levels, p, p + 1)|
  {
    ChildCountIsCount(levels, p, p + 1);
    if p + 1 < |levels| && levels[p + 1] > levels[p] {
      assert Parent(levels, p + 1) == p;
      SiblingChainFrom(levels, p, p + 1);
    } else {
      forall k | p < k < |levels|
        ensures Parent(levels, k) != p
      {
        assert SubtreeEnd(levels, p) == p + 1;
        NodesAfterSubtreeAreNotChildren(levels, p, k);
      }
      NoChildrenBetween(levels, p, p + 1, |levels|);
    }
  }
}
