/** The open-addressing path index of src/common/path_discovery.c. Slot 0 means empty; an entry index is
    stored plus one. Capacities are 16 doubled, so masking with capacity - 1 is the remainder,
    and the slot after the last one is the first. */
module PathIndex {
  import opened Bytes

  type Path = seq<byte>

  const FIRST_CAPACITY: nat := 16

  // ----- Probing -----

  function Next(slot: nat, capacity: nat): (r: nat)
    requires slot < capacity
    ensures r < capacity
  {
    if slot + 1 == capacity then 0 else slot + 1
  }

  /** The slot of a probe. */
  function Probe(start: nat, probe: nat, capacity: nat): (r: nat)
    requires capacity > 0
    ensures r < capacity
  {
    if probe == 0 then start % capacity else Next(Probe(start, probe - 1, capacity), capacity)
  }

  function At(slots: seq<nat>, start: nat, probe: nat): nat
    requires |slots| > 0
  {
    slots[Probe(start, probe, |slots|)]
  }

  /** Entry `entry` is met by probing from `start` without passing an empty slot. */
  predicate Met(slots: seq<nat>, start: nat, entry: nat, distance: nat) {
    && |slots| > 0 && distance < |slots| && At(slots, start, distance) == entry + 1
    && forall d {:trigger At(slots, start, d)} :: 0 <= d < distance ==> At(slots, start, d) != 0
  }

  ghost predicate Reachable(slots: seq<nat>, start: nat, entry: nat) {
    exists distance: nat {:trigger Met(slots, start, entry, distance)} :: Met(slots, start, entry, distance)
  }

  predicate Encodes(slots: seq<nat>, count: nat) {
    forall k {:trigger slots[k]} :: 0 <= k < |slots| ==> slots[k] <= count
  }

  predicate Unrepeated(slots: seq<nat>) {
    forall k, l :: 0 <= k < l < |slots| && slots[k] != 0 ==> slots[k] != slots[l]
  }

  /** The slots hold the indices of the first `count` paths, each on its own probe path. */
  ghost predicate Indexes(slots: seq<nat>, hash: Path -> nat, paths: seq<Path>, count: nat) {
    && count <= |paths| && Encodes(slots, count) && Unrepeated(slots)
    && forall i: nat {:trigger paths[i]} :: i < count ==> Reachable(slots, hash(paths[i]), i)
  }

  lemma {:induction false} ProbeWraps(start: nat, probe: nat, capacity: nat)
    requires capacity > 0 && probe < capacity
    ensures var home := start % capacity;
            Probe(start, probe, capacity) == if home + probe < capacity then home + probe else home + probe - capacity
  {
    if probe > 0 {
      ProbeWraps(start, probe - 1, capacity);
    }
  }

  /** Every slot is on every probe path. */
  lemma ProbesCoverSlots(start: nat, slot: nat, capacity: nat) returns (probe: nat)
    requires slot < capacity
    ensures probe < capacity && Probe(start, probe, capacity) == slot
  {
    var home := start % capacity;
    probe := if slot >= home then slot - home else slot + capacity - home;
    ProbeWraps(start, probe, capacity);
  }

  // ----- Room: some slot is empty as long as there are fewer entries than slots -----

  function Below(n: nat): set<nat> {
    if n == 0 then {} else Below(n - 1) + {n - 1}
  }

  lemma {:induction false} SizeOfBelow(n: nat)
    ensures |Below(n)| == n && forall x: nat :: x in Below(n) <==> x < n
  {
    if n > 0 {
      SizeOfBelow(n - 1);
      assert n - 1 !in Below(n - 1);
    }
  }

  lemma {:induction false} DistinctValues(slots: seq<nat>, count: nat) returns (values: set<nat>)
    requires Encodes(slots, count) && Unrepeated(slots) && 0 !in slots
    ensures |values| == |slots| && forall x :: x in values <==> x in slots
  {
    if slots == [] {
      values := {};
    } else {
      var front, last := slots[..|slots| - 1], slots[|slots| - 1];
      assert slots == front + [last];
      var rest := DistinctValues(front, count);
      assert last !in rest;
      values := rest + {last};
    }
  }

  lemma SomeSlotIsEmpty(slots: seq<nat>, count: nat)
    requires Encodes(slots, count) && Unrepeated(slots) && count < |slots|
    ensures 0 in slots
  {
    if 0 !in slots {
      var values := DistinctValues(slots, count);
      var bound := Below(count + 1) - {0};
      SizeOfBelow(count + 1);
      assert values <= bound;
      SubsetSize(values, bound);
    }
  }

  lemma SubsetSize<T>(a: set<T>, b: set<T>)
    requires a <= b
    ensures |a| <= |b|
  {
    assert b == a + (b - a);
  }

  // ----- Lookup refines a linear search -----

  lemma MetEarlier(slots: seq<nat>, start: nat, entry: nat, probe: nat)
    requires |slots| > 0 && Reachable(slots, start, entry)
    requires At(slots, start, probe) == 0 || probe == |slots|
    ensures exists d: nat :: d < probe && At(slots, start, d) == entry + 1
  {
    var distance: nat :| Met(slots, start, entry, distance);
    var seen := At(slots, start, probe);
  }

  /** The probed slot holds another path. */
  predicate Missed(slots: seq<nat>, paths: seq<Path>, path: Path, start: nat, d: nat)
    requires |slots| > 0
  {
    At(slots, start, d) != 0 && At(slots, start, d) - 1 < |paths| && paths[At(slots, start, d) - 1] != path
  }

  lemma MetIsAnother(slots: seq<nat>, paths: seq<Path>, path: Path, start: nat, entry: nat, probe: nat)
    requires |slots| > 0 && entry < |paths| && Reachable(slots, start, entry)
    requires At(slots, start, probe) == 0 || probe == |slots|
    requires forall d {:trigger Missed(slots, paths, path, start, d)} :: 0 <= d < probe ==>
      Missed(slots, paths, path, start, d)
    ensures paths[entry] != path
  {
    MetEarlier(slots, start, entry, probe);
    var d: nat :| d < probe && At(slots, start, d) == entry + 1;
    assert Missed(slots, paths, path, start, d);
  }

  lemma NotIndexed(slots: seq<nat>, hash: Path -> nat, paths: seq<Path>, path: Path, probe: nat)
    requires |slots| > 0 && Indexes(slots, hash, paths, |paths|)
    requires At(slots, hash(path), probe) == 0 || probe == |slots|
    requires forall d {:trigger Missed(slots, paths, path, hash(path), d)} :: 0 <= d < probe ==>
               Missed(slots, paths, path, hash(path), d)
    ensures path !in paths
  {
    forall i: nat | i < |paths| && hash(paths[i]) == hash(path) ensures paths[i] != path {
      MetIsAnother(slots, paths, path, hash(path), i, probe);
    }
  }

  method Find(slots: array<nat>, hash: Path -> nat, paths: seq<Path>, path: Path) returns (found: Option<nat>)
    requires Indexes(slots[..], hash, paths, |paths|)
    ensures found.Some? ==> found.value < |paths| && paths[found.value] == path
    ensures found.None? <==> path !in paths
  {
    if slots.Length == 0 {
      if paths != [] {
        EntriesNeedSlots(slots[..], hash, paths);
      }
      return None;
    }
    ghost var view := slots[..];
    var slot := hash(path) % slots.Length;
    var probes := 0;
    while probes < slots.Length
      invariant probes <= slots.Length && slot == Probe(hash(path), probes, slots.Length)
      invariant forall d {:trigger Missed(view, paths, path, hash(path), d)} :: 0 <= d < probes ==>
                  Missed(view, paths, path, hash(path), d)
    {
      var encoded := slots[slot];
      assert encoded == At(view, hash(path), probes) == view[slot];
      assert encoded <= |paths|;
      if encoded == 0 {
        NotIndexed(view, hash, paths, path, probes);
        return None;
      }
      if paths[encoded - 1] == path {
        return Some(encoded - 1);
      }
      assert Missed(view, paths, path, hash(path), probes);
      slot := Next(slot, slots.Length);
      probes := probes + 1;
    }
    NotIndexed(view, hash, paths, path, probes);
    found := None;
  }

  lemma EntriesNeedSlots(slots: seq<nat>, hash: Path -> nat, paths: seq<Path>)
    requires Indexes(slots, hash, paths, |paths|) && paths != []
    ensures slots != []
  {
    assert Reachable(slots, hash(paths[0]), 0);
  }

  // ----- Insertion -----

  lemma InsertKeepsReachable(slots: seq<nat>, slot: nat, value: nat, start: nat, entry: nat)
    requires slot < |slots| && slots[slot] == 0 && value != 0 && Reachable(slots, start, entry)
    ensures Reachable(slots[slot := value], start, entry)
  {
    var distance: nat :| Met(slots, start, entry, distance);
    var after := slots[slot := value];
    forall d | 0 <= d <= distance
      ensures At(after, start, d) != 0 && (d == distance ==> At(after, start, d) == entry + 1) {
      assert d < distance ==> At(slots, start, d) != 0;
    }
    assert Met(after, start, entry, distance);
  }

  lemma InsertIndexes(slots: seq<nat>, hash: Path -> nat, paths: seq<Path>, count: nat, slot: nat, probe: nat)
    requires Indexes(slots, hash, paths, count) && count < |paths| && slot < |slots| && slots[slot] == 0
    requires probe < |slots| && slot == Probe(hash(paths[count]), probe, |slots|)
    requires forall d {:trigger At(slots, hash(paths[count]), d)} :: 0 <= d < probe ==>
      At(slots, hash(paths[count]), d) != 0
    ensures Indexes(slots[slot := count + 1], hash, paths, count + 1)
  {
    var after, start := slots[slot := count + 1], hash(paths[count]);
    forall i: nat | i < count + 1 ensures Reachable(after, hash(paths[i]), i) {
      if i < count {
        InsertKeepsReachable(slots, slot, count + 1, hash(paths[i]), i);
      } else {
        forall d | 0 <= d < probe ensures At(after, start, d) != 0 {
          assert At(slots, start, d) != 0;
        }
        assert Met(after, start, count, probe);
      }
    }
  }

  /** Index the next entry. With room it cannot fail. */
  method Insert(slots: array<nat>, hash: Path -> nat, ghost paths: seq<Path>, path: Path, entry: nat) returns (ok: bool)
    requires Indexes(slots[..], hash, paths, entry) && entry < |paths| && paths[entry] == path && entry < slots.Length
    modifies slots
    ensures ok && Indexes(slots[..], hash, paths, entry + 1)
  {
    ghost var view := slots[..];
    SomeSlotIsEmpty(view, entry);
    ghost var free :| 0 <= free < |view| && view[free] == 0;
    ghost var distance := ProbesCoverSlots(hash(path), free, slots.Length);
    assert At(view, hash(path), distance) == 0;
    var slot := hash(path) % slots.Length;
    var probes := 0;
    while probes < slots.Length
      invariant probes <= distance && slots[..] == view && slot == Probe(hash(path), probes, slots.Length)
      invariant forall d {:trigger At(view, hash(path), d)} :: 0 <= d < probes ==> At(view, hash(path), d) != 0
      decreases slots.Length - probes
    {
      assert slots[slot] == At(view, hash(path), probes);
      if slots[slot] == 0 {
        InsertIndexes(view, hash, paths, entry, slot, probes);
        slots[slot] := entry + 1;
        assert slots[..] == view[slot := entry + 1];
        return true;
      }
      slot := Next(slot, slots.Length);
      probes := probes + 1;
    }
    ok := false;
  }

  /** `exact_path_index_reserve`: keep the load at most one half, rehashing into doubled slots. */
  method Reserve(slots: array<nat>, hash: Path -> nat, needed: nat, paths: seq<Path>) returns (grown: array<nat>)
    requires Indexes(slots[..], hash, paths, |paths|) && |paths| <= needed && 0 < needed
    ensures Indexes(grown[..], hash, paths, |paths|) && 2 * needed <= grown.Length
    ensures grown == slots || fresh(grown)
  {
    if slots.Length != 0 && needed <= slots.Length / 2 {
      return slots;
    }
    var capacity := if slots.Length == 0 then FIRST_CAPACITY else slots.Length;
    while needed > capacity / 2
      invariant capacity > 0
      decreases 2 * needed - capacity
    {
      capacity := capacity * 2;
    }
    grown := new nat[capacity](_ => 0);
    for entry := 0 to |paths|
      invariant fresh(grown) && grown.Length == capacity && Indexes(grown[..], hash, paths, entry)
    {
      var ok := Insert(grown, hash, paths, paths[entry], entry);
    }
  }

  /** A further path does not disturb what is indexed. */
  lemma IndexesMorePaths(slots: seq<nat>, hash: Path -> nat, paths: seq<Path>, path: Path)
    requires Indexes(slots, hash, paths, |paths|)
    ensures Indexes(slots, hash, paths + [path], |paths|)
  {
    forall i: nat | i < |paths| ensures Reachable(slots, hash((paths + [path])[i]), i) {
      assert (paths + [path])[i] == paths[i];
    }
  }
}
