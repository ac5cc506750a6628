/** What discovery finds, by chains of directory entries, and exactly what it objects to
    (src/common/path_discovery.c with the POSIX separator). */
module PathChains {
  import opened Bytes
  import opened PathIndex
  import opened PathTables
  import opened PathDiscovery

  // ----- One entry after the other -----

  /** A directory and a name, with a slash (47) between them unless the directory ends in one or is empty. */
  function Below(directory: Path, name: seq<byte>): Path {
    if directory == [] || directory[|directory| - 1] == 47 then directory + name else directory + [47] + name
  }

  /** The directory lists an entry of this kind that is neither "." nor "..", and this is its path. */
  ghost predicate Lists(world: World, directory: Path, kind: Kind, path: Path) {
    && directory in world.listing
    && exists c {:trigger c in world.listing[directory]} ::
         && c in world.listing[directory] && c.kind == kind && c.name != [46] && c.name != [46, 46]
         && path == Below(directory, c.name)
  }

  /** A chain of directories from one of the inputs, each listed in the one before. */
  ghost predicate Chain(world: World, options: Options, inputs: seq<Path>, chain: seq<Path>) {
    && chain != [] && chain[0] in inputs && chain[0] in world.kinds && world.kinds[chain[0]] == Directory
    && (options.recursive || |chain| == 1)
    && forall i {:trigger chain[i]} :: 0 < i < |chain| ==> Lists(world, chain[i - 1], Directory, chain[i])
  }

  ghost predicate Leads(world: World, options: Options, inputs: seq<Path>, chain: seq<Path>, d: Path) {
    Chain(world, options, inputs, chain) && chain[|chain| - 1] == d
  }

  ghost predicate Reached(world: World, options: Options, inputs: seq<Path>, d: Path) {
    exists chain {:trigger Leads(world, options, inputs, chain, d)} :: Leads(world, options, inputs, chain, d)
  }

  /** A regular file among the inputs, or listed in a directory at the end of a chain. */
  ghost predicate Found(world: World, options: Options, inputs: seq<Path>, path: Path) {
    || (path in inputs && path in world.kinds && world.kinds[path] == Regular)
    || exists d {:trigger Reached(world, options, inputs, d)} ::
         Reached(world, options, inputs, d) && Lists(world, d, Regular, path)
  }

  /** An entry passes when it is a dot, or when its path is short enough and its kind is not refused. */
  predicate Passes(options: Options, directory: Path, c: Child) {
    || c.name == [46] || c.name == [46, 46]
    || (&& (options.maxPathBytes == 0 || |Below(directory, c.name)| <= options.maxPathBytes)
        && (c.kind == Link ==> !options.rejectLinks) && (c.kind == Other ==> !options.rejectOthers))
  }

  ghost predicate ListingsPass(world: World, options: Options, inputs: seq<Path>) {
    forall d {:trigger Reached(world, options, inputs, d)} :: Reached(world, options, inputs, d) ==>
      d in world.listing && forall c {:trigger c in world.listing[d]} :: c in world.listing[d] ==> Passes(options, d, c)
  }

  /** Every directory is at the end of a chain that is not too long. */
  ghost predicate DepthsPass(world: World, options: Options, inputs: seq<Path>) {
    options.maxDepth == 0
    || forall d {:trigger Reached(world, options, inputs, d)} :: Reached(world, options, inputs, d) ==>
         exists chain {:trigger Leads(world, options, inputs, chain, d)} ::
           Leads(world, options, inputs, chain, d) && |chain| <= options.maxDepth + 1
  }

  ghost predicate AllReached(world: World, options: Options, inputs: seq<Path>, s: set<Path>) {
    forall d {:trigger d in s} :: d in s ==> Reached(world, options, inputs, d)
  }

  ghost predicate AllFound(world: World, options: Options, inputs: seq<Path>, s: set<Path>) {
    forall p {:trigger p in s} :: p in s ==> Found(world, options, inputs, p)
  }

  /** A limit of zero is none. */
  ghost predicate CountsPass(world: World, options: Options, inputs: seq<Path>) {
    && (forall s {:trigger AllReached(world, options, inputs, s)} ::
          AllReached(world, options, inputs, s) && options.maxDirectories != 0 ==> |s| <= options.maxDirectories)
    && forall s {:trigger AllFound(world, options, inputs, s)} ::
         AllFound(world, options, inputs, s) && options.maxFiles != 0 ==> |s| <= options.maxFiles
  }

  /** Nothing that discovery objects to. */
  ghost predicate Unobjectionable(world: World, options: Options, inputs: seq<Path>) {
    ListingsPass(world, options, inputs) && DepthsPass(world, options, inputs) && CountsPass(world, options, inputs)
  }

  // ----- The search by levels is the search by chains -----

  /** A search that starts from the directories among the inputs. */
  ghost predicate StartsFrom(search: Search, options: Options, inputs: seq<Path>) {
    && search.recursive == options.recursive
    && forall p {:trigger p in search.roots} ::
         p in search.roots <==> p in inputs && p in search.world.kinds && search.world.kinds[p] == Directory
  }

  lemma DotsAndJoins(directory: Path, name: seq<byte>)
    ensures IsDot(name) <==> name == [46] || name == [46, 46]
    ensures Join(directory, name) == Below(directory, name)
  {
    assert Ascii(".") == [46] && Ascii("..") == [46, 46];
  }

  /** An entry of this kind among the first ones. */
  ghost predicate Entry(directory: Path, children: seq<Child>, kind: Kind, path: Path) {
    exists c {:trigger c in children} ::
      && c in children && c.kind == kind && c.name != [46] && c.name != [46, 46] && path == Below(directory, c.name)
  }

  lemma {:induction false} ChildrenAreEntries(directory: Path, children: seq<Child>, kind: Kind, path: Path)
    ensures path in Children(directory, children, kind) <==> Entry(directory, children, kind, path)
  {
    if children != [] {
      var front, last := children[..|children| - 1], children[|children| - 1];
      assert children == front + [last];
      ChildrenAreEntries(directory, front, kind, path);
      DotsAndJoins(directory, last.name);
      if Entry(directory, front, kind, path) {
        var c :| c in front && c.kind == kind && c.name != [46] && c.name != [46, 46]
                 && path == Below(directory, c.name);
        assert c in children;
      }
      assert last in children;
    }
  }

  lemma ListedAreEntries(world: World, directory: Path, kind: Kind, path: Path)
    ensures path in Children(directory, Listed(world, directory), kind) <==> Lists(world, directory, kind, path)
  {
    ChildrenAreEntries(directory, Listed(world, directory), kind, path);
  }

  /** A directory at most `depth` levels below the roots ends a chain of at most `depth` links. */
  lemma {:induction false} LevelEndsAChain(search: Search, options: Options, inputs: seq<Path>, depth: nat, d: Path)
    returns (chain: seq<Path>)
    requires StartsFrom(search, options, inputs) && d in Level(search, depth)
    ensures Leads(search.world, options, inputs, chain, d) && |chain| <= depth + 1
  {
    if depth == 0 || d in Level(search, depth - 1) {
      if depth == 0 {
        chain := [d];
      } else {
        chain := LevelEndsAChain(search, options, inputs, depth - 1, d);
      }
    } else {
      var before :| before in Level(search, depth - 1) && d in SubDirectories(search, before);
      var front := LevelEndsAChain(search, options, inputs, depth - 1, before);
      ListedAreEntries(search.world, before, Directory, d);
      chain := front + [d];
      OneMoreLink(search.world, options, inputs, front, d);
    }
  }

  lemma OneMoreLink(world: World, options: Options, inputs: seq<Path>, front: seq<Path>, d: Path)
    requires Chain(world, options, inputs, front) && options.recursive
    requires Lists(world, front[|front| - 1], Directory, d)
    ensures Leads(world, options, inputs, front + [d], d)
  {
    var chain := front + [d];
    forall i | 0 < i < |chain| ensures Lists(world, chain[i - 1], Directory, chain[i]) {
      if i < |front| {
        assert chain[i] == front[i];
      }
    }
  }

  lemma {:induction false} ChainEndsInLevel(search: Search, options: Options, inputs: seq<Path>, chain: seq<Path>)
    requires StartsFrom(search, options, inputs) && Chain(search.world, options, inputs, chain)
    ensures chain[|chain| - 1] in Level(search, |chain| - 1)
    decreases |chain|
  {
    if |chain| == 1 {
      assert chain[0] in search.roots;
    } else {
      var front, d := chain[..|chain| - 1], chain[|chain| - 1];
      assert Chain(search.world, options, inputs, front) by {
        forall i | 0 < i < |front| ensures Lists(search.world, front[i - 1], Directory, front[i]) {
          assert Lists(search.world, chain[i - 1], Directory, chain[i]);
        }
      }
      ChainEndsInLevel(search, options, inputs, front);
      assert Lists(search.world, chain[|chain| - 2], Directory, chain[|chain| - 1]);
      ListedAreEntries(search.world, front[|front| - 1], Directory, d);
      assert d in SubDirectories(search, front[|front| - 1]);
    }
  }

  lemma ReachableIsReached(search: Search, options: Options, inputs: seq<Path>, d: Path)
    requires StartsFrom(search, options, inputs)
    ensures ReachableDirectory(search, d) <==> Reached(search.world, options, inputs, d)
  {
    if ReachableDirectory(search, d) {
      var depth: nat :| d in Level(search, depth);
      var chain := LevelEndsAChain(search, options, inputs, depth, d);
    }
    if chain :| Leads(search.world, options, inputs, chain, d) {
      ChainEndsInLevel(search, options, inputs, chain);
    }
  }

  /** What is to be found is what chains lead to. */
  lemma ToFindIsFound(search: Search, options: Options, inputs: seq<Path>, explicitFiles: set<Path>, path: Path)
    requires StartsFrom(search, options, inputs)
    requires path in explicitFiles
             <==> path in inputs && path in search.world.kinds && search.world.kinds[path] == Regular
    ensures ToFind(search, explicitFiles, path) <==> Found(search.world, options, inputs, path)
  {
    forall d
      ensures ReachableDirectory(search, d) && path in RegularFiles(search.world, d)
              <==> Reached(search.world, options, inputs, d) && Lists(search.world, d, Regular, path)
    {
      ReachableIsReached(search, options, inputs, d);
      ListedAreEntries(search.world, d, Regular, path);
    }
  }

  // ----- The objections -----

  lemma PermittedIsPassed(options: Options, directory: Path, children: seq<Child>)
    ensures PermittedListing(options, directory, children)
            <==> forall c {:trigger c in children} :: c in children ==> Passes(options, directory, c)
  {
    forall i | 0 <= i < |children|
      ensures PermittedChild(options, directory, children[i]) <==> Passes(options, directory, children[i])
    {
      DotsAndJoins(directory, children[i].name);
    }
    if PermittedListing(options, directory, children) {
      forall c | c in children ensures Passes(options, directory, c) {
        var i :| 0 <= i < |children| && children[i] == c;
      }
    }
    if forall c {:trigger c in children} :: c in children ==> Passes(options, directory, c) {
      forall i | 0 <= i < |children| ensures PermittedChild(options, directory, children[i]) {
        assert children[i] in children;
      }
    }
  }

  lemma ListingsPermittedExactly(search: Search, options: Options, inputs: seq<Path>)
    requires StartsFrom(search, options, inputs)
    ensures ListingsPermitted(search, options) <==> ListingsPass(search.world, options, inputs)
  {
    forall d ensures ReachableDirectory(search, d) <==> Reached(search.world, options, inputs, d) {
      ReachableIsReached(search, options, inputs, d);
    }
    forall d ensures PermittedListing(options, d, Listed(search.world, d)) <==>
                       forall c {:trigger c in Listed(search.world, d)} ::
                         c in Listed(search.world, d) ==> Passes(options, d, c)
    {
      PermittedIsPassed(options, d, Listed(search.world, d));
    }
  }

  /** A reachable directory has a depth. */
  lemma {:induction false} ShortestDepth(search: Search, d: Path, bound: nat) returns (depth: nat)
    requires d in Level(search, bound)
    ensures IsDepth(search, d, depth) && depth <= bound
  {
    if bound == 0 || d !in Level(search, bound - 1) {
      depth := bound;
    } else {
      depth := ShortestDepth(search, d, bound - 1);
    }
  }

  lemma ShallowChain(search: Search, options: Options, inputs: seq<Path>, d: Path) returns (chain: seq<Path>)
    requires StartsFrom(search, options, inputs) && DepthsPermitted(search, options) && options.maxDepth != 0
    requires Reached(search.world, options, inputs, d)
    ensures Leads(search.world, options, inputs, chain, d) && |chain| <= options.maxDepth + 1
  {
    ReachableIsReached(search, options, inputs, d);
    var bound: nat :| d in Level(search, bound);
    var depth := ShortestDepth(search, d, bound);
    chain := LevelEndsAChain(search, options, inputs, depth, d);
  }

  lemma ShallowDepth(search: Search, options: Options, inputs: seq<Path>, d: Path, depth: nat)
    requires StartsFrom(search, options, inputs) && DepthsPass(search.world, options, inputs) && options.maxDepth != 0
    requires IsDepth(search, d, depth)
    ensures depth <= options.maxDepth
  {
    ReachableIsReached(search, options, inputs, d);
    var chain :| Leads(search.world, options, inputs, chain, d) && |chain| <= options.maxDepth + 1;
    ChainEndsInLevel(search, options, inputs, chain);
    NoDeeperThanLevel(search, d, depth, |chain| - 1);
  }

  lemma NoDeeperThanLevel(search: Search, d: Path, depth: nat, level: nat)
    requires IsDepth(search, d, depth) && d in Level(search, level)
    ensures depth <= level
  {
    if depth > level {
      LevelsGrow(search, level, depth - 1, d);
    }
  }

  lemma DepthsPermittedExactly(search: Search, options: Options, inputs: seq<Path>)
    requires StartsFrom(search, options, inputs)
    ensures DepthsPermitted(search, options) <==> DepthsPass(search.world, options, inputs)
  {
    if DepthsPermitted(search, options) && options.maxDepth != 0 {
      forall d | Reached(search.world, options, inputs, d)
        ensures exists chain {:trigger Leads(search.world, options, inputs, chain, d)} ::
                  Leads(search.world, options, inputs, chain, d) && |chain| <= options.maxDepth + 1
      {
        var chain := ShallowChain(search, options, inputs, d);
      }
    }
    if DepthsPass(search.world, options, inputs) && options.maxDepth != 0 {
      forall d: Path, depth: nat | IsDepth(search, d, depth) ensures depth <= options.maxDepth {
        ShallowDepth(search, options, inputs, d, depth);
      }
    }
  }

  /** The rules of the search are the rules for chains. */
  lemma PermittedExactly(search: Search, options: Options, inputs: seq<Path>, explicitFiles: set<Path>)
    requires StartsFrom(search, options, inputs)
    requires forall p {:trigger p in explicitFiles} ::
      p in explicitFiles <==> p in inputs && p in search.world.kinds && search.world.kinds[p] == Regular
    ensures Permitted(search, options, explicitFiles) <==> Unobjectionable(search.world, options, inputs)
  {
    ListingsPermittedExactly(search, options, inputs);
    DepthsPermittedExactly(search, options, inputs);
    forall s ensures AllReachable(search, s) <==> AllReached(search.world, options, inputs, s) {
      forall d ensures ReachableDirectory(search, d) <==> Reached(search.world, options, inputs, d) {
        ReachableIsReached(search, options, inputs, d);
      }
    }
    forall s ensures AllToFind(search, explicitFiles, s) <==> AllFound(search.world, options, inputs, s) {
      forall p ensures ToFind(search, explicitFiles, p) <==> Found(search.world, options, inputs, p) {
        assert p in explicitFiles
               <==> p in inputs && p in search.world.kinds && search.world.kinds[p] == Regular;
        ToFindIsFound(search, options, inputs, explicitFiles, p);
      }
    }
  }
}
