/** What the reading accessors of parsed values read, in terms of members, elements and numbers
    (src/io/typetree.c). */
module TypeTreeAccess {
  import opened Bytes
  import opened TypeTreeValues
  import opened TypeTreeForms
  import opened TypeTreeSpans
  import opened ValueDigest

  // ----- Members and numbers -----

  /** Member `i` is the first with this name, which ends at its first NUL. */
  predicate FirstNamed(members: seq<Value>, name: seq<byte>, i: nat) {
    && i < |members| && members[i].name[..StrLen(members[i].name)] == name
    && forall k {:trigger members[k]} :: 0 <= k < i ==> members[k].name[..StrLen(members[k].name)] != name
  }

  ghost predicate Named(members: seq<Value>, name: seq<byte>, child: Value) {
    exists i: nat {:trigger FirstNamed(members, name, i)} :: FirstNamed(members, name, i) && members[i] == child
  }

  lemma {:induction false} FindsTheFirst(members: seq<Value>, name: seq<byte>, child: Value)
    ensures FindChild(members, name) == Some(child) <==> Named(members, name, child)
    decreases |members|
  {
    if members != [] {
      var rest := members[1..];
      FindsTheFirst(rest, name, child);
      if CText(members[0].name) == name {
        assert FirstNamed(members, name, 0);
      } else {
        if i: nat :| FirstNamed(rest, name, i) && rest[i] == child {
          OneLater(members, name, i);
        }
        if i: nat :| FirstNamed(members, name, i) && members[i] == child {
          assert members[0].name[..StrLen(members[0].name)] != name;
          assert i > 0;
          OneLater(members, name, i - 1);
        }
      }
    }
  }

  lemma OneLater(members: seq<Value>, name: seq<byte>, i: nat)
    requires members != [] && CText(members[0].name) != name
    ensures FirstNamed(members[1..], name, i) <==> FirstNamed(members, name, i + 1)
    ensures i + 1 < |members| ==> members[1..][i] == members[i + 1]
  {
    var rest := members[1..];
    assert forall k {:trigger members[k]} :: 0 < k < |members| ==> members[k] == rest[k - 1];
    assert forall k {:trigger rest[k]} :: 0 <= k < |rest| ==> rest[k] == members[k + 1];
  }

  /** The number of a signed or an unsigned value. */
  predicate NumberIs(v: Value, n: int) {
    match v.data
    case SignedVal(m) => m == n
    case UnsignedVal(m) => m == n
    case _ => false
  }

  lemma NumbersAreRead(v: Value, n: int)
    ensures GetInt(v) == Some(n) <==> -0x8000_0000_0000_0000 <= n < 0x8000_0000_0000_0000 && NumberIs(v, n)
    ensures GetUint(v) == Some(n) <==> 0 <= n < 0x1_0000_0000_0000_0000 && NumberIs(v, n)
  {
  }

  // ----- Arrays -----

  /** An array as it is found: in the value itself, or in its first member "Array", or else in whatever its first
      member "data" leads to. */
  ghost predicate Leads(v: Value, d: Data)
    decreases v
  {
    if v.data.ArrayVal? || v.data.PackedVal? then d == v.data
    else
      && v.data.StructVal?
      && if exists marker :: Named(v.data.members, [65, 114, 114, 97, 121], marker) && IsArray(marker.data)
         then exists marker :: Named(v.data.members, [65, 114, 114, 97, 121], marker) && IsArray(marker.data)
                               && d == marker.data
         else exists child {:trigger Named(v.data.members, [100, 97, 116, 97], child)} ::
                child in v.data.members && Named(v.data.members, [100, 97, 116, 97], child) && Leads(child, d)
  }

  lemma OneIsNamed(members: seq<Value>, name: seq<byte>, a: Value, b: Value)
    requires Named(members, name, a) && Named(members, name, b)
    ensures a == b
  {
    FindsTheFirst(members, name, a);
    FindsTheFirst(members, name, b);
  }

  lemma {:induction false} ArrayIsLedTo(v: Value, d: Data)
    ensures GetArray(v) == Some(d) <==> Leads(v, d)
    decreases v
  {
    assert Ascii("Array") == [65, 114, 114, 97, 121] && Ascii("data") == [100, 97, 116, 97];
    if v.data.StructVal? {
      var members := v.data.members;
      var marker, data := FindChild(members, Ascii("Array")), FindChild(members, Ascii("data"));
      forall m ensures marker == Some(m) <==> Named(members, [65, 114, 114, 97, 121], m) {
        FindsTheFirst(members, Ascii("Array"), m);
      }
      forall m ensures data == Some(m) <==> Named(members, [100, 97, 116, 97], m) {
        FindsTheFirst(members, Ascii("data"), m);
      }
      if data.Some? {
        ArrayIsLedTo(data.value, d);
      }
    }
  }

  /** Element `i` of an array in either form has this number. */
  predicate ElementIs(d: Data, i: nat, n: int) {
    match d
    case PackedVal(bytes, _) => i < |bytes| && bytes[i] as int == n
    case ArrayVal(elements) => i < |elements| && NumberIs(elements[i], n)
    case _ => false
  }

  /** An element is read exactly when there is an array, it has the element, and its number fits the result. */
  lemma ElementsAreRead(v: Value, index: int, n: int)
    ensures ArrayGetInt(v, index) == Some(n)
            <==> && index >= 0 && -0x8000_0000_0000_0000 <= n < 0x8000_0000_0000_0000
                 && exists d {:trigger Leads(v, d)} :: Leads(v, d) && ElementIs(d, index, n)
    ensures ArrayGetUint(v, index) == Some(n)
            <==> && index >= 0 && 0 <= n < 0x1_0000_0000_0000_0000
                 && exists d {:trigger Leads(v, d)} :: Leads(v, d) && ElementIs(d, index, n)
  {
    forall d ensures GetArray(v) == Some(d) <==> Leads(v, d) {
      ArrayIsLedTo(v, d);
    }
    var found := GetArray(v);
    if found.Some? && 0 <= index < Count(found.value) {
      assert Leads(v, found.value);
      if found.value.ArrayVal? {
        NumbersAreRead(found.value.elements[index], n);
      }
    }
  }

  /** A range of elements as bytes. */
  predicate RangeIs(d: Data, from: nat, bytes: seq<byte>) {
    forall k {:trigger bytes[k]} :: 0 <= k < |bytes| ==> ElementIs(d, from + k, bytes[k] as int)
  }

  lemma {:induction false} RangeIsCopied(d: Data, from: nat, end: nat, bytes: seq<byte>)
    requires IsArray(d) && from <= end <= Count(d)
    ensures CopyRange(d, from, end) == Some(bytes) <==> |bytes| == end - from && RangeIs(d, from, bytes)
    decreases end - from
  {
    if from < end {
      var tail := if bytes == [] then [] else bytes[1..];
      RangeIsCopied(d, from + 1, end, tail);
      if d.ArrayVal? && bytes != [] {
        NumbersAreRead(d.elements[from], bytes[0] as int);
      }
      if bytes != [] {
        RangeCons(d, from, bytes);
        assert bytes == [bytes[0]] + tail;
      }
    }
  }

  lemma RangeCons(d: Data, from: nat, bytes: seq<byte>)
    requires bytes != []
    ensures RangeIs(d, from, bytes) <==> ElementIs(d, from, bytes[0] as int) && RangeIs(d, from + 1, bytes[1..])
  {
    var tail := bytes[1..];
    assert forall k {:trigger bytes[k]} :: 0 < k < |bytes| ==> bytes[k] == tail[k - 1];
    if RangeIs(d, from, bytes) {
      forall k | 0 <= k < |tail| ensures ElementIs(d, from + 1 + k, tail[k] as int) {
        assert ElementIs(d, from + (k + 1), bytes[k + 1] as int);
      }
    }
    if ElementIs(d, from, bytes[0] as int) && RangeIs(d, from + 1, tail) {
      forall k | 0 <= k < |bytes| ensures ElementIs(d, from + k, bytes[k] as int) {
        if k > 0 {
          assert ElementIs(d, from + 1 + (k - 1), tail[k - 1] as int);
        }
      }
    }
  }

  /** Bytes are copied exactly when the range is in the array and they are the numbers of its elements. */
  lemma BytesAreCopied(v: Value, offset: nat, count: nat, bytes: seq<byte>)
    ensures CopyBytes(v, offset, count) == Some(bytes)
            <==> && |bytes| == count
                 && exists d {:trigger Leads(v, d)} ::
                      Leads(v, d) && IsArray(d) && offset + count <= Count(d) && RangeIs(d, offset, bytes)
  {
    forall d ensures GetArray(v) == Some(d) <==> Leads(v, d) {
      ArrayIsLedTo(v, d);
    }
    var found := GetArray(v);
    if found.Some? && offset + count <= Count(found.value) {
      assert Leads(v, found.value);
      RangeIsCopied(found.value, offset, offset + count, bytes);
    }
  }

  // ----- Paths -----

  /** Dots (46) and slashes (47) only. */
  predicate Gap(g: seq<byte>) {
    forall k {:trigger g[k]} :: 0 <= k < |g| ==> g[k] == 46 || g[k] == 47
  }

  /** At least one byte, and no dot or slash. */
  predicate PathName(name: seq<byte>) {
    name != [] && 46 !in name && 47 !in name
  }

  /** The names of a path with any gaps in front of, between and behind them. */
  ghost predicate Split(path: seq<byte>, names: seq<seq<byte>>)
    decreases |names|
  {
    if names == [] then Gap(path)
    else
      exists gap, rest {:trigger gap + (names[0] + rest)} ::
        && path == gap + (names[0] + rest) && Gap(gap) && PathName(names[0])
        && (rest != [] ==> rest[0] == 46 || rest[0] == 47) && Split(rest, names[1..])
  }

  /** Each name is that of the first such member of the structure before. */
  ghost predicate Follows(v: Value, names: seq<seq<byte>>, w: Value)
    decreases |names|
  {
    if names == [] then v == w
    else
      && v.data.StructVal?
      && exists child {:trigger Named(v.data.members, names[0], child)} ::
           Named(v.data.members, names[0], child) && Follows(child, names[1..], w)
  }

  lemma {:induction false} GapIsSkipped(gap: seq<byte>, rest: seq<byte>)
    requires Gap(gap) && (rest != [] ==> rest[0] != 46 && rest[0] != 47)
    ensures SkipSeparators(gap + rest) == rest
    decreases |gap|
  {
    if gap == [] {
      assert gap + rest == rest;
    } else {
      assert (gap + rest)[1..] == gap[1..] + rest;
      GapIsSkipped(gap[1..], rest);
    }
  }

  lemma {:induction false} NameIsMeasured(name: seq<byte>, rest: seq<byte>)
    requires 46 !in name && 47 !in name && (rest != [] ==> rest[0] == 46 || rest[0] == 47)
    ensures NameLength(name + rest) == |name|
    decreases |name|
  {
    if name == [] {
      assert name + rest == rest;
    } else {
      assert (name + rest)[1..] == name[1..] + rest;
      NameIsMeasured(name[1..], rest);
    }
  }

  /** A path leads where its names lead. */
  lemma {:induction false} PathIsFollowed(v: Value, path: seq<byte>, names: seq<seq<byte>>, w: Value)
    requires Split(path, names)
    ensures FindPath(v, path) == Some(w) <==> Follows(v, names, w)
    decreases |names|
  {
    if names == [] {
      assert path + [] == path;
      GapIsSkipped(path, []);
    } else {
      var gap, rest :| path == gap + (names[0] + rest) && Gap(gap) && PathName(names[0])
                       && (rest != [] ==> rest[0] == 46 || rest[0] == 47) && Split(rest, names[1..]);
      assert (names[0] + rest)[0] == names[0][0] && names[0][0] in names[0];
      GapIsSkipped(gap, names[0] + rest);
      NameIsMeasured(names[0], rest);
      assert (names[0] + rest)[..|names[0]|] == names[0] && (names[0] + rest)[|names[0]|..] == rest;
      if v.data.StructVal? {
        var child := FindChild(v.data.members, names[0]);
        forall c ensures child == Some(c) <==> Named(v.data.members, names[0], c) {
          FindsTheFirst(v.data.members, names[0], c);
        }
        if child.Some? {
          PathIsFollowed(child.value, rest, names[1..], w);
        }
      }
    }
  }

  lemma {:induction false} GapInFront(path: seq<byte>) returns (gap: seq<byte>, rest: seq<byte>)
    ensures path == gap + rest && Gap(gap) && (rest != [] ==> rest[0] != 46 && rest[0] != 47)
    decreases |path|
  {
    if path != [] && (path[0] == 46 || path[0] == 47) {
      gap, rest := GapInFront(path[1..]);
      assert path == [path[0]] + gap + rest;
      gap := [path[0]] + gap;
    } else {
      gap, rest := [], path;
    }
  }

  lemma {:induction false} NameInFront(path: seq<byte>) returns (name: seq<byte>, rest: seq<byte>)
    ensures path == name + rest && 46 !in name && 47 !in name && (rest != [] ==> rest[0] == 46 || rest[0] == 47)
    ensures path != [] && path[0] != 46 && path[0] != 47 ==> name != []
    decreases |path|
  {
    if path == [] || path[0] == 46 || path[0] == 47 {
      name, rest := [], path;
    } else {
      name, rest := NameInFront(path[1..]);
      assert path == [path[0]] + name + rest;
      name := [path[0]] + name;
    }
  }

  /** Every path has names. */
  lemma {:induction false} PathSplits(path: seq<byte>) returns (names: seq<seq<byte>>)
    ensures Split(path, names)
    decreases |path|
  {
    var gap, behind := GapInFront(path);
    if behind == [] {
      assert path == gap;
      names := [];
    } else {
      var name, rest := NameInFront(behind);
      var others := PathSplits(rest);
      names := [name] + others;
      assert names[1..] == others;
      assert path == gap + (names[0] + rest);
    }
  }
}
