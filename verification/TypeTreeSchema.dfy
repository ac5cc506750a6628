/** The preorder TypeTree grammar and its validator (src/io/typetree.c). */
module TypeTreeSchema {
  import opened Bytes
  import Tree = SchemaTree

  /** One TypeTree node with its bound names. */
  datatype Node = Node(version: u16, level: u8, typeFlags: byte, typeOffset: u32, nameOffset: u32, byteSize: i32,
                       index: u32, metaFlags: u32, refTypeHash: u64, typeName: seq<byte>, name: seq<byte>)

  // ----- Type names -----

  predicate IsSignedInteger(t: seq<byte>) {
    || t == Ascii("SInt8") || t == Ascii("SInt16") || t == Ascii("SInt32") || t == Ascii("SInt64")
    || t == Ascii("int") || t == Ascii("short") || t == Ascii("long long")
  }

  predicate IsUnsignedInteger(t: seq<byte>) {
    || t == Ascii("UInt8") || t == Ascii("UInt16") || t == Ascii("UInt32") || t == Ascii("UInt64")
    || t == Ascii("unsigned int") || t == Ascii("unsigned short") || t == Ascii("unsigned long long")
    || t == Ascii("FileSize") || t == Ascii("RenderingLayerMask") || t == Ascii("Type*") || t == Ascii("BitField")
    || t == Ascii("bool") || t == Ascii("char")
  }

  /** The wire width of a scalar type, 0 for every other type. */
  function ScalarWireSize(t: seq<byte>): nat {
    if t == Ascii("SInt8") || t == Ascii("UInt8") || t == Ascii("bool") || t == Ascii("char") then 1
    else if t == Ascii("SInt16") || t == Ascii("UInt16") || t == Ascii("short") || t == Ascii("unsigned short") then 2
    else if t == Ascii("SInt32") || t == Ascii("UInt32") || t == Ascii("int") || t == Ascii("unsigned int")
         || t == Ascii("RenderingLayerMask") || t == Ascii("Type*") || t == Ascii("BitField") || t == Ascii("float")
           then 4
    else if t == Ascii("SInt64") || t == Ascii("UInt64") || t == Ascii("long long") || t == Ascii("unsigned long long")
         || t == Ascii("FileSize") || t == Ascii("double") then 8
    else 0
  }

  /** Every scalar the validator admits has a rule in the parser. */
  lemma ScalarsHaveRules(t: seq<byte>)
    ensures var w := ScalarWireSize(t);
            && (w == 1 || w == 2 ==> IsSignedInteger(t) || IsUnsignedInteger(t))
            && (w == 4 ==> t == Ascii("float") || IsSignedInteger(t) || IsUnsignedInteger(t))
            && (w == 8 ==> t == Ascii("double") || IsSignedInteger(t) || IsUnsignedInteger(t))
  {
  }

  // ----- Shape -----

  function Levels(nodes: seq<Node>): (r: seq<nat>)
    ensures |r| == |nodes|
  {
    seq(|nodes|, i requires 0 <= i < |nodes| => nodes[i].level)
  }

  predicate HasChildren(nodes: seq<Node>, i: nat)
    requires i < |nodes|
  {
    i + 1 < |nodes| && nodes[i + 1].level > nodes[i].level
  }

  function SubtreeEnd(nodes: seq<Node>, i: nat): (r: nat)
    requires i < |nodes|
    ensures i < r <= |nodes|
  {
    Tree.SubtreeEnd(Levels(nodes), i)
  }

  lemma SubtreeEndIsFirstStop(nodes: seq<Node>, i: nat)
    requires i < |nodes|
    ensures forall k :: i < k < SubtreeEnd(nodes, i) ==> nodes[k].level > nodes[i].level
    ensures SubtreeEnd(nodes, i) < |nodes| ==> nodes[SubtreeEnd(nodes, i)].level <= nodes[i].level
  {
    var levels := Levels(nodes);
    Tree.ScanEndIsFirstStop(levels, levels[i], i + 1, |levels|);
    assert forall k :: 0 <= k < |nodes| ==> levels[k] == nodes[k].level;
  }

  // ----- The grammar -----

  predicate IsArrayMarker(node: Node) {
    node.typeName == Ascii("Array") || node.name == Ascii("Array")
  }

  /** `validate_array_node`: an Array node right below its owner, with exactly `size` and `data`. */
  predicate ValidArray(nodes: seq<Node>, a: nat)
    requires a < |nodes|
  {
    && nodes[a].typeName == Ascii("Array") && nodes[a].name == Ascii("Array") && nodes[a].byteSize == -1
    && a > 0 && nodes[a - 1].level + 1 == nodes[a].level && a + 2 < |nodes|
    && nodes[a + 1].level == nodes[a].level + 1 && nodes[a + 2].level == nodes[a].level + 1
    && nodes[a + 1].name == Ascii("size") && nodes[a + 1].typeName == Ascii("int") && nodes[a + 1].byteSize == 4
    && !HasChildren(nodes, a + 1) && nodes[a + 2].name == Ascii("data")
    && SubtreeEnd(nodes, a + 2) == SubtreeEnd(nodes, a)
    && (nodes[a - 1].typeName == Ascii("string") ==>
          nodes[a + 2].typeName == Ascii("char") && nodes[a + 2].byteSize == 1 && !HasChildren(nodes, a + 2))
  }

  predicate LegalNode(nodes: seq<Node>, i: nat)
    requires i < |nodes|
  {
    && nodes[i].typeName != [] && nodes[i].name != [] && nodes[i].byteSize >= -1
    && if i == 0 then nodes[i].level == 0 else 0 < nodes[i].level <= nodes[i - 1].level + 1
  }

  predicate AdmittedNode(nodes: seq<Node>, i: nat)
    requires i < |nodes|
  {
    var node, wire, children := nodes[i], ScalarWireSize(nodes[i].typeName), HasChildren(nodes, i);
    && LegalNode(nodes, i)
    && (wire != 0 ==> !children && node.byteSize == wire)
    && (IsArrayMarker(node) ==> ValidArray(nodes, i))
    && if node.typeName == Ascii("string") then node.byteSize == -1 && children && ValidArray(nodes, i + 1)
       else if children then IsArrayMarker(nodes[i + 1]) ==> ValidArray(nodes, i + 1)
       else wire != 0 || node.typeName == Ascii("Array")
  }

  predicate ValidSchema(nodes: seq<Node>) {
    |nodes| > 0 && forall i {:trigger AdmittedNode(nodes, i)} :: 0 <= i < |nodes| ==> AdmittedNode(nodes, i)
  }

  method SubtreeEndOf(nodes: seq<Node>, i: nat) returns (end: nat)
    requires i < |nodes|
    ensures end == SubtreeEnd(nodes, i)
  {
    ghost var levels := Levels(nodes);
    end := i + 1;
    while end < |nodes| && nodes[end].level > nodes[i].level
      invariant i < end <= |nodes|
      invariant Tree.ScanEnd(levels, levels[i], end, |levels|) == SubtreeEnd(nodes, i)
    {
      end := end + 1;
    }
  }

  method ValidateSchema(nodes: seq<Node>) returns (ok: bool)
    ensures ok == ValidSchema(nodes)
  {
    if |nodes| == 0 {
      return false;
    }
    for i := 0 to |nodes|
      invariant forall k {:trigger AdmittedNode(nodes, k)} :: 0 <= k < i ==> AdmittedNode(nodes, k)
    {
      ok := ValidateNode(nodes, i);
      if !ok {
        return;
      }
    }
    ok := true;
  }

  method ValidateNode(nodes: seq<Node>, i: nat) returns (ok: bool)
    requires i < |nodes|
    ensures ok == AdmittedNode(nodes, i)
  {
    var node := nodes[i];
    if node.typeName == [] || node.name == [] || node.byteSize < -1 || (i == 0 && node.level != 0)
       || (i > 0 && (node.level == 0 || node.level > nodes[i - 1].level + 1))
    {
      return false;
    }
    var children, wire := HasChildren(nodes, i), ScalarWireSize(node.typeName);
    if wire != 0 && (children || node.byteSize != wire) {
      return false;
    }
    if IsArrayMarker(node) {
      ok := ValidateArrayNode(nodes, i);
      if !ok {
        return;
      }
    }
    if node.typeName == Ascii("string") {
      if node.byteSize != -1 || !children {
        return false;
      }
      ok := ValidateArrayNode(nodes, i + 1);
    } else if children {
      ok := true;
      if IsArrayMarker(nodes[i + 1]) {
        ok := ValidateArrayNode(nodes, i + 1);
      }
    } else {
      ok := wire != 0 || node.typeName == Ascii("Array");
    }
  }

  method ValidateArrayNode(nodes: seq<Node>, a: nat) returns (ok: bool)
    requires a < |nodes|
    ensures ok == ValidArray(nodes, a)
  {
    var marker := nodes[a];
    if marker.typeName != Ascii("Array") || marker.name != Ascii("Array") || marker.byteSize != -1
       || a == 0 || nodes[a - 1].level + 1 != marker.level || a + 2 >= |nodes|
    {
      return false;
    }
    var size, data := nodes[a + 1], nodes[a + 2];
    if size.level != marker.level + 1 || data.level != marker.level + 1 || size.name != Ascii("size")
       || size.typeName != Ascii("int") || size.byteSize != 4 || HasChildren(nodes, a + 1) || data.name != Ascii("data")
    {
      return false;
    }
    var dataEnd := SubtreeEndOf(nodes, a + 2);
    var arrayEnd := SubtreeEndOf(nodes, a);
    if dataEnd != arrayEnd {
      return false;
    }
    ok := !(nodes[a - 1].typeName == Ascii("string")
            && (data.typeName != Ascii("char") || data.byteSize != 1 || HasChildren(nodes, a + 2)));
  }
}
