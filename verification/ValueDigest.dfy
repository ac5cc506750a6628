/** Parsed TypeTree values (include/io/typetree.h) and the byte stream that
    src/io/typetree_value_digest.c feeds to its hash. */
module TypeTreeValues {
  import opened Bytes

  /** One decoded value. `ArrayVal` owns one value per element, `PackedVal` stores an array of
      UInt8 as contiguous bytes; doubles are carried as their 64 raw bits. */
  datatype Value = Value(name: seq<byte>, typeName: seq<byte>, data: Data)

  datatype Data =
    | SignedVal(n: i64)
    | UnsignedVal(u: u64)
    | FloatVal(bits: u64)
    | StringVal(text: seq<byte>)
    | ArrayVal(elements: seq<Value>)
    | PackedVal(bytes: seq<byte>, owned: bool)
    | StructVal(members: seq<Value>)
    | NoneVal

  predicate IsByteElement(v: Value) {
    v.data.UnsignedVal? && v.data.u <= 255 && CText(v.typeName) == Ascii("UInt8")
  }

  function ElementByte(v: Value): byte {
    if IsByteElement(v) then v.data.u as byte else 0
  }

  /** `expanded_bytes`: every element is a plain UInt8. */
  predicate IsExpandedBytes(elements: seq<Value>) {
    forall v :: v in elements ==> IsByteElement(v)
  }

  function ElementBytes(elements: seq<Value>): (r: seq<byte>)
    requires IsExpandedBytes(elements)
    ensures |r| == |elements|
  {
    seq(|elements|, i requires 0 <= i < |elements| => ElementByte(elements[i]))
  }

  /** The bytes of an array that is a byte array in either representation. */
  function ByteView(d: Data): Option<seq<byte>> {
    match d
    case PackedVal(bytes, _) => Some(bytes)
    case ArrayVal(elements) => if IsExpandedBytes(elements) then Some(ElementBytes(elements)) else None
    case _ => None
  }
}

module ValueDigest {
  import opened Bytes
  import opened TypeTreeValues

  const MAX_NODES := 1048576
  type Budget = n: nat | n <= MAX_NODES
  const MAX_DEPTH := 256
  const MAX_STRING := 16777216

  // ----- The canonical encoding -----

  function Word(x: u64): seq<byte> {
    ToLittleEndian(x, 8)
  }

  /** The 64-bit two's-complement image of a signed value. */
  function Unsigned64(n: i64): u64 {
    if n >= 0 then n else n + 0x1_0000_0000_0000_0000
  }

  function EncodeString(s: seq<byte>): Option<seq<byte>> {
    if StrLen(s) > MAX_STRING then None else Some(Word(StrLen(s)) + CText(s))
  }

  datatype Encoded = Encoded(bytes: seq<byte>, remaining: Budget)

  function KindCode(d: Data): (r: nat)
    ensures r < 6
  {
    match d
    case SignedVal(_) => 0
    case UnsignedVal(_) => 0
    case FloatVal(_) => 1
    case StringVal(_) => 2
    case ArrayVal(_) => 3
    case PackedVal(_, _) => 3
    case StructVal(_) => 4
    case NoneVal => 5
  }

  function Prepend(prefix: seq<byte>, e: Option<Encoded>): Option<Encoded> {
    match e
    case None => None
    case Some(Encoded(bytes, remaining)) => Some(Encoded(prefix + bytes, remaining))
  }

  function EncodeHeader(v: Value): Option<seq<byte>> {
    match (EncodeString(v.name), EncodeString(v.typeName))
    case (Some(name), Some(typeName)) => Some(Word(KindCode(v.data)) + (name + typeName))
    case _ => None
  }

  function EncodeValue(v: Value, depth: nat, budget: Budget): Option<Encoded>
    decreases v, 1
  {
    if depth >= MAX_DEPTH || budget == 0 then None
    else
      match EncodeHeader(v)
      case None => None
      case Some(header) => Prepend(header, EncodeData(v.data, depth, budget - 1))
  }

  function EncodeData(d: Data, depth: nat, budget: Budget): Option<Encoded>
    decreases d, 1
  {
    match d
    case SignedVal(n) => Some(Encoded(Word(0) + Word(Unsigned64(n)), budget))
    case UnsignedVal(u) => Some(Encoded(Word(1) + Word(u), budget))
    case FloatVal(bits) => Some(Encoded(Word(bits), budget))
    case StringVal(text) =>
      if StrLen(text) > MAX_STRING || StrLen(text) != |text| then None
      else Some(Encoded(Word(|text|) + text, budget))
    case StructVal(members) =>
      if |members| > budget then None
      else Prepend(Word(|members|), EncodeAll(members, depth + 1, budget))
    case ArrayVal(elements) =>
      if |elements| > budget then None
      else if IsExpandedBytes(elements)
      then Some(Encoded(Word(|elements|) + (Word(1) + ElementBytes(elements)), budget - |elements|))
      else Prepend(Word(|elements|) + Word(0), EncodeAll(elements, depth + 1, budget))
    case PackedVal(bytes, _) =>
      if |bytes| > budget then None
      else Some(Encoded(Word(|bytes|) + (Word(1) + bytes), budget - |bytes|))
    case NoneVal => Some(Encoded([], budget))
  }

  function EncodeAll(vs: seq<Value>, depth: nat, budget: Budget): Option<Encoded>
    decreases vs, 0
  {
    if vs == [] then Some(Encoded([], budget))
    else
      match EncodeValue(vs[0], depth, budget)
      case None => None
      case Some(Encoded(bytes, remaining)) => Prepend(bytes, EncodeAll(vs[1..], depth, remaining))
  }

  // ----- The meaning of equal streams -----

  /** Equality up to packed against expanded byte arrays and the labels of byte elements. */
  predicate SameValue(v: Value, w: Value)
    decreases v, 1
  {
    CText(v.name) == CText(w.name) && CText(v.typeName) == CText(w.typeName) && SameData(v.data, w.data)
  }

  predicate SameData(d: Data, e: Data)
    decreases d, 1
  {
    if ByteView(d).Some? || ByteView(e).Some? then ByteView(d) == ByteView(e)
    else
      match (d, e)
      case (ArrayVal(xs), ArrayVal(ys)) => SameAll(xs, ys)
      case (StructVal(xs), StructVal(ys)) => SameAll(xs, ys)
      case (_, _) => d == e && !d.ArrayVal? && !d.StructVal?
  }

  predicate SameAll(xs: seq<Value>, ys: seq<Value>)
    decreases xs, 0
  {
    |xs| == |ys| && (xs != [] ==> SameValue(xs[0], ys[0]) && SameAll(xs[1..], ys[1..]))
  }

  // ----- Injectivity: the stream determines the value -----

  lemma WordIsInjective(x: u64, y: u64, s: seq<byte>, t: seq<byte>)
    requires Word(x) + s == Word(y) + t
    ensures x == y && s == t
  {
    CancelPrefix(Word(x), Word(y), s, t);
    PowersOf256();
    LittleEndianRoundTrip(x, 8);
    LittleEndianRoundTrip(y, 8);
  }

  lemma StringIsPrefixFree(a: seq<byte>, b: seq<byte>, s: seq<byte>, t: seq<byte>)
    requires EncodeString(a).Some? && EncodeString(b).Some?
    requires EncodeString(a).value + s == EncodeString(b).value + t
    ensures CText(a) == CText(b) && s == t
  {
    Assoc(Word(StrLen(a)), CText(a), s);
    Assoc(Word(StrLen(b)), CText(b), t);
    WordIsInjective(StrLen(a), StrLen(b), CText(a) + s, CText(b) + t);
    CancelPrefix(CText(a), CText(b), s, t);
  }

  lemma HeaderIsPrefixFree(v: Value, w: Value, s: seq<byte>, t: seq<byte>)
    requires EncodeHeader(v).Some? && EncodeHeader(w).Some?
    requires EncodeHeader(v).value + s == EncodeHeader(w).value + t
    ensures KindCode(v.data) == KindCode(w.data)
    ensures CText(v.name) == CText(w.name) && CText(v.typeName) == CText(w.typeName)
    ensures EncodeHeader(v) == EncodeHeader(w) && s == t
  {
    var nv, tv := EncodeString(v.name).value, EncodeString(v.typeName).value;
    var nw, tw := EncodeString(w.name).value, EncodeString(w.typeName).value;
    Assoc(Word(KindCode(v.data)), nv + tv, s);
    Assoc(nv, tv, s);
    Assoc(Word(KindCode(w.data)), nw + tw, t);
    Assoc(nw, tw, t);
    WordIsInjective(KindCode(v.data), KindCode(w.data), nv + (tv + s), nw + (tw + t));
    StringIsPrefixFree(v.name, w.name, tv + s, tw + t);
    StringIsPrefixFree(v.typeName, w.typeName, s, t);
  }

  /** What two accepted encodings with overlapping streams must agree on. */
  predicate Agree(d: Encoded, budget: Budget, e: Encoded, budget': Budget, s: seq<byte>, t: seq<byte>) {
    d.bytes == e.bytes && s == t && budget - d.remaining == budget' - e.remaining
  }

  /** The encoding is prefix-free and injective, whatever the depth, budget and continuation. */
  lemma {:induction false} EncodingIsInjective(v: Value, depth: nat, budget: Budget, w: Value, depth': nat,
                                               budget': Budget, s: seq<byte>, t: seq<byte>)
    requires EncodeValue(v, depth, budget).Some? && EncodeValue(w, depth', budget').Some?
    requires EncodeValue(v, depth, budget).value.bytes + s == EncodeValue(w, depth', budget').value.bytes + t
    ensures SameValue(v, w)
    ensures Agree(EncodeValue(v, depth, budget).value, budget, EncodeValue(w, depth', budget').value, budget', s, t)
    decreases v, 1
  {
    var hv, hw := EncodeHeader(v).value, EncodeHeader(w).value;
    var dv, dw := EncodeData(v.data, depth, budget - 1).value, EncodeData(w.data, depth', budget' - 1).value;
    Assoc(hv, dv.bytes, s);
    Assoc(hw, dw.bytes, t);
    HeaderIsPrefixFree(v, w, dv.bytes + s, dw.bytes + t);
    DataIsInjective(v.data, depth, budget - 1, w.data, depth', budget' - 1, s, t);
  }

  predicate IsArray(d: Data) {
    d.ArrayVal? || d.PackedVal?
  }

  lemma {:induction false} DataIsInjective(d: Data, depth: nat, budget: Budget, e: Data, depth': nat, budget': Budget,
                                           s: seq<byte>, t: seq<byte>)
    requires EncodeData(d, depth, budget).Some? && EncodeData(e, depth', budget').Some?
    requires KindCode(d) == KindCode(e)
    requires EncodeData(d, depth, budget).value.bytes + s == EncodeData(e, depth', budget').value.bytes + t
    ensures SameData(d, e)
    ensures Agree(EncodeData(d, depth, budget).value, budget, EncodeData(e, depth', budget').value, budget', s, t)
    decreases d, 1
  {
    if IsArray(d) {
      ArrayIsInjective(d, depth, budget, e, depth', budget', s, t);
    } else if d.StructVal? {
      var m, n := EncodeAll(d.members, depth + 1, budget).value, EncodeAll(e.members, depth' + 1, budget').value;
      Assoc(Word(|d.members|), m.bytes, s);
      Assoc(Word(|e.members|), n.bytes, t);
      WordIsInjective(|d.members|, |e.members|, m.bytes + s, n.bytes + t);
      AllIsInjective(d.members, depth + 1, budget, e.members, depth' + 1, budget', s, t);
    } else {
      LeafIsInjective(d, depth, budget, e, depth', budget', s, t);
    }
  }

  lemma LeafIsInjective(d: Data, depth: nat, budget: Budget, e: Data, depth': nat, budget': Budget, s: seq<byte>,
                        t: seq<byte>)
    requires EncodeData(d, depth, budget).Some? && EncodeData(e, depth', budget').Some?
    requires KindCode(d) == KindCode(e) && !IsArray(d) && !d.StructVal?
    requires EncodeData(d, depth, budget).value.bytes + s == EncodeData(e, depth', budget').value.bytes + t
    ensures SameData(d, e)
    ensures Agree(EncodeData(d, depth, budget).value, budget, EncodeData(e, depth', budget').value, budget', s, t)
  {
    if d.FloatVal? {
      WordIsInjective(d.bits, e.bits, s, t);
    } else if d.StringVal? {
      assert CText(d.text) == d.text && CText(e.text) == e.text;
      StringIsPrefixFree(d.text, e.text, s, t);
    } else if d.NoneVal? {
      assert [] + s == s && [] + t == t;
    } else {
      var (f, x) := if d.SignedVal? then (0, Unsigned64(d.n)) else (1, d.u);
      var (g, y) := if e.SignedVal? then (0, Unsigned64(e.n)) else (1, e.u);
      Assoc(Word(f), Word(x), s);
      Assoc(Word(g), Word(y), t);
      WordIsInjective(f, g, Word(x) + s, Word(y) + t);
      WordIsInjective(x, y, s, t);
    }
  }

  /** The three parts of an array's stream: count, byte flag and body. */
  lemma ArrayStream(d: Data, depth: nat, budget: Budget) returns (count: u64, flag: u64, body: seq<byte>)
    requires IsArray(d) && EncodeData(d, depth, budget).Some?
    ensures EncodeData(d, depth, budget).value.bytes == Word(count) + (Word(flag) + body)
    ensures flag == if ByteView(d).Some? then 1 else 0
    ensures match ByteView(d)
            case Some(bytes) =>
              body == bytes && count == |bytes| && EncodeData(d, depth, budget).value.remaining == budget - |bytes|
            case None =>
              && d.ArrayVal? && count == |d.elements|
              && EncodeAll(d.elements, depth + 1, budget) ==
                Some(Encoded(body, EncodeData(d, depth, budget).value.remaining))
  {
    match ByteView(d)
    case Some(bytes) =>
      count, flag, body := |bytes|, 1, bytes;
    case None =>
      count, flag, body := |d.elements|, 0, EncodeAll(d.elements, depth + 1, budget).value.bytes;
      Assoc(Word(count), Word(flag), body);
  }

  lemma {:induction false} ArrayIsInjective(d: Data, depth: nat, budget: Budget, e: Data, depth': nat, budget': Budget,
                                            s: seq<byte>, t: seq<byte>)
    requires EncodeData(d, depth, budget).Some? && EncodeData(e, depth', budget').Some?
    requires IsArray(d) && IsArray(e)
    requires EncodeData(d, depth, budget).value.bytes + s == EncodeData(e, depth', budget').value.bytes + t
    ensures SameData(d, e)
    ensures Agree(EncodeData(d, depth, budget).value, budget, EncodeData(e, depth', budget').value, budget', s, t)
    decreases d, 0
  {
    var m, f, x := ArrayStream(d, depth, budget);
    var n, g, y := ArrayStream(e, depth', budget');
    Assoc(Word(m), Word(f) + x, s);
    Assoc(Word(f), x, s);
    Assoc(Word(n), Word(g) + y, t);
    Assoc(Word(g), y, t);
    WordIsInjective(m, n, Word(f) + (x + s), Word(g) + (y + t));
    WordIsInjective(f, g, x + s, y + t);
    if f == 1 {
      CancelPrefix(x, y, s, t);
    } else {
      AllIsInjective(d.elements, depth + 1, budget, e.elements, depth' + 1, budget', s, t);
    }
  }

  lemma {:induction false} AllIsInjective(vs: seq<Value>, depth: nat, budget: Budget, ws: seq<Value>, depth': nat,
                                          budget': Budget, s: seq<byte>, t: seq<byte>)
    requires |vs| == |ws|
    requires EncodeAll(vs, depth, budget).Some? && EncodeAll(ws, depth', budget').Some?
    requires EncodeAll(vs, depth, budget).value.bytes + s == EncodeAll(ws, depth', budget').value.bytes + t
    ensures SameAll(vs, ws)
    ensures Agree(EncodeAll(vs, depth, budget).value, budget, EncodeAll(ws, depth', budget').value, budget', s, t)
    decreases vs, 0
  {
    if vs == [] {
      assert [] + s == s && [] + t == t;
    } else {
      var x, y := EncodeValue(vs[0], depth, budget).value, EncodeValue(ws[0], depth', budget').value;
      var xs, ys := EncodeAll(vs[1..], depth, x.remaining).value, EncodeAll(ws[1..], depth', y.remaining).value;
      Assoc(x.bytes, xs.bytes, s);
      Assoc(y.bytes, ys.bytes, t);
      EncodingIsInjective(vs[0], depth, budget, ws[0], depth', budget', xs.bytes + s, ys.bytes + t);
      AllIsInjective(vs[1..], depth, x.remaining, ws[1..], depth', y.remaining, s, t);
    }
  }

  // ----- Representation independence: same value, same stream, same budget -----

  lemma {:induction false} EncodingIgnoresRepresentation(v: Value, w: Value, depth: nat, budget: Budget)
    requires SameValue(v, w)
    ensures EncodeValue(v, depth, budget) == EncodeValue(w, depth, budget)
    decreases v, 1
  {
    if depth < MAX_DEPTH && budget > 0 {
      EncodeStringReadsCText(v.name, w.name);
      EncodeStringReadsCText(v.typeName, w.typeName);
      DataIgnoresRepresentation(v.data, w.data, depth, budget - 1);
    }
  }

  lemma EncodeStringReadsCText(a: seq<byte>, b: seq<byte>)
    requires CText(a) == CText(b)
    ensures EncodeString(a) == EncodeString(b)
  {
    assert |CText(a)| == StrLen(a) && |CText(b)| == StrLen(b);
  }

  lemma {:induction false} DataIgnoresRepresentation(d: Data, e: Data, depth: nat, budget: Budget)
    requires SameData(d, e)
    ensures KindCode(d) == KindCode(e) && EncodeData(d, depth, budget) == EncodeData(e, depth, budget)
    decreases d, 1
  {
    if ByteView(d).Some? {
      assert ByteView(d) == ByteView(e);
    } else if d.ArrayVal? {
      AllIgnoreRepresentation(d.elements, e.elements, depth + 1, budget);
    } else if d.StructVal? {
      AllIgnoreRepresentation(d.members, e.members, depth + 1, budget);
    }
  }

  lemma {:induction false} AllIgnoreRepresentation(vs: seq<Value>, ws: seq<Value>, depth: nat, budget: Budget)
    requires SameAll(vs, ws)
    ensures EncodeAll(vs, depth, budget) == EncodeAll(ws, depth, budget)
    decreases vs, 0
  {
    if vs != [] {
      EncodingIgnoresRepresentation(vs[0], ws[0], depth, budget);
      if EncodeValue(vs[0], depth, budget).Some? {
        AllIgnoreRepresentation(vs[1..], ws[1..], depth, EncodeValue(vs[0], depth, budget).value.remaining);
      }
    }
  }

  /** The stream fed to the hash: the domain tag with its terminator, then the value. */
  function Preimage(v: Value): Option<seq<byte>> {
    match EncodeValue(v, 0, MAX_NODES)
    case None => None
    case Some(e) => Some(Ascii("UnityCommon.OrderedTypeTreeValue.v1") + [0] + e.bytes)
  }

  /** Two accepted values feed the hash the same bytes exactly when they are the same value up to
      packed against expanded byte arrays and the labels of byte elements. */
  lemma EqualPreimagesAreEqualValues(v: Value, w: Value)
    requires Preimage(v).Some? && Preimage(w).Some?
    ensures Preimage(v) == Preimage(w) <==> SameValue(v, w)
  {
    var tag := Ascii("UnityCommon.OrderedTypeTreeValue.v1") + [0];
    var a, b := EncodeValue(v, 0, MAX_NODES).value.bytes, EncodeValue(w, 0, MAX_NODES).value.bytes;
    if SameValue(v, w) {
      EncodingIgnoresRepresentation(v, w, 0, MAX_NODES);
    }
    if Preimage(v) == Preimage(w) {
      CancelPrefix(tag, tag, a, b);
      EncodingIsInjective(v, 0, MAX_NODES, w, 0, MAX_NODES, [], []);
    }
  }

  // ----- The format in numbers -----

  /** A length of eight bytes, then the bytes up to the first NUL. */
  function StringStream(s: seq<byte>): seq<byte> {
    ToLittleEndian(StrLen(s), 8) + s[..StrLen(s)]
  }

  /** Every element is an unsigned number below 256 under the type name "UInt8". */
  predicate AllBytes(elements: seq<Value>) {
    forall i {:trigger elements[i]} :: 0 <= i < |elements| ==>
      var v := elements[i];
      v.data.UnsignedVal? && v.data.u < 256 && v.typeName[..StrLen(v.typeName)] == [85, 73, 110, 116, 56]
  }

  /** Integers have kind 0, floating-point numbers 1, strings 2, arrays 3, structures 4 and nothing 5. */
  function Stream(v: Value): seq<byte>
    decreases v, 1
  {
    var kind :=
      if v.data.SignedVal? || v.data.UnsignedVal? then 0 else if v.data.FloatVal? then 1
      else if v.data.StringVal? then 2 else if v.data.ArrayVal? || v.data.PackedVal? then 3
      else if v.data.StructVal? then 4 else 5;
    ToLittleEndian(kind, 8) + (StringStream(v.name) + StringStream(v.typeName)) + DataStream(v.data)
  }

  /** A sign flag and the two's complement, the bits, a string, or a count followed by what is counted. Arrays say
      whether they are bytes. */
  function DataStream(d: Data): seq<byte>
    decreases d, 1
  {
    match d
    case SignedVal(n) => ToLittleEndian(0, 8) + ToLittleEndian(n % 0x1_0000_0000_0000_0000, 8)
    case UnsignedVal(u) => ToLittleEndian(1, 8) + ToLittleEndian(u, 8)
    case FloatVal(bits) => ToLittleEndian(bits, 8)
    case StringVal(text) => ToLittleEndian(|text|, 8) + text
    case StructVal(members) => ToLittleEndian(|members|, 8) + Streams(members)
    case ArrayVal(elements) =>
      if AllBytes(elements)
      then ToLittleEndian(|elements|, 8) + (ToLittleEndian(1, 8) + seq(|elements|, i requires 0 <= i < |elements| =>
                                                                        elements[i].data.u as byte))
      else ToLittleEndian(|elements|, 8) + ToLittleEndian(0, 8) + Streams(elements)
    case PackedVal(bytes, _) => ToLittleEndian(|bytes|, 8) + (ToLittleEndian(1, 8) + bytes)
    case NoneVal => []
  }

  function Streams(vs: seq<Value>): seq<byte>
    decreases vs, 0
  {
    if vs == [] then [] else Stream(vs[0]) + Streams(vs[1..])
  }

  /** Every value is a node, and so is every byte of a byte array. */
  function Nodes(v: Value): nat
    decreases v, 1
  {
    1 + NodesIn(v.data)
  }

  function NodesIn(d: Data): nat
    decreases d, 1
  {
    match d
    case StructVal(members) => NodesOf(members)
    case ArrayVal(elements) => if AllBytes(elements) then |elements| else NodesOf(elements)
    case PackedVal(bytes, _) => |bytes|
    case _ => 0
  }

  function NodesOf(vs: seq<Value>): (n: nat)
    ensures |vs| <= n
    decreases vs, 0
  {
    if vs == [] then 0 else Nodes(vs[0]) + NodesOf(vs[1..])
  }

  /** At most 256 levels, strings of at most 16 MiB, and no NUL in a string value. */
  predicate Admitted(v: Value, depth: nat)
    decreases v, 1
  {
    && depth < 256 && StrLen(v.name) <= 16777216 && StrLen(v.typeName) <= 16777216
    && DataAdmitted(v.data, depth)
  }

  predicate DataAdmitted(d: Data, depth: nat)
    decreases d, 1
  {
    match d
    case StringVal(text) => |text| <= 16777216 && 0 !in text
    case StructVal(members) => AllAdmitted(members, depth + 1)
    case ArrayVal(elements) => AllBytes(elements) || AllAdmitted(elements, depth + 1)
    case _ => true
  }

  predicate AllAdmitted(vs: seq<Value>, depth: nat)
    decreases vs, 0
  {
    vs == [] || (Admitted(vs[0], depth) && AllAdmitted(vs[1..], depth))
  }

  lemma BytesAreElements(elements: seq<Value>)
    ensures IsExpandedBytes(elements) <==> AllBytes(elements)
    ensures IsExpandedBytes(elements) ==>
      AllBytes(elements)
      && ElementBytes(elements)
         == seq(|elements|, i requires 0 <= i < |elements| => elements[i].data.u as byte)
  {
    assert Ascii("UInt8") == [85, 73, 110, 116, 56];
    if IsExpandedBytes(elements) {
      forall i | 0 <= i < |elements| ensures IsByteElement(elements[i]) {
        assert elements[i] in elements;
      }
    }
    if AllBytes(elements) {
      forall v | v in elements ensures IsByteElement(v) {
        var i :| 0 <= i < |elements| && elements[i] == v;
      }
    }
  }

  lemma HasNoNul(text: seq<byte>)
    ensures StrLen(text) == |text| <==> 0 !in text
  {
    assert text[..|text|] == text;
    if 0 !in text {
      StrLenIsFirstZero(text, |text|);
    }
  }

  lemma HeaderStream(v: Value)
    ensures EncodeHeader(v)
            == if StrLen(v.name) <= 16777216 && StrLen(v.typeName) <= 16777216
               then Some(ToLittleEndian(KindCode(v.data), 8) + (StringStream(v.name) + StringStream(v.typeName)))
               else None
  {
  }

  /** What comes of a value that costs this many nodes. */
  function Outcome(admitted: bool, stream: seq<byte>, nodes: nat, budget: Budget): Option<Encoded> {
    if admitted && nodes <= budget then Some(Encoded(stream, budget - nodes)) else None
  }

  lemma OutcomesJoin(first: bool, stream: seq<byte>, nodes: nat, rest: bool, streams: seq<byte>, more: nat,
                     budget: Budget)
    ensures Outcome(first && rest, stream + streams, nodes + more, budget)
            == match Outcome(first, stream, nodes, budget)
               case None => None
               case Some(e) => Prepend(e.bytes, Outcome(rest, streams, more, e.remaining))
  {
  }

  lemma OutcomeBehind(prefix: seq<byte>, admitted: bool, stream: seq<byte>, nodes: nat, budget: Budget)
    ensures Prepend(prefix, Outcome(admitted, stream, nodes, budget))
            == Outcome(admitted, prefix + stream, nodes, budget)
  {
  }

  /** A value is accepted exactly when it is admitted and its nodes are within the budget; it then costs its nodes,
      and its encoding is its stream. */
  lemma {:induction false} EncodesTheStream(v: Value, depth: nat, budget: Budget)
    ensures EncodeValue(v, depth, budget) == Outcome(Admitted(v, depth), Stream(v), Nodes(v), budget)
    decreases v, 1
  {
    HeaderStream(v);
    if depth < 256 && budget > 0 {
      DataEncodesTheStream(v.data, depth, budget - 1);
    }
  }

  lemma {:induction false} DataEncodesTheStream(d: Data, depth: nat, budget: Budget)
    ensures EncodeData(d, depth, budget) == Outcome(DataAdmitted(d, depth), DataStream(d), NodesIn(d), budget)
    decreases d, 1
  {
    match d
    case StringVal(text) => HasNoNul(text);
    case StructVal(members) => MembersEncodeTheStream(members, depth, budget);
    case ArrayVal(elements) => ElementsEncodeTheStream(elements, depth, budget);
    case _ =>
  }

  lemma {:induction false} MembersEncodeTheStream(members: seq<Value>, depth: nat, budget: Budget)
    ensures var d := StructVal(members);
            EncodeData(d, depth, budget) == Outcome(DataAdmitted(d, depth), DataStream(d), NodesIn(d), budget)
    decreases members, 1
  {
    AllEncodeTheStream(members, depth + 1, budget);
    OutcomeBehind(ToLittleEndian(|members|, 8), AllAdmitted(members, depth + 1), Streams(members), NodesOf(members),
                  budget);
  }

  lemma {:induction false} ElementsEncodeTheStream(elements: seq<Value>, depth: nat, budget: Budget)
    ensures var d := ArrayVal(elements);
            EncodeData(d, depth, budget) == Outcome(DataAdmitted(d, depth), DataStream(d), NodesIn(d), budget)
    decreases elements, 1
  {
    BytesAreElements(elements);
    if !AllBytes(elements) {
      AllEncodeTheStream(elements, depth + 1, budget);
      OutcomeBehind(ToLittleEndian(|elements|, 8) + ToLittleEndian(0, 8), AllAdmitted(elements, depth + 1),
                    Streams(elements), NodesOf(elements), budget);
    }
  }

  lemma {:induction false} AllEncodeTheStream(vs: seq<Value>, depth: nat, budget: Budget)
    ensures EncodeAll(vs, depth, budget) == Outcome(AllAdmitted(vs, depth), Streams(vs), NodesOf(vs), budget)
    decreases vs, 0
  {
    if vs != [] {
      var v, rest := vs[0], vs[1..];
      EncodesTheStream(v, depth, budget);
      if Admitted(v, depth) && Nodes(v) <= budget {
        AllEncodeTheStream(rest, depth, budget - Nodes(v));
      }
      OutcomesJoin(Admitted(v, depth), Stream(v), Nodes(v), AllAdmitted(rest, depth), Streams(rest), NodesOf(rest),
                   budget);
    }
  }

  /** "UnityCommon.OrderedTypeTreeValue.v1" and its terminator. */
  function DomainTag(): seq<byte> {
    [85, 110, 105, 116, 121, 67, 111, 109, 109, 111, 110, 46]
    + [79, 114, 100, 101, 114, 101, 100, 84, 121, 112, 101, 84]
    + [114, 101, 101, 86, 97, 108, 117, 101, 46, 118, 49] + [0]
  }

  lemma TagIsSpelled()
    ensures Ascii("UnityCommon.OrderedTypeTreeValue.v1") + [0] == DomainTag()
  {
    assert Ascii("UnityCommon.") == [85, 110, 105, 116, 121, 67, 111, 109, 109, 111, 110, 46];
    assert Ascii("OrderedTypeT") == [79, 114, 100, 101, 114, 101, 100, 84, 121, 112, 101, 84];
    assert Ascii("reeValue.v1") == [114, 101, 101, 86, 97, 108, 117, 101, 46, 118, 49];
    AsciiInParts("UnityCommon.", "OrderedTypeT");
    AsciiInParts("UnityCommon.OrderedTypeT", "reeValue.v1");
    assert "UnityCommon." + "OrderedTypeT" == "UnityCommon.OrderedTypeT";
    assert "UnityCommon.OrderedTypeT" + "reeValue.v1" == "UnityCommon.OrderedTypeTreeValue.v1";
  }

  lemma AsciiInParts(a: string, b: string)
    ensures Ascii(a + b) == Ascii(a) + Ascii(b)
  {
  }

  lemma PreimageIsStream(v: Value)
    ensures Preimage(v) == if Admitted(v, 0) && Nodes(v) <= 1048576 then Some(DomainTag() + Stream(v)) else None
  {
    EncodesTheStream(v, 0, MAX_NODES);
    TagIsSpelled();
  }

  // ----- The recursive hashing procedure -----

  lemma PrependTwice(a: seq<byte>, b: seq<byte>, e: Option<Encoded>)
    ensures Prepend(a, Prepend(b, e)) == Prepend(a + b, e)
  {
    if e.Some? {
      Assoc(a, b, e.value.bytes);
    }
  }

  lemma PrependNothing(e: Option<Encoded>)
    ensures Prepend([], e) == e
  {
    if e.Some? {
      assert [] + e.value.bytes == e.value.bytes;
    }
  }

  /** The hash context, seen as the bytes passed to it so far, and the remaining node budget. */
  class DigestContext {
    var fed: seq<byte>
    var remainingNodes: Budget

    constructor ()
      ensures fed == [] && remainingNodes == MAX_NODES
    {
      fed, remainingNodes := [], MAX_NODES;
    }

    method Update(bytes: seq<byte>)
      modifies this`fed
      ensures fed == old(fed) + bytes
    {
      fed := fed + bytes;
    }

    method HashWord(value: u64)
      modifies this`fed
      ensures fed == old(fed) + Word(value)
    {
      var bytes, rest := [], value;
      for i := 0 to 8
        invariant |bytes| == i && fed == old(fed)
        invariant bytes + ToLittleEndian(rest, 8 - i) == Word(value)
      {
        Assoc(bytes, [(rest % 256) as byte], ToLittleEndian(rest / 256, 7 - i));
        bytes, rest := bytes + [(rest % 256) as byte], rest / 256;
      }
      assert ToLittleEndian(rest, 0) == [] && bytes + [] == bytes;
      assert bytes == Word(value);
      Update(bytes);
    }

    method HashString(text: seq<byte>) returns (ok: bool, length: nat)
      modifies this`fed
      ensures ok == EncodeString(text).Some?
      ensures ok ==> fed == old(fed) + EncodeString(text).value && length == StrLen(text)
    {
      length := 0;
      while length <= MAX_STRING && length < |text| && text[length] != 0
        invariant length <= |text| && length <= MAX_STRING + 1
        invariant StrLen(text) == length + StrLen(text[length..])
      {
        assert text[length..][1..] == text[length + 1..];
        length := length + 1;
      }
      if length > MAX_STRING {
        return false, length;
      }
      HashWord(length);
      Update(text[..length]);
      Assoc(old(fed), Word(length), text[..length]);
      ok := true;
    }

    method ExpandedBytes(elements: seq<Value>) returns (yes: bool)
      ensures yes == IsExpandedBytes(elements)
    {
      for i := 0 to |elements|
        invariant IsExpandedBytes(elements[..i])
      {
        var element := elements[i];
        if !element.data.UnsignedVal? || element.data.u > 255 || CText(element.typeName) != Ascii("UInt8") {
          assert element in elements;
          return false;
        }
        assert elements[..i + 1] == elements[..i] + [element];
      }
      assert elements[..|elements|] == elements;
      yes := true;
    }

    method HashAll(values: seq<Value>, depth: nat) returns (ok: bool)
      modifies this
      ensures ok == EncodeAll(values, depth, old(remainingNodes)).Some?
      ensures ok ==> EncodeAll(values, depth, old(remainingNodes)).value.remaining == remainingNodes
      ensures ok ==> fed == old(fed) + EncodeAll(values, depth, old(remainingNodes)).value.bytes
      decreases values, 0
    {
      ghost var done: seq<byte> := [];
      PrependNothing(EncodeAll(values, depth, remainingNodes));
      assert values[0..] == values && fed == fed + done;
      for i := 0 to |values|
        invariant fed == old(fed) + done
        invariant EncodeAll(values, depth, old(remainingNodes)) ==
          Prepend(done, EncodeAll(values[i..], depth, remainingNodes))
      {
        ghost var step := EncodeValue(values[i], depth, remainingNodes);
        ghost var before := fed;
        assert values[i..][0] == values[i] && values[i..][1..] == values[i + 1..];
        ok := HashValue(values[i], depth);
        if !ok {
          return;
        }
        PrependTwice(done, step.value.bytes, EncodeAll(values[i + 1..], depth, remainingNodes));
        Assoc(old(fed), done, step.value.bytes);
        done := done + step.value.bytes;
      }
      assert done + [] == done;
      ok := true;
    }

    method HashArray(data: Data, depth: nat) returns (ok: bool)
      requires IsArray(data)
      modifies this
      ensures ok == EncodeData(data, depth, old(remainingNodes)).Some?
      ensures ok ==> EncodeData(data, depth, old(remainingNodes)).value.remaining == remainingNodes
      ensures ok ==> fed == old(fed) + EncodeData(data, depth, old(remainingNodes)).value.bytes
      decreases data, 0
    {
      var count := if data.PackedVal? then |data.bytes| else |data.elements|;
      if count > remainingNodes {
        return false;
      }
      var bytes := true;
      if data.ArrayVal? {
        bytes := ExpandedBytes(data.elements);
      }
      HashWord(count);
      HashWord(if bytes then 1 else 0);
      Assoc(old(fed), Word(count), Word(if bytes then 1 else 0));
      if bytes {
        ghost var body := ByteView(data).value;
        HashBytes(data, count);
        Assoc(Word(count), Word(1), body);
        Assoc(old(fed), Word(count) + Word(1), body);
        ok := true;
      } else {
        ghost var prefix := Word(count) + Word(0);
        ok := HashAll(data.elements, depth + 1);
        if ok {
          Assoc(old(fed), prefix, EncodeAll(data.elements, depth + 1, old(remainingNodes)).value.bytes);
        }
      }
    }

    /** The body of a byte array, in either representation; every byte costs one node. */
    method HashBytes(data: Data, count: nat)
      requires IsArray(data) && ByteView(data).Some? && count == |ByteView(data).value| <= remainingNodes
      modifies this
      ensures fed == old(fed) + ByteView(data).value && remainingNodes == old(remainingNodes) - count
    {
      remainingNodes := remainingNodes - count;
      if data.PackedVal? {
        Update(data.bytes);
      } else {
        ghost var header := fed;
        for i := 0 to count
          invariant fed == header + ElementBytes(data.elements)[..i]
          invariant remainingNodes == old(remainingNodes) - count
        {
          assert data.elements[i] in data.elements;
          Assoc(header, ElementBytes(data.elements)[..i], [ElementByte(data.elements[i])]);
          Update([ElementByte(data.elements[i])]);
        }
      }
    }

    method HashData(data: Data, depth: nat) returns (ok: bool)
      modifies this
      ensures ok == EncodeData(data, depth, old(remainingNodes)).Some?
      ensures ok ==> EncodeData(data, depth, old(remainingNodes)).value.remaining == remainingNodes
      ensures ok ==> fed == old(fed) + EncodeData(data, depth, old(remainingNodes)).value.bytes
      decreases data, 1
    {
      ok := true;
      match data
      case SignedVal(n) =>
        HashWord(0);
        HashWord(Unsigned64(n));
        Assoc(old(fed), Word(0), Word(Unsigned64(n)));
      case UnsignedVal(u) =>
        HashWord(1);
        HashWord(u);
        Assoc(old(fed), Word(1), Word(u));
      case FloatVal(bits) =>
        HashWord(bits);
      case StringVal(text) =>
        var length;
        ok, length := HashString(text);
        ok := ok && length == |text|;
      case StructVal(members) =>
        if |members| > remainingNodes {
          return false;
        }
        HashWord(|members|);
        ok := HashAll(members, depth + 1);
        if ok {
          Assoc(old(fed), Word(|members|), EncodeAll(members, depth + 1, old(remainingNodes)).value.bytes);
        }
      case ArrayVal(_) =>
        ok := HashArray(data, depth);
      case PackedVal(_, _) =>
        ok := HashArray(data, depth);
      case NoneVal =>
        assert fed + [] == fed;
    }

    /** The hashing recursion feeds exactly the canonical encoding. */
    method HashValue(value: Value, depth: nat) returns (ok: bool)
      modifies this
      ensures ok == EncodeValue(value, depth, old(remainingNodes)).Some?
      ensures ok ==> EncodeValue(value, depth, old(remainingNodes)).value.remaining == remainingNodes
      ensures ok ==> fed == old(fed) + EncodeValue(value, depth, old(remainingNodes)).value.bytes
      decreases value, 1
    {
      if depth >= MAX_DEPTH || remainingNodes == 0 {
        return false;
      }
      remainingNodes := remainingNodes - 1;
      ghost var start := fed;
      HashWord(KindCode(value.data));
      ghost var kind := fed;
      var length;
      ok, length := HashString(value.name);
      if !ok {
        return;
      }
      ok, length := HashString(value.typeName);
      if !ok {
        return;
      }
      ghost var name, typeName := EncodeString(value.name).value, EncodeString(value.typeName).value;
      Assoc(kind, name, typeName);
      Assoc(start, Word(KindCode(value.data)), name + typeName);
      ghost var header := EncodeHeader(value).value;
      assert fed == start + header;
      ok := HashData(value.data, depth);
      if ok {
        Assoc(start, header, EncodeData(value.data, depth, old(remainingNodes) - 1).value.bytes);
      }
    }
  }

  /** `typetree_value_digest` up to the final hash: the preimage, or a refusal. */
  method DigestPreimage(value: Value) returns (ok: bool, preimage: seq<byte>)
    ensures ok == Preimage(value).Some?
    ensures ok ==> preimage == Preimage(value).value
    ensures ok <==> Admitted(value, 0) && Nodes(value) <= 1048576
    ensures ok ==> preimage == DomainTag() + Stream(value)
  {
    PreimageIsStream(value);
    var context := new DigestContext();
    context.Update(Ascii("UnityCommon.OrderedTypeTreeValue.v1") + [0]);
    assert context.fed == Ascii("UnityCommon.OrderedTypeTreeValue.v1") + [0];
    ok := context.HashValue(value, 0);
    preimage := context.fed;
  }
}
