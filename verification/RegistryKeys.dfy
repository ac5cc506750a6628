/** Schema keys and their order (src/io/typetree_schema_registry.c). */
module RegistryKeys {
  import opened Bytes
  import opened ByteOrder

  const HASH_SIZE: nat := 16
  const MAX_UNITY_VERSION: nat := 1024

  type Hash = s: seq<byte> | |s| == HASH_SIZE witness seq(HASH_SIZE, _ => 0)

  datatype Key = Key(fileVersion: u32, unity: seq<byte>, classId: i32, typeId: i32, scriptIndex: u16,
                     hasScriptHash: bool, stripped: bool, refType: bool, scriptHash: Hash, typeHash: Hash)

  datatype Status = Ok | InvalidArgument | LimitExceeded | InvalidSchema | KeyConflict | NotFound | InvalidFormat
                  | DigestMismatch | SizeOverflow | AllocationFailed

  /** `validate_key`. */
  function CheckKey(key: Key): Status {
    if |key.unity| == 0 then InvalidArgument
    else if |key.unity| > MAX_UNITY_VERSION then LimitExceeded
    else if 0 in key.unity then InvalidArgument
    else if !key.hasScriptHash && key.scriptHash != seq(HASH_SIZE, _ => 0) then InvalidArgument
    else Ok
  }

  // ----- Comparison -----

  function CompareBool(a: bool, b: bool): (r: int) {
    if a == b then 0 else if b then -1 else 1
  }

  function Then(a: int, b: int): int {
    if a != 0 then a else b
  }

  function CompareKeys(a: Key, b: Key): int {
    Then(CompareInt(a.fileVersion, b.fileVersion),
    Then(CompareBytes(a.unity, b.unity),
    Then(CompareInt(a.classId, b.classId),
    Then(CompareInt(a.typeId, b.typeId),
    Then(CompareInt(a.scriptIndex, b.scriptIndex),
    Then(CompareBool(a.hasScriptHash, b.hasScriptHash),
    Then(CompareBool(a.stripped, b.stripped),
    Then(CompareBool(a.refType, b.refType),
    Then(CompareBytes(a.scriptHash, b.scriptHash), CompareBytes(a.typeHash, b.typeHash))))))))))
  }

  /** Only equal keys compare equal, and swapping the arguments flips the sign. */
  lemma KeysTotal(a: Key, b: Key)
    ensures CompareKeys(a, b) == 0 <==> a == b
    ensures CompareKeys(a, b) < 0 <==> CompareKeys(b, a) > 0
  {
    BytesTotal(a.unity, b.unity);
    BytesTotal(a.scriptHash, b.scriptHash);
    BytesTotal(a.typeHash, b.typeHash);
  }

  lemma KeysTransitive(a: Key, b: Key, c: Key)
    requires CompareKeys(a, b) < 0 && CompareKeys(b, c) < 0
    ensures CompareKeys(a, c) < 0
  {
    TotalAt(a.unity, b.unity, c.unity);
    TotalAt(a.scriptHash, b.scriptHash, c.scriptHash);
    TotalAt(a.typeHash, b.typeHash, c.typeHash);
  }

  /** Decided by one field, or by the rest when that field is the same. */
  predicate Decided(less: bool, same: bool, rest: bool) {
    less || (same && rest)
  }

  /** Field by field: the first one that differs decides, numbers by size, false before true and bytes by the
      order of byte strings. */
  ghost predicate KeyPrecedes(a: Key, b: Key) {
    Decided(a.fileVersion < b.fileVersion, a.fileVersion == b.fileVersion,
    Decided(Precedes(a.unity, b.unity), a.unity == b.unity,
    Decided(a.classId < b.classId, a.classId == b.classId,
    Decided(a.typeId < b.typeId, a.typeId == b.typeId,
    Decided(a.scriptIndex < b.scriptIndex, a.scriptIndex == b.scriptIndex,
    Decided(!a.hasScriptHash && b.hasScriptHash, a.hasScriptHash == b.hasScriptHash,
    Decided(!a.stripped && b.stripped, a.stripped == b.stripped,
    Decided(!a.refType && b.refType, a.refType == b.refType,
    Decided(Precedes(a.scriptHash, b.scriptHash), a.scriptHash == b.scriptHash,
            Precedes(a.typeHash, b.typeHash))))))))))
  }

  /** Keys compare as they precede one another. */
  lemma KeysCompareAsTheyPrecede(a: Key, b: Key)
    ensures CompareKeys(a, b) < 0 <==> KeyPrecedes(a, b)
  {
    BytesTotal(a.unity, b.unity);
    ComparesAsPrecedes(a.unity, b.unity);
    BytesTotal(a.scriptHash, b.scriptHash);
    ComparesAsPrecedes(a.scriptHash, b.scriptHash);
    ComparesAsPrecedes(a.typeHash, b.typeHash);
  }
}
