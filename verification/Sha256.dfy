/** The streaming hash context of src/common/sha256.c over an arbitrary compression function. */
module Sha256 {
  import opened Bytes
  import opened WireWords

  const BLOCK_SIZE: nat := 64
  const LENGTH_FIELD: nat := 56
  const TWO64: nat := 0x1_0000_0000_0000_0000

  type State = s: seq<u32> | |s| == 8 witness seq(8, _ => 0)

  function InitialState(): State {
    [0x6a09e667, 0xbb67ae85, 0x3c6ef372, 0xa54ff53a, 0x510e527f, 0x9b05688c, 0x1f83d9ab, 0x5be0cd19]
  }

  type Compression = (State, seq<byte>) -> State

  // ----- The hash of a whole message -----

  /** Compress the blocks of a text of whole blocks, first block first. */
  function Fold(compress: Compression, state: State, text: seq<byte>): State
    decreases |text|
  {
    if |text| < BLOCK_SIZE then state else Fold(compress, compress(state, text[..BLOCK_SIZE]), text[BLOCK_SIZE..])
  }

  /** The `n` low bytes of `x`, most significant first. */
  function ToBigEndian(x: nat, n: nat): (r: seq<byte>)
    ensures |r| == n
  {
    if n == 0 then [] else ToBigEndian(x / 256, n - 1) + [(x % 256) as byte]
  }

  function Zeros(n: nat): (r: seq<byte>)
    ensures |r| == n
  {
    seq(n, _ => 0)
  }

  /** The least number of zero bytes that puts the length field at the end of a block. */
  function ZeroCount(size: nat): (r: nat)
    ensures r < BLOCK_SIZE && (size + 1 + r) % BLOCK_SIZE == LENGTH_FIELD
  {
    var used := (size + 1) % BLOCK_SIZE;
    if used <= LENGTH_FIELD then LENGTH_FIELD - used else LENGTH_FIELD + BLOCK_SIZE - used
  }

  /** The end of a padded message: a one bit, zeros, and the length in bits modulo 2^64. */
  function Tail(size: nat): seq<byte> {
    [0x80] + (Zeros(ZeroCount(size)) + ToBigEndian(8 * size % TWO64, 8))
  }

  function Padded(message: seq<byte>): seq<byte> {
    message + Tail(|message|)
  }

  function WordsText(words: seq<u32>): seq<byte> {
    if words == [] then [] else ToBigEndian(words[0], 4) + WordsText(words[1..])
  }

  function Digest(compress: Compression, message: seq<byte>): seq<byte> {
    WordsText(Fold(compress, InitialState(), Padded(message)))
  }

  // ----- Padding -----

  lemma PaddedIsWholeBlocks(message: seq<byte>)
    ensures |Padded(message)| % BLOCK_SIZE == 0
    ensures |Padded(message)| - |message| == 1 + ZeroCount(|message|) + 8
  {
    var n := |message| + 1 + ZeroCount(|message|);
    assert (n + 8) % BLOCK_SIZE == 0;
  }

  /** The end marker and the zeros behind it, where the length of the message puts them. */
  lemma MarkerAndZeros(message: seq<byte>, i: nat)
    requires |message| <= i < |Padded(message)| - 8
    ensures Padded(message)[i] == if i == |message| then 0x80 else 0
  {
    var k := i - |message|;
    assert Padded(message)[i] == Tail(|message|)[k];
    if k > 0 {
      assert Tail(|message|)[k] == (Zeros(ZeroCount(|message|)) + ToBigEndian(8 * |message| % TWO64, 8))[k - 1];
    }
  }

  /** A longer message would have its end marker among the zeros of the shorter one. */
  lemma PaddingShowsTheLength(a: seq<byte>, b: seq<byte>)
    requires Padded(a) == Padded(b)
    ensures |a| >= |b|
  {
    PaddedIsWholeBlocks(b);
    if |a| < |b| {
      MarkerAndZeros(a, |b|);
      MarkerAndZeros(b, |b|);
      assert false;
    }
  }

  /** No two messages share a padded text, however long they are. */
  lemma PaddingIsInjective(a: seq<byte>, b: seq<byte>)
    requires Padded(a) == Padded(b)
    ensures a == b
  {
    PaddingShowsTheLength(a, b);
    PaddingShowsTheLength(b, a);
    CancelPrefix(a, b, Tail(|a|), Tail(|b|));
  }

  // ----- Folding by parts -----

  lemma {:induction false} FoldInParts(compress: Compression, state: State, a: seq<byte>, b: seq<byte>)
    requires |a| % BLOCK_SIZE == 0
    ensures Fold(compress, state, a + b) == Fold(compress, Fold(compress, state, a), b)
    decreases |a|
  {
    if a == [] {
      assert a + b == b;
    } else {
      assert |a| >= BLOCK_SIZE;
      assert (a + b)[..BLOCK_SIZE] == a[..BLOCK_SIZE] && (a + b)[BLOCK_SIZE..] == a[BLOCK_SIZE..] + b;
      FoldInParts(compress, compress(state, a[..BLOCK_SIZE]), a[BLOCK_SIZE..], b);
    }
  }

  lemma FoldOneMore(compress: Compression, state: State, done: seq<byte>, block: seq<byte>)
    requires |done| % BLOCK_SIZE == 0 && |block| == BLOCK_SIZE
    ensures Fold(compress, state, done + block) == compress(Fold(compress, state, done), block)
  {
    FoldInParts(compress, state, done, block);
    assert block[..BLOCK_SIZE] == block;
  }

  // ----- The context -----

  class Context {
    const compress: Compression
    var state: State
    var totalSize: u64
    const block: array<byte>
    var blockSize: nat
    /** Everything hashed so far. */
    ghost var message: seq<byte>

    /** The whole blocks of the message are compressed, and the block buffer holds the rest. */
    ghost predicate Valid()
      reads this, block
    {
      && block.Length == BLOCK_SIZE && blockSize < BLOCK_SIZE
      && totalSize == |message| % TWO64
      && Buffers(compress, message, block[..blockSize], state)
    }

    constructor (compress: Compression)
      ensures Valid() && fresh(block) && message == [] && this.compress == compress
    {
      this.compress := compress;
      state, totalSize, blockSize := InitialState(), 0, 0;
      block := new byte[BLOCK_SIZE](_ => 0);
      message := [];
    }

    /** `common_sha256_update`. */
    method Update(data: seq<byte>)
      requires Valid()
      modifies this, block
      ensures Valid() && message == old(message) + data
    {
      TotalWraps(|message|, |data|, totalSize);
      totalSize := (totalSize + |data|) % TWO64;
      ghost var before := message;
      var taken := 0;
      assert before + data[..0] == before;
      while taken < |data|
        invariant block.Length == BLOCK_SIZE && blockSize < BLOCK_SIZE && taken <= |data|
        invariant message == before + data[..taken]
        invariant totalSize == (|before| + |data|) % TWO64
        invariant Buffers(compress, message, block[..blockSize], state)
        decreases |data| - taken
      {
        taken := TakeSome(data, taken, before);
      }
      assert data[..taken] == data;
    }

    /** One turn of the copy loop: what still fits the buffer, or what is left of the data. */
    method TakeSome(data: seq<byte>, taken: nat, ghost before: seq<byte>) returns (next: nat)
      requires block.Length == BLOCK_SIZE && blockSize < BLOCK_SIZE && taken < |data|
      requires message == before + data[..taken]
      requires Buffers(compress, message, block[..blockSize], state)
      modifies this`state, this`blockSize, this`message, block
      ensures blockSize < BLOCK_SIZE && taken < next <= |data|
      ensures message == before + data[..next]
      ensures Buffers(compress, message, block[..blockSize], state)
    {
      var available := BLOCK_SIZE - blockSize;
      next := taken + if |data| - taken < available then |data| - taken else available;
      TakeMore(before, data, taken, next - taken);
      Absorb(data[taken..next]);
    }

    /** Fill the buffer, and compress it once it is full. */
    method Absorb(bytes: seq<byte>)
      requires block.Length == BLOCK_SIZE && 0 < |bytes| <= BLOCK_SIZE - blockSize
      requires Buffers(compress, message, block[..blockSize], state)
      modifies this`state, this`blockSize, this`message, block
      ensures blockSize < BLOCK_SIZE && message == old(message) + bytes
      ensures Buffers(compress, message, block[..blockSize], state)
    {
      BufferGrows(compress, message, block[..blockSize], bytes, state);
      Append(bytes);
      message := message + bytes;
      if blockSize == BLOCK_SIZE {
        assert block[..blockSize] == block[..];
        BufferFull(compress, message, block[..], state);
        state := compress(state, block[..]);
        blockSize := 0;
        assert block[..blockSize] == [];
      }
    }

    /** Copy bytes behind the buffered ones. */
    method Append(bytes: seq<byte>)
      requires block.Length == BLOCK_SIZE && |bytes| <= BLOCK_SIZE - blockSize
      modifies this`blockSize, block
      ensures blockSize == old(blockSize) + |bytes|
      ensures block[..blockSize] == old(block[..blockSize]) + bytes
    {
      forall i | 0 <= i < |bytes| {
        block[blockSize + i] := bytes[i];
      }
      blockSize := blockSize + |bytes|;
    }

    /** `common_sha256_final`: pad within the last block, or over one more. */
    method Final() returns (digest: seq<byte>)
      requires Valid()
      modifies this, block
      ensures digest == Digest(compress, old(message))
    {
      var bitSize := totalSize * 8 % TWO64;
      BitsWrap(|message|, totalSize);
      FinalBlocks(compress, message, block[..blockSize], state);
      Mark();
      Close(bitSize);
      digest := StoreState(state);
    }

    /** Append the end marker; when the length no longer fits, zero and compress this block. */
    method Mark()
      requires block.Length == BLOCK_SIZE && blockSize < BLOCK_SIZE
      modifies this`state, this`blockSize, block
      ensures blockSize <= LENGTH_FIELD
      ensures (state, block[..blockSize]) == Marked(compress, old(state), old(block[..blockSize]))
    {
      ghost var held := block[..blockSize];
      Append([0x80]);
      if blockSize > LENGTH_FIELD {
        ZeroFill(BLOCK_SIZE);
        assert block[..] == block[..BLOCK_SIZE];
        state := compress(state, block[..]);
        blockSize := 0;
        assert block[..blockSize] == [];
      }
    }

    /** Zero up to the length field, store the length, and compress. */
    method Close(bitSize: u64)
      requires block.Length == BLOCK_SIZE && blockSize <= LENGTH_FIELD
      modifies this`state, block
      ensures state == Closed(compress, old(state), old(block[..blockSize]), bitSize)
    {
      ZeroFill(LENGTH_FIELD);
      StoreLength(bitSize);
      assert block[..] == block[..LENGTH_FIELD] + block[LENGTH_FIELD..];
      state := compress(state, block[..]);
    }

    /** Zero the buffer from its fill level up to `end`. */
    method ZeroFill(end: nat)
      requires block.Length == BLOCK_SIZE && blockSize <= end <= BLOCK_SIZE
      modifies block
      ensures block[..end] == old(block[..blockSize]) + Zeros(end - blockSize)
    {
      forall i | blockSize <= i < end {
        block[i] := 0;
      }
    }

    method StoreLength(value: u64)
      requires block.Length == BLOCK_SIZE
      modifies block
      ensures block[..LENGTH_FIELD] == old(block[..LENGTH_FIELD])
      ensures block[LENGTH_FIELD..] == ToBigEndian(value, 8)
    {
      var rest := value;
      assert block[BLOCK_SIZE..] == [] == ToBigEndian(value, 0);
      for i := 0 to 8
        invariant block[..LENGTH_FIELD] == old(block[..LENGTH_FIELD])
        invariant ToBigEndian(value, 8) == ToBigEndian(rest, 8 - i) + block[BLOCK_SIZE - i..]
      {
        ghost var front, back := ToBigEndian(rest / 256, 7 - i), block[BLOCK_SIZE - i..];
        block[BLOCK_SIZE - 1 - i] := (rest % 256) as byte;
        assert block[BLOCK_SIZE - 1 - i..] == [(rest % 256) as byte] + back;
        assert front + [(rest % 256) as byte] + back == front + ([(rest % 256) as byte] + back);
        rest := rest / 256;
      }
    }
  }

  /** The relation between a message and the buffered bytes and state that stand for it. */
  ghost predicate Buffers(compress: Compression, message: seq<byte>, held: seq<byte>, state: State) {
    && |held| <= |message| && (|message| - |held|) % BLOCK_SIZE == 0 && held == message[|message| - |held|..]
    && state == Fold(compress, InitialState(), message[..|message| - |held|])
  }

  lemma TakeMore(before: seq<byte>, data: seq<byte>, taken: nat, size: nat)
    requires taken + size <= |data|
    ensures before + data[..taken] + data[taken..taken + size] == before + data[..taken + size]
  {
    assert data[..taken + size] == data[..taken] + data[taken..taken + size];
  }

  lemma BufferGrows(compress: Compression, message: seq<byte>, held: seq<byte>, bytes: seq<byte>, state: State)
    requires Buffers(compress, message, held, state)
    ensures Buffers(compress, message + bytes, held + bytes, state)
  {
    var n := |message| - |held|;
    assert (message + bytes)[..n] == message[..n];
    assert (message + bytes)[n..] == message[n..] + bytes;
  }

  lemma BufferFull(compress: Compression, message: seq<byte>, block: seq<byte>, state: State)
    requires |block| == BLOCK_SIZE && Buffers(compress, message, block, state)
    ensures Buffers(compress, message, [], compress(state, block))
  {
    var n := |message| - BLOCK_SIZE;
    FoldOneMore(compress, InitialState(), message[..n], block);
    assert message == message[..n] + block;
    assert message[..|message|] == message && message[|message|..] == [];
  }

  /** The state and buffer once the end marker is in place. */
  function Marked(compress: Compression, state: State, held: seq<byte>): (State, seq<byte>)
    requires |held| < BLOCK_SIZE
  {
    if |held| + 1 <= LENGTH_FIELD then (state, held + [0x80])
    else (compress(state, held + [0x80] + Zeros(BLOCK_SIZE - (|held| + 1))), [])
  }

  /** The state once the last block is complete. */
  function Closed(compress: Compression, state: State, held: seq<byte>, bitSize: nat): State
    requires |held| <= LENGTH_FIELD
  {
    compress(state, held + Zeros(LENGTH_FIELD - |held|) + ToBigEndian(bitSize, 8))
  }

  lemma TotalWraps(a: nat, b: nat, total: u64)
    requires total == a % TWO64
    ensures (total + b) % TWO64 == (a + b) % TWO64
  {
    assert a == TWO64 * (a / TWO64) + total;
    MultipleVanishes(total + b, a / TWO64);
  }

  lemma {:induction false} MultipleVanishes(x: nat, k: nat)
    ensures (TWO64 * k + x) % TWO64 == x % TWO64
  {
    if k > 0 {
      assert TWO64 * k + x == TWO64 * (k - 1) + x + TWO64;
      MultipleVanishes(x, k - 1);
    }
  }

  lemma BitsWrap(size: nat, total: u64)
    requires total == size % TWO64
    ensures total * 8 % TWO64 == 8 * size % TWO64
  {
    assert size == TWO64 * (size / TWO64) + total;
    assert 8 * size == TWO64 * (8 * (size / TWO64)) + total * 8;
    MultipleVanishes(total * 8, 8 * (size / TWO64));
  }

  /** The last one or two blocks are exactly the buffered bytes followed by the padding. */
  lemma FinalBlocks(compress: Compression, message: seq<byte>, held: seq<byte>, state: State)
    requires |held| < BLOCK_SIZE && Buffers(compress, message, held, state)
    ensures var (middle, rest) := Marked(compress, state, held);
            |rest| <= LENGTH_FIELD
            && Fold(compress, InitialState(), Padded(message)) == Closed(compress, middle, rest, 8 * |message| % TWO64)
  {
    var n, tail := |message| - |held|, Tail(|message|);
    JoinAt(message, n, held, tail);
    FoldInParts(compress, InitialState(), message[..n], held + tail);
    ZerosInTheTail(|message|, |held|);
    var length := ToBigEndian(8 * |message| % TWO64, 8);
    if |held| + 1 <= LENGTH_FIELD {
      var last := held + [0x80] + Zeros(LENGTH_FIELD - (|held| + 1)) + length;
      OneBlock(held, Zeros(LENGTH_FIELD - (|held| + 1)), length);
      OnlyBlock(compress, state, last);
    } else {
      var first, second := held + [0x80] + Zeros(BLOCK_SIZE - (|held| + 1)), [] + Zeros(LENGTH_FIELD) + length;
      TwoBlocks(held, BLOCK_SIZE - (|held| + 1), length);
      FoldInParts(compress, state, first, second);
      OnlyBlock(compress, state, first);
      OnlyBlock(compress, compress(state, first), second);
    }
  }

  lemma JoinAt(message: seq<byte>, n: nat, held: seq<byte>, tail: seq<byte>)
    requires n <= |message| && held == message[n..]
    ensures message + tail == message[..n] + (held + tail)
  {
    assert message == message[..n] + held;
  }

  lemma OnlyBlock(compress: Compression, state: State, block: seq<byte>)
    requires |block| == BLOCK_SIZE
    ensures Fold(compress, state, block) == compress(state, block)
  {
    assert block[..BLOCK_SIZE] == block && block[BLOCK_SIZE..] == [];
  }

  lemma OneBlock(held: seq<byte>, zeros: seq<byte>, length: seq<byte>)
    ensures held + ([0x80] + (zeros + length)) == held + [0x80] + zeros + length
  {
  }

  lemma TwoBlocks(held: seq<byte>, first: nat, length: seq<byte>)
    ensures held + ([0x80] + (Zeros(first + LENGTH_FIELD) + length))
         == (held + [0x80] + Zeros(first)) + ([] + Zeros(LENGTH_FIELD) + length)
  {
    assert Zeros(first + LENGTH_FIELD) == Zeros(first) + Zeros(LENGTH_FIELD);
    assert [] + Zeros(LENGTH_FIELD) == Zeros(LENGTH_FIELD);
    OneBlock(held, Zeros(first) + Zeros(LENGTH_FIELD), length);
  }

  lemma ZerosInTheTail(size: nat, blockSize: nat)
    requires blockSize <= size && blockSize < BLOCK_SIZE && (size - blockSize) % BLOCK_SIZE == 0
    ensures ZeroCount(size) == if blockSize + 1 <= LENGTH_FIELD then LENGTH_FIELD - (blockSize + 1)
                               else BLOCK_SIZE - blockSize - 1 + LENGTH_FIELD
  {
    assert (size - blockSize + blockSize + 1) % BLOCK_SIZE == (blockSize + 1) % BLOCK_SIZE;
  }

  method StoreState(state: State) returns (digest: seq<byte>)
    ensures digest == WordsText(state)
  {
    digest := [];
    assert state[0..] == state;
    for i := 0 to 8
      invariant WordsText(state) == digest + WordsText(state[i..])
    {
      assert state[i..][1..] == state[i + 1..];
      assert digest + (ToBigEndian(state[i], 4) + WordsText(state[i + 1..]))
          == digest + ToBigEndian(state[i], 4) + WordsText(state[i + 1..]);
      digest := digest + ToBigEndian(state[i], 4);
    }
    assert state[8..] == [] && digest + [] == digest;
  }

  // ----- Chunking -----

  function Concat(chunks: seq<seq<byte>>): seq<byte> {
    if chunks == [] then [] else chunks[0] + Concat(chunks[1..])
  }

  // ----- The digest by the numbers of the standard -----

  /** The first 32 bits behind the point of the square root of `prime`, whose whole part is `whole`. */
  predicate IsRootFraction(word: u32, prime: nat, whole: nat) {
    var root := whole * 0x1_0000_0000 + word;
    && whole * whole <= prime < (whole + 1) * (whole + 1)
    && root * root <= prime * 0x1_0000_0000_0000_0000 < (root + 1) * (root + 1)
  }

  /** The initial hash value of FIPS 180-4, section 5.3.3, from the first eight primes. */
  predicate IsRoots(h: State) {
    && IsRootFraction(h[0], 2, 1) && IsRootFraction(h[1], 3, 1) && IsRootFraction(h[2], 5, 2)
    && IsRootFraction(h[3], 7, 2) && IsRootFraction(h[4], 11, 3) && IsRootFraction(h[5], 13, 3)
    && IsRootFraction(h[6], 17, 4) && IsRootFraction(h[7], 19, 4)
  }

  lemma InitialStateIsRoots()
    ensures IsRoots(InitialState())
  {
  }

  lemma {:induction false} BigEndianIsReversed(x: nat, n: nat)
    ensures ToBigEndian(x, n) == Reversed(ToLittleEndian(x, n))
  {
    if n > 0 {
      BigEndianIsReversed(x / 256, n - 1);
    }
  }

  /** The bit 1, as few zeros as fill whole blocks of 64 bytes with the length, and the length in bits in eight bytes,
      most significant first: section 5.1.1 of FIPS 180-4, with the length modulo 2^64. */
  lemma PaddedByNumbers(message: seq<byte>)
    ensures Padded(message)
            == message + ([0x80] + (seq(ZeroCount(|message|), _ => 0)
                          + Reversed(ToLittleEndian(8 * |message| % 0x1_0000_0000_0000_0000, 8))))
  {
    BigEndianIsReversed(8 * |message| % TWO64, 8);
  }

  /** One state behind the other, block by block. */
  predicate Chain(compress: Compression, text: seq<byte>, states: seq<State>) {
    && |states| >= 1 && 64 * (|states| - 1) <= |text|
    && forall i {:trigger states[i]} :: 0 < i < |states| ==>
         states[i] == compress(states[i - 1], text[64 * (i - 1)..64 * i])
  }

  /** The fold is the last state of the chain over all whole blocks. */
  lemma {:induction false} FoldIsChain(compress: Compression, text: seq<byte>, states: seq<State>)
    requires Chain(compress, text, states)
    ensures Fold(compress, states[0], text[..64 * (|states| - 1)]) == states[|states| - 1]
    decreases |states|
  {
    var n := |states| - 1;
    if n > 0 {
      var front, done := states[..n], text[..64 * (n - 1)];
      assert Chain(compress, text, front);
      FoldIsChain(compress, text, front);
      assert text[..64 * n] == done + text[64 * (n - 1)..64 * n];
      WholeBlocks(n - 1);
      FoldOneMore(compress, states[0], done, text[64 * (n - 1)..64 * n]);
    }
  }

  lemma WholeBlocks(n: nat)
    ensures 64 * n % BLOCK_SIZE == 0
  {
  }

  /** Eight words, most significant byte first. */
  predicate SpellsWords(digest: seq<byte>, state: State) {
    && |digest| == 32
    && forall i {:trigger state[i]} :: 0 <= i < 8 ==> digest[4 * i..4 * i + 4] == Reversed(ToLittleEndian(state[i], 4))
  }

  lemma SliceBehind(word: seq<byte>, rest: seq<byte>, k: nat)
    requires |word| == 4 && k + 4 <= |rest|
    ensures (word + rest)[k + 4..k + 8] == rest[k..k + 4]
  {
  }

  lemma {:induction false} WordsAreSpelled(words: seq<u32>, i: nat)
    requires i < |words|
    ensures |WordsText(words)| == 4 * |words|
    ensures WordsText(words)[4 * i..4 * i + 4] == Reversed(ToLittleEndian(words[i], 4))
    decreases |words|
  {
    BigEndianIsReversed(words[0], 4);
    if i > 0 {
      WordsAreSpelled(words[1..], i - 1);
      SliceBehind(ToBigEndian(words[0], 4), WordsText(words[1..]), 4 * (i - 1));
    } else if |words| > 1 {
      WordsAreSpelled(words[1..], 0);
    } else {
      assert WordsText(words[1..]) == [];
    }
  }

  lemma {:induction false} ChainExists(compress: Compression, state: State, text: seq<byte>, n: nat)
    returns (states: seq<State>)
    requires 64 * n <= |text|
    ensures Chain(compress, text, states) && states[0] == state && |states| == n + 1
  {
    states := [state];
    if n > 0 {
      var front := ChainExists(compress, state, text, n - 1);
      states := front + [compress(front[n - 1], text[64 * (n - 1)..64 * n])];
    }
  }

  /** The padded message, the states over its blocks from the square roots on, and the words of the last. */
  ghost predicate Digested(compress: Compression, message: seq<byte>, digest: seq<byte>) {
    exists zeros: nat, states: seq<State> {:trigger DigestedBy(compress, message, digest, zeros, states)} ::
      DigestedBy(compress, message, digest, zeros, states)
  }

  predicate DigestedBy(compress: Compression, message: seq<byte>, digest: seq<byte>, zeros: nat, states: seq<State>) {
    var padded := message + ([0x80] + (seq(zeros, _ => 0)
                             + Reversed(ToLittleEndian(8 * |message| % 0x1_0000_0000_0000_0000, 8))));
    && zeros < 64 && Chain(compress, padded, states) && 64 * (|states| - 1) == |padded|
    && IsRoots(states[0]) && SpellsWords(digest, states[|states| - 1])
  }

  lemma DigestIsDigested(compress: Compression, message: seq<byte>)
    ensures Digested(compress, message, Digest(compress, message))
  {
    var zeros, padded := ZeroCount(|message|), Padded(message);
    PaddedIsWholeBlocks(message);
    PaddedByNumbers(message);
    var n := |padded| / 64;
    var states := ChainExists(compress, InitialState(), padded, n);
    FoldIsChain(compress, padded, states);
    assert padded[..64 * n] == padded;
    InitialStateIsRoots();
    forall i | 0 <= i < 8
      ensures |WordsText(states[n])| == 32
      ensures WordsText(states[n])[4 * i..4 * i + 4] == Reversed(ToLittleEndian(states[n][i], 4))
    {
      WordsAreSpelled(states[n], i);
    }
    assert DigestedBy(compress, message, Digest(compress, message), zeros, states);
  }

  /** However a message is cut into updates, the digest is that of the whole message. */
  method HashChunks(compress: Compression, chunks: seq<seq<byte>>) returns (digest: seq<byte>)
    ensures digest == Digest(compress, Concat(chunks))
    ensures Digested(compress, Concat(chunks), digest)
  {
    DigestIsDigested(compress, Concat(chunks));
    var context := new Context(compress);
    assert chunks[0..] == chunks && [] + Concat(chunks) == Concat(chunks);
    for i := 0 to |chunks|
      invariant context.Valid() && fresh(context) && fresh(context.block) && context.compress == compress
      invariant Concat(chunks) == context.message + Concat(chunks[i..])
    {
      assert chunks[i..][1..] == chunks[i + 1..];
      assert context.message + (chunks[i] + Concat(chunks[i + 1..])) ==
        context.message + chunks[i] + Concat(chunks[i + 1..]);
      context.Update(chunks[i]);
    }
    assert context.message + [] == context.message;
    digest := context.Final();
  }
}
