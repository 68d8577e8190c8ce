/**
 * The C side of the coprocessor interface (src/c/cinterface.c): the framing of
 * the 48-byte search string into one SHA-1 block, its packing into the word
 * pairs handed to the coprocessor, the target, the search-state globals, the
 * leading-zero-bit test and the reference software search.
 *
 * SHA-1 itself is a parameter `sha1: seq<byte> -> Digest` (an uninterpreted
 * function from the 48 message bytes to the 20 digest bytes); the coprocessor's
 * collision instruction is a parameter. Here, where the block is already
 * loaded, it is `collide: u32 -> u32`, a function of the target alone; the
 * round loop of `main` (module `Collisions`) makes the loaded block explicit
 * with `collide: (seq<WordPair>, u32) -> u32`.
 */
module CInterface {
  import opened Bytes

  /** Bytes of the message hashed per trial. */
  const MessageBytes := 48
  /** Bytes of one SHA-1 block. */
  const BlockBytes := 64
  /** Counters the software loop, as written, tries: 0 .. 0xFFFFFFFE. */
  const TriedCounters := 0xFFFF_FFFF
  /** Every 32-bit counter: 0 .. 0xFFFFFFFF. */
  const AllCounters := 0x1_0000_0000

  type Digest = d: seq<byte> | |d| == 20 witness Zeros(20)

  /** The two arguments of one `SEND_BASE_BYTES(a, b)`. */
  datatype WordPair = WordPair(a: u32, b: u32)

  // ---------------------------------------------------------------------------
  // Framing: the block built by setsearchstring
  // ---------------------------------------------------------------------------

  /** A 64-bit length, most significant byte first. */
  function BigEndian64(x: nat): (b: seq<byte>)
    requires x < 0x1_0000_0000_0000_0000
    ensures |b| == 8
  {
    BigEndian((x / 0x1_0000_0000) as u32) + BigEndian((x % 0x1_0000_0000) as u32)
  }

  /**
   * The SHA-1 padding of a message of `len` bytes (section 5.1.1 of FIPS 180-4):
   * a one bit, the fewest zero bits that bring the length to 448 modulo 512,
   * then the bit length as a 64-bit big-endian integer.
   */
  function Sha1Padding(len: nat): (p: seq<byte>)
    requires 8 * len < 0x1_0000_0000_0000_0000
  {
    [0x80] + Zeros((55 - len) % 64) + BigEndian64(8 * len)
  }

  lemma PaddingLength(len: nat)
    requires 8 * len < 0x1_0000_0000_0000_0000
    ensures |Sha1Padding(len)| == 9 + (55 - len) % 64
  {
  }

  /** The padded message fills whole 64-byte blocks, adding at most 72 bytes. */
  lemma PaddingCompletesBlock(len: nat)
    requires 8 * len < 0x1_0000_0000_0000_0000
    ensures (len + |Sha1Padding(len)|) % 64 == 0
    ensures 9 <= |Sha1Padding(len)| <= 72
  {
    PaddingLength(len);
    EuclideanStep(55 - len);
  }

  lemma EuclideanStep(a: int)
    ensures (64 - a + a % 64) % 64 == 0
  {
    assert a - a % 64 == 64 * (a / 64);
  }

  /**
   * The 64 bytes setsearchstring assembles: the base string as `strncpy`
   * leaves it in the first 48 bytes of a zeroed buffer, the padding marker
   * 0x80 at byte 48, and the message length 0x180 bits in bytes 62..63.
   */
  function Block(v: seq<byte>): (blk: seq<byte>)
    ensures |blk| == BlockBytes
  {
    Strncpy(v, MessageBytes) + [0x80] + Zeros(13) + [0x01, 0x80]
  }

  lemma BlockLayout(v: seq<byte>)
    ensures |Block(v)| == BlockBytes
    ensures Block(v)[..MessageBytes] == Strncpy(v, MessageBytes)
    ensures Block(v)[48] == 0x80 && Block(v)[62] == 0x01 && Block(v)[63] == 0x80
    ensures forall i | 49 <= i < 62 :: Block(v)[i] == NUL
  {
  }

  /** The block is the 48 message bytes followed by exactly their SHA-1 padding. */
  lemma BlockIsPaddedMessage(v: seq<byte>)
    ensures Block(v) == Strncpy(v, MessageBytes) + Sha1Padding(MessageBytes)
  {
    var len := BigEndian64(8 * MessageBytes);
    BigEndianOfWord([0, 0, 0, 0]);
    BigEndianOfWord([0, 0, 0x01, 0x80]);
    assert len == [0, 0, 0, 0] + [0, 0, 0x01, 0x80];
    assert (55 - MessageBytes) % 64 == 7;
    assert Sha1Padding(MessageBytes) == [0x80] + Zeros(7) + len;
    assert Zeros(13) == Zeros(7) + [0, 0, 0, 0, 0, 0];
  }

  /** Bytes 48..63 do not depend on the base string. */
  lemma BlockTailIsFixed(v1: seq<byte>, v2: seq<byte>)
    ensures Block(v1)[MessageBytes..] == Block(v2)[MessageBytes..]
  {
    BlockLayout(v1);
    BlockLayout(v2);
  }

  // ---------------------------------------------------------------------------
  // Packing the block into word pairs
  // ---------------------------------------------------------------------------

  /** Each 8 bytes become the pair of big-endian words of their two halves. */
  function Pack(blk: seq<byte>): (ps: seq<WordPair>)
    requires |blk| % 8 == 0
    ensures |ps| == |blk| / 8
    decreases |blk|
  {
    if |blk| == 0 then [] else [WordPair(Word(blk[..4]), Word(blk[4..8]))] + Pack(blk[8..])
  }

  /** What the receiver reassembles: the bytes of the words in order. */
  function Unpack(ps: seq<WordPair>): (blk: seq<byte>)
    ensures |blk| == 8 * |ps|
  {
    if ps == [] then [] else BigEndian(ps[0].a) + BigEndian(ps[0].b) + Unpack(ps[1..])
  }

  /** A slice of a suffix is a slice of the whole sequence, shifted. */
  lemma SliceOfSuffix(s: seq<byte>, a: nat, i: nat, j: nat)
    requires a + j <= |s| && i <= j
    ensures s[a..][i..j] == s[a + i..a + j]
  {
  }

  lemma {:induction false} PackAt(blk: seq<byte>, k: nat)
    requires |blk| % 8 == 0 && k < |blk| / 8
    ensures Pack(blk)[k] == WordPair(Word(blk[8 * k..8 * k + 4]), Word(blk[8 * k + 4..8 * k + 8]))
    decreases k
  {
    if k > 0 {
      var i := 8 * (k - 1);
      assert i + 8 == 8 * k;
      PackAt(blk[8..], k - 1);
      SliceOfSuffix(blk, 8, i, i + 4);
      SliceOfSuffix(blk, 8, i + 4, i + 8);
    }
  }

  lemma {:induction false} UnpackPack(blk: seq<byte>)
    requires |blk| % 8 == 0
    ensures Unpack(Pack(blk)) == blk
    decreases |blk|
  {
    if |blk| > 0 {
      UnpackPack(blk[8..]);
      BigEndianOfWord(blk[..4]);
      BigEndianOfWord(blk[4..8]);
      assert blk == blk[..4] + blk[4..8] + blk[8..];
    }
  }

  lemma {:induction false} PackUnpack(ps: seq<WordPair>)
    ensures Pack(Unpack(ps)) == ps
  {
    if ps != [] {
      var blk := Unpack(ps);
      PackUnpack(ps[1..]);
      WordOfBigEndian(ps[0].a);
      WordOfBigEndian(ps[0].b);
      assert blk[..4] == BigEndian(ps[0].a);
      assert blk[4..8] == BigEndian(ps[0].b);
      assert blk[8..] == Unpack(ps[1..]);
    }
  }

  /**
   * A 64-byte buffer holding the `strncpy` result and zeros, with the padding
   * marker and the length written in, is the block.
   */
  lemma BlockFromBuffer(copied: seq<byte>, v: seq<byte>)
    requires |copied| == BlockBytes && copied[..MessageBytes] == Strncpy(v, MessageBytes)
    requires forall i | MessageBytes <= i < BlockBytes :: copied[i] == NUL
    ensures copied[48 := 0x80][62 := 0x01][63 := 0x80] == Block(v)
  {
    BlockLayout(v);
    var b := copied[48 := 0x80][62 := 0x01][63 := 0x80];
    forall i | 0 <= i < BlockBytes ensures b[i] == Block(v)[i] {
      if i < MessageBytes {
        assert copied[..MessageBytes][i] == copied[i];
        assert Block(v)[..MessageBytes][i] == Block(v)[i];
      }
    }
  }

  /**
   * The local buffer of setsearchstring: zeroed, the text copied with
   * strncpy into its first 48 bytes, then the padding bytes 0x80 at 48 and
   * the length 0x0180 at 62..63.
   */
  method BuildBlock(v: seq<byte>) returns (buffer: array<byte>)
    ensures fresh(buffer) && buffer.Length == BlockBytes && buffer[..] == Block(v)
  {
    buffer := new byte[BlockBytes](_ => NUL);
    StrNCopy(buffer, v, MessageBytes);
    ghost var copied := buffer[..];
    assert copied[..48] == Strncpy(v, 48);
    assert forall i | 48 <= i < 64 :: copied[i] == NUL by {
      forall i | 48 <= i < 64 ensures copied[i] == NUL {
        assert copied[i] == copied[48..][i - 48];
      }
    }
    buffer[48] := 0x80;
    buffer[62] := 0x01;
    buffer[63] := 0x80;
    BlockFromBuffer(copied, v);
    assert buffer[..] == copied[48 := 0x80][62 := 0x01][63 := 0x80];
  }

  /** The first `n + 1` pairs are the first `n` and the pair of bytes `8n .. 8n+8`. */
  lemma PackStep(blk: seq<byte>, n: nat)
    requires |blk| % 8 == 0 && n < |blk| / 8
    ensures Pack(blk)[..n + 1] ==
      Pack(blk)[..n] + [WordPair(Word(blk[8 * n..8 * n + 4]), Word(blk[8 * n + 4..8 * n + 8]))]
  {
    PackAt(blk, n);
    PrefixStep(Pack(blk), n);
  }

  lemma PrefixStep(ps: seq<WordPair>, n: nat)
    requires n < |ps|
    ensures ps[..n + 1] == ps[..n] + [ps[n]]
  {
  }

  /**
   * setsearchstring: build the padded block and send it to the hardware as
   * eight pairs of big-endian words, one pair per eight bytes.
   */
  method SetSearchString(v: seq<byte>) returns (sent: seq<WordPair>)
    ensures sent == Pack(Block(v))
    ensures |sent| == 8 && Unpack(sent) == Block(v)
  {
    var buffer := BuildBlock(v);
    ghost var blk := buffer[..];
    sent := [];
    var i := 0;
    while i < BlockBytes
      invariant 0 <= i <= BlockBytes && i == 8 * |sent| && |blk| == BlockBytes
      invariant buffer[..] == blk
      invariant sent == Pack(blk)[..|sent|]
    {
      var a := Word(buffer[i..i + 4]);
      var b := Word(buffer[i + 4..i + 8]);
      PackStep(blk, |sent|);
      sent := sent + [WordPair(a, b)];
      i := i + 8;
    }
    UnpackPack(Block(v));
  }

  // ---------------------------------------------------------------------------
  // Target
  // ---------------------------------------------------------------------------

  /** settarget's coercion: a positive request is kept, anything else becomes 1. */
  function TargetFor(n: i32): (t: u32)
    ensures t >= 1
    ensures n > 0 ==> t as int == n as int
    ensures n <= 0 ==> t == 1
  {
    if n > 0 then n as int as u32 else 1
  }

  lemma TargetNonPositiveActsAsOne(n: i32)
    requires n <= 0
    ensures TargetFor(n) == TargetFor(1)
  {
  }

  // ---------------------------------------------------------------------------
  // Leading zero bits
  // ---------------------------------------------------------------------------

  function Pow2(k: nat): (p: nat)
    ensures p >= 1
  {
    if k == 0 then 1 else 2 * Pow2(k - 1)
  }

  /** `0x80 >> j`, the mask of bit `j` counted from the most significant, for j in 0..7. */
  const BitMask: seq<bv8> := [0x80, 0x40, 0x20, 0x10, 0x08, 0x04, 0x02, 0x01]

  /** The byte with its top `k` bits set and the others clear, for k in 0..8. */
  const TopMask: seq<bv8> := [0x00, 0x80, 0xC0, 0xE0, 0xF0, 0xF8, 0xFC, 0xFE, 0xFF]

  /**
   * The same masks as integers. `TopMask` serves the bit-level reasoning and
   * this table the arithmetic of `testdigest`'s shifted mask; kept apart, the
   * proofs never convert a symbolic value between `int` and `bv8`, which the
   * solver handles poorly. `TopMaskRoundTrip` states that the tables agree.
   */
  const TopMaskValue: seq<int> := [0x00, 0x80, 0xC0, 0xE0, 0xF0, 0xF8, 0xFC, 0xFE, 0xFF]

  /** Bit `j` of byte `x` is set, bit 0 being the most significant. */
  predicate BitSet(x: byte, j: nat)
    requires j < 8
  {
    BitOf(x as bv8, j)
  }

  /** `BitSet` on the bit-vector form of the byte. */
  predicate BitOf(y: bv8, j: nat)
    requires j < 8
  {
    y & BitMask[j] != 0
  }

  /** Bit `i` of `d` is set, reading from the most significant bit of byte 0 down. */
  predicate DigestBitSet(d: seq<byte>, i: nat)
    requires i < 8 * |d|
  {
    BitSet(d[i / 8], i % 8)
  }

  /** `d` has at least `n` bits and the first `n` of them are zero. */
  predicate ZeroPrefix(d: seq<byte>, n: nat)
  {
    n <= 8 * |d| && forall i | 0 <= i < n :: !DigestBitSet(d, i)
  }

  lemma TopMaskStep(y: bv8, k: nat)
    requires 1 <= k <= 8
    ensures y & TopMask[k] == 0 <==> y & TopMask[k - 1] == 0 && y & BitMask[k - 1] == 0
  {
    assert TopMask[k] == TopMask[k - 1] | BitMask[k - 1];
    assert TopMask[k - 1] & BitMask[k - 1] == 0;
  }

  /** The top `k` bits of `y` are clear exactly when masking with `TopMask[k]` gives 0. */
  lemma {:induction false} TopBitsClear(y: bv8, k: nat)
    requires k <= 8
    ensures (forall j | 0 <= j < k :: !BitOf(y, j)) <==> y & TopMask[k] == 0
  {
    if k > 0 {
      TopBitsClear(y, k - 1);
      TopMaskStep(y, k);
      assert (forall j | 0 <= j < k :: !BitOf(y, j)) <==>
        (forall j | 0 <= j < k - 1 :: !BitOf(y, j)) && !BitOf(y, k - 1);
    }
  }

  /** The top `k` bits of a byte are clear exactly when masking with `TopMask[k]` gives 0. */
  lemma TopBitsOfByte(x: byte, k: nat)
    requires k <= 8
    ensures (forall j | 0 <= j < k :: !BitSet(x, j)) <==> (x as bv8) & TopMask[k] == 0
  {
    var y := x as bv8;
    BitSetOfBits(x, y, k);
    TopBitsClear(y, k);
  }

  /** `BitSet` of a byte is `BitOf` of its bit-vector form, bit by bit. */
  lemma BitSetOfBits(x: byte, y: bv8, k: nat)
    requires k <= 8 && y == x as bv8
    ensures (forall j | 0 <= j < k :: !BitSet(x, j)) <==> (forall j | 0 <= j < k :: !BitOf(y, j))
  {
    assert forall j | 0 <= j < k :: BitSet(x, j) == BitOf(y, j);
  }

  lemma ZeroByte(x: byte)
    ensures (x as bv8) & TopMask[8] == 0 <==> x == 0
  {
  }

  /** `idx` whole zero bytes are exactly `8 * idx` zero bits. */
  lemma ZeroPrefixOfBytes(d: seq<byte>, idx: nat)
    requires idx <= |d|
    ensures ZeroPrefix(d, 8 * idx) <==> forall k | 0 <= k < idx :: d[k] == 0
  {
    if forall k | 0 <= k < idx :: d[k] == 0 {
      forall i | 0 <= i < 8 * idx ensures !DigestBitSet(d, i) {
        assert d[i / 8] == 0;
      }
    }
    if ZeroPrefix(d, 8 * idx) {
      forall k | 0 <= k < idx ensures d[k] == 0 {
        forall j | 0 <= j < 8 ensures !BitSet(d[k], j) {
          var i := 8 * k + j;
          assert i / 8 == k && i % 8 == j;
          assert !DigestBitSet(d, i);
        }
        TopBitsOfByte(d[k], 8);
        ZeroByte(d[k]);
      }
    }
  }

  /**
   * After `idx` zero bytes, `8 * idx + b` leading zero bits means the next
   * byte's top `b` bits are zero.
   */
  lemma ZeroPrefixExtend(d: seq<byte>, idx: nat, b: nat)
    requires idx < |d| && b <= 8
    requires forall k | 0 <= k < idx :: d[k] == 0
    ensures ZeroPrefix(d, 8 * idx + b) <==> (d[idx] as bv8) & TopMask[b] == 0
  {
    ZeroPrefixExtendBits(d, idx, b);
    TopBitsOfByte(d[idx], b);
  }

  /** `ZeroPrefixExtend` bit by bit, before the mask enters. */
  lemma ZeroPrefixExtendBits(d: seq<byte>, idx: nat, b: nat)
    requires idx < |d| && b <= 8
    requires forall k | 0 <= k < idx :: d[k] == 0
    ensures ZeroPrefix(d, 8 * idx + b) <==> forall j | 0 <= j < b :: !BitSet(d[idx], j)
  {
    ZeroPrefixOfBytes(d, idx);
    if ZeroPrefix(d, 8 * idx + b) {
      forall j | 0 <= j < b ensures !BitSet(d[idx], j) {
        var i := 8 * idx + j;
        assert i / 8 == idx && i % 8 == j;
        assert !DigestBitSet(d, i);
      }
    }
    if forall j | 0 <= j < b :: !BitSet(d[idx], j) {
      forall i | 0 <= i < 8 * idx + b ensures !DigestBitSet(d, i) {
        if i >= 8 * idx {
          assert i / 8 == idx && i % 8 == i - 8 * idx;
        } else {
          assert ZeroPrefix(d, 8 * idx);
        }
      }
    }
  }

  /**
   * `(-256 >> b) & 0xff`: `>>` on a negative `int` shifts in copies of the
   * sign bit (division rounding down), and `& 0xff` keeps the low byte of the
   * two's-complement result.
   */
  function LowMask(b: nat): (m: int)
    ensures 0 <= m < 0x100
  {
    (-256 / Pow2(b)) % 0x100
  }

  lemma LowMaskValue(b: nat)
    requires 1 <= b <= 7
    ensures LowMask(b) == TopMaskValue[b]
  {
    if b == 1 {
      assert Pow2(1) == 2;
    } else if b == 2 {
      assert Pow2(2) == 4;
    } else if b == 3 {
      assert Pow2(3) == 8;
    } else if b == 4 {
      assert Pow2(4) == 16;
    } else if b == 5 {
      assert Pow2(5) == 32;
    } else if b == 6 {
      assert Pow2(6) == 64;
    } else {
      assert Pow2(7) == 128;
    }
  }

  lemma TopMaskRoundTrip(b: nat)
    requires b <= 8
    ensures TopMaskValue[b] as bv8 == TopMask[b]
  {
  }

  /** For 1 <= b <= 7 the mask is the top `b` bits, so the test reads exactly those. */
  lemma MaskSelectsTopBits(b: nat)
    requires 1 <= b <= 7
    ensures LowMask(b) as bv8 == TopMask[b]
  {
    LowMaskValue(b);
    TopMaskRoundTrip(b);
  }

  /** A non-zero byte after `idx` zero bytes ends every prefix that covers it. */
  lemma NonZeroByteFails(d: seq<byte>, idx: nat, n: nat)
    requires idx < |d| && 8 * idx + 8 <= n && d[idx] != 0
    requires forall k | 0 <= k < idx :: d[k] == 0
    ensures !ZeroPrefix(d, n)
  {
    ZeroPrefixExtend(d, idx, 8);
    ZeroByte(d[idx]);
  }

  /**
   * testdigest: walk whole zero bytes while more than 7 bits remain, then
   * mask the top remaining bits of the next byte. Returns 1 exactly when the
   * first `currentTarget` bits of the digest are zero.
   */
  method TestDigest(digest: Digest, currentTarget: u32) returns (passes: int)
    requires currentTarget <= 160
    ensures passes == 0 || passes == 1
    ensures passes == 1 <==> ZeroPrefix(digest, currentTarget as nat)
  {
    var bitstogo := currentTarget;
    var idx: nat := 0;
    var mask: int := -256;
    while bitstogo > 7
      invariant bitstogo as int + 8 * idx == currentTarget as int
      invariant forall k | 0 <= k < idx :: digest[k] == 0
    {
      if digest[idx] == 0 {
        bitstogo := bitstogo - 8;
        idx := idx + 1;
      } else {
        NonZeroByteFails(digest, idx, currentTarget as nat);
        return 0;
      }
    }
    if bitstogo == 0 {
      ZeroPrefixOfBytes(digest, idx);
      return 1;
    }
    mask := mask / Pow2(bitstogo as nat);
    var low := mask % 0x100;
    PartialByteTest(digest, idx, bitstogo as nat, low);
    if (digest[idx] as bv8) & (low as bv8) == 0 {
      return 1;
    }
    return 0;
  }

  /**
   * The last step of testdigest: after `idx` zero bytes, masking the next
   * byte with `(-256 >> b) & 0xff` gives 0 exactly when `8 * idx + b`
   * leading bits are zero.
   */
  lemma PartialByteTest(d: Digest, idx: nat, b: nat, low: int)
    requires idx < |d| && 1 <= b <= 7 && low == LowMask(b)
    requires forall k | 0 <= k < idx :: d[k] == 0
    ensures (d[idx] as bv8) & (low as bv8) == 0 <==> ZeroPrefix(d, 8 * idx + b)
  {
    MaskSelectsTopBits(b);
    ZeroPrefixExtend(d, idx, b);
  }

  /** An all-zero digest meets every target up to its 160 bits. */
  lemma ZeroDigestPasses(n: nat)
    requires n <= 160
    ensures ZeroPrefix(Zeros(20), n)
  {
    forall i | 0 <= i < n ensures !DigestBitSet(Zeros(20), i) {
      assert Zeros(20)[i / 8] == 0;
    }
  }

  /** A digest whose first bit is set meets no target of 1 or more. */
  lemma TopBitSetFails(d: Digest, n: nat)
    requires d[0] >= 0x80 && n >= 1
    ensures !ZeroPrefix(d, n)
  {
    assert DigestBitSet(d, 0);
  }

  // ---------------------------------------------------------------------------
  // The search
  // ---------------------------------------------------------------------------

  /** The message with counter `c` written big-endian over its first 4 bytes. */
  function WithCounter(m: seq<byte>, c: u32): (r: seq<byte>)
    requires |m| >= 4
    ensures |r| == |m|
  {
    BigEndian(c) + m[4..]
  }

  /** Counter `c` is a collision for message `m` and the target. */
  predicate Passes(m: seq<byte>, sha1: seq<byte> -> Digest, target: u32, c: int)
    requires |m| >= 4 && 0 <= c < AllCounters
  {
    ZeroPrefix(sha1(WithCounter(m, c as u32)), target as nat)
  }

  datatype SearchOutcome = Found(counter: u32) | Exhausted

  /** The first counter in `from .. limit-1`, in increasing order, that passes. */
  function FirstMatch(m: seq<byte>, sha1: seq<byte> -> Digest, target: u32, from: int, limit: int): SearchOutcome
    requires |m| >= 4 && 0 <= from <= limit <= AllCounters
    decreases limit - from
  {
    if from == limit then Exhausted
    else if Passes(m, sha1, target, from) then Found(from as u32)
    else FirstMatch(m, sha1, target, from + 1, limit)
  }

  /** A found counter passes and every smaller one in range fails, and conversely. */
  /** One step of the search: try `from`, else go on from `from + 1`. */
  lemma FirstMatchStep(m: seq<byte>, sha1: seq<byte> -> Digest, target: u32, from: int, limit: int)
    requires |m| >= 4 && 0 <= from < limit <= AllCounters
    ensures Passes(m, sha1, target, from) ==> FirstMatch(m, sha1, target, from, limit) == Found(from as u32)
    ensures !Passes(m, sha1, target, from) ==>
      FirstMatch(m, sha1, target, from, limit) == FirstMatch(m, sha1, target, from + 1, limit)
  {
  }

  lemma {:induction false} FirstMatchFound(m: seq<byte>, sha1: seq<byte> -> Digest, target: u32, from: int, limit: int, c: u32)
    requires |m| >= 4 && 0 <= from <= limit <= AllCounters
    ensures FirstMatch(m, sha1, target, from, limit) == Found(c) <==>
      from <= c as int < limit && Passes(m, sha1, target, c as int) &&
      forall j | from <= j < c as int :: !Passes(m, sha1, target, j)
    decreases limit - from
  {
    if from < limit && !Passes(m, sha1, target, from) {
      FirstMatchFound(m, sha1, target, from + 1, limit, c);
    }
  }

  /** The search is exhausted exactly when no counter in range passes. */
  lemma {:induction false} FirstMatchExhausted(m: seq<byte>, sha1: seq<byte> -> Digest, target: u32, from: int, limit: int)
    requires |m| >= 4 && 0 <= from <= limit <= AllCounters
    ensures FirstMatch(m, sha1, target, from, limit) == Exhausted <==>
      forall j | from <= j < limit :: !Passes(m, sha1, target, j)
    decreases limit - from
  {
    if from < limit && !Passes(m, sha1, target, from) {
      FirstMatchExhausted(m, sha1, target, from + 1, limit);
    }
  }

  /** A digest that meets target 1 only for the counter 0xFFFFFFFF. */
  function OnlyLastCounter(msg: seq<byte>): Digest
  {
    if |msg| >= 4 && msg[..4] == BigEndian(0xFFFF_FFFF) then Zeros(20) else [0x80] + Zeros(19)
  }

  /**
   * The loop as written stops before the counter 0xFFFFFFFF: with a hash for
   * which only that counter reaches the target it reports exhaustion, while a
   * search of every 32-bit counter finds it.
   */
  lemma LastCounterSkipped()
    ensures FirstMatch(Zeros(48), OnlyLastCounter, 1, 0, TriedCounters) == Exhausted
    ensures FirstMatch(Zeros(48), OnlyLastCounter, 1, 0, AllCounters) == Found(0xFFFF_FFFF)
  {
    var m := Zeros(48);
    forall j | 0 <= j < TriedCounters ensures !Passes(m, OnlyLastCounter, 1, j) {
      BigEndianInjective(j as u32, 0xFFFF_FFFF);
      assert WithCounter(m, j as u32)[..4] == BigEndian(j as u32);
      TopBitSetFails([0x80] + Zeros(19), 1);
    }
    FirstMatchExhausted(m, OnlyLastCounter, 1, 0, TriedCounters);
    assert WithCounter(m, 0xFFFF_FFFF)[..4] == BigEndian(0xFFFF_FFFF);
    ZeroDigestPasses(1);
    FirstMatchFound(m, OnlyLastCounter, 1, 0, AllCounters, 0xFFFF_FFFF);
  }

  // ---------------------------------------------------------------------------
  // The globals and the public entry points
  // ---------------------------------------------------------------------------

  /** The globals `currentTarget`, `currentcount` and `hascollision`. */
  class Driver {
    var currentTarget: u32
    var currentcount: u32
    var hascollision: u32

    /** Static storage starts zeroed. */
    constructor ()
      ensures currentTarget == 0 && currentcount == 0 && hascollision == 0
    {
      currentTarget, currentcount, hascollision := 0, 0, 0;
    }

    /** settarget */
    method SetTarget(n: i32)
      modifies this`currentTarget
      ensures currentTarget == TargetFor(n)
    {
      currentTarget := if n > 0 then n as int as u32 else 1;
    }

    /** collisionfound: `hascollision` read back as an `int`. */
    function CollisionFound(): (r: i32)
      reads this
      ensures ToUnsigned(r) == hascollision
      ensures hascollision < 0x8000_0000 ==> r as int == hascollision as int
    {
      ToInt(hascollision)
    }

    /** shacomputed: `currentcount` read back as an `int`. */
    function ShaComputed(): (r: i32)
      reads this
      ensures ToUnsigned(r) == currentcount
      ensures currentcount < 0x8000_0000 ==> r as int == currentcount as int
    {
      ToInt(currentcount)
    }

    /**
     * searchcollision with the coprocessor: reset the count and the flag,
     * then return what the collision instruction answers for `currentTarget-1`
     * (unsigned, so a target of 0 would wrap to 0xFFFFFFFF).
     */
    method SearchCollision(collide: u32 -> u32) returns (r: i32)
      modifies this`currentcount, this`hascollision
      ensures currentcount == 0 && hascollision == 0
      ensures ShaComputed() == 0 && CollisionFound() == 0
      ensures ToUnsigned(r) == collide(Pred(currentTarget))
    {
      currentcount := 0;
      hascollision := 0;
      r := ToInt(collide(Pred(currentTarget)));
    }

    /**
     * The software search loop of searchcollision, as written: counters
     * 0 .. 0xFFFFFFFE in order are written into bytes 0..3 of the search
     * string `s`, its first 48 bytes are hashed and checked against the target; the first passing
     * counter is returned, and 0 when none passes. `currentcount` counts the
     * failed trials.
     */
    method SoftwareSearch(s: array<byte>, sha1: seq<byte> -> Digest) returns (r: i32)
      requires s.Length >= MessageBytes && currentTarget <= 160
      modifies this`currentcount, this`hascollision, s
      ensures hascollision == 0
      ensures s[4..] == old(s[4..])
      ensures match FirstMatch(old(s[..MessageBytes]), sha1, currentTarget, 0, TriedCounters)
        case Found(c) => r == ToInt(c) && currentcount == c && s[..4] == BigEndian(c)
        case Exhausted => r == 0 && currentcount == 0xFFFF_FFFF && s[..4] == BigEndian(0xFFFF_FFFE)
    {
      currentcount := 0;
      hascollision := 0;
      ghost var m := s[..MessageBytes];
      while currentcount < 0xFFFF_FFFF
        invariant s[4..] == old(s[4..]) && hascollision == 0
        invariant currentcount > 0 ==> s[..4] == BigEndian(currentcount - 1)
        invariant FirstMatch(m, sha1, currentTarget, 0, TriedCounters)
               == FirstMatch(m, sha1, currentTarget, currentcount as int, TriedCounters)
        decreases 0xFFFF_FFFF - currentcount
      {
        var digest := Trial(s, sha1, m, currentcount);
        var ok := TestDigest(digest, currentTarget);
        FirstMatchStep(m, sha1, currentTarget, currentcount as int, TriedCounters);
        assert ok == 1 <==> Passes(m, sha1, currentTarget, currentcount as int);
        if ok == 1 {
          return ToInt(currentcount);
        }
        ghost var tried := currentcount;
        ghost var rest := FirstMatch(m, sha1, currentTarget, currentcount as int + 1, TriedCounters);
        currentcount := currentcount + 1;
        assert s[..4] == BigEndian(tried) && currentcount - 1 == tried;
        assert FirstMatch(m, sha1, currentTarget, currentcount as int, TriedCounters) == rest;
      }
      return 0;
    }

    /**
     * The loop as evidently intended: every 32-bit counter, 0xFFFFFFFF
     * included, is tried; after the last failure the count stays at
     * 0xFFFFFFFF instead of wrapping.
     */
    method SearchAllCounters(s: array<byte>, sha1: seq<byte> -> Digest) returns (r: i32)
      requires s.Length >= MessageBytes && currentTarget <= 160
      modifies this`currentcount, this`hascollision, s
      ensures hascollision == 0
      ensures s[4..] == old(s[4..])
      ensures match FirstMatch(old(s[..MessageBytes]), sha1, currentTarget, 0, AllCounters)
        case Found(c) => r == ToInt(c) && currentcount == c && s[..4] == BigEndian(c)
        case Exhausted => r == 0 && currentcount == 0xFFFF_FFFF && s[..4] == BigEndian(0xFFFF_FFFF)
    {
      currentcount := 0;
      hascollision := 0;
      ghost var m := s[..MessageBytes];
      while true
        invariant s[4..] == old(s[4..]) && hascollision == 0
        invariant FirstMatch(m, sha1, currentTarget, 0, AllCounters)
               == FirstMatch(m, sha1, currentTarget, currentcount as int, AllCounters)
        decreases 0xFFFF_FFFF - currentcount
      {
        var digest := Trial(s, sha1, m, currentcount);
        var ok := TestDigest(digest, currentTarget);
        FirstMatchStep(m, sha1, currentTarget, currentcount as int, AllCounters);
        assert ok == 1 <==> Passes(m, sha1, currentTarget, currentcount as int);
        if ok == 1 {
          return ToInt(currentcount);
        }
        if currentcount == 0xFFFF_FFFF {
          return 0;
        }
        ghost var rest := FirstMatch(m, sha1, currentTarget, currentcount as int + 1, AllCounters);
        currentcount := currentcount + 1;
        assert FirstMatch(m, sha1, currentTarget, currentcount as int, AllCounters) == rest;
      }
    }
  }

  /**
   * One trial of the search loop: write `c` big-endian into bytes 0..3 of `s`
   * and hash its first 48 bytes.
   */
  method Trial(s: array<byte>, sha1: seq<byte> -> Digest, ghost m: seq<byte>, c: u32) returns (digest: Digest)
    requires s.Length >= MessageBytes && |m| == MessageBytes && s[4..MessageBytes] == m[4..]
    modifies s
    ensures s[4..] == old(s[4..]) && s[..4] == BigEndian(c)
    ensures s[..MessageBytes] == WithCounter(m, c)
    ensures digest == sha1(WithCounter(m, c))
  {
    var enc := BigEndian(c);
    s[0] := enc[0];
    s[1] := enc[1];
    s[2] := enc[2];
    s[3] := enc[3];
    assert s[..MessageBytes] == s[..4] + s[4..MessageBytes];
    digest := sha1(s[..MessageBytes]);
  }
}
