/**
 * Machine-level vocabulary shared by the two C files: fixed-width integers,
 * the C conversions between them, big-endian words, and the C library's
 * string copy `strncpy`.
 */
module Bytes {

  /** An `unsigned char`. */
  newtype byte = x: int | 0 <= x < 0x100

  /** An `unsigned` / `uint32_t` / `alt_u32`. */
  newtype u32 = x: int | 0 <= x < 0x1_0000_0000

  /** A 32-bit two's-complement `int`. */
  newtype i32 = x: int | -0x8000_0000 <= x < 0x8000_0000

  const NUL: byte := 0

  function Zeros(n: nat): (z: seq<byte>)
    ensures |z| == n && forall i | 0 <= i < n :: z[i] == NUL
  {
    seq(n, _ => NUL)
  }

  // ---------------------------------------------------------------------------
  // C integer conversions
  // ---------------------------------------------------------------------------

  /** An `unsigned` returned as `int` (the value modulo 2^32, as the compilers of this target do). */
  function ToInt(u: u32): (r: i32)
    ensures (r as int - u as int) % 0x1_0000_0000 == 0
    ensures u < 0x8000_0000 ==> r as int == u as int
    ensures u >= 0x8000_0000 ==> r < 0
  {
    if u < 0x8000_0000 then u as int as i32 else (u as int - 0x1_0000_0000) as i32
  }

  /** An `int` stored into an `unsigned` (reduction modulo 2^32, defined by C). */
  function ToUnsigned(n: i32): (u: u32)
    ensures (u as int - n as int) % 0x1_0000_0000 == 0
    ensures n >= 0 ==> u as int == n as int
  {
    (n as int % 0x1_0000_0000) as u32
  }

  lemma UnsignedIntRoundTrip(u: u32, n: i32)
    ensures ToUnsigned(ToInt(u)) == u
    ensures ToInt(ToUnsigned(n)) == n
  {
  }

  /** Unsigned subtraction `u - 1`, which wraps from 0 to 0xFFFFFFFF. */
  function Pred(u: u32): (r: u32)
    ensures (r as int + 1) % 0x1_0000_0000 == u as int
  {
    if u == 0 then 0xFFFF_FFFF else u - 1
  }

  function Abs(a: int): nat
  {
    if a >= 0 then a else -a
  }

  /**
   * C's `/` on `int`, which truncates toward zero (Dafny's `/` is Euclidean):
   * the magnitude is rounded down and the sign is that of `a`.
   */
  function CDiv(a: int, b: int): (q: int)
    requires b > 0
    ensures Abs(q) == Abs(a) / b
    ensures q == 0 || (q < 0 <==> a < 0)
  {
    if a >= 0 then a / b else -((-a) / b)
  }

  // ---------------------------------------------------------------------------
  // Big-endian 32-bit words
  // ---------------------------------------------------------------------------

  /**
   * The four bytes `(char)(c >> 24)`, `(char)(c >> 16)`, `(char)(c >> 8)`,
   * `(char)c`: most significant first. `WordOfBigEndian` and
   * `BigEndianOfWord` state that these are the base-256 digits of `c`.
   */
  function BigEndian(c: u32): (b: seq<byte>)
    ensures |b| == 4
  {
    [ (c as int / 0x100_0000 % 0x100) as byte,
      (c as int / 0x1_0000 % 0x100) as byte,
      (c as int / 0x100 % 0x100) as byte,
      (c as int % 0x100) as byte ]
  }

  /**
   * `(b[0] << 24) | (b[1] << 16) | (b[2] << 8) | b[3]`; the four shifted bytes
   * do not overlap, so the bitwise or is their sum.
   */
  function Word(b: seq<byte>): (w: u32)
    requires |b| == 4
  {
    (b[0] as int * 0x100_0000 + b[1] as int * 0x1_0000 + b[2] as int * 0x100 + b[3] as int) as u32
  }

  lemma WordOfBigEndian(c: u32)
    ensures Word(BigEndian(c)) == c
  {
    var x := c as int;
    var b3 := x % 0x100;
    var y := x / 0x100;
    var b2 := y % 0x100;
    var z := y / 0x100;
    var b1 := z % 0x100;
    var b0 := z / 0x100;
    assert x == ((b0 * 0x100 + b1) * 0x100 + b2) * 0x100 + b3;
    var b := [b0 as byte, b1 as byte, b2 as byte, b3 as byte];
    assert Word(b) == c;
    BigEndianOfWord(b);
  }

  lemma BigEndianOfWord(b: seq<byte>)
    requires |b| == 4
    ensures BigEndian(Word(b)) == b
  {
    var w := Word(b) as int;
    var hi2 := b[0] as int * 0x100 + b[1] as int;
    var hi3 := hi2 * 0x100 + b[2] as int;
    assert w == hi3 * 0x100 + b[3] as int;
    assert w % 0x100 == b[3] as int && w / 0x100 == hi3;
    assert hi3 % 0x100 == b[2] as int && hi3 / 0x100 == hi2;
    assert hi2 % 0x100 == b[1] as int && hi2 / 0x100 == b[0] as int;
    assert w / 0x1_0000 == hi3 / 0x100;
    assert w / 0x100_0000 == hi2 / 0x100;
  }

  lemma BigEndianInjective(c1: u32, c2: u32)
    ensures BigEndian(c1) == BigEndian(c2) <==> c1 == c2
  {
    if BigEndian(c1) == BigEndian(c2) {
      WordOfBigEndian(c1);
      WordOfBigEndian(c2);
    }
  }

  // ---------------------------------------------------------------------------
  // C strings and strncpy
  // ---------------------------------------------------------------------------

  /**
   * The characters of the C string stored in `v`: everything before its first
   * NUL. The end of `v` stands for the terminator when `v` holds none.
   */
  function CString(v: seq<byte>): (s: seq<byte>)
    ensures s <= v
    ensures NUL !in s
    ensures |s| < |v| ==> v[|s|] == NUL
  {
    if v == [] || v[0] == NUL then [] else [v[0]] + CString(v[1..])
  }

  /**
   * The `n` bytes that `strncpy(dst, v, n)` leaves in `dst`: the characters of
   * the C string `v`, cut at `n`, then NUL up to `n`.
   */
  function Strncpy(v: seq<byte>, n: nat): (r: seq<byte>)
    ensures |r| == n
  {
    var s := CString(v);
    if |s| >= n then s[..n] else s + Zeros(n - |s|)
  }

  lemma StrncpyAt(v: seq<byte>, n: nat, i: nat)
    requires i < n
    ensures |Strncpy(v, n)| == n
    ensures Strncpy(v, n)[i] == if i < |CString(v)| then v[i] else NUL
  {
  }

  /** A string without NUL that fits is copied whole and zero-filled. */
  lemma StrncpyShort(v: seq<byte>, n: nat)
    requires NUL !in v && |v| <= n
    ensures Strncpy(v, n) == v + Zeros(n - |v|)
  {
    CStringWithoutNul(v);
  }

  /** An over-long string is silently truncated to its first `n` bytes. */
  lemma StrncpyTruncates(v: seq<byte>, n: nat)
    requires n <= |v| && NUL !in v[..n]
    ensures Strncpy(v, n) == v[..n]
  {
  }

  lemma {:induction false} CStringWithoutNul(v: seq<byte>)
    requires NUL !in v
    ensures CString(v) == v
  {
    if v != [] {
      assert v[0] in v;
      assert NUL !in v[1..] by {
        forall i | 0 <= i < |v[1..]| ensures v[1..][i] != NUL {
          assert v[1..][i] == v[i + 1];
        }
      }
      CStringWithoutNul(v[1..]);
    }
  }

  /**
   * `strncpy(buf, v, n)` in place: copy until the first NUL of `v` or `n`
   * bytes, then write NUL up to `n`; nothing beyond `n` is written.
   */
  method StrNCopy(buf: array<byte>, v: seq<byte>, n: nat)
    requires n <= buf.Length
    modifies buf
    ensures buf[..n] == Strncpy(v, n)
    ensures buf[n..] == old(buf[n..])
  {
    ghost var s := CString(v);
    var i := 0;
    while i < n && i < |v| && v[i] != NUL
      invariant i <= n && i <= |s|
      invariant forall k | 0 <= k < i :: buf[k] == v[k]
      invariant buf[n..] == old(buf[n..])
    {
      buf[i] := v[i];
      i := i + 1;
    }
    while i < n
      invariant i <= n
      invariant forall k | 0 <= k < i :: buf[k] == if k < |s| then v[k] else NUL
      invariant i < n ==> i >= |s|
      invariant buf[n..] == old(buf[n..])
    {
      buf[i] := NUL;
      i := i + 1;
    }
    forall k | 0 <= k < n ensures buf[..n][k] == Strncpy(v, n)[k] {
      StrncpyAt(v, n, k);
    }
  }
}
