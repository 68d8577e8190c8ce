/**
 * The host program around the search: the digest printer, the rebuild of
 * the colliding message, the periodic status callback and the round loop
 * of `main` that raises the target by one bit per round.
 */
module Collisions {
  import opened Bytes
  import opened CInterface

  /** `updateeach`: seconds between two status callbacks. */
  const UpdateEach: int := 10

  /** The rounds of `main` stop after this many targets. */
  const MaxRounds: int := 32

  /** A round ends the run once this many status callbacks fired during it. */
  const MaxCallbacks: int := 10

  // ---------------------------------------------------------------------------
  // Text
  // ---------------------------------------------------------------------------

  /** The bytes of a string of one-byte characters. */
  function Ascii(s: string): (b: seq<byte>)
    requires forall i | 0 <= i < |s| :: s[i] as int < 0x100
    ensures |b| == |s| && forall i | 0 <= i < |s| :: b[i] as int == s[i] as int
  {
    seq(|s|, i requires 0 <= i < |s| => s[i] as int as byte)
  }

  /** The `secretkernel` of `main`. */
  const SecretKernel: seq<byte> := Ascii("XXXX Keep your FPGA spinning!")

  /**
   * The kernel is 29 bytes, begins with the four placeholder bytes 'X' and
   * holds no NUL, so the message is the kernel followed by 19 NULs.
   */
  lemma SecretKernelMessage()
    ensures |SecretKernel| == 29 && SecretKernel[..4] == Ascii("XXXX")
    ensures Strncpy(SecretKernel, MessageBytes) == SecretKernel + Zeros(19)
  {
    assert NUL !in SecretKernel by {
      forall i | 0 <= i < |SecretKernel| ensures SecretKernel[i] != NUL {
        assert "XXXX Keep your FPGA spinning!"[i] as int >= 0x20;
      }
    }
    StrncpyShort(SecretKernel, MessageBytes);
  }

  // ---------------------------------------------------------------------------
  // printdigest
  // ---------------------------------------------------------------------------

  /** One lowercase hexadecimal digit, as `%x` prints it. */
  function HexDigit(n: int): (c: char)
    requires 0 <= n < 16
    ensures '0' <= c <= '9' || 'a' <= c <= 'f'
  {
    if n < 10 then ('0' as int + n) as char else ('a' as int + n - 10) as char
  }

  /** The value of a hexadecimal digit; anything else reads as 0. */
  function HexValue(c: char): (n: int)
    ensures 0 <= n < 16
  {
    if '0' <= c <= '9' then c as int - '0' as int
    else if 'a' <= c <= 'f' then c as int - 'a' as int + 10
    else 0
  }

  lemma HexValueOfDigit(n: int)
    requires 0 <= n < 16
    ensures HexValue(HexDigit(n)) == n
  {
  }

  /** `%02x` of one byte: two digits, high nibble first. */
  function Hex2(b: byte): (s: string)
    ensures |s| == 2
  {
    [HexDigit(b as int / 16), HexDigit(b as int % 16)]
  }

  /** What the loop of printdigest has printed after its first `i` bytes. */
  function HexPrefix(d: Digest, i: nat): string
    requires i <= |d|
  {
    if i == 0 then ""
    else HexPrefix(d, i - 1) + Hex2(d[i - 1]) + (if i % 4 == 0 then " " else "")
  }

  /** The whole line printdigest prints. */
  function DigestLine(d: Digest): (line: string)
    ensures |line| == 46
  {
    HexPrefixLength(d, |d|);
    HexPrefix(d, |d|) + "\n"
  }

  lemma {:induction false} HexPrefixLength(d: Digest, i: nat)
    requires i <= |d|
    ensures |HexPrefix(d, i)| == Pos(i)
  {
    if i > 0 {
      HexPrefixLength(d, i - 1);
    }
  }

  /** Where the two digits of byte `k` start: two per byte, one space per group of four. */
  function Pos(k: nat): nat
  {
    2 * k + k / 4
  }

  /** Appending a byte's digits keeps what was printed before. */
  lemma HexPrefixExtends(d: Digest, i: nat, j: nat)
    requires 0 < i <= |d| && j < |HexPrefix(d, i - 1)|
    ensures j < |HexPrefix(d, i)| && HexPrefix(d, i)[j] == HexPrefix(d, i - 1)[j]
  {
  }

  /** The last byte's digits, and its space, come right after what was printed before. */
  lemma HexPrefixLast(d: Digest, i: nat)
    requires 0 < i <= |d|
    ensures Pos(i - 1) + 1 < |HexPrefix(d, i)|
    ensures HexPrefix(d, i)[Pos(i - 1)] == HexDigit(d[i - 1] as int / 16)
    ensures HexPrefix(d, i)[Pos(i - 1) + 1] == HexDigit(d[i - 1] as int % 16)
    ensures i % 4 == 0 ==> Pos(i - 1) + 2 < |HexPrefix(d, i)| && HexPrefix(d, i)[Pos(i - 1) + 2] == ' '
  {
    HexPrefixLength(d, i - 1);
    var p := HexPrefix(d, i - 1);
    var q := p + Hex2(d[i - 1]) + (if i % 4 == 0 then " " else "");
    assert HexPrefix(d, i) == q;
    assert q[|p|] == Hex2(d[i - 1])[0] && q[|p| + 1] == Hex2(d[i - 1])[1];
    if i % 4 == 0 {
      assert q[|p| + 2] == ' ';
    }
  }

  /** After `i` bytes, the two digits of byte `k` stand at `Pos(k)`, high nibble first. */
  lemma {:induction false} HexPrefixDigit(d: Digest, i: nat, k: nat)
    requires k < i <= |d|
    ensures Pos(k) + 1 < |HexPrefix(d, i)|
    ensures HexPrefix(d, i)[Pos(k)] == HexDigit(d[k] as int / 16)
    ensures HexPrefix(d, i)[Pos(k) + 1] == HexDigit(d[k] as int % 16)
  {
    HexPrefixLast(d, i);
    if k < i - 1 {
      HexPrefixDigit(d, i - 1, k);
      HexPrefixExtends(d, i, Pos(k));
      HexPrefixExtends(d, i, Pos(k) + 1);
    }
  }

  /** After `i` bytes, a space follows the digits of every fourth byte. */
  lemma {:induction false} HexPrefixSpace(d: Digest, i: nat, k: nat)
    requires k < i <= |d| && (k + 1) % 4 == 0
    ensures Pos(k) + 2 < |HexPrefix(d, i)| && HexPrefix(d, i)[Pos(k) + 2] == ' '
  {
    HexPrefixLast(d, i);
    if k < i - 1 {
      HexPrefixSpace(d, i - 1, k);
      HexPrefixExtends(d, i, Pos(k) + 2);
    }
  }

  /** Every character of the prefix is a lowercase hex digit or a space. */
  lemma {:induction false} HexPrefixChars(d: Digest, i: nat)
    requires i <= |d|
    ensures forall j | 0 <= j < |HexPrefix(d, i)| ::
      var c := HexPrefix(d, i)[j]; '0' <= c <= '9' || 'a' <= c <= 'f' || c == ' '
  {
    if i > 0 {
      HexPrefixChars(d, i - 1);
      var p := HexPrefix(d, i - 1);
      var q := HexPrefix(d, i);
      assert q == p + Hex2(d[i - 1]) + (if i % 4 == 0 then " " else "");
      forall j | 0 <= j < |p| ensures q[j] == p[j] {
      }
    }
  }

  /**
   * The printed line is 46 characters: 20 groups of two lowercase digits,
   * a space after bytes 3, 7, 11, 15 and 19, then the newline.
   */
  lemma DigestLineShape(d: Digest)
    ensures |DigestLine(d)| == 46 && DigestLine(d)[45] == '\n'
    ensures forall k | 0 <= k < 20 ::
      DigestLine(d)[Pos(k)] == HexDigit(d[k] as int / 16) &&
      DigestLine(d)[Pos(k) + 1] == HexDigit(d[k] as int % 16)
    ensures forall k | 0 <= k < 20 && (k + 1) % 4 == 0 :: DigestLine(d)[Pos(k) + 2] == ' '
    ensures forall j | 0 <= j < 46 :: var c := DigestLine(d)[j];
      '0' <= c <= '9' || 'a' <= c <= 'f' || c == ' ' || c == '\n'
  {
    HexPrefixLength(d, 20);
    HexPrefixChars(d, 20);
    var p := HexPrefix(d, 20);
    assert DigestLine(d) == p + "\n";
    forall j | 0 <= j < 45 ensures DigestLine(d)[j] == p[j] {
    }
    forall k | 0 <= k < 20 ensures DigestLine(d)[Pos(k)] == p[Pos(k)] == HexDigit(d[k] as int / 16) &&
      DigestLine(d)[Pos(k) + 1] == p[Pos(k) + 1] == HexDigit(d[k] as int % 16)
    {
      HexPrefixDigit(d, 20, k);
    }
    forall k | 0 <= k < 20 && (k + 1) % 4 == 0 ensures DigestLine(d)[Pos(k) + 2] == p[Pos(k) + 2] == ' ' {
      HexPrefixSpace(d, 20, k);
    }
  }

  /** Reading a printed line back: the two digits at `Pos(k)` give byte `k`. */
  function Unhex(line: string): (d: Digest)
    requires |line| == 46
  {
    seq(20, k requires 0 <= k < 20 =>
      (HexValue(line[Pos(k)]) * 16 + HexValue(line[Pos(k) + 1])) as byte)
  }

  /** The printed digits decode back to the digest. */
  lemma UnhexDigestLine(d: Digest)
    ensures Unhex(DigestLine(d)) == d
  {
    DigestLineShape(d);
    forall k | 0 <= k < 20 ensures Unhex(DigestLine(d))[k] == d[k] {
      HexValueOfDigit(d[k] as int / 16);
      HexValueOfDigit(d[k] as int % 16);
    }
  }

  /**
   * printdigest: per byte its two digits, and a space after every fourth
   * byte (`!((i+1)&3)`, which for the unsigned `i` is `(i+1) % 4 == 0`);
   * then the newline.
   */
  method PrintDigest(d: Digest) returns (out: string)
    ensures out == DigestLine(d)
  {
    out := "";
    var i := 0;
    while i < 20
      invariant 0 <= i <= 20 && out == HexPrefix(d, i)
    {
      out := out + Hex2(d[i]);
      if (i + 1) % 4 == 0 {
        out := out + " ";
      }
      i := i + 1;
    }
    out := out + "\n";
  }

  // ---------------------------------------------------------------------------
  // reportcollision
  // ---------------------------------------------------------------------------

  /**
   * The message reportcollision hashes: `s[48]` zeroed, the kernel copied
   * with strncpy, then the counter big-endian over bytes 0..3.
   */
  method ReportMessage(kernel: seq<byte>, c: u32) returns (msg: seq<byte>)
    ensures msg == WithCounter(Strncpy(kernel, MessageBytes), c)
  {
    var s := new byte[MessageBytes](_ => NUL);
    StrNCopy(s, kernel, MessageBytes);
    var enc := BigEndian(c);
    s[0] := enc[0];
    s[1] := enc[1];
    s[2] := enc[2];
    s[3] := enc[3];
    msg := s[..];
    assert msg == s[..4] + s[4..];
  }

  /**
   * The message is 48 bytes; decoding bytes 0..3 gives the counter back,
   * and bytes 4..47 are the copied kernel.
   */
  lemma ReportLayout(kernel: seq<byte>, c: u32)
    ensures var msg := WithCounter(Strncpy(kernel, MessageBytes), c);
      |msg| == MessageBytes && Word(msg[..4]) == c &&
      msg[4..] == Strncpy(kernel, MessageBytes)[4..]
  {
    StrncpyAt(kernel, MessageBytes, 0);
    WordOfBigEndian(c);
    var msg := WithCounter(Strncpy(kernel, MessageBytes), c);
    assert msg[..4] == BigEndian(c);
  }

  /**
   * For one kernel, the messages of two counters agree after byte 3, and
   * they are equal exactly when the counters are.
   */
  lemma ReportDiffersOnlyInCounter(kernel: seq<byte>, c1: u32, c2: u32)
    ensures var m1 := WithCounter(Strncpy(kernel, MessageBytes), c1);
      var m2 := WithCounter(Strncpy(kernel, MessageBytes), c2);
      m1[4..] == m2[4..] && (m1 == m2 <==> c1 == c2)
  {
    StrncpyAt(kernel, MessageBytes, 0);
    var m1 := WithCounter(Strncpy(kernel, MessageBytes), c1);
    var m2 := WithCounter(Strncpy(kernel, MessageBytes), c2);
    assert m1[..4] == BigEndian(c1) && m2[..4] == BigEndian(c2);
    BigEndianInjective(c1, c2);
  }

  /**
   * The reported message is the first 48 bytes of the block loaded into the
   * hardware, with the counter written over the four placeholder bytes.
   */
  lemma ReportMatchesBlock(kernel: seq<byte>, c: u32)
    ensures WithCounter(Strncpy(kernel, MessageBytes), c) == WithCounter(Block(kernel)[..MessageBytes], c)
  {
    BlockLayout(kernel);
  }

  /**
   * When the counter reported is the first one the search finds, the digest
   * reportcollision prints meets the target.
   */
  lemma ReportedDigestPasses(kernel: seq<byte>, sha1: seq<byte> -> Digest, target: u32, c: u32)
    requires FirstMatch(Strncpy(kernel, MessageBytes), sha1, target, 0, TriedCounters) == Found(c)
    ensures ZeroPrefix(sha1(WithCounter(Strncpy(kernel, MessageBytes), c)), target as nat)
  {
    StrncpyAt(kernel, MessageBytes, 0);
    FirstMatchFound(Strncpy(kernel, MessageBytes), sha1, target, 0, TriedCounters, c);
  }

  /**
   * reportcollision with printcollision: the value shown on the display, the
   * digest of the rebuilt message and the line printdigest prints for it.
   */
  method ReportCollision(kernel: seq<byte>, c: u32, sha1: seq<byte> -> Digest)
    returns (display: u32, digest: Digest, line: string)
    ensures display == c
    ensures digest == sha1(WithCounter(Strncpy(kernel, MessageBytes), c))
    ensures line == DigestLine(digest)
  {
    var msg := ReportMessage(kernel, c);
    digest := sha1(msg);
    display := c;
    line := PrintDigest(digest);
  }

  // ---------------------------------------------------------------------------
  // updatecallback
  // ---------------------------------------------------------------------------

  /** `cbcontext`: the count at the previous callback and the callbacks so far. */
  class CallbackContext {
    var prevcount: i32
    var callbackcount: i32

    constructor ()
      ensures prevcount == 0 && callbackcount == 0
    {
      prevcount, callbackcount := 0, 0;
    }

    /**
     * updatecallback: count the callback, report the count and the digests
     * per second over the last `updateeach` seconds (C division), remember
     * the count, and ask to be called again after `updateeach` seconds of
     * `ticks` ticks each (an unsigned product).
     */
    method UpdateCallback(driver: Driver, ticks: u32) returns (count: i32, rate: int, next: u32)
      requires callbackcount < 0x7FFF_FFFF
      requires -0x8000_0000 <= driver.ShaComputed() as int - prevcount as int < 0x8000_0000
      modifies this
      ensures callbackcount as int == old(callbackcount) as int + 1
      ensures count == driver.ShaComputed()
      ensures rate == Rate(old(prevcount) as int, count as int)
      ensures prevcount == count
      ensures next as int == (UpdateEach * ticks as int) % 0x1_0000_0000
    {
      callbackcount := callbackcount + 1;
      count := driver.ShaComputed();
      rate := CDiv(count as int - prevcount as int, UpdateEach);
      prevcount := driver.ShaComputed();
      next := ((UpdateEach * ticks as int) % 0x1_0000_0000) as u32;
    }
  }

  /** The reported rate: digests since the previous callback, per second, rounded toward zero. */
  function Rate(prev: int, count: int): (r: int)
  {
    CDiv(count - prev, UpdateEach)
  }

  /**
   * A count that grew by `n` is reported as the whole number of tens in `n`;
   * a count that fell (the search was restarted) gives no positive rate.
   */
  lemma RateBounds(prev: int, count: int)
    ensures count >= prev ==> (Rate(prev, count) >= 0 &&
      UpdateEach * Rate(prev, count) <= count - prev < UpdateEach * (Rate(prev, count) + 1))
    ensures count < prev ==> (Rate(prev, count) <= 0 &&
      UpdateEach * Rate(prev, count) >= count - prev > UpdateEach * (Rate(prev, count) - 1))
  {
  }

  // ---------------------------------------------------------------------------
  // main
  // ---------------------------------------------------------------------------

  /**
   * The rounds `main` runs when `fired[i]` status callbacks fire during the
   * round with target `i + 1`: from that round on, the first one with at
   * least ten callbacks, or round 32.
   */
  function RoundsFrom(fired: seq<nat>, i: nat): nat
    requires |fired| == MaxRounds && i < MaxRounds
    decreases MaxRounds - i
  {
    if fired[i] >= MaxCallbacks || i + 1 == MaxRounds then i + 1 else RoundsFrom(fired, i + 1)
  }

  function RoundCount(fired: seq<nat>): nat
    requires |fired| == MaxRounds
  {
    RoundsFrom(fired, 0)
  }

  lemma {:induction false} RoundsFromBounds(fired: seq<nat>, i: nat, r: nat)
    requires |fired| == MaxRounds && i < MaxRounds
    ensures RoundsFrom(fired, i) == r <==>
      i < r <= MaxRounds && (fired[r - 1] >= MaxCallbacks || r == MaxRounds) &&
      forall j | i <= j < r - 1 :: fired[j] < MaxCallbacks
    decreases MaxRounds - i
  {
    if fired[i] < MaxCallbacks && i + 1 < MaxRounds {
      RoundsFromBounds(fired, i + 1, r);
    }
  }

  /**
   * The run lasts `r` rounds exactly when `r` is between 1 and 32, no
   * earlier round had ten callbacks, and round `r` had ten or is round 32.
   */
  lemma RoundCountCharacterised(fired: seq<nat>, r: nat)
    requires |fired| == MaxRounds
    ensures RoundCount(fired) == r <==>
      1 <= r <= MaxRounds && (fired[r - 1] >= MaxCallbacks || r == MaxRounds) &&
      forall j | 0 <= j < r - 1 :: fired[j] < MaxCallbacks
  {
    RoundsFromBounds(fired, 0, r);
  }

  /**
   * The alarm's callbacks of one round, run one after another once the
   * search has returned: `currentcount` is still 0, so every one reports a
   * count of 0.
   */
  method FireCallbacks(cb: CallbackContext, driver: Driver, ticks: u32, n: nat)
    requires n < 0x7FFF_FFFF && cb.callbackcount == 0 && cb.prevcount == 0 && driver.currentcount == 0
    modifies cb
    ensures cb.callbackcount as int == n && cb.prevcount == 0
  {
    var fired := 0;
    while fired < n
      invariant fired <= n && cb.callbackcount as int == fired && cb.prevcount == 0
    {
      var _, _, _ := cb.UpdateCallback(driver, ticks);
      fired := fired + 1;
    }
  }

  /**
   * One round of `main` for target `iteration`: set the target, load the
   * block, reset the callback context, search, let `fired` callbacks run and
   * report the counter.
   */
  method Round(driver: Driver, cb: CallbackContext, kernel: seq<byte>, sha1: seq<byte> -> Digest,
               collide: (seq<WordPair>, u32) -> u32, ticks: u32, iteration: u32, fired: nat)
    returns (cnt: u32, digest: Digest)
    requires 1 <= iteration as int <= MaxRounds && fired < 0x7FFF_FFFF
    modifies driver, cb
    ensures driver.currentTarget == iteration && driver.currentcount == 0 && driver.hascollision == 0
    ensures cb.callbackcount as int == fired && cb.prevcount == 0
    ensures cnt == collide(Pack(Block(kernel)), iteration - 1)
    ensures digest == sha1(WithCounter(Strncpy(kernel, MessageBytes), cnt))
  {
    driver.SetTarget(iteration as int as i32);
    var sent := SetSearchString(kernel);
    cb.prevcount := 0;
    cb.callbackcount := 0;
    var r := driver.SearchCollision(t => collide(sent, t));
    cnt := ToUnsigned(r);
    FireCallbacks(cb, driver, ticks, fired);
    var _, d, _ := ReportCollision(kernel, cnt, sha1);
    digest := d;
  }

  /**
   * The round loop of `main`. Round `k` sets target `k`, loads the block of
   * `kernel`, resets the callback context, searches with the hardware
   * `collide` (its answer for a loaded block and `currentTarget-1`), lets
   * `fired[k-1]` status callbacks run, and reports the counter found. The
   * loop goes on while fewer than ten callbacks fired and fewer than 32
   * rounds ran.
   */
  method RunRounds(driver: Driver, kernel: seq<byte>, sha1: seq<byte> -> Digest,
                   collide: (seq<WordPair>, u32) -> u32, ticks: u32, fired: seq<nat>)
    returns (rounds: nat, found: seq<u32>, digests: seq<Digest>)
    requires |fired| == MaxRounds && forall i | 0 <= i < MaxRounds :: fired[i] < 0x7FFF_FFFF
    modifies driver
    ensures rounds == RoundCount(fired)
    ensures driver.currentTarget as int == rounds
    ensures driver.currentcount == 0 && driver.hascollision == 0
    ensures |found| == rounds && |digests| == rounds
    ensures forall k | 0 <= k < rounds ::
      found[k] == collide(Pack(Block(kernel)), k as u32) &&
      digests[k] == sha1(WithCounter(Strncpy(kernel, MessageBytes), found[k]))
  {
    var iteration: u32 := 0;
    var cb := new CallbackContext();
    found, digests := [], [];
    var more := true;
    ghost var blk := Pack(Block(kernel));
    ghost var msg := Strncpy(kernel, MessageBytes);
    while more
      invariant iteration as int <= MaxRounds && |found| == iteration as int && |digests| == iteration as int
      invariant forall j | 0 <= j < iteration as int - 1 :: fired[j] < MaxCallbacks
      invariant more ==> iteration as int < MaxRounds && (iteration > 0 ==> fired[iteration - 1] < MaxCallbacks)
      invariant !more ==> iteration > 0 && (fired[iteration - 1] >= MaxCallbacks || iteration as int == MaxRounds)
      invariant iteration > 0 ==> (driver.currentTarget == iteration &&
        driver.currentcount == 0 && driver.hascollision == 0)
      invariant forall k | 0 <= k < iteration as int ::
        found[k] == collide(blk, k as u32) && digests[k] == sha1(WithCounter(msg, found[k]))
      decreases MaxRounds - iteration as int
    {
      iteration := iteration + 1;
      var cnt, digest := Round(driver, cb, kernel, sha1, collide, ticks, iteration, fired[iteration - 1]);
      found := found + [cnt];
      digests := digests + [digest];
      more := cb.callbackcount < MaxCallbacks as i32 && iteration < MaxRounds as u32;
    }
    rounds := iteration as nat;
    RoundCountCharacterised(fired, rounds);
  }
}
