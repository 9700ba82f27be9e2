/**
 The streaming SHA-1 of src/lib/hash_sha1.c. The context buffers partial blocks,
 keeps the message schedule in a doubled 16-word window and pads in place.
 Every method is proved against the reference in Fips180.dfy.
 */
module Sha1 {
  import opened Basics
  import opened Fips180

  // ----- bytes of machine words, on either kind of machine -----

  function LoadNative(bigEndian: bool, b0: byte, b1: byte, b2: byte, b3: byte): word {
    if bigEndian then WordBE(b0, b1, b2, b3) else WordBE(b3, b2, b1, b0)
  }

  function StoreNative(bigEndian: bool, w: word): (s: seq<byte>)
    ensures |s| == 4
  {
    var s := WordBytesBE(w);
    if bigEndian then s else [s[3], s[2], s[1], s[0]]
  }

  function Bswap32(w: word): word {
    (w >> 24) | ((w >> 8) & 0xff00) | ((w << 8) & 0xff0000) | (w << 24)
  }

  lemma SwapAfterLoad(b0: byte, b1: byte, b2: byte, b3: byte)
    ensures Bswap32(LoadNative(false, b0, b1, b2, b3)) == WordBE(b0, b1, b2, b3)
  {
  }

  lemma StoreAfterSwap(w: word)
    ensures StoreNative(false, Bswap32(w)) == WordBytesBE(w)
  {
  }

  /** The k-byte little-endian image of n. */
  function LittleEndian(n: nat, k: nat): (s: seq<byte>)
    ensures |s| == k
  {
    if k == 0 then [] else [(n % 256) as byte] + LittleEndian(n / 256, k - 1)
  }

  function FromLittleEndian(s: seq<byte>): nat {
    if s == [] then 0 else s[0] as nat + 256 * FromLittleEndian(s[1..])
  }

  /** Reverses the eight bytes of a 64-bit number. */
  function Bswap64(n: nat): nat {
    FromLittleEndian(BigEndian(n, 8))
  }

  lemma {:induction false} LittleEndianRoundTrip(s: seq<byte>)
    ensures LittleEndian(FromLittleEndian(s), |s|) == s
  {
    if s != [] {
      LittleEndianRoundTrip(s[1..]);
      ByteRoundTrip(s[0]);
      SplitLowDigit(s[0] as nat, FromLittleEndian(s[1..]));
    }
  }

  lemma ByteRoundTrip(b: byte)
    ensures b as nat < 256 && (b as nat) as byte == b
  {
  }

  lemma SplitLowDigit(d: nat, rest: nat)
    requires d < 256
    ensures (d + 256 * rest) % 256 == d && (d + 256 * rest) / 256 == rest
  {
  }

  function Pow256(k: nat): (p: nat)
    ensures p >= 1
  {
    if k == 0 then 1 else 256 * Pow256(k - 1)
  }

  lemma DivModStep(n: nat, p: nat)
    requires p >= 1
    ensures n % (256 * p) % 256 == n % 256
    ensures n % (256 * p) / 256 == n / 256 % p
  {
    var q, r := n / (256 * p), n % (256 * p);
    assert n == 256 * (p * q) + r;
    assert n / 256 == p * q + r / 256;
    assert 0 <= r / 256 < p;
    ModUnique(n / 256, p, q, r / 256);
  }

  lemma ModUnique(x: nat, p: nat, q: nat, r: nat)
    requires r < p && x == p * q + r
    ensures x % p == r
  {
    assert p * (x / p - q) == r - x % p;
    MulOutgrows(p, x / p - q);
  }

  lemma MulOutgrows(p: int, k: int)
    requires p >= 0
    ensures k >= 1 ==> p * k >= p
    ensures k <= -1 ==> p * k <= -p
  {
  }

  /** Only n modulo 256^k matters to its k-byte image. */
  lemma {:induction false} BigEndianMod(n: nat, k: nat)
    ensures BigEndian(n % Pow256(k), k) == BigEndian(n, k)
  {
    if k > 0 {
      DivModStep(n, Pow256(k - 1));
      BigEndianMod(n / 256, k - 1);
    }
  }

  // ----- the rewritten round functions -----

  lemma RewrittenCh(b: word, c: word, d: word)
    ensures ((c ^ d) & b) ^ d == (b & c) ^ (!b & d)
  {
  }

  lemma RewrittenMaj(b: word, c: word, d: word)
    ensures ((b | c) & d) | (b & c) == (b & c) ^ (b & d) ^ (c & d)
  {
  }

  lemma RewrittenParity(b: word, c: word, d: word)
    ensures (c ^ d) ^ b == b ^ c ^ d
  {
  }

  method MixFirstGroup(b: word, c: word, d: word) returns (work: word)
    ensures work == Ch(b, c, d)
  {
    RewrittenCh(b, c, d);
    work := ((c ^ d) & b) ^ d;
  }

  method MixThirdGroup(b: word, c: word, d: word) returns (work: word)
    ensures work == Maj(b, c, d)
  {
    RewrittenMaj(b, c, d);
    work := ((b | c) & d) | (b & c);
  }

  method MixOtherGroup(b: word, c: word, d: word) returns (work: word)
    ensures work == Parity(b, c, d)
  {
    RewrittenParity(b, c, d);
    work := (c ^ d) ^ b;
  }

  /** The terms of one round, added in the order of the source. */
  method AddTerms(f: word, w: word, e: word, r: word, k: word) returns (work: word)
    ensures work == Plus5(r, f, e, k, w)
  {
    work := (f + w) + (e + r + k);
  }

  // ----- the circular message schedule, section 6.1.3 -----

  /** The schedule index held by slot k when the next round is t. */
  function Slot(t: nat, k: nat): (u: nat)
    requires k < 16
    ensures u % 16 == k
    ensures if t < 16 then u < 16 else t - 16 <= u < t
  {
    if t < 16 then k else if k < t % 16 then t - t % 16 + k else t - t % 16 - 16 + k
  }

  /** w is the doubled window over the schedule s just before round t. */
  ghost predicate Window(w: seq<word>, s: seq<word>, t: nat)
    requires |s| == 80 && t <= 80
  {
    && |w| == 32
    && (forall k | 0 <= k < 16 :: w[k] == w[k + 16])
    && forall k | 0 <= k < 16 :: w[k] == s[Slot(t, k)]
  }

  ghost predicate Expands(s: seq<word>, t: nat)
    requires 16 <= t < |s|
  {
    s[t] == NewW(s[t - 3], s[t - 8], s[t - 14], s[t - 16])
  }

  lemma ScheduleExpands(block: seq<byte>, t: nat)
    requires |block| == 64 && 16 <= t < 80
    ensures Expands(ScheduleWords(block), t)
  {
  }

  /** r lists the working variables before each round over the schedule s, and after the last. */
  ghost predicate IsTrace(r: seq<Vars>, s: seq<word>)
  {
    |s| == 80 && |r| == 81 && forall t {:trigger Round(r[t], t, s[t])} | 0 <= t < 80 :: r[t + 1] == Round(r[t], t, s[t])
  }

  ghost function Trace(h: Vars, s: seq<word>): (r: seq<Vars>)
    requires |s| == 80
    ensures IsTrace(r, s) && r[0] == h && r[80] == Rounds(h, s)
  {
    var r := seq(81, t requires 0 <= t <= 80 => Rounds(h, s[..t]));
    assert forall t {:trigger Round(r[t], t, s[t])} | 0 <= t < 80 :: s[..t + 1][..t] == s[..t];
    assert s[..80] == s;
    r
  }

  /** Below round 16 the window holds the block's own words and does not move. */
  lemma WindowLoaded(w: seq<word>, s: seq<word>, t: nat)
    requires |s| == 80 && t < 16 && Window(w, s, t)
    ensures w[t] == s[t] && Window(w, s, t + 1)
  {
    assert Slot(t, t) == t;
    forall k | 0 <= k < 16 ensures Slot(t, k) == Slot(t + 1, k) {
    }
  }

  /** Reading k places past slot t mod 16 without masking, k < 16, reaches W[t-16+k]. */
  lemma WindowRead(w: seq<word>, s: seq<word>, t: nat, k: nat)
    requires |s| == 80 && 16 <= t < 80 && Window(w, s, t) && k < 16
    ensures w[t % 16 + k] == s[t - 16 + k]
  {
    var slot := (t - 16 + k) % 16;
    assert t % 16 + k == slot || t % 16 + k == slot + 16;
    assert w[t % 16 + k] == w[slot];
    assert Slot(t, slot) == t - 16 + k;
  }

  lemma WindowExpands(w: seq<word>, s: seq<word>, t: nat)
    requires |s| == 80 && 16 <= t < 80 && Window(w, s, t) && Expands(s, t)
    ensures var c := t % 16; NewW(w[c + 13], w[c + 8], w[c + 2], w[c]) == s[t]
  {
    WindowRead(w, s, t, 13);
    WindowRead(w, s, t, 8);
    WindowRead(w, s, t, 2);
    WindowRead(w, s, t, 0);
  }

  /** Overwriting both copies of slot t mod 16 moves the window one round on. */
  lemma WindowAdvances(w: seq<word>, s: seq<word>, t: nat, w': seq<word>)
    requires |s| == 80 && 16 <= t < 80 && Window(w, s, t) && |w'| == 32
    requires w'[t % 16] == w'[t % 16 + 16] == s[t]
    requires forall k | 0 <= k < 32 && k % 16 != t % 16 :: w'[k] == w[k]
    ensures Window(w', s, t + 1)
  {
    NextSlot(t);
    assert Slot(t + 1, t % 16) == t;
    forall k {:trigger w[k]} | 0 <= k < 16 && k != t % 16 ensures w'[k] == w[k] && w'[k + 16] == w[k + 16] {
      assert k % 16 == k && (k + 16) % 16 == k;
    }
    forall k | 0 <= k < 16 && k != t % 16 ensures s[Slot(t, k)] == s[Slot(t + 1, k)] {
    }
  }

  lemma NextSlot(t: nat)
    ensures (t + 1) % 16 == if t % 16 == 15 then 0 else t % 16 + 1
    ensures (t % 16 + 1) % 16 == (t + 1) % 16
  {
  }

  // ----- cutting a message into blocks -----

  function Tail(m: seq<byte>): seq<byte> { m[|m| - |m| % 64..] }

  function Whole(m: seq<byte>): (p: seq<byte>)
    ensures |p| % 64 == 0
  {
    m[..|m| - |m| % 64]
  }

  lemma FoldOneMore(h: Vars, m: seq<byte>, block: seq<byte>)
    requires |m| % 64 == 0 && |block| == 64
    ensures (|m| + 64) % 64 == 0
    ensures Fold(h, m + block) == Compress(Fold(h, m), block)
  {
    var p := m + block;
    assert p[..|p| - 64] == m && p[|p| - 64..] == block;
  }

  /** The padding of section 5.1.1 leaves room for the length in the block of the
      pending bytes when at most 55 of them wait, and opens a second block otherwise. */
  lemma PadsInOneBlock(m: seq<byte>, length: seq<byte>)
    requires |m| % 64 < 56 && |length| == 8
    ensures PadWith(m, length) == Whole(m) + (Tail(m) + [0x80] + Repeat(0, 55 - |m| % 64) + length)
  {
    assert ZeroPad(|m|) == 55 - |m| % 64;
    assert m == Whole(m) + Tail(m);
    Regroup5(Whole(m), Tail(m), [0x80], Repeat(0, 55 - |m| % 64), length);
  }

  lemma PadsInTwoBlocks(m: seq<byte>, length: seq<byte>)
    requires |m| % 64 >= 56 && |length| == 8
    ensures PadWith(m, length) == Whole(m) + (Tail(m) + [0x80] + Repeat(0, 63 - |m| % 64)) + (Repeat(0, 56) + length)
  {
    var n := 63 - |m| % 64;
    assert ZeroPad(|m|) == n + 56;
    assert Repeat(0, n + 56) == Repeat(0, n) + Repeat(0, 56);
    assert m == Whole(m) + Tail(m);
    ConcatFive(Whole(m), Tail(m), [0x80], Repeat(0, n), Repeat(0, 56), length);
  }

  lemma ConcatFive(w: seq<byte>, t: seq<byte>, a: seq<byte>, z: seq<byte>, z': seq<byte>, l: seq<byte>)
    ensures w + t + a + (z + z') + l == w + (t + a + z) + (z' + l)
  {
  }

  lemma TailGrows(m: seq<byte>, x: seq<byte>)
    requires |m| % 64 + |x| < 64
    ensures Whole(m + x) == Whole(m) && Tail(m + x) == Tail(m) + x
  {
    assert (|m| + |x|) % 64 == |m| % 64 + |x|;
  }

  lemma TailFills(m: seq<byte>, x: seq<byte>)
    requires |m| % 64 + |x| == 64
    ensures Whole(m + x) == Whole(m) + (Tail(m) + x) && Tail(m + x) == []
  {
    assert (|m| + |x|) % 64 == 0;
  }

  /** One block of the end loop: what was there, zeros, and the length if it fits. */
  function FilledBlock(head: seq<byte>, length: seq<byte>): (block: seq<byte>)
    requires |head| <= 64 && |length| == 8
    ensures |block| == 64
  {
    if |head| <= 56 then head + Repeat(0, 56 - |head|) + length else head + Repeat(0, 64 - |head|)
  }

  // ----- the context -----

  class Context {
    const bigEndian: bool
    const wbuffer: array<byte>
    const hash: array<word>
    var total64: nat
    ghost var message: seq<byte>

    ghost predicate Shape()
      reads this
    {
      wbuffer.Length == 64 && hash.Length == 8
    }

    ghost function Hash(): Vars
      requires Shape()
      reads this, hash
    {
      Vars(hash[0], hash[1], hash[2], hash[3], hash[4])
    }

    /** The context has absorbed exactly `message`: hash is the fold over its whole
        blocks, the rest waits in wbuffer, total64 is its length modulo 2^64. */
    ghost predicate Valid()
      reads this, wbuffer, hash
    {
      && Shape()
      && total64 == |message| % TWO64
      && wbuffer[..|message| % 64] == Tail(message)
      && Hash() == Fold(H0, Whole(message))
    }

    constructor Begin(bigEndian: bool)
      ensures Valid() && message == [] && this.bigEndian == bigEndian
      ensures fresh(this) && fresh(wbuffer) && fresh(hash)
    {
      this.bigEndian := bigEndian;
      wbuffer := new byte[64];
      hash := new word[8];
      total64 := 0;
      message := [];
      new;
      hash[0] := 0x67452301;
      hash[1] := 0xefcdab89;
      hash[2] := 0x98badcfe;
      hash[3] := 0x10325476;
      hash[4] := 0xc3d2e1f0;
    }

    method LoadWindow(W: array<word>)
      requires Shape() && W.Length == 32 && W != hash
      modifies W
      ensures Window(W[..], ScheduleWords(wbuffer[..]), 0)
    {
      for i := 0 to 16
        invariant forall k | 0 <= k < i :: W[k] == W[k + 16] == Schedule(wbuffer[..], k)
      {
        var x := LoadNative(bigEndian, wbuffer[4 * i], wbuffer[4 * i + 1], wbuffer[4 * i + 2], wbuffer[4 * i + 3]);
        if !bigEndian {
          SwapAfterLoad(wbuffer[4 * i], wbuffer[4 * i + 1], wbuffer[4 * i + 2], wbuffer[4 * i + 3]);
          x := Bswap32(x);
        }
        W[i + 16] := x;
        W[i] := x;
      }
      ghost var s := ScheduleWords(wbuffer[..]);
      ghost var w := W[..];
      forall k | 0 <= k < 16 ensures w[k] == w[k + 16] && w[k] == s[Slot(0, k)] {
        assert Slot(0, k) == k;
      }
      assert Window(w, s, 0);
    }

    /** From round 16 on, the new schedule word replaces both copies of slot cnt. */
    method ExpandSlot(W: array<word>, cnt: nat, ghost s: seq<word>, ghost t: nat)
      requires |s| == 80 && 16 <= t < 80 && cnt == t % 16 && Window(W[..], s, t)
      requires Expands(s, t)
      modifies W
      ensures Window(W[..], s, t + 1) && W[cnt] == s[t]
    {
      ghost var w := W[..];
      WindowExpands(w, s, t);
      var x := NewW(W[cnt + 13], W[cnt + 8], W[cnt + 2], W[cnt]);
      W[cnt + 16] := x;
      W[cnt] := x;
      WindowAdvances(w, s, t, W[..]);
    }

    /** The body of the round loop, for round t = 20 i + 19 - j. */
    method OneRound(W: array<word>, cnt: nat, i: nat, j: nat, v: Vars, ghost s: seq<word>, ghost r: seq<Vars>)
      returns (v': Vars)
      requires i < 4 && j <= 19 && |s| == 80 && cnt == (20 * i + 19 - j) % 16
      requires Window(W[..], s, 20 * i + 19 - j)
      requires forall t | 16 <= t < 80 :: Expands(s, t)
      requires IsTrace(r, s) && v == r[20 * i + 19 - j]
      modifies W
      ensures Window(W[..], s, 20 * i + 20 - j)
      ensures v' == r[20 * i + 20 - j]
    {
      var work;
      ghost var t := 20 * i + 19 - j;
      var rconsts: seq<word> := [0x5A827999, 0x6ED9EBA1, 0x8F1BBCDC, 0xCA62C1D6];
      var expand := true;
      if i == 0 {
        work := MixFirstGroup(v.b, v.c, v.d);
        expand := j <= 3;
      } else if i == 2 {
        work := MixThirdGroup(v.b, v.c, v.d);
      } else {
        work := MixOtherGroup(v.b, v.c, v.d);
      }
      if expand {
        ExpandSlot(W, cnt, s, t);
      } else {
        WindowLoaded(W[..], s, t);
      }
      work := AddTerms(work, W[cnt], v.e, RotL5(v.a), rconsts[i]);
      v' := Vars(work, v.a, RotL30(v.b), v.c, v.d);
      assert v' == Round(r[t], t, s[t]);
    }

    /** The four groups of twenty rounds. */
    method RunRounds(W: array<word>, h: Vars, ghost s: seq<word>, ghost r: seq<Vars>) returns (v: Vars)
      requires IsTrace(r, s) && r[0] == h
      requires forall t | 16 <= t < 80 :: Expands(s, t)
      requires Window(W[..], s, 0)
      modifies W
      ensures v == r[80]
    {
      v := h;
      var cnt := 0;
      for i := 0 to 4
        invariant cnt == 20 * i % 16
        invariant Window(W[..], s, 20 * i)
        invariant v == r[20 * i]
      {
        var j := 19;
        while j >= 0
          invariant -1 <= j <= 19
          invariant cnt == (20 * i + 19 - j) % 16
          invariant Window(W[..], s, 20 * i + 19 - j)
          invariant v == r[20 * i + 19 - j]
          decreases j
        {
          NextSlot(20 * i + 19 - j);
          v := OneRound(W, cnt, i, j, v, s, r);
          cnt := (cnt + 1) % 16;
          j := j - 1;
        }
      }
    }

    method ProcessBlock64()
      requires Shape()
      modifies hash
      ensures Hash() == Compress(old(Hash()), wbuffer[..])
    {
      var h := Vars(hash[0], hash[1], hash[2], hash[3], hash[4]);
      ghost var s := ScheduleWords(wbuffer[..]);
      forall t | 16 <= t < 80 ensures Expands(s, t) {
        ScheduleExpands(wbuffer[..], t);
      }
      var W := new word[32];
      LoadWindow(W);
      var v := RunRounds(W, h, s, Trace(h, s));
      AddToHash(v);
    }

    method AddToHash(v: Vars)
      requires Shape()
      modifies hash
      ensures Hash() == AddVars(old(Hash()), v)
    {
      hash[0] := Plus(hash[0], v.a);
      hash[1] := Plus(hash[1], v.b);
      hash[2] := Plus(hash[2], v.c);
      hash[3] := Plus(hash[3], v.d);
      hash[4] := Plus(hash[4], v.e);
    }

    method CopyIn(at: nat, x: seq<byte>)
      requires Shape() && at + |x| <= 64
      modifies wbuffer
      ensures wbuffer[..] == old(wbuffer[..at]) + x + old(wbuffer[at + |x|..])
    {
      forall i | 0 <= i < |x| {
        wbuffer[at + i] := x[i];
      }
    }

    /** hash and wbuffer hold the state after the bytes `done`. */
    ghost predicate Absorbed(done: seq<byte>)
      reads this, wbuffer, hash
    {
      && Shape()
      && wbuffer[..|done| % 64] == Tail(done)
      && Hash() == Fold(H0, Whole(done))
    }

    method ProcessFilled(ghost done: seq<byte>, ghost x: seq<byte>)
      requires Shape() && |done| % 64 + |x| == 64
      requires wbuffer[..] == Tail(done) + x && Hash() == Fold(H0, Whole(done))
      modifies hash
      ensures Absorbed(done + x)
    {
      ProcessBlock64();
      TailFills(done, x);
      FoldOneMore(H0, Whole(done), Tail(done) + x);
    }

    method Store(bufpos: nat, x: seq<byte>, ghost done: seq<byte>)
      requires Absorbed(done) && bufpos == |done| % 64 && bufpos + |x| <= 64
      modifies wbuffer
      ensures bufpos + |x| < 64 ==> Absorbed(done + x)
      ensures bufpos + |x| == 64 ==> wbuffer[..] == Tail(done) + x
    {
      CopyIn(bufpos, x);
      assert wbuffer[..bufpos + |x|] == Tail(done) + x;
      if bufpos + |x| < 64 {
        TailGrows(done, x);
        assert |done + x| % 64 == bufpos + |x|;
      }
    }

    /** The loop of common64_hash: feeds data through the 64-byte buffer. */
    method Feed(start: nat, data: seq<byte>, ghost prior: seq<byte>)
      requires Absorbed(prior) && start == |prior| % 64
      modifies wbuffer, hash
      ensures Absorbed(prior + data)
    {
      var bufpos := start;
      var buffer := data;
      ghost var done := prior;
      while true
        invariant prior + data == done + buffer
        invariant bufpos == |done| % 64
        invariant Absorbed(done)
        decreases |buffer|
      {
        var remaining := 64 - bufpos;
        if remaining > |buffer| {
          remaining := |buffer|;
        }
        ghost var x := buffer[..remaining];
        PieceTaken(prior + data, done, buffer, remaining);
        Store(bufpos, buffer[..remaining], done);
        buffer := buffer[remaining..];
        BufferFull(bufpos, remaining);
        bufpos := (bufpos + remaining - 64) % 0x1_0000_0000;
        if bufpos != 0 {
          assert buffer == [];
          break;
        }
        ProcessFilled(done, x);
        AlignedAfter(done, x);
        done := done + x;
      }
    }

    method Update(data: seq<byte>)
      requires Valid()
      modifies this, wbuffer, hash
      ensures Valid() && message == old(message) + data
    {
      ghost var all := message + data;
      CounterMod(|message|, |data|);
      var bufpos := total64 % 64;
      total64 := (total64 + |data|) % TWO64;
      assert total64 == |all| % TWO64;
      Feed(bufpos, data, message);
      message := all;
    }

    /** Zeros from bufpos on, and the length field if eight bytes are left for it. */
    method FillBlock(bufpos: nat)
      requires Shape() && bufpos <= 64 && total64 == |message| % TWO64
      modifies wbuffer
      ensures wbuffer[..] == FilledBlock(old(wbuffer[..])[..bufpos], BigEndian(8 * |message|, 8))
    {
      var remaining := 64 - bufpos;
      CopyIn(bufpos, Repeat(0, remaining));
      if remaining >= 8 {
        StoreLength();
      }
    }

    /** Stores the 64-bit count of message bits, big-endian, in the last eight bytes. */
    method StoreLength()
      requires Shape() && total64 == |message| % TWO64
      modifies wbuffer
      ensures wbuffer[..] == old(wbuffer[..56]) + BigEndian(8 * |message|, 8)
    {
      var t := total64 * 8 % TWO64;
      LengthMod(|message|);
      if bigEndian {
        CopyIn(56, BigEndian(t, 8));
      } else {
        t := Bswap64(t);
        LittleEndianRoundTrip(BigEndian(8 * |message|, 8));
        CopyIn(56, LittleEndian(t, 8));
      }
    }

    method ProcessNext(ghost done: seq<byte>)
      requires Shape() && |done| % 64 == 0 && Hash() == Fold(H0, done)
      modifies hash
      ensures |done + wbuffer[..]| % 64 == 0 && Hash() == Fold(H0, done + wbuffer[..])
    {
      ProcessBlock64();
      FoldOneMore(H0, done, wbuffer[..]);
    }

    /** common64_end: pads in place and processes the last one or two blocks. */
    method Finish()
      requires Valid()
      modifies wbuffer, hash
      ensures Hash() == Fold(H0, Pad(message))
    {
      CounterMod(|message|, 0);
      var bufpos := total64 % 64;
      ghost var n := |message| % 64;
      wbuffer[bufpos] := 0x80;
      bufpos := bufpos + 1;
      ghost var done := Whole(message);
      ghost var first := Tail(message) + [0x80];
      assert wbuffer[..bufpos] == first;
      while true
        invariant Shape() && |done| % 64 == 0 && Hash() == Fold(H0, done)
        invariant AtPadding(bufpos, wbuffer[..], done)
        decreases bufpos
      {
        var remaining := 64 - bufpos;
        ghost var head := wbuffer[..];
        FillBlock(bufpos);
        ProcessNext(done);
        PaddingStep(bufpos, head, done, wbuffer[..]);
        done := done + wbuffer[..];
        if remaining >= 8 {
          break;
        }
        bufpos := 0;
      }
    }

    /** Where common64_end stands: after the pending bytes and 0x80, or at the start
        of a second block because the first had no room for the length. */
    ghost predicate AtPadding(bufpos: nat, buffer: seq<byte>, done: seq<byte>)
      reads this
    {
      var n := |message| % 64;
      var first := Tail(message) + [0x80];
      && |buffer| == 64
      && (|| (bufpos == n + 1 && buffer[..bufpos] == first && done == Whole(message))
          || (bufpos == 0 && n >= 56 && done == Whole(message) + (first + Repeat(0, 63 - n))))
    }

    lemma PaddingStep(bufpos: nat, head: seq<byte>, done: seq<byte>, block: seq<byte>)
      requires AtPadding(bufpos, head, done)
      requires block == FilledBlock(head[..bufpos], BigEndian(8 * |message|, 8))
      ensures if bufpos <= 56 then done + block == Pad(message) else AtPadding(0, block, done + block)
    {
      var length := BigEndian(8 * |message|, 8);
      if |message| % 64 < 56 {
        PadsInOneBlock(message, length);
      } else {
        PadsInTwoBlocks(message, length);
        assert head[..0] == [] && [] + Repeat(0, 56) == Repeat(0, 56);
      }
    }

    method SwapHash(ghost words: seq<word>)
      requires Shape() && |words| == 5 && hash[..5] == words
      modifies hash
      ensures forall k | 0 <= k < 5 :: hash[k] == Bswap32(words[k])
    {
      for i := 0 to 5
        invariant forall k | 0 <= k < i :: hash[k] == Bswap32(words[k])
        invariant forall k | i <= k < 5 :: hash[k] == words[k]
      {
        hash[i] := Bswap32(hash[i]);
      }
    }

    /** sha1_end: the digest of everything absorbed, in the first 20 bytes of resbuf. */
    method End(resbuf: array<byte>)
      requires Valid() && resbuf.Length >= 20 && resbuf != wbuffer
      modifies wbuffer, hash, resbuf
      ensures resbuf[..20] == Digest(message)
      ensures resbuf[20..] == old(resbuf[20..])
    {
      Finish();
      WriteHash(Hash(), resbuf);
    }

    method WriteHash(ghost h: Vars, resbuf: array<byte>)
      requires Shape() && h == Hash() && resbuf.Length >= 20 && resbuf != wbuffer
      modifies hash, resbuf
      ensures resbuf[..20] == HashBytes(h)
      ensures resbuf[20..] == old(resbuf[20..])
    {
      ghost var words := [h.a, h.b, h.c, h.d, h.e];
      assert hash[..5] == words;
      if !bigEndian {
        SwapHash(words);
      }
      HashBytesAt(h);
      WriteWords(words, HashBytes(h), resbuf);
    }

    method WriteWords(ghost words: seq<word>, ghost bytes: seq<byte>, resbuf: array<byte>)
      requires Shape() && |words| == 5 && |bytes| == 20 && resbuf.Length >= 20
      requires forall k | 0 <= k < 5 :: hash[k] == if bigEndian then words[k] else Bswap32(words[k])
      requires forall k | 0 <= k < 5 :: bytes[4 * k..4 * k + 4] == WordBytesBE(words[k])
      modifies resbuf
      ensures resbuf[..20] == bytes
      ensures resbuf[20..] == old(resbuf[20..])
    {
      for i := 0 to 5
        invariant resbuf[..4 * i] == bytes[..4 * i]
        invariant resbuf[20..] == old(resbuf[20..])
      {
        StoreWord(words[i], hash[i], resbuf, 4 * i);
        assert bytes[..4 * i + 4] == bytes[..4 * i] + bytes[4 * i..4 * i + 4];
        assert resbuf[20..] == resbuf[4 * i + 4..][16 - 4 * i..];
      }
      assert bytes[..20] == bytes;
    }

    method StoreWord(ghost w: word, stored: word, resbuf: array<byte>, at: nat)
      requires stored == (if bigEndian then w else Bswap32(w)) && at + 4 <= resbuf.Length
      modifies resbuf
      ensures resbuf[..at + 4] == old(resbuf[..at]) + WordBytesBE(w)
      ensures resbuf[at + 4..] == old(resbuf[at + 4..])
    {
      var s := StoreNative(bigEndian, stored);
      StoreAfterSwap(w);
      resbuf[at], resbuf[at + 1], resbuf[at + 2], resbuf[at + 3] := s[0], s[1], s[2], s[3];
    }
  }

  lemma HashBytesAt(h: Vars)
    ensures forall k | 0 <= k < 5 :: HashBytes(h)[4 * k..4 * k + 4] == WordBytesBE([h.a, h.b, h.c, h.d, h.e][k])
  {
    var a, b, c, d, e := WordBytesBE(h.a), WordBytesBE(h.b), WordBytesBE(h.c), WordBytesBE(h.d), WordBytesBE(h.e);
    FiveParts(a, b, c, d, e);
    var s := HashBytes(h);
    assert s[0..4] == a && s[4..8] == b && s[8..12] == c && s[12..16] == d && s[16..20] == e;
    forall k | 0 <= k < 5 ensures s[4 * k..4 * k + 4] == WordBytesBE([h.a, h.b, h.c, h.d, h.e][k]) {
      assert k == 0 || k == 1 || k == 2 || k == 3 || k == 4;
    }
  }

  lemma FiveParts(a: seq<byte>, b: seq<byte>, c: seq<byte>, d: seq<byte>, e: seq<byte>)
    requires |a| == |b| == |c| == |d| == |e| == 4
    ensures var s := a + b + c + d + e; s[0..4] == a && s[4..8] == b && s[8..12] == c && s[12..16] == d && s[16..20] == e
  {
  }

  // ----- the counter modulo 2^64 -----

  lemma CounterMod(n: nat, k: nat)
    ensures n % TWO64 % 64 == n % 64
    ensures (n % TWO64 + k) % TWO64 == (n + k) % TWO64
    ensures n % TWO64 * 8 % TWO64 == 8 * n % TWO64
  {
    var q, r := n / TWO64, n % TWO64;
    ModUnique(n, 64, TWO64 / 64 * q + r / 64, r % 64);
    ModUnique(n + k, TWO64, q + (r + k) / TWO64, (r + k) % TWO64);
    ModUnique(8 * n, TWO64, 8 * q + r * 8 / TWO64, r * 8 % TWO64);
  }

  lemma BufferFull(bufpos: nat, remaining: nat)
    requires bufpos < 64 && bufpos + remaining <= 64
    ensures (bufpos + remaining - 64) % 0x1_0000_0000 == 0 <==> bufpos + remaining == 64
  {
  }

  lemma AlignedAfter(done: seq<byte>, x: seq<byte>)
    requires |done| % 64 + |x| == 64
    ensures |done + x| % 64 == 0
  {
  }

  lemma PieceTaken(all: seq<byte>, done: seq<byte>, buffer: seq<byte>, n: nat)
    requires all == done + buffer && n <= |buffer|
    ensures all == done + buffer[..n] + buffer[n..]
    ensures buffer[n..] == [] ==> all == done + buffer[..n]
  {
  }

  lemma Pow256Eight()
    ensures Pow256(8) == TWO64
  {
    assert Pow256(4) == 0x1_0000_0000;
  }

  lemma LengthMod(n: nat)
    ensures BigEndian(n % TWO64 * 8 % TWO64, 8) == BigEndian(8 * n, 8)
  {
    CounterMod(n, 0);
    Pow256Eight();
    BigEndianMod(8 * n, 8);
  }

  /** Any way of cutting a message into pieces gives the digest of the whole. */
  method DigestOfPieces(pieces: seq<seq<byte>>, bigEndian: bool) returns (digest: seq<byte>)
    ensures digest == Digest(Flatten(pieces))
  {
    var ctx := new Context.Begin(bigEndian);
    for i := 0 to |pieces|
      invariant fresh(ctx) && fresh(ctx.wbuffer) && fresh(ctx.hash)
      invariant ctx.Valid() && ctx.message == Flatten(pieces[..i])
    {
      FlattenNext(pieces, i);
      ctx.Update(pieces[i]);
    }
    assert pieces[..|pieces|] == pieces;
    digest := ResultOf(ctx);
  }

  method ResultOf(ctx: Context) returns (digest: seq<byte>)
    requires ctx.Valid()
    modifies ctx.wbuffer, ctx.hash
    ensures digest == Digest(old(ctx.message))
  {
    var resbuf := new byte[20];
    ctx.End(resbuf);
    digest := resbuf[..];
    assert resbuf[..] == resbuf[..20];
  }

  lemma FlattenNext(pieces: seq<seq<byte>>, i: nat)
    requires i < |pieces|
    ensures Flatten(pieces[..i + 1]) == Flatten(pieces[..i]) + pieces[i]
  {
    assert pieces[..i + 1][..i] == pieces[..i];
  }

  function Flatten(pieces: seq<seq<byte>>): seq<byte> {
    if pieces == [] then [] else Flatten(pieces[..|pieces| - 1]) + pieces[|pieces| - 1]
  }
}
