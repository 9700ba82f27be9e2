/**
 Escaping of /proc/PID/cmdline and environ (src/lib/get_cmdline.c:28-136).
 The files hold words separated by NUL bytes.
 */
module ProcEscape {
  import opened Basics

  const SPACE: Byte := 32
  const NEWLINE: Byte := 10
  const QUOTE: Byte := 39
  const BACKSLASH: Byte := 92

  // ----- one word -----

  /** Printable ASCII other than blanks, quotes and the backslash. */
  predicate Plain(b: Byte) { 32 < b <= 0x7e && b != 34 && b != QUOTE && b != BACKSLASH }

  function HexDigit(n: int): Byte
    requires 0 <= n < 16
  {
    if n < 10 then 48 + n else 87 + n
  }

  /** What stands for one byte inside the quotes. */
  function Code(b: Byte): (c: seq<Byte>)
    ensures 1 <= |c| <= 4
  {
    if Plain(b) then [b]
    else if b == 13 then [BACKSLASH, 114]
    else if b == NEWLINE then [BACKSLASH, 110]
    else if b == 9 then [BACKSLASH, 116]
    else if b == QUOTE || b == 34 || b == BACKSLASH then [BACKSLASH, b]
    else if b == SPACE then [SPACE]
    else [BACKSLASH, 120, HexDigit(b / 16), HexDigit(b % 16)]
  }

  function Encoded(w: seq<Byte>): (e: seq<Byte>)
    ensures |e| <= 4 * |w|
  {
    if w == [] then [] else Code(w[0]) + Encoded(w[1..])
  }

  predicate AllPlain(w: seq<Byte>) { forall i | 0 <= i < |w| :: Plain(w[i]) }

  function EscapedWord(w: seq<Byte>): (e: seq<Byte>)
    ensures |e| <= 4 * |w| + 2
  {
    if w != [] && AllPlain(w) then w else [QUOTE] + Encoded(w) + [QUOTE]
  }

  lemma {:induction false} EncodedAppend(a: seq<Byte>, b: seq<Byte>)
    ensures Encoded(a + b) == Encoded(a) + Encoded(b)
  {
    if a == [] {
      assert a + b == b;
    } else {
      assert (a + b)[1..] == a[1..] + b;
      EncodedAppend(a[1..], b);
    }
  }

  lemma {:induction false} EncodedPlain(w: seq<Byte>)
    requires AllPlain(w)
    ensures Encoded(w) == w
  {
    if w != [] {
      EncodedPlain(w[1..]);
    }
  }

  /** Puts x and a NUL behind it, as strcpy does. */
  method PutLast(buf: array<Byte>, dst: nat, x: seq<Byte>, ghost have: seq<Byte>) returns (dst': nat)
    requires Holds(buf, dst, have) && dst + |x| < buf.Length
    modifies buf
    ensures Holds(buf, dst', have + x) && dst' < buf.Length && buf[dst'] == 0
  {
    dst' := Put(buf, dst, x, have);
    buf[dst'] := 0;
  }

  /** Copies the plain stretch from old_p to p. */
  method PutPlain(buf: array<Byte>, dst: nat, s: seq<Byte>, old_p: nat, p: nat, ghost before: seq<Byte>) returns (dst': nat)
    requires old_p <= p <= |s| && PlainBetween(s, old_p, p) && Holds(buf, dst, Quoted(before, s[..old_p]))
    requires dst + (p - old_p) <= buf.Length
    modifies buf
    ensures Holds(buf, dst', Quoted(before, s[..p]))
  {
    QuotedMore(before, s, old_p, p);
    dst' := Put(buf, dst, s[old_p..p], Quoted(before, s[..old_p]));
  }

  /** Writes the code of byte p; the NUL behind it is overwritten by what comes next. */
  method PutCode(buf: array<Byte>, dst: nat, s: seq<Byte>, p: nat, ghost before: seq<Byte>) returns (dst': nat)
    requires p < |s| && Holds(buf, dst, Quoted(before, s[..p])) && dst + |Code(s[p])| < buf.Length
    modifies buf
    ensures Holds(buf, dst', Quoted(before, s[..p + 1]))
  {
    QuotedCode(before, s, p);
    dst' := PutLast(buf, dst, Code(s[p]), Quoted(before, s[..p]));
  }

  /** Writes the closing quote. */
  method PutClose(buf: array<Byte>, dst: nat, s: seq<Byte>, ghost before: seq<Byte>) returns (dst': nat)
    requires !(s != [] && AllPlain(s)) && Holds(buf, dst, Quoted(before, s)) && dst + 1 < buf.Length
    modifies buf
    ensures Holds(buf, dst', before + EscapedWord(s)) && dst' < buf.Length && buf[dst'] == 0
  {
    QuotedClosed(before, s);
    dst' := PutLast(buf, dst, [QUOTE], Quoted(before, s));
  }

  /** append_escaped: one pass over s, copying plain stretches and coding the rest.
      It needs four bytes of room for each byte, two for the quotes and one for NUL. */
  method AppendEscaped(buf: array<Byte>, start: nat, s: seq<Byte>, ghost before: seq<Byte>) returns (dst: nat)
    requires start + 4 * |s| + 3 <= buf.Length && Holds(buf, start, before)
    modifies buf
    ensures Holds(buf, dst, before + EscapedWord(s)) && dst < buf.Length && buf[dst] == 0
  {
    dst := start;
    var p := 0;
    while true
      invariant p <= |s|
      invariant dst == start ==> p == 0 && Holds(buf, dst, before)
      invariant dst != start ==> p > 0 && !Plain(s[p - 1]) && Holds(buf, dst, Quoted(before, s[..p]))
      decreases |s| - p
    {
      var old_p := p;
      p := SkipPlain(s, p);
      if dst == start {
        if p != 0 && p == |s| {
          assert AllPlain(s);
          dst := PutLast(buf, dst, s, before);
          return;
        }
        dst := Put(buf, dst, [QUOTE], before);
        assert s[..old_p] == [] && Quoted(before, []) == before + [QUOTE];
      }
      dst := PutPlain(buf, dst, s, old_p, p, before);
      if p == |s| {
        assert s[..p] == s && !(s != [] && AllPlain(s));
        dst := PutClose(buf, dst, s, before);
        return;
      }
      dst := PutCode(buf, dst, s, p, before);
      p := p + 1;
    }
  }

  method SkipPlain(s: seq<Byte>, from: nat) returns (p: nat)
    requires from <= |s|
    ensures from <= p <= |s| && PlainBetween(s, from, p) && (p < |s| ==> !Plain(s[p]))
  {
    p := from;
    while p < |s| && Plain(s[p])
      invariant from <= p <= |s| && PlainBetween(s, from, p)
    {
      p := p + 1;
    }
  }

  predicate PlainBetween(s: seq<Byte>, i: nat, j: nat)
    requires i <= j <= |s|
  {
    forall k | i <= k < j :: Plain(s[k])
  }

  /** What was there before, an opening quote and the code of `done`. */
  function Quoted(before: seq<Byte>, done: seq<Byte>): (q: seq<Byte>)
    ensures |before| < |q| <= |before| + 1 + 4 * |done|
  {
    before + [QUOTE] + Encoded(done)
  }

  lemma SliceOn(s: seq<Byte>, i: nat, j: nat)
    requires i <= j <= |s|
    ensures s[..j] == s[..i] + s[i..j]
    ensures PlainBetween(s, i, j) ==> AllPlain(s[i..j])
  {
  }

  lemma EncodedMore(s: seq<Byte>, old_p: nat, p: nat)
    requires old_p <= p <= |s| && PlainBetween(s, old_p, p)
    ensures Encoded(s[..p]) == Encoded(s[..old_p]) + s[old_p..p]
  {
    SliceOn(s, old_p, p);
    EncodedPlain(s[old_p..p]);
    EncodedAppend(s[..old_p], s[old_p..p]);
  }

  lemma QuotedMore(before: seq<Byte>, s: seq<Byte>, old_p: nat, p: nat)
    requires old_p <= p <= |s| && PlainBetween(s, old_p, p)
    ensures Quoted(before, s[..p]) == Quoted(before, s[..old_p]) + s[old_p..p]
  {
    EncodedMore(s, old_p, p);
    Regroup(before + [QUOTE], Encoded(s[..old_p]), s[old_p..p]);
  }

  lemma QuotedClosed(before: seq<Byte>, s: seq<Byte>)
    requires !(s != [] && AllPlain(s))
    ensures Quoted(before, s) + [QUOTE] == before + EscapedWord(s)
  {
    Regroup4(before, [QUOTE], Encoded(s), [QUOTE]);
  }

  lemma QuotedCode(before: seq<Byte>, s: seq<Byte>, p: nat)
    requires p < |s|
    ensures Quoted(before, s[..p + 1]) == Quoted(before, s[..p]) + Code(s[p])
  {
    EncodedAppend(s[..p], [s[p]]);
    assert s[..p + 1] == s[..p] + [s[p]];
    assert Encoded([s[p]]) == Code(s[p]);
    Regroup(before + [QUOTE], Encoded(s[..p]), Code(s[p]));
  }

  lemma {:induction false} EncodedIsLonger(w: seq<Byte>)
    ensures |w| <= |Encoded(w)|
  {
    if w != [] {
      EncodedIsLonger(w[1..]);
    }
  }

  /** A word comes out unchanged exactly if it is there and all of it is printable, without
      blanks, quotes and backslashes. */
  lemma BareIff(w: seq<Byte>)
    ensures EscapedWord(w) == w <==>
      w != [] && forall i | 0 <= i < |w| :: '!' <= w[i] as char <= '~' && w[i] as char !in "\"'\\"
  {
    EncodedIsLonger(w);
    assert forall i | 0 <= i < |w| :: Plain(w[i]) <==> '!' <= w[i] as char <= '~' && w[i] as char !in "\"'\\";
  }

  lemma EncodedThree(a: Byte, b: Byte, c: Byte)
    ensures Encoded([a, b, c]) == Code(a) + Code(b) + Code(c)
  {
    assert [a, b, c][1..] == [b, c] && [b, c][1..] == [c] && [c][1..] == [];
    assert Encoded([c]) == Code(c) && Encoded([b, c]) == Code(b) + Code(c);
  }

  /** What every kind of byte becomes: newline, carriage return and tab; blank and the two
      quotes; backslash, a byte that is not printable and a letter. */
  lemma EveryCode()
    ensures Encoded([10, 13, 9]) == [92, 110, 92, 114, 92, 116]
    ensures Encoded([32, 34, 39]) == [32, 92, 34, 92, 39]
    ensures Encoded([92, 234, 101]) == [92, 92, 92, 120, 101, 97, 101]
  {
    EncodedThree(10, 13, 9);
    EncodedThree(32, 34, 39);
    EncodedThree(92, 234, 101);
  }

  // ----- one block of the file -----

  /** The words of a block: what NUL bytes separate, or end. */
  function Words(block: seq<Byte>): (w: seq<seq<Byte>>)
    ensures |w| >= 1
  {
    var n := WordLength(block);
    if n + 1 >= |block| then [block[..n]] else [block[..n]] + Words(block[n + 1..])
  }

  /** strlen of the NUL-terminated buffer. */
  function WordLength(block: seq<Byte>): (n: nat)
    ensures n <= |block| && 0 !in block[..n] && (n < |block| ==> block[n] == 0)
  {
    if block == [] || block[0] == 0 then 0
    else
      var n := 1 + WordLength(block[1..]);
      assert block[..n] == [block[0]] + block[1..][..n - 1];
      n
  }

  function Glued(words: seq<seq<Byte>>): seq<Byte>
    requires |words| >= 1
  {
    if |words| == 1 then words[0] else words[0] + [0] + Glued(words[1..])
  }

  lemma CutOff(block: seq<Byte>, n: nat)
    requires n + 1 < |block| && block[n] == 0
    ensures var rest := block[n + 1..];
      && block == block[..n] + [0] + rest && block[|block| - 1] == rest[|rest| - 1]
      && block[..|block| - 1] == block[..n] + [0] + rest[..|rest| - 1]
  {
  }

  /** The words are what NUL bytes separate: with these between them they are the block
      again, but for a NUL at its end. */
  lemma {:induction false} WordsSplit(block: seq<Byte>)
    ensures Glued(Words(block)) == if block != [] && block[|block| - 1] == 0 then block[..|block| - 1] else block
  {
    var n := WordLength(block);
    if n + 1 < |block| {
      WordsSplit(block[n + 1..]);
      CutOff(block, n);
      assert Words(block)[1..] == Words(block[n + 1..]);
    } else if n == |block| && n > 0 {
      assert block[..n] == block && block[n - 1] in block[..n];
    }
  }

  lemma {:induction false} NoNulInWords(block: seq<Byte>)
    ensures forall w | w in Words(block) :: 0 !in w
  {
    var n := WordLength(block);
    if n + 1 < |block| {
      NoNulInWords(block[n + 1..]);
    }
  }

  /** The words escaped and joined. */
  function Joined(words: seq<seq<Byte>>, separator: Byte): seq<Byte>
    requires |words| >= 1
  {
    if |words| == 1 then EscapedWord(words[0])
    else EscapedWord(words[0]) + [separator] + Joined(words[1..], separator)
  }

  /** Escapes the words of one block behind what buf already holds. `counted` is what
      the caller adds to its running length: the words, but not the separators. */
  method EscapeBlock(buf: array<Byte>, base: nat, block: seq<Byte>, separator: Byte, ghost before: seq<Byte>)
    returns (dst: nat, counted: nat)
    requires block != [] && Holds(buf, base, before) && base + 4 * |block| + 4 <= buf.Length
    modifies buf
    ensures Holds(buf, dst, before + Joined(Words(block), separator))
    ensures dst + 1 < buf.Length
    ensures counted + |Words(block)| - 1 == dst - base
  {
    var src := block;
    ghost var have := before;
    dst := base;
    counted := 0;
    while true
      invariant src != [] && |src| <= |block| && Holds(buf, dst, have) && dst <= base + 4 * (|block| - |src|)
      invariant have + Joined(Words(src), separator) == before + Joined(Words(block), separator)
      invariant counted + |Words(block)| - |Words(src)| == dst - base
      decreases |src|
    {
      var n := WordLength(src);
      WordsUnfold(src, separator);
      ghost var w := EscapedWord(src[..n]);
      var d := AppendEscaped(buf, dst, src[..n], have);
      counted := counted + (d - dst);
      dst := d;
      if n + 1 >= |src| {
        break;
      }
      src := src[n + 1..];
      Regroup4(have, w, [separator], Joined(Words(src), separator));
      dst := Put(buf, dst, [separator], have + w);
      have := have + w + [separator];
    }
  }

  lemma WordsUnfold(r: seq<Byte>, separator: Byte)
    requires r != []
    ensures var n := WordLength(r); var w := EscapedWord(r[..n]);
      if n + 1 >= |r| then Joined(Words(r), separator) == w && |Words(r)| == 1
      else Joined(Words(r), separator) == w + [separator] + Joined(Words(r[n + 1..]), separator)
           && |Words(r)| == 1 + |Words(r[n + 1..])|
  {
    var n := WordLength(r);
    if n + 1 < |r| {
      assert Words(r)[1..] == Words(r[n + 1..]);
    }
  }

  // ----- the whole file -----

  const PARANOIA := 1024 * 1024

  /** The buffer up to the write pointer, and the running length. */
  datatype Progress = Progress(content: seq<Byte>, total: nat)

  /** The next block is written at the running length, over what is there. */
  function AddBlock(acc: Progress, block: seq<Byte>, separator: Byte): Progress
    requires acc.total <= |acc.content|
  {
    var words := Words(block);
    var text := Joined(words, separator);
    JoinedLength(words, separator);
    Progress(acc.content[..acc.total] + text, acc.total + |text| - (|words| - 1))
  }

  lemma {:induction false} JoinedLength(words: seq<seq<Byte>>, separator: Byte)
    requires |words| >= 1
    ensures |Joined(words, separator)| >= |words| - 1
  {
    if |words| > 1 {
      JoinedLength(words[1..], separator);
    }
  }

  /** What read() delivers until it reports the end or the length limit is reached. */
  function Assembled(blocks: seq<seq<Byte>>, separator: Byte, acc: Progress): (r: Progress)
    requires acc.total <= |acc.content|
    ensures r.total <= |r.content|
  {
    if acc.total >= PARANOIA || blocks == [] || blocks[0] == [] then acc
    else Assembled(blocks[1..], separator, AddBlock(acc, blocks[0], separator))
  }

  lemma {:induction false} CountedBound(words: seq<seq<Byte>>, separator: Byte)
    requires |words| >= 1
    ensures |Joined(words, separator)| - (|words| - 1) <= 4 * |Glued(words)| + 2
  {
    if |words| > 1 {
      CountedBound(words[1..], separator);
    }
  }

  /** However much there is to read, the length never gets a block beyond the limit. */
  lemma {:induction false} LengthLimited(blocks: seq<seq<Byte>>, separator: Byte, acc: Progress)
    requires acc.total <= |acc.content| && acc.total < 1024 * 1024 + 4 * 4096 + 2
    requires forall i | 0 <= i < |blocks| :: |blocks[i]| <= 4096
    ensures Assembled(blocks, separator, acc).total < 1024 * 1024 + 4 * 4096 + 2
    decreases |blocks|
  {
    if acc.total < PARANOIA && blocks != [] && blocks[0] != [] {
      CountedBound(Words(blocks[0]), separator);
      WordsSplit(blocks[0]);
      LengthLimited(blocks[1..], separator, AddBlock(acc, blocks[0], separator));
    }
  }

  /** xrealloc to n bytes: the old bytes stay as far as they fit. */
  method Realloc(old_: array<Byte>, n: nat, ghost have: seq<Byte>) returns (buf: array<Byte>)
    requires Holds(old_, |have|, have) && |have| <= n
    ensures fresh(buf) && buf.Length == n && Holds(buf, |have|, have)
  {
    buf := new Byte[n];
    forall i | 0 <= i < n && i < old_.Length {
      buf[i] := old_[i];
    }
    assert forall i | 0 <= i < |have| :: buf[i] == old_[..|have|][i];
  }

  /** One turn of the loop: makes room for the block and escapes it behind what counts. */
  method AddToBuffer(old_: array<Byte>, have: nat, total: nat, block: seq<Byte>, separator: Byte, ghost acc: Progress)
    returns (escaped: array<Byte>, dst: nat, total': nat)
    requires 0 < |block| && acc.total == total <= |acc.content| && Holds(old_, have, acc.content)
    ensures fresh(escaped) && dst + 1 < escaped.Length
    ensures var next := AddBlock(acc, block, separator);
      next.total == total' <= |next.content| && Holds(escaped, dst, next.content)
  {
    ghost var kept := acc.content[..total];
    assert old_[..|kept|] == kept by { assert old_[..have][..|kept|] == old_[..|kept|]; }
    escaped := Realloc(old_, total + |block| * 4 + 4, kept);
    var counted;
    dst, counted := EscapeBlock(escaped, total, block, separator, kept);
    total' := total + counted;
  }

  /** get_escaped_at. Every write is inside the buffer allocated for its block, for any
      number of blocks, although the separators are not counted. */
  method GetEscaped(blocks: seq<seq<Byte>>, separator: Byte) returns (r: Option<array<Byte>>)
    requires forall i | 0 <= i < |blocks| :: |blocks[i]| <= 4 * 1024
    ensures r.None? <==> blocks == [] || blocks[0] == []
    ensures r.Some? ==>
      var text := Assembled(blocks, separator, Progress([], 0)).content + if separator == NEWLINE then [NEWLINE] else [];
      |text| < r.value.Length && r.value[..|text|] == text && r.value[|text|] == 0
  {
    var escaped := new Byte[0];
    var dst: nat, total_esc_len: nat, i: nat := 0, 0, 0;
    ghost var acc := Progress([], 0);
    while total_esc_len < PARANOIA && i < |blocks| && blocks[i] != []
      invariant i <= |blocks| && fresh(escaped)
      invariant acc.total == total_esc_len <= |acc.content| && Holds(escaped, dst, acc.content)
      invariant i > 0 ==> dst + 1 < escaped.Length && blocks[0] != []
      invariant i == 0 ==> acc == Progress([], 0)
      invariant Assembled(blocks[i..], separator, acc) == Assembled(blocks, separator, Progress([], 0))
      decreases |blocks| - i
    {
      assert blocks[i..][1..] == blocks[i + 1..];
      escaped, dst, total_esc_len := AddToBuffer(escaped, dst, total_esc_len, blocks[i], separator, acc);
      acc := AddBlock(acc, blocks[i], separator);
      i := i + 1;
    }
    if i == 0 {
      return None;
    }
    assert Assembled(blocks[i..], separator, acc) == acc;
    if separator == NEWLINE {
      dst := Put(escaped, dst, [separator], acc.content);
    }
    escaped[dst] := 0;
    r := Some(escaped);
  }

  // ----- nothing is lost from a file read in one block -----

  function HexValue(c: Byte): int {
    if 48 <= c <= 57 then c - 48 else c - 87
  }

  function DecodeOne(c: Byte): Byte {
    if c == 114 then 13 else if c == 110 then NEWLINE else if c == 116 then 9 else c
  }

  function FromHex(hi: int, lo: int): Byte { (16 * hi + lo) % 256 }

  /** Decodes up to the closing quote; also returns what follows it. */
  function Unquote(e: seq<Byte>): Option<(seq<Byte>, seq<Byte>)> {
    if e == [] then None
    else if e[0] == QUOTE then Some(([], e[1..]))
    else if e[0] != BACKSLASH then Prepend(e[0], Unquote(e[1..]))
    else if |e| < 2 then None
    else if e[1] != 120 then Prepend(DecodeOne(e[1]), Unquote(e[2..]))
    else if |e| < 4 then None
    else Prepend(FromHex(HexValue(e[2]), HexValue(e[3])), Unquote(e[4..]))
  }

  function Prepend(b: Byte, r: Option<(seq<Byte>, seq<Byte>)>): Option<(seq<Byte>, seq<Byte>)> {
    match r
    case None => None
    case Some((w, rest)) => Some(([b] + w, rest))
  }

  /** The length of a word without quotes. */
  function BareLength(e: seq<Byte>, separator: Byte): (n: nat)
    ensures n <= |e|
  {
    if e == [] || e[0] == separator then 0 else 1 + BareLength(e[1..], separator)
  }

  /** The first word of e and what follows it. */
  function DecodeHead(e: seq<Byte>, separator: Byte): Option<(seq<Byte>, seq<Byte>)> {
    var n := BareLength(e, separator);
    if e != [] && e[0] == QUOTE then Unquote(e[1..]) else Some((e[..n], e[n..]))
  }

  function Decode(e: seq<Byte>, separator: Byte): Option<seq<seq<Byte>>>
    decreases |e|
  {
    match DecodeHead(e, separator)
    case None => None
    case Some((w, rest)) =>
      if rest == Terminator(separator) then Some([w])
      else if rest == [] || rest[0] != separator || |rest| > |e| then None
      else
        match Decode(rest[1..], separator)
        case None => None
        case Some(ws) => Some([w] + ws)
  }

  lemma HexRoundTrip(b: Byte)
    ensures FromHex(HexValue(HexDigit(b / 16)), HexValue(HexDigit(b % 16))) == b
  {
  }

  lemma UnquotePlain(b: Byte, tail: seq<Byte>)
    requires b != QUOTE && b != BACKSLASH
    ensures Unquote([b] + tail) == Prepend(b, Unquote(tail))
  {
    var e := [b] + tail;
    assert e[0] == b && e[1..] == tail;
  }

  lemma UnquotePair(c: Byte, tail: seq<Byte>)
    requires c != 120
    ensures Unquote([BACKSLASH, c] + tail) == Prepend(DecodeOne(c), Unquote(tail))
  {
    var e := [BACKSLASH, c] + tail;
    assert e[0] == BACKSLASH && e[1] == c && e[2..] == tail;
  }

  lemma UnquoteHex(x: Byte, y: Byte, tail: seq<Byte>)
    ensures Unquote([BACKSLASH, 120, x, y] + tail) == Prepend(FromHex(HexValue(x), HexValue(y)), Unquote(tail))
  {
    var e := [BACKSLASH, 120, x, y] + tail;
    assert e[0] == BACKSLASH && e[1] == 120 && e[2] == x && e[3] == y && e[4..] == tail;
  }

  lemma UnquoteCode(b: Byte, tail: seq<Byte>)
    ensures Unquote(Code(b) + tail) == Prepend(b, Unquote(tail))
  {
    var c := Code(b);
    if |c| == 1 {
      UnquotePlain(b, tail);
    } else if |c| == 2 {
      UnquotePair(c[1], tail);
    } else {
      HexRoundTrip(b);
      UnquoteHex(HexDigit(b / 16), HexDigit(b % 16), tail);
    }
  }

  lemma EncodedSplit(w: seq<Byte>, rest: seq<Byte>)
    requires w != []
    ensures Encoded(w) + [QUOTE] + rest == Code(w[0]) + (Encoded(w[1..]) + [QUOTE] + rest)
  {
    assert Encoded(w) == Code(w[0]) + Encoded(w[1..]);
    Regroup4(Code(w[0]), Encoded(w[1..]), [QUOTE], rest);
  }

  lemma {:induction false} UnquoteEncoded(w: seq<Byte>, rest: seq<Byte>)
    ensures Unquote(Encoded(w) + [QUOTE] + rest) == Some((w, rest))
  {
    if w == [] {
      assert Encoded(w) + [QUOTE] + rest == [QUOTE] + rest;
    } else {
      UnquoteEncoded(w[1..], rest);
      UnquoteCode(w[0], Encoded(w[1..]) + [QUOTE] + rest);
      EncodedSplit(w, rest);
      assert [w[0]] + w[1..] == w;
    }
  }

  lemma {:induction false} BareWord(w: seq<Byte>, separator: Byte, rest: seq<Byte>)
    requires AllPlain(w) && !Plain(separator) && (rest == [] || rest[0] == separator)
    ensures BareLength(w + rest, separator) == |w|
  {
    if w == [] {
      assert w + rest == rest;
    } else {
      assert (w + rest)[1..] == w[1..] + rest;
      BareWord(w[1..], separator, rest);
    }
  }

  lemma DecodeBare(w: seq<Byte>, separator: Byte, rest: seq<Byte>)
    requires w != [] && AllPlain(w) && !Plain(separator) && (rest == [] || rest[0] == separator)
    ensures DecodeHead(w + rest, separator) == Some((w, rest))
  {
    BareWord(w, separator, rest);
    assert (w + rest)[0] == w[0];
  }

  lemma DecodeQuoted(w: seq<Byte>, separator: Byte, rest: seq<Byte>)
    ensures DecodeHead([QUOTE] + Encoded(w) + [QUOTE] + rest, separator) == Some((w, rest))
  {
    var inner := Encoded(w) + [QUOTE] + rest;
    assert [QUOTE] + Encoded(w) + [QUOTE] + rest == [QUOTE] + inner;
    assert ([QUOTE] + inner)[1..] == inner;
    UnquoteEncoded(w, rest);
  }

  /** Reading one escaped word off the front. */
  lemma DecodeStep(w: seq<Byte>, separator: Byte, rest: seq<Byte>)
    requires !Plain(separator) && (rest == [] || rest[0] == separator)
    ensures DecodeHead(EscapedWord(w) + rest, separator) == Some((w, rest))
  {
    if w != [] && AllPlain(w) {
      DecodeBare(w, separator, rest);
    } else {
      DecodeQuoted(w, separator, rest);
    }
  }

  function Terminator(separator: Byte): seq<Byte> { if separator == NEWLINE then [NEWLINE] else [] }

  lemma DecodeMore(w: seq<Byte>, separator: Byte, more: seq<Byte>)
    requires (separator == SPACE || separator == NEWLINE) && more != []
    requires Decode(more, separator).Some?
    ensures Decode(EscapedWord(w) + ([separator] + more), separator) == Some([w] + Decode(more, separator).value)
  {
    DecodeStep(w, separator, [separator] + more);
    assert ([separator] + more)[1..] == more;
  }

  lemma JoinedUnfold(words: seq<seq<Byte>>, separator: Byte)
    requires |words| > 1
    ensures Joined(words, separator) + Terminator(separator)
      == EscapedWord(words[0]) + ([separator] + (Joined(words[1..], separator) + Terminator(separator)))
  {
  }

  lemma {:induction false} DecodeJoined(words: seq<seq<Byte>>, separator: Byte)
    requires |words| >= 1 && (separator == SPACE || separator == NEWLINE)
    ensures Decode(Joined(words, separator) + Terminator(separator), separator) == Some(words)
  {
    if |words| == 1 {
      DecodeStep(words[0], separator, Terminator(separator));
      assert words == [words[0]];
    } else {
      var more := Joined(words[1..], separator) + Terminator(separator);
      JoinedUnfold(words, separator);
      DecodeJoined(words[1..], separator);
      JoinedNotEmpty(words[1..], separator);
      assert more != [];
      DecodeMore(words[0], separator, more);
      assert [words[0]] + words[1..] == words;
    }
  }

  lemma JoinedNotEmpty(words: seq<seq<Byte>>, separator: Byte)
    requires |words| >= 1
    ensures Joined(words, separator) != []
  {
  }

  /** A file that arrives in one read is fully recoverable from its escaped form,
      for both separators in use. */
  lemma OneBlockDecodes(block: seq<Byte>, separator: Byte)
    requires block != [] && (separator == SPACE || separator == NEWLINE)
    ensures Decode(Assembled([block], separator, Progress([], 0)).content + Terminator(separator), separator) == Some(Words(block))
  {
    DecodeJoined(Words(block), separator);
    var start := Progress([], 0);
    assert AddBlock(start, block, separator).content == Joined(Words(block), separator);
    assert Assembled([block][1..], separator, AddBlock(Progress([], 0), block, separator)) == AddBlock(Progress([], 0), block, separator);
  }

  // ----- several blocks -----

  function Concatenated(blocks: seq<seq<Byte>>, separator: Byte): seq<Byte> {
    if blocks == [] then [] else Joined(Words(blocks[0]), separator) + Concatenated(blocks[1..], separator)
  }

  /** Every block but the last holds a single word. */
  predicate SingleWords(blocks: seq<seq<Byte>>) {
    |blocks| <= 1 || (|Words(blocks[0])| == 1 && SingleWords(blocks[1..]))
  }

  /** The running length leaves the separators out, so a block overwrites the end of
      the block before it unless that one held a single word: the result has the escaped
      blocks one after the other if and only if every block but the last is one word. */
  lemma BlocksKeptIff(blocks: seq<seq<Byte>>, separator: Byte)
    requires forall i | 0 <= i < |blocks| :: blocks[i] != []
    requires |Concatenated(blocks, separator)| < 1024 * 1024
    ensures Assembled(blocks, separator, Progress([], 0)).content == Concatenated(blocks, separator) <==> SingleWords(blocks)
  {
    KeptFrom(blocks, separator, Progress([], 0));
  }

  lemma {:induction false} KeptFrom(blocks: seq<seq<Byte>>, separator: Byte, acc: Progress)
    requires forall i | 0 <= i < |blocks| :: blocks[i] != []
    requires acc.total <= |acc.content| && acc.total + |Concatenated(blocks, separator)| < PARANOIA
    requires blocks == [] ==> acc.total == |acc.content|
    ensures var text := Assembled(blocks, separator, acc).content;
      if SingleWords(blocks) then text == acc.content[..acc.total] + Concatenated(blocks, separator)
      else |text| < acc.total + |Concatenated(blocks, separator)|
  {
    if |blocks| > 1 {
      KeptFrom(blocks[1..], separator, AddBlock(acc, blocks[0], separator));
      Regroup(acc.content[..acc.total], Joined(Words(blocks[0]), separator), Concatenated(blocks[1..], separator));
    } else if |blocks| == 1 {
      assert blocks[1..] == [] && Concatenated([], separator) == [];
    }
  }
}
