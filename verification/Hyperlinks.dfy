/**
 Finding URLs in a line of text and turning them into links
 (src/gtk-helpers/hyperlinks.c). Pointers into the line are indices.
 */
module Hyperlinks {
  import opened Basics

  const PREFIXES := ["http://", "https://", "ftp://", "file://"]

  const URL_ENDS := ",'\"\t\n "

  /** struct url_token */
  datatype Token = Token(start: nat, len: int)

  // ----- what the tokens of a line are -----

  predicate HasAt(line: string, pfx: string, i: nat) {
    i + |pfx| <= |line| && line[i..i + |pfx|] == pfx
  }

  /** One of the first n known prefixes starts at i. */
  predicate IsStart(line: string, n: nat, i: nat)
    requires n <= 4
  {
    exists k | 0 <= k < n :: HasAt(line, PREFIXES[k], i)
  }

  predicate UrlAt(line: string, i: nat) { IsStart(line, 4, i) }

  /** The first delimiter at or after i, or the end of the line. */
  function EndOf(line: string, i: nat): (e: nat)
    requires i <= |line|
    ensures i <= e <= |line|
    ensures e < |line| ==> line[e] in URL_ENDS
    ensures forall j | i <= j < e :: line[j] !in URL_ENDS
    decreases |line| - i
  {
    if i == |line| || line[i] in URL_ENDS then i else EndOf(line, i + 1)
  }

  /** What ends a URL, and what does not. */
  lemma DelimiterIff(d: char)
    ensures EndOf("http://a" + [d] + "b", 0) == 8 <==> d == ',' || d == '\'' || d == '"' || d == '\t' || d == '\n' || d == ' '
  {
    var line := "http://a" + [d] + "b";
    assert forall j | 0 <= j < 8 :: line[j] !in URL_ENDS;
    assert line[8] == d;
  }

  /** What starts one. */
  lemma StartIff(line: string, i: nat)
    ensures UrlAt(line, i) <==>
      HasAt(line, "http://", i) || HasAt(line, "https://", i) || HasAt(line, "ftp://", i) || HasAt(line, "file://", i)
  {
    assert PREFIXES[0] == "http://" && PREFIXES[1] == "https://" && PREFIXES[2] == "ftp://" && PREFIXES[3] == "file://";
  }

  predicate Increasing(starts: seq<nat>) {
    forall i, j | 0 <= i < j < |starts| :: starts[i] < starts[j]
  }

  /** All positions from i on where a known prefix starts, in order. */
  function UrlStarts(line: string, i: nat): (s: seq<nat>)
    requires i <= |line|
    ensures Increasing(s)
    ensures forall p :: p in s <==> i <= p < |line| && UrlAt(line, p)
    decreases |line| - i
  {
    if i == |line| then []
    else
      var rest := UrlStarts(line, i + 1);
      assert forall j | 0 <= j < |rest| :: rest[j] in rest;
      if UrlAt(line, i) then [i] + rest else rest
  }

  /** Each token ends at its delimiter or where the next one starts. */
  function TokenOf(line: string, starts: seq<nat>, i: nat): Token
    requires i < |starts| && starts[i] <= |line|
  {
    var e := EndOf(line, starts[i]);
    var stop := if i + 1 < |starts| && starts[i + 1] < e then starts[i + 1] else e;
    Token(starts[i], stop - starts[i])
  }

  predicate Within(line: string, starts: seq<nat>) {
    forall i | 0 <= i < |starts| :: starts[i] <= |line|
  }

  function TokensOf(line: string, starts: seq<nat>): (t: seq<Token>)
    requires Within(line, starts)
    ensures |t| == |starts|
    ensures forall i | 0 <= i < |starts| :: t[i] == TokenOf(line, starts, i)
  {
    seq(|starts|, i requires 0 <= i < |starts| => TokenOf(line, starts, i))
  }

  // ----- the known prefixes do not overlap -----

  lemma PrefixChars(k: nat, j: nat)
    requires k < 4 && j < |PREFIXES[k]|
    ensures PREFIXES[k][j] !in URL_ENDS
    ensures j > 0 ==> PREFIXES[k][j] != 'h' && PREFIXES[k][j] != 'f'
    ensures j == 0 ==> PREFIXES[k][j] == 'h' || PREFIXES[k][j] == 'f'
    ensures |PREFIXES[k]| >= 6
  {
  }

  lemma HasAtChar(line: string, pfx: string, i: nat, j: nat)
    requires HasAt(line, pfx, i) && j < |pfx|
    ensures line[i + j] == pfx[j]
  {
    assert line[i..i + |pfx|][j] == pfx[j];
  }

  /** At most one prefix starts at a position, and none inside another one. */
  lemma PrefixesApart(line: string, k: nat, i: nat, k': nat, i': nat)
    requires k < 4 && k' < 4 && HasAt(line, PREFIXES[k], i) && HasAt(line, PREFIXES[k'], i')
    ensures i == i' ==> k == k'
    ensures i < i' ==> i + |PREFIXES[k]| <= i'
  {
    if i < i' < i + |PREFIXES[k]| {
      HasAtChar(line, PREFIXES[k], i, i' - i);
      HasAtChar(line, PREFIXES[k'], i', 0);
      PrefixChars(k, i' - i);
      PrefixChars(k', 0);
    } else if i == i' {
      HasAtChar(line, PREFIXES[k], i, 0);
      HasAtChar(line, PREFIXES[k'], i, 0);
      HasAtChar(line, PREFIXES[k], i, 1);
      HasAtChar(line, PREFIXES[k'], i, 1);
      HasAtChar(line, PREFIXES[k], i, 4);
      HasAtChar(line, PREFIXES[k'], i, 4);
    }
  }

  /** The prefix itself holds no delimiter. */
  lemma EndAfterPrefix(line: string, k: nat, i: nat)
    requires k < 4 && HasAt(line, PREFIXES[k], i)
    ensures i + |PREFIXES[k]| <= EndOf(line, i)
  {
    var e := EndOf(line, i);
    if e < i + |PREFIXES[k]| {
      HasAtChar(line, PREFIXES[k], i, e - i);
      PrefixChars(k, e - i);
    }
  }

  /** What the token list of a line promises about a token: it lies in the line, has no
      delimiter, is at least as long as its prefix, and ends for one of three reasons. */
  predicate GoodToken(line: string, t: Token) {
    && 0 <= t.len && t.start + t.len <= |line|
    && (exists k | 0 <= k < 4 :: HasAt(line, PREFIXES[k], t.start) && |PREFIXES[k]| <= t.len)
    && (forall j | t.start <= j < t.start + t.len :: line[j] !in URL_ENDS)
    && (t.start + t.len == |line| || line[t.start + t.len] in URL_ENDS || UrlAt(line, t.start + t.len))
  }

  function LineTokens(line: string): seq<Token> {
    var starts := UrlStarts(line, 0);
    assert forall i | 0 <= i < |starts| :: starts[i] in starts;
    TokensOf(line, starts)
  }

  lemma CutIsGood(line: string, k: nat, p: nat, stop: nat)
    requires k < 4 && HasAt(line, PREFIXES[k], p)
    requires p + |PREFIXES[k]| <= stop <= EndOf(line, p) && (stop == EndOf(line, p) || UrlAt(line, stop))
    ensures GoodToken(line, Token(p, stop - p))
  {
  }

  lemma NextStartIsApart(line: string, i: nat, k: nat)
    requires i + 1 < |UrlStarts(line, 0)| && k < 4 && HasAt(line, PREFIXES[k], UrlStarts(line, 0)[i])
    ensures var starts := UrlStarts(line, 0); starts[i] + |PREFIXES[k]| <= starts[i + 1] && UrlAt(line, starts[i + 1])
  {
    var q := UrlStarts(line, 0)[i + 1];
    assert q in UrlStarts(line, 0);
    var k' :| 0 <= k' < 4 && HasAt(line, PREFIXES[k'], q);
    PrefixesApart(line, k, UrlStarts(line, 0)[i], k', q);
  }

  lemma TokenIsGood(line: string, starts: seq<nat>, i: nat, k: nat)
    requires Within(line, starts) && i < |starts| && k < 4 && HasAt(line, PREFIXES[k], starts[i])
    requires i + 1 < |starts| ==> starts[i] + |PREFIXES[k]| <= starts[i + 1] && UrlAt(line, starts[i + 1])
    ensures var t := TokenOf(line, starts, i);
      GoodToken(line, t) && t.start == starts[i] && (i + 1 < |starts| ==> t.start + t.len <= starts[i + 1])
  {
    EndAfterPrefix(line, k, starts[i]);
    CutIsGood(line, k, starts[i], starts[i] + TokenOf(line, starts, i).len);
  }

  /** One good token per URL start, in order, and none reaches into the next one. */
  lemma TokensAreGood(line: string, i: nat)
    requires i < |LineTokens(line)|
    ensures GoodToken(line, LineTokens(line)[i]) && LineTokens(line)[i].start == UrlStarts(line, 0)[i]
    ensures i + 1 < |LineTokens(line)| ==>
      LineTokens(line)[i].start + LineTokens(line)[i].len <= LineTokens(line)[i + 1].start
  {
    var starts, tokens := UrlStarts(line, 0), LineTokens(line);
    var k := PrefixOfStart(line, i);
    if i + 1 < |starts| {
      NextStartIsApart(line, i, k);
      assert tokens[i + 1].start == starts[i + 1];
    }
    StartsWithin(line);
    TokenIsGood(line, starts, i, k);
    assert tokens[i] == TokenOf(line, starts, i);
  }

  lemma StartsWithin(line: string)
    ensures Within(line, UrlStarts(line, 0))
  {
    var starts := UrlStarts(line, 0);
    assert forall i | 0 <= i < |starts| :: starts[i] in starts;
  }

  lemma PrefixOfStart(line: string, i: nat) returns (k: nat)
    requires i < |UrlStarts(line, 0)|
    ensures k < 4 && UrlStarts(line, 0)[i] < |line| && HasAt(line, PREFIXES[k], UrlStarts(line, 0)[i])
  {
    var p := UrlStarts(line, 0)[i];
    assert p in UrlStarts(line, 0);
    k :| 0 <= k < 4 && HasAt(line, PREFIXES[k], p);
  }

  // ----- find_end -----

  /** find_end: the nearest of the delimiters, one search each. */
  method FindEnd(line: string, url_start: nat) returns (url_end: nat)
    requires url_start <= |line|
    ensures url_end == EndOf(line, url_start)
  {
    url_end := IndexOf(line, URL_ENDS[0], url_start);
    for c := 1 to |URL_ENDS|
      invariant url_start <= url_end <= |line|
      invariant url_end < |line| ==> line[url_end] in URL_ENDS
      invariant forall d, j | 0 <= d < c && url_start <= j < url_end :: line[j] != URL_ENDS[d]
    {
      var tmp := IndexOf(line, URL_ENDS[c], url_start);
      if tmp < url_end {
        url_end := tmp;
      }
    }
    assert forall j | url_start <= j < url_end :: line[j] !in URL_ENDS;
  }

  // ----- find_url_tokens -----

  /** strstr(line + i, pfx) */
  function StrStr(line: string, pfx: string, i: nat): (p: int)
    requires i <= |line| && pfx != []
    ensures p == -1 || (i <= p < |line| && HasAt(line, pfx, p))
    ensures forall j: nat | i <= j && (p == -1 || j < p) :: !HasAt(line, pfx, j)
    decreases |line| - i
  {
    if HasAt(line, pfx, i) then i else if i == |line| then -1 else StrStr(line, pfx, i + 1)
  }

  function Insert<T>(xs: seq<T>, k: nat, x: T): (r: seq<T>)
    requires k <= |xs|
    ensures |r| == |xs| + 1
    ensures forall i {:trigger r[i]} | 0 <= i <= |xs| :: r[i] == if i < k then xs[i] else if i == k then x else xs[i - 1]
  {
    xs[..k] + [x] + xs[k..]
  }

  /** The number of leading starts below p. */
  function Place(starts: seq<nat>, p: nat, i: nat := 0): (k: nat)
    requires i <= |starts|
    ensures i <= k <= |starts| && (k < |starts| ==> p <= starts[k])
    ensures forall j | i <= j < k :: starts[j] < p
    decreases |starts| - i
  {
    if i == |starts| || p <= starts[i] then i else Place(starts, p, i + 1)
  }

  lemma InsertIsSorted(starts: seq<nat>, k: nat, p: nat)
    requires k <= |starts| && Increasing(starts)
    requires (k > 0 ==> starts[k - 1] < p) && (k < |starts| ==> p < starts[k])
    ensures Increasing(Insert(starts, k, p))
  {
    assert forall i | 0 <= i < k :: starts[i] < p;
    assert forall i | k <= i < |starts| :: p < starts[i];
  }

  /** The tokens once the one before position k has been cut at p. */
  function CutBefore(tokens: seq<Token>, k: nat, p: nat): (r: seq<Token>)
    requires k <= |tokens|
    ensures |r| == |tokens|
  {
    if k > 0 && tokens[k - 1].start + tokens[k - 1].len > p then
      tokens[k - 1 := tokens[k - 1].(len := p - tokens[k - 1].start)]
    else tokens
  }

  /** The new token: up to its delimiter, or to the token it is inserted before. */
  function NewToken(line: string, tokens: seq<Token>, k: nat, p: nat): Token
    requires k <= |tokens| && p <= |line|
  {
    var e := EndOf(line, p);
    Token(p, (if k < |tokens| && tokens[k].start < e then tokens[k].start else e) - p)
  }

  lemma TokenAfterInsert(line: string, starts: seq<nat>, k: nat, p: nat, i: nat)
    requires k <= |starts| && Increasing(starts) && Within(line, starts) && p <= |line| && i <= |starts|
    requires (k > 0 ==> starts[k - 1] < p) && (k < |starts| ==> p < starts[k])
    ensures var t := TokensOf(line, starts);
      TokenOf(line, Insert(starts, k, p), i) ==
        if i < k then CutBefore(t, k, p)[i] else if i == k then NewToken(line, t, k, p) else t[i - 1]
  {
  }

  /** Inserting a start changes two tokens: the new one, and the one before it. */
  lemma TokensAfterInsert(line: string, starts: seq<nat>, k: nat, p: nat)
    requires k <= |starts| && Increasing(starts) && Within(line, starts) && p <= |line|
    requires (k > 0 ==> starts[k - 1] < p) && (k < |starts| ==> p < starts[k])
    ensures Within(line, Insert(starts, k, p))
    ensures var t := TokensOf(line, starts);
      TokensOf(line, Insert(starts, k, p)) == Insert(CutBefore(t, k, p), k, NewToken(line, t, k, p))
  {
    var t := TokensOf(line, starts);
    var r := Insert(CutBefore(t, k, p), k, NewToken(line, t, k, p));
    forall i | 0 <= i <= |starts| ensures TokensOf(line, Insert(starts, k, p))[i] == r[i] {
      TokenAfterInsert(line, starts, k, p, i);
    }
  }

  /** The first token that does not start before url_start. */
  method FindPlace(tokens: seq<Token>, url_start: nat, ghost starts: seq<nat>) returns (anc: nat)
    requires |tokens| == |starts| && forall i | 0 <= i < |tokens| :: tokens[i].start == starts[i]
    ensures anc == Place(starts, url_start)
  {
    anc := 0;
    while anc < |tokens| && tokens[anc].start < url_start
      invariant anc <= |tokens| && Place(starts, url_start, anc) == Place(starts, url_start)
    {
      anc := anc + 1;
    }
  }

  /** Cuts the token before anc where the new one starts, if it reaches that far. */
  method CutPrevious(tokens: seq<Token>, anc: nat, url_start: nat) returns (tokens': seq<Token>)
    requires anc <= |tokens|
    ensures tokens' == CutBefore(tokens, anc, url_start)
  {
    tokens' := tokens;
    if anc > 0 {
      var previous := tokens[anc - 1];
      var prev_end := previous.start + previous.len;
      if prev_end > url_start {
        tokens' := tokens'[anc - 1 := previous.(len := previous.len - (prev_end - url_start))];
      }
    }
  }

  /** The body of the inner loop of find_url_tokens: the new token is cut at the
      following one, and the previous token is cut at the new one. */
  method InsertToken(line: string, tokens: seq<Token>, url_start: nat, ghost starts: seq<nat>)
    returns (tokens': seq<Token>)
    requires Increasing(starts) && url_start !in starts && Within(line, starts) && url_start <= |line|
    requires tokens == TokensOf(line, starts)
    ensures var starts' := Insert(starts, Place(starts, url_start), url_start);
      Increasing(starts') && Within(line, starts') && tokens' == TokensOf(line, starts')
  {
    var url_end := FindEnd(line, url_start);
    var len: int := url_end - url_start;
    var anc := FindPlace(tokens, url_start, starts);
    if anc < |tokens| {
      var following := tokens[anc];
      if url_end > following.start {
        len := len - (url_end - following.start);
      }
    }
    assert Token(url_start, len) == NewToken(line, tokens, anc, url_start);
    PlaceIsApart(starts, url_start);
    InsertIsSorted(starts, anc, url_start);
    TokensAfterInsert(line, starts, anc, url_start);
    tokens' := CutPrevious(tokens, anc, url_start);
    tokens' := tokens'[..anc] + [Token(url_start, len)] + tokens'[anc..];
  }

  lemma PlaceIsApart(starts: seq<nat>, p: nat)
    requires Increasing(starts) && p !in starts
    ensures var k := Place(starts, p); (k > 0 ==> starts[k - 1] < p) && (k < |starts| ==> p < starts[k])
  {
    var k := Place(starts, p);
    assert k < |starts| ==> starts[k] in starts;
  }

  lemma InsertMembers(starts: seq<nat>, k: nat, p: nat)
    requires k <= |starts|
    ensures forall x :: x in Insert(starts, k, p) <==> x in starts || x == p
  {
    assert starts == starts[..k] + starts[k..];
  }

  /** The starts found when the first n prefixes are done and the next one up to cur. */
  ghost predicate FoundUpTo(line: string, starts: seq<nat>, n: nat, cur: nat)
    requires n <= 4
  {
    && Increasing(starts) && Within(line, starts)
    && forall p: nat :: p in starts <==> p < |line| && (IsStart(line, n, p) || (n < 4 && p < cur && HasAt(line, PREFIXES[n], p)))
  }

  lemma {:induction false} SortedUnique(a: seq<nat>, b: seq<nat>)
    requires Increasing(a) && Increasing(b) && forall p :: p in a <==> p in b
    ensures a == b
  {
    HasMember(a);
    HasMember(b);
    if a != [] && b != [] {
      assert a[0] in b && b[0] in a;
      assert a[0] == b[0];
      forall p ensures p in a[1..] <==> p in b[1..] {
        assert p in a <==> p == a[0] || p in a[1..];
        assert p in b <==> p == b[0] || p in b[1..];
      }
      SortedUnique(a[1..], b[1..]);
      assert a == [a[0]] + a[1..] && b == [b[0]] + b[1..];
    }
  }

  lemma HasMember(a: seq<nat>)
    ensures a != [] ==> exists p :: p in a
  {
    if a != [] {
      assert a[0] in a;
    }
  }

  /** find_url_tokens: one prefix after the other, each occurrence inserted in place. */
  method FindUrlTokens(line: string) returns (tokens: seq<Token>)
    ensures tokens == LineTokens(line)
  {
    ghost var starts: seq<nat> := [];
    tokens := [];
    assert tokens == TokensOf(line, starts);
    for pfx := 0 to 4
      invariant FoundUpTo(line, starts, pfx, 0) && tokens == TokensOf(line, starts)
    {
      var cur_pos := 0;
      var url_start := StrStr(line, PREFIXES[pfx], cur_pos);
      while url_start != -1
        invariant cur_pos <= |line| && url_start == StrStr(line, PREFIXES[pfx], cur_pos)
        invariant FoundUpTo(line, starts, pfx, cur_pos) && tokens == TokensOf(line, starts)
        decreases |line| - cur_pos
      {
        NotFoundYet(line, starts, pfx, cur_pos);
        ghost var k := Place(starts, url_start);
        tokens := InsertToken(line, tokens, url_start, starts);
        StillFound(line, starts, pfx, cur_pos, k);
        starts := Insert(starts, k, url_start);
        cur_pos := url_start + |PREFIXES[pfx]|;
        url_start := StrStr(line, PREFIXES[pfx], cur_pos);
      }
      PrefixDone(line, starts, pfx, cur_pos);
    }
    SortedUnique(starts, UrlStarts(line, 0));
  }

  lemma NotFoundYet(line: string, starts: seq<nat>, n: nat, cur: nat)
    requires n < 4 && cur <= |line| && FoundUpTo(line, starts, n, cur) && StrStr(line, PREFIXES[n], cur) != -1
    ensures StrStr(line, PREFIXES[n], cur) !in starts
  {
    var p := StrStr(line, PREFIXES[n], cur);
    forall k | 0 <= k < n && HasAt(line, PREFIXES[k], p) ensures false {
      PrefixesApart(line, k, p, n, p);
    }
  }

  lemma StillFound(line: string, starts: seq<nat>, n: nat, cur: nat, k: nat)
    requires n < 4 && cur <= |line| && FoundUpTo(line, starts, n, cur) && StrStr(line, PREFIXES[n], cur) != -1
    requires k <= |starts|
    requires var s := Insert(starts, k, StrStr(line, PREFIXES[n], cur)); Increasing(s) && Within(line, s)
    ensures var p := StrStr(line, PREFIXES[n], cur); FoundUpTo(line, Insert(starts, k, p), n, p + |PREFIXES[n]|)
  {
    var p := StrStr(line, PREFIXES[n], cur);
    InsertMembers(starts, k, p);
    forall j: nat | HasAt(line, PREFIXES[n], j) && j < p + |PREFIXES[n]| ensures j == p || j < cur {
      PrefixesApart(line, n, p, n, j);
    }
  }

  lemma PrefixDone(line: string, starts: seq<nat>, n: nat, cur: nat)
    requires n < 4 && cur <= |line| && FoundUpTo(line, starts, n, cur) && StrStr(line, PREFIXES[n], cur) == -1
    ensures FoundUpTo(line, starts, n + 1, 0)
  {
    forall p: nat | p < |line| ensures IsStart(line, n + 1, p) <==> IsStart(line, n, p) || HasAt(line, PREFIXES[n], p) {
    }
  }
}
