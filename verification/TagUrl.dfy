/**
 tag_url (src/gtk-helpers/hyperlinks.c:99-128): every URL of a line becomes a link,
 and nothing of the line is lost.
 */
module TagUrl {
  import opened Basics
  import opened Hyperlinks

  const OPEN := "<a href=\""
  const MIDDLE := "\">"
  const CLOSE := "</a>"

  function Link(prefix: string, url: string): string {
    prefix + OPEN + url + MIDDLE + url + CLOSE
  }

  /** Where the text after the first k tokens begins. */
  function Last(tokens: seq<Token>, k: nat): int
    requires k <= |tokens|
  {
    if k == 0 then 0 else tokens[k - 1].start + tokens[k - 1].len
  }

  /** Token k lies in the line, behind the one before it. */
  predicate InChain(line: string, tokens: seq<Token>, k: nat)
    requires k < |tokens|
  {
    0 <= Last(tokens, k) <= tokens[k].start <= Last(tokens, k + 1) <= |line|
  }

  predicate Chained(line: string, tokens: seq<Token>) {
    forall k | 0 <= k < |tokens| :: InChain(line, tokens, k)
  }

  function Slice(line: string, a: int, b: int): string {
    if 0 <= a <= b <= |line| then line[a..b] else ""
  }

  function Url(line: string, tokens: seq<Token>, k: nat): string
    requires k < |tokens|
  {
    Slice(line, tokens[k].start, Last(tokens, k + 1))
  }

  /** The text between token k - 1 and token k. */
  function Gap(line: string, tokens: seq<Token>, k: nat): string
    requires k < |tokens|
  {
    Slice(line, Last(tokens, k), tokens[k].start)
  }

  /** Token k as a link, after the text in front of it. */
  function Piece(line: string, tokens: seq<Token>, link: string -> string, k: nat): string
    requires k < |tokens|
  {
    Gap(line, tokens, k) + link(Url(line, tokens, k))
  }

  /** The output from token k on. */
  function Html(line: string, tokens: seq<Token>, link: string -> string, k: nat): string
    requires k <= |tokens|
    decreases |tokens| - k
  {
    if k == |tokens| then Slice(line, Last(tokens, k), |line|)
    else Piece(line, tokens, link, k) + Html(line, tokens, link, k + 1)
  }

  /** The text around a URL, as a format for it. */
  function LinkWith(prefix: string): string -> string { (url: string) => Link(prefix, url) }

  /** What tag_url makes of a line. */
  function Tagged(line: string, prefix: string): string { Html(line, LineTokens(line), LinkWith(prefix), 0) }

  /** The output up to token k. */
  function Front(line: string, tokens: seq<Token>, link: string -> string, k: nat): string
    requires k <= |tokens|
  {
    if k == 0 then "" else Front(line, tokens, link, k - 1) + Piece(line, tokens, link, k - 1)
  }

  lemma {:induction false} FrontAndRest(line: string, tokens: seq<Token>, link: string -> string, k: nat)
    requires k <= |tokens|
    ensures Front(line, tokens, link, k) + Html(line, tokens, link, k) == Html(line, tokens, link, 0)
  {
    if k == 0 {
      assert "" + Html(line, tokens, link, 0) == Html(line, tokens, link, 0);
    } else {
      FrontAndRest(line, tokens, link, k - 1);
      var front, piece, rest := Front(line, tokens, link, k - 1), Piece(line, tokens, link, k - 1), Html(line, tokens, link, k);
      Regroup(front, piece, rest);
      assert Front(line, tokens, link, k) == front + piece && Html(line, tokens, link, k - 1) == piece + rest;
    }
  }

  /** tag_url */
  method Tag(line: string, prefix: string) returns (result: string)
    ensures result == Tagged(line, prefix)
  {
    var urls := FindUrlTokens(line);
    LineTokensChained(line);
    result := Render(line, urls, LinkWith(prefix));
  }

  /** The loop of tag_url: text, link, text, link, ..., text. */
  method Render(line: string, urls: seq<Token>, link: string -> string) returns (result: string)
    requires Chained(line, urls)
    ensures result == Html(line, urls, link, 0)
  {
    result := "";
    var last := 0;
    for u := 0 to |urls|
      invariant last == Last(urls, u) && 0 <= last <= |line| && result == Front(line, urls, link, u)
    {
      assert InChain(line, urls, u);
      var t := urls[u];
      ghost var before := result;
      result := Append(result, line, last, t.start);
      var url := line[t.start..t.start + t.len];
      Regroup(before, line[last..t.start], link(url));
      result := result + link(url);
      last := t.start + t.len;
    }
    FrontAndRest(line, urls, link, |urls|);
    result := Append(result, line, last, |line|);
  }

  lemma LineTokensChained(line: string)
    ensures Chained(line, LineTokens(line))
  {
    var t := LineTokens(line);
    forall k | 0 <= k < |t| ensures InChain(line, t, k) {
      TokenPlace(line, k);
      if k > 0 {
        TokenPlace(line, k - 1);
      }
    }
  }

  lemma TokenPlace(line: string, k: nat)
    requires k < |LineTokens(line)|
    ensures var t := LineTokens(line);
      && t[k].start == UrlStarts(line, 0)[k] && 0 < t[k].len && t[k].start + t[k].len <= |line|
      && (k + 1 < |t| ==> t[k].start + t[k].len <= t[k + 1].start)
  {
    TokensAreGood(line, k);
  }

  /** The text between links, if there is any. */
  method Append(result: string, line: string, from: nat, to: nat) returns (result': string)
    requires from <= to <= |line|
    ensures result' == result + line[from..to]
  {
    result' := result;
    if from < to {
      result' := result' + line[from..to];
    }
  }

  lemma {:induction false} PlainFrom(line: string, tokens: seq<Token>, plain: string -> string, k: nat)
    requires k <= |tokens| && Chained(line, tokens) && forall url :: plain(url) == url
    ensures Html(line, tokens, plain, k) == Slice(line, Last(tokens, k), |line|)
    decreases |tokens| - k
  {
    if k < |tokens| {
      assert InChain(line, tokens, k);
      PlainFrom(line, tokens, plain, k + 1);
      CutLine(line, Last(tokens, k), tokens[k].start, Last(tokens, k + 1));
    }
  }

  /** For any prefix the output is the line with a link in the place of each token:
      the same pieces around the bare URLs are the line itself. */
  lemma TagOnlyReplaces(line: string)
    ensures Html(line, LineTokens(line), (url: string) => url, 0) == line
  {
    LineTokensChained(line);
    PlainFrom(line, LineTokens(line), (url: string) => url, 0);
  }

  // ----- undoing the replacement -----

  /** Takes the links out again: a link is found by the first URL in its href. */
  function Untag(html: string, prefixLength: nat): string
    decreases |html|
  {
    var starts := UrlStarts(html, 0);
    if starts == [] then html
    else
      assert starts[0] in starts;
      var i := starts[0];
      var quote := IndexOf(html, '"', i);
      var head := i - |OPEN| - prefixLength;
      var tail := quote + |MIDDLE| + (quote - i) + |CLOSE|;
      if head < 0 || tail > |html| then html
      else html[..head] + html[i..quote] + Untag(html[tail..], prefixLength)
  }

  /** The prefix begins with the rest of a known prefix that the text before it began. */
  predicate Completes(prefix: string) {
    exists k, j | 0 <= k < 4 && 0 < j < |PREFIXES[k]| :: PREFIXES[k][j..] <= prefix
  }

  /** No URL can begin in the prefix or be completed by it. */
  ghost predicate GoodPrefix(prefix: string) { NoUrl(prefix) && !Completes(prefix) }

  lemma NotAt(text: string, pfx: string, i: nat, j: nat)
    requires i <= j < i + |pfx| && j < |text| && text[j] != pfx[j - i]
    ensures !HasAt(text, pfx, i)
  {
    if i + |pfx| <= |text| {
      assert text[i..i + |pfx|][j - i] == text[j];
    }
  }

  lemma HasWithin(before: string, text: string, after: string, pfx: string, i: nat)
    requires i + |pfx| <= |text|
    ensures HasAt(before + text + after, pfx, |before| + i) <==> HasAt(text, pfx, i)
  {
    assert (before + text + after)[|before| + i..|before| + i + |pfx|] == text[i..i + |pfx|];
  }

  lemma NoAngleInPrefixes(k: nat)
    requires k < 4
    ensures '<' !in PREFIXES[k]
  {
  }

  /** No URL starts in a text without one that is followed by a character no prefix has. */
  lemma NothingStarts(before: string, text: string, after: string, i: nat)
    requires i < |text| && after != "" && forall k | 0 <= k < 4 :: after[0] !in PREFIXES[k]
    requires !UrlAt(text, i)
    ensures !UrlAt(before + text + after, |before| + i)
  {
    var all := before + text + after;
    forall k | 0 <= k < 4 ensures !HasAt(all, PREFIXES[k], |before| + i) {
      if i + |PREFIXES[k]| <= |text| {
        HasWithin(before, text, after, PREFIXES[k], i);
      } else {
        NotAt(all, PREFIXES[k], |before| + i, |before| + |text|);
      }
    }
  }

  lemma NothingStartsInOpen(before: string, after: string, i: nat)
    requires i < |OPEN|
    ensures !UrlAt(before + OPEN + after, |before| + i)
  {
    var all := before + OPEN + after;
    var p := |before| + i;
    forall k | 0 <= k < 4 ensures !HasAt(all, PREFIXES[k], p) {
      PrefixChars(k, 0);
      if i == 3 || i == 6 {
        NotAt(all, PREFIXES[k], p, p + 1);
      } else {
        NotAt(all, PREFIXES[k], p, p);
      }
    }
  }

  lemma Straddles(gap: string, prefix: string, after: string, pfx: string, i: nat)
    requires i < |gap| < i + |pfx| <= |gap| + |prefix| && HasAt(gap + prefix + after, pfx, i)
    ensures pfx[|gap| - i..] <= prefix
  {
    var all, n := gap + prefix + after, i + |pfx| - |gap|;
    assert pfx == all[i..i + |pfx|];
    assert prefix[..n] == all[|gap|..|gap| + n] == pfx[|gap| - i..];
  }

  lemma NothingStraddles(gap: string, prefix: string, after: string, i: nat)
    requires GoodPrefix(prefix) && NoUrl(gap) && i < |gap|
    requires after != "" && forall k | 0 <= k < 4 :: after[0] !in PREFIXES[k]
    ensures !UrlAt(gap + prefix + after, i)
  {
    var all := gap + prefix + after;
    forall k | 0 <= k < 4 ensures !HasAt(all, PREFIXES[k], i) {
      var pfx := PREFIXES[k];
      if i + |pfx| <= |gap| {
        assert "" + gap + (prefix + after) == all;
        HasWithin("", gap, prefix + after, pfx, i);
        assert !UrlAt(gap, i);
      } else if i + |pfx| <= |gap| + |prefix| {
        if HasAt(all, pfx, i) {
          Straddles(gap, prefix, after, pfx, i);
        }
      } else {
        NotAt(all, pfx, i, |gap| + |prefix|);
      }
    }
  }

  /** Before the first href of a tagged text there is no URL. */
  lemma NoneBeforeHref(gap: string, prefix: string, rest: string, i: nat)
    requires GoodPrefix(prefix) && NoUrl(gap)
    requires i < |gap| + |prefix| + |OPEN|
    ensures !UrlAt(gap + prefix + OPEN + rest, i)
  {
    var all := gap + prefix + OPEN + rest;
    forall k | 0 <= k < 4 ensures '<' !in PREFIXES[k] {
      NoAngleInPrefixes(k);
    }
    assert all == gap + prefix + (OPEN + rest) && (OPEN + rest)[0] == '<';
    if i < |gap| {
      NothingStraddles(gap, prefix, OPEN + rest, i);
    } else if i < |gap| + |prefix| {
      NothingStarts(gap, prefix, OPEN + rest, i - |gap|);
    } else {
      assert all == (gap + prefix) + OPEN + rest;
      NothingStartsInOpen(gap + prefix, rest, i - |gap| - |prefix|);
    }
  }

  lemma FirstStart(line: string, i: nat, from: nat)
    requires from <= i < |line| && UrlAt(line, i) && forall j: nat | from <= j < i :: !UrlAt(line, j)
    ensures UrlStarts(line, from) != [] && UrlStarts(line, from)[0] == i
  {
    var s := UrlStarts(line, from);
    assert i in s;
    assert s[0] in s;
  }

  /** The first step of Untag on one link between two texts. */
  lemma UntagLink(gap: string, prefix: string, url: string, rest: string)
    requires GoodPrefix(prefix) && NoUrl(gap)
    requires UrlAt(url, 0) && '"' !in url
    ensures Untag(gap + Link(prefix, url) + rest, |prefix|) == gap + url + Untag(rest, |prefix|)
  {
    var html := gap + Link(prefix, url) + rest;
    var head, middle := gap + prefix + OPEN, MIDDLE + url + CLOSE;
    LinkShape(gap, prefix, url, rest);
    forall j: nat | j < |head| ensures !UrlAt(html, j) {
      NoneBeforeHref(gap, prefix, url + (middle + rest), j);
    }
    HrefFound(head, url, middle, rest);
    FirstStart(html, |head|, 0);
    assert html[..|gap|] == gap by { LinkHead(gap, prefix + OPEN + (url + (middle + rest)), html); }
  }

  lemma LinkShape(gap: string, prefix: string, url: string, rest: string)
    ensures var html := gap + Link(prefix, url) + rest;
      var head, middle := gap + prefix + OPEN, MIDDLE + url + CLOSE;
      && html == head + url + (middle + rest)
      && html == head + (url + (middle + rest))
      && html == gap + (prefix + OPEN + (url + (middle + rest)))
  {
    var middle := MIDDLE + url + CLOSE;
    var p := prefix + OPEN;
    assert Link(prefix, url) == p + url + middle;
    assert gap + (p + url + middle) + rest == gap + (p + (url + (middle + rest)));
    assert gap + (p + (url + (middle + rest))) == (gap + p) + (url + (middle + rest));
    assert gap + p == gap + prefix + OPEN;
  }

  /** The href of a link, its end, and the end of the link are found again. */
  lemma HrefFound(head: string, url: string, middle: string, rest: string)
    requires UrlAt(url, 0) && '"' !in url && middle != "" && middle[0] == '"'
    ensures var html := head + url + (middle + rest);
      var end := |head| + |url| + |middle|;
      && |head| < |html| && UrlAt(html, |head|) && IndexOf(html, '"', |head|) == |head| + |url|
      && html[|head|..|head| + |url|] == url && html[end..] == rest
  {
    var k :| 0 <= k < 4 && HasAt(url, PREFIXES[k], 0);
    PrefixChars(k, 0);
    HasWithin(head, url, middle + rest, PREFIXES[k], 0);
    QuoteAfter(head, url, middle + rest);
    assert head + url + (middle + rest) == (head + url + middle) + rest;
  }

  lemma LinkHead(head: string, tail: string, html: string)
    requires html == head + tail
    ensures html[..|head|] == head
  {
  }

  lemma QuoteAfter(before: string, url: string, after: string)
    requires '"' !in url && after != "" && after[0] == '"'
    ensures IndexOf(before + url + after, '"', |before|) == |before| + |url|
  {
    var all := before + url + after;
    var e := IndexOf(all, '"', |before|);
    assert forall j | |before| <= j < |before| + |url| :: all[j] == url[j - |before|];
    assert all[|before| + |url|] == '"';
  }

  // ----- conservation -----

  /** Every URL of the text is a token: the tokens start with one, the gaps have none. */
  ghost predicate Separated(line: string, tokens: seq<Token>) {
    && Chained(line, tokens)
    && (forall k | 0 <= k < |tokens| :: CleanToken(line, tokens, k))
    && NoUrl(Slice(line, Last(tokens, |tokens|), |line|))
  }

  ghost predicate CleanToken(line: string, tokens: seq<Token>, k: nat)
    requires k < |tokens|
  {
    UrlAt(Url(line, tokens, k), 0) && '"' !in Url(line, tokens, k) && NoUrl(Gap(line, tokens, k))
  }

  ghost predicate NoUrl(text: string) { forall j: nat | j < |text| :: !UrlAt(text, j) }

  lemma SliceHasNoUrl(line: string, lo: int, hi: int)
    requires forall j: nat | lo <= j < hi :: !UrlAt(line, j)
    ensures NoUrl(Slice(line, lo, hi))
  {
    if 0 <= lo <= hi <= |line| {
      var text := line[lo..hi];
      assert line == line[..lo] + text + line[hi..];
      forall j: nat, k | j < |text| && 0 <= k < 4 ensures !HasAt(text, PREFIXES[k], j) {
        assert !UrlAt(line, lo + j);
        if j + |PREFIXES[k]| <= |text| {
          HasWithin(line[..lo], text, line[hi..], PREFIXES[k], j);
        }
      }
    }
  }

  lemma BetweenStarts(starts: seq<nat>, k: nat, j: nat)
    requires Increasing(starts) && k <= |starts|
    requires (k > 0 ==> starts[k - 1] < j) && (k < |starts| ==> j < starts[k])
    ensures j !in starts
  {
    forall i | 0 <= i < |starts| ensures starts[i] != j {
      if i < k {
        assert starts[i] <= starts[k - 1];
      } else {
        assert starts[k] <= starts[i];
      }
    }
  }

  lemma GapHasNoUrl(line: string, k: nat, j: nat)
    requires k <= |LineTokens(line)| && j < |line|
    requires Last(LineTokens(line), k) <= j
    requires k < |LineTokens(line)| ==> j < LineTokens(line)[k].start
    ensures !UrlAt(line, j)
  {
    if k > 0 {
      TokenPlace(line, k - 1);
    }
    if k < |LineTokens(line)| {
      TokenPlace(line, k);
    }
    BetweenStarts(UrlStarts(line, 0), k, j);
  }

  lemma UrlIsUrl(line: string, k: nat)
    requires k < |LineTokens(line)|
    ensures UrlAt(Url(line, LineTokens(line), k), 0) && '"' !in Url(line, LineTokens(line), k)
  {
    TokensAreGood(line, k);
    GoodTokenText(line, LineTokens(line)[k]);
  }

  lemma GoodTokenText(line: string, t: Token)
    requires GoodToken(line, t)
    ensures var url := Slice(line, t.start, t.start + t.len); UrlAt(url, 0) && '"' !in url
  {
    var url := line[t.start..t.start + t.len];
    var n :| 0 <= n < 4 && HasAt(line, PREFIXES[n], t.start) && |PREFIXES[n]| <= t.len;
    assert url[0..|PREFIXES[n]|] == line[t.start..t.start + |PREFIXES[n]|];
    assert HasAt(url, PREFIXES[n], 0);
    assert forall j | 0 <= j < |url| :: url[j] == line[t.start + j];
  }

  lemma LineTokensSeparate(line: string)
    ensures Separated(line, LineTokens(line))
  {
    var t := LineTokens(line);
    LineTokensChained(line);
    forall k | 0 <= k < |t| ensures CleanToken(line, t, k) {
      UrlIsUrl(line, k);
      forall j: nat | Last(t, k) <= j < t[k].start ensures !UrlAt(line, j) {
        GapHasNoUrl(line, k, j);
      }
      SliceHasNoUrl(line, Last(t, k), t[k].start);
    }
    forall j: nat | Last(t, |t|) <= j < |line| ensures !UrlAt(line, j) {
      GapHasNoUrl(line, |t|, j);
    }
    SliceHasNoUrl(line, Last(t, |t|), |line|);
  }

  lemma NoStarts(text: string)
    requires NoUrl(text)
    ensures UrlStarts(text, 0) == []
  {
    if UrlStarts(text, 0) != [] {
      assert UrlStarts(text, 0)[0] in UrlStarts(text, 0);
    }
  }

  lemma CutLine(line: string, a: nat, b: nat, c: nat)
    requires a <= b <= c <= |line|
    ensures Slice(line, a, |line|) == Slice(line, a, b) + Slice(line, b, c) + Slice(line, c, |line|)
  {
  }

  /** undo takes one link after the other out of a text. */
  ghost predicate Undoes(undo: string -> string, link: string -> string) {
    && (forall text | NoUrl(text) :: undo(text) == text)
    && forall gap, url, rest | NoUrl(gap) && UrlAt(url, 0) && '"' !in url ::
         undo(gap + link(url) + rest) == gap + url + undo(rest)
  }

  ghost predicate StepUndone(line: string, tokens: seq<Token>, link: string -> string, undo: string -> string, k: nat)
    requires k < |tokens|
  {
    undo(Html(line, tokens, link, k)) == Gap(line, tokens, k) + Url(line, tokens, k) + undo(Html(line, tokens, link, k + 1))
  }

  lemma UndoneStep(line: string, tokens: seq<Token>, link: string -> string, undo: string -> string, k: nat)
    requires k < |tokens| && Separated(line, tokens) && Undoes(undo, link)
    ensures StepUndone(line, tokens, link, undo, k)
  {
    assert InChain(line, tokens, k) && CleanToken(line, tokens, k);
    var gap, url, rest := Gap(line, tokens, k), Url(line, tokens, k), Html(line, tokens, link, k + 1);
    assert Html(line, tokens, link, k) == gap + link(url) + rest;
    assert NoUrl(gap) && UrlAt(url, 0) && '"' !in url;
  }

  lemma {:induction false} UndoneFrom(line: string, tokens: seq<Token>, link: string -> string, undo: string -> string, k: nat)
    requires k <= |tokens| && Chained(line, tokens)
    requires forall j | 0 <= j < |tokens| :: StepUndone(line, tokens, link, undo, j)
    requires undo(Html(line, tokens, link, |tokens|)) == Slice(line, Last(tokens, |tokens|), |line|)
    ensures undo(Html(line, tokens, link, k)) == Slice(line, Last(tokens, k), |line|)
    decreases |tokens| - k
  {
    if k < |tokens| {
      assert InChain(line, tokens, k);
      UndoneFrom(line, tokens, link, undo, k + 1);
      assert StepUndone(line, tokens, link, undo, k);
      CutLine(line, Last(tokens, k), tokens[k].start, Last(tokens, k + 1));
    }
  }

  lemma UndoneAll(line: string, link: string -> string, undo: string -> string)
    requires Undoes(undo, link)
    ensures undo(Html(line, LineTokens(line), link, 0)) == line
  {
    var tokens := LineTokens(line);
    LineTokensChained(line);
    LineTokensSeparate(line);
    forall j | 0 <= j < |tokens| ensures StepUndone(line, tokens, link, undo, j) {
      UndoneStep(line, tokens, link, undo, j);
    }
    UndoneFrom(line, tokens, link, undo, 0);
  }

  /** Taking the links out of the tagged line gives the line back. */
  lemma TagConserves(line: string, prefix: string)
    requires GoodPrefix(prefix)
    ensures Untag(Tagged(line, prefix), |prefix|) == line
  {
    var undo := (html: string) => Untag(html, |prefix|);
    forall text | NoUrl(text) ensures undo(text) == text {
      NoStarts(text);
    }
    forall gap, url, rest | NoUrl(gap) && UrlAt(url, 0) && '"' !in url
      ensures undo(gap + LinkWith(prefix)(url) + rest) == gap + url + undo(rest)
    {
      UntagLink(gap, prefix, url, rest);
    }
    UndoneAll(line, LinkWith(prefix), undo);
  }

  /** In particular with the prefix all callers use. */
  lemma TagNewlineConserves(line: string)
    ensures Untag(Tagged(line, "\n"), 1) == line
  {
    forall k | 0 <= k < 4 ensures !HasAt("\n", PREFIXES[k], 0) {
      PrefixChars(k, 0);
    }
    forall k, j | 0 <= k < 4 && 0 < j < |PREFIXES[k]| ensures !(PREFIXES[k][j..] <= "\n") {
      PrefixChars(k, j);
      assert PREFIXES[k][j..][0] == PREFIXES[k][j];
    }
    TagConserves(line, "\n");
  }

  // ----- prefixes that cannot be told from the line -----

  lemma UntagStuck(html: string, u: nat, n: nat)
    requires u < |html| && UrlAt(html, u) && u < |OPEN| + n
    ensures Untag(html, n) == html
  {
    var starts := UrlStarts(html, 0);
    assert u in starts;
    assert starts[0] <= u;
  }

  lemma {:induction false} HtmlLonger(line: string, tokens: seq<Token>, prefix: string, k: nat)
    requires k <= |tokens| && Chained(line, tokens)
    ensures |Html(line, tokens, LinkWith(prefix), k)| >= |line| - Last(tokens, k)
    ensures k < |tokens| ==> |Html(line, tokens, LinkWith(prefix), k)| > |line| - Last(tokens, k)
    decreases |tokens| - k
  {
    if k < |tokens| {
      assert InChain(line, tokens, k);
      HtmlLonger(line, tokens, prefix, k + 1);
    } else if k > 0 {
      assert InChain(line, tokens, k - 1);
    }
  }

  lemma FirstToken(gap: string)
    requires forall j: nat | j < |gap| :: !UrlAt(gap + PREFIXES[0], j)
    ensures var line := gap + PREFIXES[0]; var tokens := LineTokens(line);
      tokens != [] && Gap(line, tokens, 0) == gap
  {
    var line := gap + PREFIXES[0];
    assert line[|gap|..|gap| + |PREFIXES[0]|] == PREFIXES[0];
    assert HasAt(line, PREFIXES[0], |gap|);
    FirstStart(line, |gap|, 0);
    TokensAreGood(line, 0);
  }

  lemma LinkOpens(gap: string, prefix: string, url: string, more: string)
    ensures var rest := url + (MIDDLE + url + CLOSE + more);
      gap + Link(prefix, url) + more == gap + prefix + (OPEN + rest)
  {
    LinkShape(gap, prefix, url, more);
    var middle := MIDDLE + url + CLOSE;
    assert gap + prefix + OPEN + (url + (middle + more)) == gap + prefix + (OPEN + (url + (middle + more)));
  }

  /** A line that begins with gap and goes on with a URL. */
  lemma TaggedStarts(gap: string, prefix: string) returns (rest: string)
    requires forall j: nat | j < |gap| :: !UrlAt(gap + PREFIXES[0], j)
    ensures var line := gap + PREFIXES[0];
      Tagged(line, prefix) == gap + prefix + (OPEN + rest) && |Tagged(line, prefix)| > |line|
  {
    var line := gap + PREFIXES[0];
    var tokens := LineTokens(line);
    FirstToken(gap);
    LineTokensChained(line);
    HtmlLonger(line, tokens, prefix, 0);
    var url, more := Url(line, tokens, 0), Html(line, tokens, LinkWith(prefix), 1);
    rest := url + (MIDDLE + url + CLOSE + more);
    LinkOpens(gap, prefix, url, more);
  }

  lemma NoUrlInHead(k: nat, n: nat, j: nat)
    requires k < 4 && n < |PREFIXES[k]| && j < n
    ensures !UrlAt(PREFIXES[k][..n] + PREFIXES[0], j)
  {
    var head := PREFIXES[k][..n];
    var line := head + PREFIXES[0];
    assert line[n..n + |PREFIXES[0]|] == PREFIXES[0];
    forall k' | 0 <= k' < 4 ensures !HasAt(line, PREFIXES[k'], j) {
      if HasAt(line, PREFIXES[k'], j) {
        PrefixesApart(line, k', j, 0, n);
        assert "" + head + PREFIXES[0] == line;
        HasWithin("", head, PREFIXES[0], PREFIXES[k'], j);
        assert "" + head + PREFIXES[k][n..] == PREFIXES[k];
        HasWithin("", head, PREFIXES[k][n..], PREFIXES[k'], j);
        PrefixesApart(PREFIXES[k], k, 0, k', j);
      }
    }
  }

  lemma NotUndone(html: string, line: string, u: nat, n: nat)
    requires u < |html| && UrlAt(html, u) && u < |OPEN| + n && |html| > |line|
    ensures Untag(html, n) != line
  {
    UntagStuck(html, u, n);
  }

  lemma UrlInside(prefix: string, rest: string, j: nat)
    requires j < |prefix| && UrlAt(prefix, j)
    ensures UrlAt("" + prefix + rest, j)
  {
    var k :| 0 <= k < 4 && HasAt(prefix, PREFIXES[k], j);
    HasWithin("", prefix, rest, PREFIXES[k], j);
  }

  lemma UrlInPrefix(prefix: string, j: nat) returns (line: string)
    requires j < |prefix| && UrlAt(prefix, j)
    ensures Untag(Tagged(line, prefix), |prefix|) != line
  {
    line := "" + PREFIXES[0];
    var rest := TaggedStarts("", prefix);
    UrlInside(prefix, OPEN + rest, j);
    NotUndone(Tagged(line, prefix), line, j, |prefix|);
  }

  /** A word cut in two is whole again when the rest of it comes next. */
  lemma WordCompleted(word: string, n: nat, prefix: string, rest: string)
    requires n <= |word| && word[n..] <= prefix
    ensures word[..n] + prefix + rest == word + (prefix[|word| - n..] + rest)
  {
    var more := prefix[|word| - n..];
    assert prefix == word[n..] + more && word == word[..n] + word[n..];
    Regroup(word[..n], word[n..], more);
    Regroup(word, more, rest);
  }

  lemma UrlFirst(k: nat, rest: string)
    requires k < 4
    ensures UrlAt(PREFIXES[k] + rest, 0)
  {
    assert HasAt(PREFIXES[k] + rest, PREFIXES[k], 0);
  }

  lemma UrlCompleted(k: nat, n: nat, prefix: string, rest: string)
    requires k < 4 && n < |PREFIXES[k]| && PREFIXES[k][n..] <= prefix
    ensures UrlAt(PREFIXES[k][..n] + prefix + rest, 0)
  {
    WordCompleted(PREFIXES[k], n, prefix, rest);
    UrlFirst(k, prefix[|PREFIXES[k]| - n..] + rest);
  }

  lemma CompletedByPrefix(prefix: string, k: nat, n: nat) returns (line: string)
    requires k < 4 && 0 < n < |PREFIXES[k]| && PREFIXES[k][n..] <= prefix
    ensures Untag(Tagged(line, prefix), |prefix|) != line
  {
    line := PREFIXES[k][..n] + PREFIXES[0];
    forall j: nat | j < n ensures !UrlAt(line, j) {
      NoUrlInHead(k, n, j);
    }
    var rest := TaggedStarts(PREFIXES[k][..n], prefix);
    UrlCompleted(k, n, prefix, OPEN + rest);
    NotUndone(Tagged(line, prefix), line, 0, |prefix|);
  }

  /** The exact condition: links can be taken out of every line tagged with a prefix if and
      only if no URL can begin in that prefix or be completed by it. */
  lemma TagConservesIff(prefix: string)
    ensures GoodPrefix(prefix) <==> forall line: string :: Untag(Tagged(line, prefix), |prefix|) == line
  {
    if GoodPrefix(prefix) {
      forall line: string ensures Untag(Tagged(line, prefix), |prefix|) == line {
        TagConserves(line, prefix);
      }
    } else if !NoUrl(prefix) {
      var j: nat :| j < |prefix| && UrlAt(prefix, j);
      var line := UrlInPrefix(prefix, j);
      assert Untag(Tagged(line, prefix), |prefix|) != line;
    } else {
      var k, n :| 0 <= k < 4 && 0 < n < |PREFIXES[k]| && PREFIXES[k][n..] <= prefix;
      var line := CompletedByPrefix(prefix, k, n);
      assert Untag(Tagged(line, prefix), |prefix|) != line;
    }
  }

  // ----- a line written out -----

  const SAMPLE := "see https://a.b, x"

  lemma SampleStarts()
    ensures UrlStarts(SAMPLE, 0) == [4]
  {
    assert SAMPLE[4..12] == "https://";
    assert HasAt(SAMPLE, PREFIXES[1], 4);
    forall p: nat, k | p < |SAMPLE| && p != 4 && 0 <= k < 4 ensures !HasAt(SAMPLE, PREFIXES[k], p) {
      PrefixChars(k, 0);
      if HasAt(SAMPLE, PREFIXES[k], p) {
        HasAtChar(SAMPLE, PREFIXES[k], p, 0);
      }
    }
    SortedUnique(UrlStarts(SAMPLE, 0), [4]);
  }

  lemma SampleEnd()
    ensures EndOf(SAMPLE, 4) == 15
  {
    var e := EndOf(SAMPLE, 4);
    assert SAMPLE[15] == ',' && forall j | 4 <= j < 15 :: SAMPLE[j] !in URL_ENDS;
  }

  lemma OneToken(line: string, prefix: string, a: nat, b: nat)
    requires a <= b <= |line| && LineTokens(line) == [Token(a, b - a)]
    ensures Tagged(line, prefix) == line[..a] + Link(prefix, line[a..b]) + line[b..]
  {
    var tokens, link := LineTokens(line), LinkWith(prefix);
    assert Html(line, tokens, link, 1) == line[b..];
    assert Html(line, tokens, link, 0) == Piece(line, tokens, link, 0) + line[b..];
  }

  lemma SampleCut()
    ensures SAMPLE[..4] == "see " && SAMPLE[4..15] == "https://a.b" && SAMPLE[15..] == ", x"
  {
  }

  lemma SampleLink(prefix: string)
    ensures Link(prefix, "https://a.b") == prefix + "<a href=\"" + "https://a.b" + "\">" + "https://a.b" + "</a>"
  {
  }

  /** The link of a line, with any prefix. */
  lemma SampleLine(prefix: string)
    ensures Tagged(SAMPLE, prefix) == "see " + (prefix + "<a href=\"" + "https://a.b" + "\">" + "https://a.b" + "</a>") + ", x"
  {
    SampleTokens();
    OneToken(SAMPLE, prefix, 4, 15);
    SampleCut();
    SampleLink(prefix);
  }

  lemma SampleTokens()
    ensures LineTokens(SAMPLE) == [Token(4, 11)]
  {
    SampleStarts();
    SampleEnd();
  }
}
