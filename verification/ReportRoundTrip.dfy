/**
 Printing a report, dropping its comments and reading it back (src/cli/cli-report.c).
 */
module ReportRoundTrip {
  import opened Basics
  import opened ReportText
  import opened CrashReport

  // ----- what is left of the printed text without its comments -----

  predicate EndsLine(s: string) { s != [] && s[|s| - 1] == '\n' }

  lemma {:induction false} AfterLineAppend(a: string, b: string)
    requires EndsLine(a)
    ensures AfterLine(a + b) == AfterLine(a) + b
    ensures AfterLine(a) == [] || EndsLine(AfterLine(a))
  {
    assert (a + b)[1..] == a[1..] + b;
    if a[0] != '\n' {
      AfterLineAppend(a[1..], b);
    }
  }

  lemma IsEscapedAppend(a: string, b: string)
    requires EndsLine(a)
    ensures IsEscaped(a + b) == IsEscaped(a)
    ensures IsEscaped(a) ==> EndsLine(a[2..]) && (a + b)[2..] == a[2..] + b && (a + b)[1] == a[1]
  {
  }

  /** Whole lines can be stripped separately. */
  lemma {:induction false} StrippedAppend(a: string, b: string, newline: bool)
    requires EndsLine(a)
    ensures Stripped(a + b, newline) == Stripped(a, newline) + Stripped(b, true)
    decreases |a|, 1
  {
    var s := a + b;
    assert s[0] == a[0];
    if newline && a[0] == '#' {
      AfterLineAppend(a, b);
      if AfterLine(a) != [] {
        StrippedAppend(AfterLine(a), b, true);
      } else {
        assert [] + b == b;
      }
    } else {
      IsEscapedAppend(a, b);
      if newline && IsEscaped(a) {
        StrippedAppend(a[2..], b, false);
        Regroup([a[1]], Stripped(a[2..], false), Stripped(b, true));
      } else {
        assert s[1..] == a[1..] + b;
        StrippedRest(a, b);
        Regroup([a[0]], Stripped(a[1..], a[0] == '\n'), Stripped(b, true));
      }
    }
  }

  lemma {:induction false} StrippedRest(a: string, b: string)
    requires EndsLine(a)
    ensures Stripped(a[1..] + b, a[0] == '\n') == Stripped(a[1..], a[0] == '\n') + Stripped(b, true)
    decreases |a|, 0
  {
    if |a| == 1 {
      assert [] + b == b;
    } else {
      StrippedAppend(a[1..], b, a[0] == '\n');
    }
  }

  /** Every line of d starts with `#`. */
  predicate CommentLines(d: string)
    decreases |d|
  {
    d != [] && d[0] == '#' && ('\n' in d ==> CommentLines(AfterLine(d)))
  }

  lemma {:induction false} AfterLineNewline(d: string)
    ensures AfterLine(d + "\n") == if '\n' in d then AfterLine(d) + "\n" else ""
  {
    if d != [] {
      assert (d + "\n")[1..] == d[1..] + "\n";
      assert d == [d[0]] + d[1..];
      if d[0] != '\n' {
        AfterLineNewline(d[1..]);
      }
    }
  }

  lemma {:induction false} CommentsVanish(d: string)
    requires CommentLines(d)
    ensures Stripped(d + "\n", true) == ""
    decreases |d|
  {
    AfterLineNewline(d);
    if '\n' in d {
      CommentsVanish(AfterLine(d));
    }
  }

  lemma {:induction false} LineStays(x: string)
    requires '\n' !in x
    ensures Stripped(x + "\n", false) == x + "\n"
  {
    if x == [] {
      assert x + "\n" == "\n";
    } else {
      assert (x + "\n")[1..] == x[1..] + "\n";
      LineStays(x[1..]);
    }
  }

  lemma SeparatorStays(field: string)
    requires '\n' !in field
    ensures Stripped(FIELD_SEP + field + "\n", true) == FIELD_SEP + field + "\n"
  {
    var s := FIELD_SEP + field + "\n";
    assert s[1..] == ("----" + field) + "\n";
    LineStays("----" + field);
  }

  lemma {:induction false} EscapedNewline(s: string, newline: bool)
    ensures Escaped(s + "\n", newline) == Escaped(s, newline) + "\n"
  {
    if s == [] {
      assert s + "\n" == "\n";
    } else {
      assert (s + "\n")[1..] == s[1..] + "\n";
      EscapedNewline(s[1..], s[0] == '\n');
    }
  }

  lemma {:induction false} SeenNewline(s: string, newline: bool)
    ensures Seen(s + "\n", newline) == Seen(s, newline) + "\n"
  {
    if s == [] {
      assert s + "\n" == "\n";
    } else {
      assert (s + "\n")[1..] == s[1..] + "\n";
      SeenNewline(s[1..], s[0] == '\n');
      SeenNewline(s[1..], false);
    }
  }

  lemma ContentSeen(content: string)
    ensures Stripped(Escaped(content, true) + "\n", true) == Seen(content) + "\n"
  {
    EscapedNewline(content, true);
    StripsToSeen(content + "\n", true);
    SeenNewline(content, true);
  }

  predicate GoodTexts(texts: Texts, fields: seq<string>) {
    && CommentLines(texts.header)
    && CommentLines(texts.readOnly)
    && forall f | f in fields :: CommentLines(texts.describe(f)) && '\n' !in f
  }

  function StrippedField(field: string, content: string): string {
    (FIELD_SEP + field + "\n") + (content + "\n")
  }

  lemma StripField(texts: Texts, field: string, item: Item)
    requires GoodTexts(texts, [field])
    ensures Stripped(FieldText(texts, field, item), true) == StrippedField(field, Seen(item.content))
    ensures EndsLine(FieldText(texts, field, item))
  {
    assert field in [field];
    var a := FIELD_SEP + field + "\n";
    var b := texts.describe(field) + "\n";
    var c := if item.editable then "" else texts.readOnly + "\n";
    var d := Escaped(item.content, true) + "\n";
    SeparatorStays(field);
    CommentsVanish(texts.describe(field));
    CommentsVanish(texts.readOnly);
    ContentSeen(item.content);
    StripFourParts(a, b, c, d);
  }

  lemma StripFourParts(a: string, b: string, c: string, d: string)
    requires EndsLine(a) && EndsLine(b) && (c == "" || EndsLine(c)) && EndsLine(d)
    requires Stripped(b, true) == "" && Stripped(c, true) == ""
    ensures EndsLine(a + b + c + d)
    ensures Stripped(a + b + c + d, true) == Stripped(a, true) + Stripped(d, true)
  {
    assert a + b + c + d == a + (b + (c + d));
    StrippedAppend(a, b + (c + d), true);
    StrippedAppend(b, c + d, true);
    if c == "" {
      assert c + d == d;
    } else {
      StrippedAppend(c, d, true);
    }
    assert "" + Stripped(d, true) == Stripped(d, true);
  }

  function StrippedFields(items: Items, fields: seq<string>): string {
    if fields == [] then ""
    else (if fields[0] in items then StrippedField(fields[0], items[fields[0]].content) else "") + StrippedFields(items, fields[1..])
  }

  /** The items as a reader gets to see them. */
  function SeenItems(items: Items): Items {
    map f | f in items :: items[f].(content := Seen(items[f].content))
  }

  lemma {:induction false} StripFields(texts: Texts, items: Items, fields: seq<string>)
    requires GoodTexts(texts, fields)
    ensures Stripped(FieldsText(texts, items, fields), true) == StrippedFields(SeenItems(items), fields)
  {
    if fields != [] {
      StripFields(texts, items, fields[1..]);
      var f := fields[0];
      if f in items {
        StripField(texts, f, items[f]);
        StrippedAppend(FieldText(texts, f, items[f]), FieldsText(texts, items, fields[1..]), true);
      } else {
        assert "" + FieldsText(texts, items, fields[1..]) == FieldsText(texts, items, fields[1..]);
      }
    }
  }

  /** The text the reader gets: a newline, then the fields without any comment. */
  function Page(items: Items, fields: seq<string>): string { "\n" + StrippedFields(items, fields) }

  lemma StripWritten(texts: Texts, items: Items)
    requires GoodTexts(texts, FieldOrder(items.Keys))
    ensures Stripped(Written(texts, items), true) == Page(SeenItems(items), FieldOrder(items.Keys))
  {
    var body := FieldsText(texts, items, FieldOrder(items.Keys));
    assert Written(texts, items) == (texts.header + "\n") + ("\n" + body);
    CommentsVanish(texts.header);
    StrippedAppend(texts.header + "\n", "\n" + body, true);
    StrippedAppend("\n", body, true);
    StripFields(texts, items, FieldOrder(items.Keys));
  }

  // ----- finding the fields again -----

  const MARK: string := "\n%----"

  /** No line of the content starts with `%----`. */
  ghost predicate Clean(content: string) {
    forall j: nat :: !OccursAt("\n" + content, MARK, j)
  }

  /** The same, line by line; newline tells whether s starts a line. */
  predicate HasMark(s: string, newline: bool) {
    s != [] && ((newline && FIELD_SEP <= s) || HasMark(s[1..], s[0] == '\n'))
  }

  lemma {:induction false} MarkOccurs(p: char, s: string)
    ensures HasMark(s, p == '\n') <==> exists j: nat :: OccursAt([p] + s, MARK, j)
    decreases s
  {
    var t := [p] + s;
    FirstAndRest(MARK, t);
    assert MARK[1..] == FIELD_SEP && t[1..] == s;
    assert OccursAt(t, MARK, 0) <==> p == '\n' && FIELD_SEP <= s;
    OccursInTail(t, MARK);
    if s != [] {
      MarkOccurs(s[0], s[1..]);
      assert [s[0]] + s[1..] == s;
      if j: nat :| OccursAt(s, MARK, j) {
        assert OccursAt(t, MARK, j + 1);
      }
    }
  }

  lemma CleanIsNoMark(content: string)
    ensures Clean(content) <==> !HasMark(content, true)
  {
    MarkOccurs('\n', content);
    assert "\n" + content == ['\n'] + content;
  }

  lemma {:induction false} SeenStarts(pat: string, s: string)
    requires '\n' !in pat
    ensures pat <= Seen(s, false) <==> pat <= s
  {
    if pat != [] && s != [] {
      assert pat[0] in pat;
      if pat[0] == s[0] {
        SeenStarts(pat[1..], s[1..]);
        assert Seen(s, false)[1..] == Seen(s[1..], false);
      }
      FirstAndRest(pat, s);
      FirstAndRest(pat, Seen(s, false));
    }
  }

  lemma FirstAndRest(pat: string, s: string)
    requires pat != [] && s != []
    ensures pat <= s <==> pat[0] == s[0] && pat[1..] <= s[1..]
  {
    if pat[0] == s[0] && pat[1..] <= s[1..] {
      assert s[1..][..|pat| - 1] == pat[1..];
      assert s[..|pat|] == [s[0]] + s[1..][..|pat| - 1];
      assert pat == [pat[0]] + pat[1..];
    }
  }

  /** Dropping those backslashes makes no separator and takes none away. */
  lemma {:induction false} SeenMarks(s: string, newline: bool)
    ensures HasMark(Seen(s, newline), newline) <==> HasMark(s, newline)
  {
    if s != [] {
      var r := Seen(s, newline);
      if newline && StartsDouble(s) {
        SeenMarks(s[1..], false);
        assert r[0] == '\\' && !(FIELD_SEP <= r) && !(FIELD_SEP <= s);
      } else {
        SeenMarks(s[1..], s[0] == '\n');
        assert r[0] == s[0] && r[1..] == Seen(s[1..], s[0] == '\n');
        FirstAndRest(FIELD_SEP, s);
        FirstAndRest(FIELD_SEP, r);
        SeenStarts(FIELD_SEP[1..], s[1..]);
      }
    }
  }

  lemma Mismatch(text: string, pat: string, i: nat, k: nat)
    requires k < |pat| && i + k < |text| && text[i + k] != pat[k]
    ensures !OccursAt(text, pat, i)
  {
    if i + |pat| <= |text| {
      assert text[i..i + |pat|][k] == text[i + k];
    }
  }

  /** Whether pat occurs depends on nothing before it and nothing after it. */
  lemma OccursWithin(before: string, text: string, after: string, pat: string, i: nat)
    requires i + |pat| <= |text|
    ensures OccursAt(before + text + after, pat, |before| + i) <==> OccursAt(text, pat, i)
  {
    assert (before + text + after)[|before| + i..|before| + i + |pat|] == text[i..i + |pat|];
  }

  /** A field separator begins with the mark. */
  lemma SeparatorHasMark(text: string, field: string, i: nat)
    requires !OccursAt(text, MARK, i)
    ensures !OccursAt(text, Separator(field), i)
  {
    var sep := Separator(field);
    assert sep[..|MARK|] == MARK;
    if i + |sep| <= |text| {
      assert text[i..i + |MARK|] == text[i..i + |sep|][..|MARK|];
    }
  }

  /** No mark begins inside a clean content that is followed by a new line. */
  lemma NoMarkInside(content: string, rest: string, j: nat)
    requires Clean(content) && (rest == [] || rest[0] == '\n') && j <= |content|
    ensures !OccursAt("\n" + content + rest, MARK, j)
  {
    var line := "\n" + content;
    assert [] + line + rest == line + rest;
    if j + |MARK| <= |line| {
      OccursWithin([], line, rest, MARK, j);
    } else if rest != [] {
      Mismatch(line + rest, MARK, j, |line| - j);
    }
  }

  lemma OccursShift(x: string, y: string, pat: string, j: nat)
    requires j >= |x|
    ensures OccursAt(x + y, pat, j) <==> OccursAt(y, pat, j - |x|)
  {
    assert x + y + [] == x + y;
    if j - |x| + |pat| <= |y| {
      OccursWithin(x, y, [], pat, j - |x|);
    }
  }

  /** Up to the first occurrence in y there is none in x + y. */
  lemma NoneBefore(x: string, y: string, pat: string, j: nat)
    requires forall i: nat | i < |x| :: !OccursAt(x + y, pat, i)
    requires Find(y, pat).None? || j < |x| + Find(y, pat).value
    ensures !OccursAt(x + y, pat, j)
  {
    if j >= |x| {
      OccursShift(x, y, pat, j);
    }
  }

  /** Nothing found in x: the first occurrence is in y. */
  lemma FindShift(x: string, y: string, pat: string)
    requires forall j: nat | j < |x| :: !OccursAt(x + y, pat, j)
    ensures Find(x + y, pat) == match Find(y, pat) case None => None case Some(i) => Some(i + |x|)
  {
    var q := Find(y, pat);
    forall j: nat | q.None? || j < |x| + q.value ensures !OccursAt(x + y, pat, j) {
      NoneBefore(x, y, pat, j);
    }
    if q.None? {
      FindNone(x + y, pat);
    } else {
      OccursShift(x, y, pat, |x| + q.value);
      FindIs(x + y, pat, |x| + q.value);
    }
  }

  /** No mark begins inside the separator of a field or in its content. */
  lemma NoMarkInField(field: string, content: string, rest: string, j: nat)
    requires '\n' !in field && Clean(content) && (rest == [] || rest[0] == '\n')
    requires 0 < j < |Separator(field)| + |content|
    ensures !OccursAt(Separator(field) + content + rest, MARK, j)
  {
    var head := FIELD_SEP + field;
    var line := "\n" + content + rest;
    var text := Separator(field) + content + rest;
    assert text == ("\n" + head) + line + [];
    if j <= |head| {
      assert text[j] == head[j - 1] && head[j - 1] in head && '\n' !in FIELD_SEP;
      Mismatch(text, MARK, j, 0);
    } else {
      var i := j - |head| - 1;
      NoMarkInside(content, rest, i);
      if i + |MARK| <= |line| {
        OccursWithin("\n" + head, line, [], MARK, i);
      }
    }
  }

  lemma DifferSomewhere(f: string, g: string)
    ensures f == g <==> |f| == |g| && forall k | 0 <= k < |f| :: f[k] == g[k]
  {
  }

  lemma SeparatorsDiffer(f: string, g: string, rest: string)
    requires f != g && '\n' !in f && '\n' !in g
    ensures !OccursAt(Separator(g) + rest, Separator(f), 0)
  {
    var text, sep := Separator(g) + rest, Separator(f);
    var n := |MARK|;
    DifferSomewhere(f, g);
    if k: nat :| k < |f| && k < |g| && f[k] != g[k] {
      Mismatch(text, sep, 0, n + k);
    } else if |f| < |g| {
      assert g[|f|] in g;
      Mismatch(text, sep, 0, n + |f|);
    } else {
      assert |f| > |g|;
      assert f[|g|] in f;
      Mismatch(text, sep, 0, n + |g|);
    }
  }

  lemma PageShape(items: Items, fields: seq<string>)
    requires fields != []
    ensures Page(items, fields) ==
      if fields[0] in items then Separator(fields[0]) + items[fields[0]].content + Page(items, fields[1..])
      else Page(items, fields[1..])
  {
    var f, rest := fields[0], StrippedFields(items, fields[1..]);
    if f in items {
      FieldShape(f, items[f].content, rest);
    } else {
      assert "" + rest == rest;
    }
  }

  lemma FieldShape(f: string, content: string, rest: string)
    ensures "\n" + (StrippedField(f, content) + rest) == Separator(f) + content + ("\n" + rest)
  {
    var line := FIELD_SEP + f + "\n";
    assert "\n" + line == Separator(f);
    RegroupField("\n", line, content, rest);
  }

  lemma RegroupField(newline: string, line: string, content: string, rest: string)
    ensures newline + (line + (content + newline) + rest) == newline + line + content + (newline + rest)
  {
  }

  lemma {:induction false} PageEndsOrMarks(items: Items, fields: seq<string>)
    ensures Page(items, fields) == "\n" || OccursAt(Page(items, fields), MARK, 0)
  {
    if fields != [] {
      PageShape(items, fields);
      if fields[0] in items {
        assert Page(items, fields)[..|MARK|] == MARK;
      } else {
        PageEndsOrMarks(items, fields[1..]);
      }
    }
  }

  /** The field's own value runs to the next field, or takes the final newline along. */
  lemma ValueOfFirst(items: Items, fields: seq<string>)
    requires fields != [] && fields[0] in items && Clean(items[fields[0]].content)
    ensures var c := items[fields[0]].content;
      FieldValue(Page(items, fields), fields[0]) == Some(c) || FieldValue(Page(items, fields), fields[0]) == Some(c + "\n")
  {
    var f := fields[0];
    var c := items[f].content;
    var rest := Page(items, fields[1..]);
    PageShape(items, fields);
    Regroup(Separator(f), c, rest);
    PageEndsOrMarks(items, fields[1..]);
    EndOfContent(c, rest);
    ValueAtStart(f, c, rest);
  }

  lemma NoMarkInContent(c: string, rest: string, j: nat)
    requires Clean(c) && (rest == [] || rest[0] == '\n') && j < |c|
    ensures !OccursAt(c + rest, MARK, j)
  {
    NoMarkInside(c, rest, j + 1);
    var line := c + rest;
    assert "\n" + line + [] == "\n" + c + rest;
    if j + |MARK| <= |line| {
      OccursWithin("\n", line, [], MARK, j);
    }
  }

  lemma EndOfContent(c: string, rest: string)
    requires Clean(c) && (rest == "\n" || (OccursAt(rest, MARK, 0) && rest[0] == '\n'))
    ensures Find(c + rest, MARK) == if rest == "\n" then None else Some(|c|)
  {
    forall j: nat | j < |c| ensures !OccursAt(c + rest, MARK, j) {
      NoMarkInContent(c, rest, j);
    }
    FindShift(c, rest, MARK);
    if rest == "\n" {
      FindNone(rest, MARK);
    } else {
      FindIs(rest, MARK, 0);
    }
  }

  lemma ValueAtStart(f: string, content: string, rest: string)
    requires Find(content + rest, MARK) == (if rest == "\n" then None else Some(|content|))
    ensures FieldValue(Separator(f) + (content + rest), f) == Some(if rest == "\n" then content + "\n" else content)
  {
    var text := Separator(f) + (content + rest);
    assert OccursAt(text, Separator(f), 0);
    FindIs(text, Separator(f), 0);
    assert text[|Separator(f)|..] == content + rest;
    assert MARK == "\n" + FIELD_SEP;
    assert (content + rest)[..|content|] == content;
  }

  /** Another field in front makes no difference. */
  lemma PageSkips(items: Items, fields: seq<string>, f: string)
    requires fields != [] && fields[0] in items && fields[0] != f
    requires '\n' !in f && '\n' !in fields[0] && Clean(items[fields[0]].content)
    ensures FieldValue(Page(items, fields), f) == FieldValue(Page(items, fields[1..]), f)
  {
    var g := fields[0];
    var c := items[g].content;
    var rest := Page(items, fields[1..]);
    var x := Separator(g) + c;
    PageShape(items, fields);
    Regroup(Separator(g), c, rest);
    forall j: nat | j < |x| ensures !OccursAt(x + rest, Separator(f), j) {
      if j == 0 {
        SeparatorsDiffer(f, g, c + rest);
      } else {
        NoMarkInField(g, c, rest, j);
        SeparatorHasMark(x + rest, f, j);
      }
    }
    SkipField(x, rest, Separator(f));
  }

  /** Reading a field of the page finds its content, up to blanks at the end. */
  lemma {:induction false} ValueInPage(items: Items, fields: seq<string>, f: string)
    requires Distinct(fields) && '\n' !in f && forall g | g in fields :: '\n' !in g
    requires forall g | g in fields && g in items :: Clean(items[g].content)
    ensures var v := FieldValue(Page(items, fields), f);
      if f in fields && f in items then v == Some(items[f].content) || v == Some(items[f].content + "\n") else v == None
  {
    if fields == [] {
      FindNone(Page(items, fields), Separator(f));
    } else if fields[0] == f && f in items {
      ValueOfFirst(items, fields);
    } else {
      ValueInPage(items, fields[1..], f);
      PageShape(items, fields);
      if fields[0] in items {
        PageSkips(items, fields, f);
      }
    }
  }

  lemma BehindShift(x: string, rest: string, found: Option<nat>, n: nat)
    requires found.Some? ==> found.value + n <= |rest|
    ensures Behind(x + rest, if found.None? then None else Some(found.value + |x|), n) == Behind(rest, found, n)
  {
    if found.Some? {
      assert (x + rest)[found.value + |x| + n..] == rest[found.value + n..];
    }
  }

  lemma SkipField(x: string, rest: string, separator: string)
    requires forall j: nat | j < |x| :: !OccursAt(x + rest, separator, j)
    ensures ValueBehind(x + rest, separator) == ValueBehind(rest, separator)
  {
    FindShift(x, rest, separator);
    BehindShift(x, rest, Find(rest, separator), |separator|);
  }

  // ----- trimming -----

  lemma {:induction false} TrimLeftNewline(s: string)
    ensures TrimLeft(s + "\n") == if TrimLeft(s) == "" then "" else TrimLeft(s) + "\n"
  {
    if s == [] {
      assert s + "\n" == "\n" && "\n"[1..] == "";
    } else if IsSpace(s[0]) {
      assert (s + "\n")[1..] == s[1..] + "\n";
      TrimLeftNewline(s[1..]);
    }
  }

  lemma TrimNewline(s: string)
    ensures Trim(s + "\n") == Trim(s)
  {
    TrimLeftNewline(s);
    var t := TrimLeft(s);
    assert (t + "\n")[..|t|] == t;
  }

  // ----- the round trip -----

  predicate Differ(d1: Items, d2: Items, f: string)
    requires f in d1 && f in d2
  {
    d1[f].editable && Trim(d1[f].content) != Trim(d2[f].content)
  }

  /** Reading fields one after another: each is judged by the original items. */
  lemma {:induction false} ReadFieldsEach(page: string, d1: Items, d2: Items, fields: seq<string>)
    requires Distinct(fields) && d1.Keys == d2.Keys
    requires forall f | f in fields && f in d1 ::
      FieldValue(page, f) == Some(d2[f].content) || FieldValue(page, f) == Some(d2[f].content + "\n")
    ensures var (out, changed) := ReadFields(page, d1, fields);
      && out.Keys == d1.Keys
      && (forall f | f in d1 :: out[f] ==
            if f in fields && Differ(d1, d2, f) then d1[f].(content := Trim(d2[f].content)) else d1[f])
      && (changed <==> exists f | f in fields && f in d1 :: Differ(d1, d2, f))
  {
    if fields != [] {
      var f := fields[0];
      var (d, c) := ReadField(page, d1, f);
      if f in d1 {
        TrimNewline(d2[f].content);
      }
      ReadFieldsEach(page, d, d2, fields[1..]);
      assert f !in fields[1..];
    }
  }

  lemma FieldOrderDistinct(keys: set<string>)
    ensures Distinct(FieldOrder(keys))
  {
  }

  /** Nothing that is printed has a line that starts with `%----`. */
  ghost predicate CleanItems(items: Items, fields: seq<string>) {
    forall f | f in fields && f in items :: Clean(items[f].content)
  }

  lemma SeenClean(items: Items, fields: seq<string>)
    requires CleanItems(items, fields)
    ensures CleanItems(SeenItems(items), fields)
  {
    forall f | f in fields && f in items ensures Clean(SeenItems(items)[f].content) {
      CleanIsNoMark(items[f].content);
      CleanIsNoMark(Seen(items[f].content));
      SeenMarks(items[f].content, true);
    }
  }

  /** d1 after reading what was printed of d2, and whether it changed. */
  predicate TakesOver(out: (Items, bool), d1: Items, d2: Items, fields: seq<string>)
    requires d1.Keys == d2.Keys
  {
    && out.0.Keys == d1.Keys
    && (forall f | f in d1 :: out.0[f] ==
          if f in fields && Differ(d1, d2, f) then d1[f].(content := Trim(d2[f].content)) else d1[f])
    && (out.1 <==> exists f | f in fields && f in d1 :: Differ(d1, d2, f))
  }

  /** Printing d2, dropping the comments and reading into d1, a report of the same shape:
      d1 takes over the contents of d2 as they are seen after escaping. */
  lemma PrintRead(texts: Texts, d1: Items, d2: Items)
    requires d1.Keys == d2.Keys && forall f | f in d1 :: d1[f].editable == d2[f].editable
    requires GoodTexts(texts, FieldOrder(d2.Keys)) && CleanItems(d2, FieldOrder(d2.Keys))
    ensures var fields := FieldOrder(d1.Keys);
      TakesOver(ReadFields(Stripped(Written(texts, d2), true), d1, fields), d1, SeenItems(d2), fields)
  {
    var fields, seen := FieldOrder(d1.Keys), SeenItems(d2);
    FieldOrderDistinct(d1.Keys);
    StripWritten(texts, d2);
    SeenClean(d2, fields);
    forall f | f in fields && f in d1
      ensures var v := FieldValue(Page(seen, fields), f); v == Some(seen[f].content) || v == Some(seen[f].content + "\n")
    {
      ValueInPage(seen, fields, f);
    }
    ReadFieldsEach(Page(seen, fields), d1, seen, fields);
  }

  /** No editable content has a line that starts with `\\#`. */
  predicate Escapable(items: Items, fields: seq<string>) {
    forall f | f in fields && f in items && items[f].editable :: !HasDoubleBackslashLine(items[f].content, true)
  }

  /** Hence every editable field whose trimmed content differs takes the trimmed content
      of d2, nothing else changes, and the reader reports a change exactly when there
      is one. */
  lemma PrintReadRoundTrip(texts: Texts, d1: Items, d2: Items)
    requires d1.Keys == d2.Keys && forall f | f in d1 :: d1[f].editable == d2[f].editable
    requires GoodTexts(texts, FieldOrder(d2.Keys)) && CleanItems(d2, FieldOrder(d2.Keys))
    requires Escapable(d2, FieldOrder(d2.Keys))
    ensures var fields := FieldOrder(d1.Keys);
      TakesOver(ReadFields(Stripped(Written(texts, d2), true), d1, fields), d1, d2, fields)
  {
    PrintRead(texts, d1, d2);
    var fields := FieldOrder(d1.Keys);
    assert forall f | f in fields && f in d1 :: Differ(d1, d2, f) <==> Differ(d1, SeenItems(d2), f);
  }

  function Backslashes(s: string): nat {
    if s == [] then 0 else (if s[0] == '\\' then 1 else 0) + Backslashes(s[1..])
  }

  lemma {:induction false} SeenBackslashes(s: string, newline: bool)
    ensures if HasDoubleBackslashLine(s, newline) then Backslashes(Seen(s, newline)) < Backslashes(s) else Seen(s, newline) == s
  {
    if s != [] {
      SeenBackslashes(s[1..], s[0] == '\n');
      if newline && StartsDouble(s) {
        SeenBackslashes(s[1..], false);
      } else {
        var rest := Seen(s[1..], s[0] == '\n');
        assert ([s[0]] + rest)[1..] == rest;
      }
    }
  }

  lemma {:induction false} BackslashesJoin(a: string, b: string)
    ensures Backslashes(a + b) == Backslashes(a) + Backslashes(b)
  {
    if a == [] {
      assert a + b == b;
    } else {
      assert (a + b)[1..] == a[1..] + b;
      BackslashesJoin(a[1..], b);
    }
  }

  lemma {:induction false} TrimRightKeeps(s: string)
    ensures Backslashes(TrimRight(s)) == Backslashes(s)
  {
    if s != [] && IsSpace(s[|s| - 1]) {
      var front := s[..|s| - 1];
      TrimRightKeeps(front);
      BackslashesJoin(front, [s[|s| - 1]]);
      assert s == front + [s[|s| - 1]];
    }
  }

  lemma {:induction false} TrimLeftKeeps(s: string)
    ensures Backslashes(TrimLeft(s)) == Backslashes(s)
  {
    if s != [] && IsSpace(s[0]) {
      TrimLeftKeeps(s[1..]);
    }
  }

  /** A lost backslash is never lost in the blanks. */
  lemma TrimSeenIff(content: string)
    ensures Trim(Seen(content)) == Trim(content) <==> !HasDoubleBackslashLine(content, true)
  {
    SeenBackslashes(content, true);
    TrimLeftKeeps(content);
    TrimLeftKeeps(Seen(content));
    TrimRightKeeps(TrimLeft(content));
    TrimRightKeeps(TrimLeft(Seen(content)));
  }

  /** A report the user did not touch is left as it was if and only if no editable content
      has a line that starts with `\\#`. */
  lemma UneditedReport(texts: Texts, d: Items)
    requires GoodTexts(texts, FieldOrder(d.Keys)) && CleanItems(d, FieldOrder(d.Keys))
    ensures ReadFields(Stripped(Written(texts, d), true), d, FieldOrder(d.Keys)) == (d, false)
      <==> Escapable(d, FieldOrder(d.Keys))
  {
    PrintRead(texts, d, d);
    var fields := FieldOrder(d.Keys);
    TakesNothing(ReadFields(Stripped(Written(texts, d), true), d, fields), d, SeenItems(d), fields);
    forall f | f in fields && f in d
      ensures Differ(d, SeenItems(d), f) <==> d[f].editable && HasDoubleBackslashLine(d[f].content, true)
    {
      TrimSeenIff(d[f].content);
    }
  }

  lemma TakesNothing(out: (Items, bool), d1: Items, d2: Items, fields: seq<string>)
    requires d1.Keys == d2.Keys && TakesOver(out, d1, d2, fields)
    ensures out == (d1, false) <==> forall f | f in fields && f in d1 :: !Differ(d1, d2, f)
  {
    if forall f | f in fields && f in d1 :: !Differ(d1, d2, f) {
      assert out.0 == d1;
    }
  }

  lemma NewlineMakesNoMark(content: string)
    ensures Find(content + "\n", MARK) == None <==> Find(content, MARK) == None
  {
    var line := content + "\n";
    assert [] + content + "\n" == line;
    forall j: nat ensures OccursAt(line, MARK, j) <==> OccursAt(content, MARK, j) {
      if j + |MARK| <= |content| {
        OccursWithin([], content, "\n", MARK, j);
      } else if j + |MARK| == |line| {
        Mismatch(line, MARK, j, |MARK| - 1);
      }
    }
    if Find(content, MARK) == None {
      FindNone(line, MARK);
    } else {
      assert OccursAt(line, MARK, Find(content, MARK).value);
    }
  }

  lemma ValueOfLine(field: string, line: string)
    ensures FieldValue(Separator(field) + line, field) == Some(UpToMark(line))
  {
    var text := Separator(field) + line;
    assert OccursAt(text, Separator(field), 0);
    FindIs(text, Separator(field), 0);
    assert text[|Separator(field)|..] == line;
  }

  lemma CutIff(line: string)
    ensures UpToMark(line) == line <==> Find(line, MARK) == None
  {
    assert MARK == "\n" + FIELD_SEP;
  }

  /** A field is read back whole if and only if no line of it but the first starts with
      `%----`; otherwise it is cut at that line. */
  lemma FieldCutIff(field: string, content: string)
    ensures FieldValue(Separator(field) + (content + "\n"), field) == Some(content + "\n") <==> Find(content, MARK) == None
  {
    ValueOfLine(field, content + "\n");
    CutIff(content + "\n");
    NewlineMakesNoMark(content);
  }
}
