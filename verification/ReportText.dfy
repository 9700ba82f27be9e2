/**
 Escaping for the report editor (src/cli/cli-report.c:30-111). Lines of a field that
 could be taken for comments get a backslash; reading back drops comment lines and
 the backslashes. Both work on C strings, the second one in place.
 */
module ReportText {
  import opened Basics

  /** s begins with what escape protects at the start of a line: `#` or `\#`. */
  predicate NeedsEscape(s: string) {
    s != [] && (s[0] == '#' || (s[0] == '\\' && |s| > 1 && s[1] == '#'))
  }

  /** What escape produces; newline tells whether s starts a line. */
  function Escaped(s: string, newline: bool): (r: string)
    ensures |r| >= |s|
  {
    if s == [] then []
    else (if newline && NeedsEscape(s) then "\\" else "") + [s[0]] + Escaped(s[1..], s[0] == '\n')
  }

  /** s without its first line. */
  function AfterLine(s: string): (r: string)
    ensures |r| <= |s| && (s != [] ==> |r| < |s|)
    ensures forall c | c in r :: c in s
  {
    if s == [] then [] else if s[0] == '\n' then s[1..] else AfterLine(s[1..])
  }

  /** s begins with a backslash that escape may have inserted: `\#` or `\\#`. */
  predicate IsEscaped(s: string) {
    |s| > 1 && s[0] == '\\' && (s[1] == '#' || (s[1] == '\\' && |s| > 2 && s[2] == '#'))
  }

  /** What remove_comments_and_unescape leaves. */
  function Stripped(s: string, newline: bool): (r: string)
    ensures |r| <= |s|
    ensures forall c | c in r :: c in s
    decreases |s|
  {
    if s == [] then []
    else if newline && s[0] == '#' then Stripped(AfterLine(s), true)
    else if newline && IsEscaped(s) then [s[1]] + Stripped(s[2..], false)
    else [s[0]] + Stripped(s[1..], s[0] == '\n')
  }

  // ----- the two algorithms -----

  /** What escape inserts before character i. */
  function Protection(str: string, i: nat, newline: bool): string
    requires i < |str|
  {
    if newline && (str[i] == '#' || (str[i] == '\\' && i + 1 < |str| && str[i + 1] == '#')) then "\\" else ""
  }

  /** One character of str is consumed: what both loops of escape rely on. */
  lemma EscapedStep(str: string, i: nat, newline: bool)
    requires i < |str|
    ensures Escaped(str[i..], newline) ==
      Protection(str, i, newline) + [str[i]] + Escaped(str[i + 1..], str[i] == '\n')
  {
    assert str[i..][1..] == str[i + 1..];
  }

  /** The counting pass of escape. */
  method CountInsertions(str: string) returns (count: nat)
    ensures |str| + count == |Escaped(str, true)|
  {
    var ptr := 0;
    var newline := true;
    count := 0;
    while ptr < |str|
      invariant ptr <= |str|
      invariant ptr + count + |Escaped(str[ptr..], newline)| == |Escaped(str, true)|
    {
      EscapedStep(str, ptr, newline);
      if newline {
        if str[ptr] == '#' {
          count := count + 1;
        }
        if str[ptr] == '\\' && ptr + 1 < |str| && str[ptr + 1] == '#' {
          count := count + 1;
        }
      }
      newline := str[ptr] == '\n';
      ptr := ptr + 1;
    }
  }

  /** Inserts the backslash in front of character src, if it needs one. */
  method Protect(result: array<char>, dest: nat, str: string, src: nat, newline: bool, ghost done: string)
    returns (dest': nat)
    requires src < |str| && Holds(result, dest, done) && dest + |Protection(str, src, newline)| <= result.Length
    modifies result
    ensures Holds(result, dest', done + Protection(str, src, newline))
  {
    dest' := dest;
    if newline {
      if str[src] == '#' {
        dest' := Put(result, dest, ['\\'], done);
      } else if str[src] == '\\' && src + 1 < |str| && str[src + 1] == '#' {
        dest' := Put(result, dest, ['\\'], done);
      }
    }
    assert done + "" == done;
  }

  /** escape: allocates exactly what the counting pass asked for, and fills it. */
  method Escape(str: string) returns (result: array<char>)
    ensures fresh(result) && result[..] == Escaped(str, true) + ['\0']
  {
    var count := CountInsertions(str);
    result := new char[|str| + 1 + count];
    var src, dest: nat := 0, 0;
    var newline := true;
    ghost var done := "";
    while src < |str|
      invariant src <= |str| && Holds(result, dest, done)
      invariant done + Escaped(str[src..], newline) == Escaped(str, true)
    {
      EscapedStep(str, src, newline);
      ghost var protection, rest := Protection(str, src, newline), Escaped(str[src + 1..], str[src] == '\n');
      Regroup4(done, protection, [str[src]], rest);
      dest := Protect(result, dest, str, src, newline, done);
      newline := str[src] == '\n';
      dest := Put(result, dest, [str[src]], done + protection);
      done := done + protection + [str[src]];
      src := src + 1;
    }
    assert str[src..] == [];
    dest := Put(result, dest, ['\0'], done);
    assert result[..dest] == result[..];
  }

  ghost predicate HoldsString(a: array<char>, s: string)
    reads a
  {
    |s| < a.Length && '\0' !in s && a[..|s|] == s && a[|s|] == '\0'
  }

  lemma StrippedStep(s: string, i: nat, newline: bool)
    requires i < |s| && !(newline && s[i] == '#')
    ensures Stripped(s[i..], newline) ==
      if newline && IsEscaped(s[i..]) then [s[i + 1]] + Stripped(s[i + 2..], false)
      else [s[i]] + Stripped(s[i + 1..], s[i] == '\n')
  {
    assert s[i..][1..] == s[i + 1..];
    if |s| - i > 1 {
      assert s[i..][2..] == s[i + 2..];
    }
  }

  /** IsEscaped at a position. */
  predicate EscapedAt(s: string, i: nat) {
    i + 1 < |s| && s[i] == '\\' && (s[i + 1] == '#' || (s[i + 1] == '\\' && i + 2 < |s| && s[i + 2] == '#'))
  }

  /** Outside a comment one character is kept, after dropping an escape. */
  lemma KeepOne(s: string, i: nat, newline: bool, done: string)
    requires i < |s| && !(newline && s[i] == '#')
    requires Stripped(s, true) == done + Stripped(s[i..], newline)
    ensures var k := if newline && EscapedAt(s, i) then i + 1 else i;
      Stripped(s, true) == done + [s[k]] + Stripped(s[k + 1..], s[k] == '\n')
  {
    StrippedStep(s, i, newline);
    assert IsEscaped(s[i..]) <==> EscapedAt(s, i);
    var k := if newline && EscapedAt(s, i) then i + 1 else i;
    Regroup(done, [s[k]], Stripped(s[k + 1..], s[k] == '\n'));
  }

  /** From src on, str still is the original string. */
  ghost predicate Unread(str: array<char>, src: nat, s: string)
    reads str
  {
    |s| < str.Length && '\0' !in s && str[|s|] == '\0' && forall k | src <= k < |s| :: str[k] == s[k] && s[k] != '\0'
  }

  /** The inner loop: to the newline that ends the comment, or to the end of the string. */
  method SkipComment(str: array<char>, from: nat, ghost s: string) returns (src: nat)
    requires from < |s| && Unread(str, from, s)
    ensures from <= src <= |s|
    ensures if src < |s| then str[src] == '\n' && AfterLine(s[from..]) == s[src + 1..] else AfterLine(s[from..]) == []
  {
    src := from;
    while str[src] != '\0' && str[src] != '\n'
      invariant from <= src <= |s|
      invariant AfterLine(s[src..]) == AfterLine(s[from..])
      decreases |s| - src
    {
      assert s[src..][1..] == s[src + 1..];
      src := src + 1;
    }
    if src < |s| {
      assert s[src] in s;
      assert s[src..][1..] == s[src + 1..];
    }
  }

  lemma CommentStep(s: string, src: nat, done: string)
    requires src < |s| && s[src] == '#' && Stripped(s, true) == done + Stripped(s[src..], true)
    ensures Stripped(s, true) == done + Stripped(AfterLine(s[src..]), true)
  {
  }

  /** remove_comments_and_unescape: dest never overtakes src. */
  method RemoveCommentsAndUnescape(str: array<char>, ghost s: string)
    requires HoldsString(str, s)
    modifies str
    ensures HoldsString(str, Stripped(s, true))
  {
    var src, dest: nat := 0, 0;
    var newline := true;
    ghost var done := "";
    while str[src] != '\0'
      invariant dest <= src <= |s| && Unread(str, src, s) && Holds(str, dest, done)
      invariant Stripped(s, true) == done + Stripped(s[src..], newline)
      decreases |s| - src
    {
      if newline && str[src] == '#' {
        CommentStep(s, src, done);
        src := SkipComment(str, src, s);
        if str[src] == '\0' {
          break;
        }
        src := src + 1;
        continue;
      }
      src, dest, newline, done := KeepChar(str, src, dest, newline, s, done);
    }
    Terminate(str, src, dest, newline, s, done);
  }

  /** The end of the string is copied as well. */
  method Terminate(str: array<char>, src: nat, dest: nat, newline: bool, ghost s: string, ghost done: string)
    requires dest <= src <= |s| && Unread(str, src, s) && Holds(str, dest, done) && str[src] == '\0'
    requires Stripped(s, true) == done + Stripped(s[src..], newline)
    modifies str
    ensures HoldsString(str, Stripped(s, true))
  {
    assert src == |s| && done + [] == done;
    var _ := Put(str, dest, ['\0'], done);
    EndsHere(str, done);
  }

  /** Steps over a backslash that escape inserted. */
  method SkipEscape(str: array<char>, src: nat, newline: bool, ghost s: string) returns (src': nat)
    requires src < |s| && Unread(str, src, s)
    ensures src' == if newline && EscapedAt(s, src) then src + 1 else src
  {
    assert str[src] == s[src] && (src + 1 < |s| ==> str[src + 1] == s[src + 1]) && (src + 2 < |s| ==> str[src + 2] == s[src + 2]);
    src' := src;
    if newline && str[src] == '\\' && (str[src + 1] == '#' || (str[src + 1] == '\\' && str[src + 2] == '#')) {
      src' := src + 1;
    }
  }

  /** The rest of the loop body: one character outside a comment is kept. */
  method KeepChar(str: array<char>, src: nat, dest: nat, newline: bool, ghost s: string, ghost done: string)
    returns (src': nat, dest': nat, newline': bool, ghost done': string)
    requires dest <= src < |s| && Unread(str, src, s) && Holds(str, dest, done) && !(newline && str[src] == '#')
    requires Stripped(s, true) == done + Stripped(s[src..], newline)
    modifies str
    ensures dest' <= src' <= |s| && src < src' && Unread(str, src', s) && Holds(str, dest', done')
    ensures Stripped(s, true) == done' + Stripped(s[src'..], newline')
  {
    assert str[src] == s[src];
    KeepOne(s, src, newline, done);
    src' := SkipEscape(str, src, newline, s);
    newline' := str[src'] == '\n';
    done' := done + [str[src']];
    dest' := Put(str, dest, [str[src']], done);
    src' := src' + 1;
  }

  lemma EndsHere(a: array<char>, s: string)
    requires Holds(a, |s| + 1, s + ['\0']) && '\0' !in s
    ensures HoldsString(a, s)
  {
    assert a[..|s| + 1][..|s|] == a[..|s|];
    assert a[..|s| + 1][|s|] == a[|s|];
  }

  // ----- the round trip -----

  /** Some line of s starts with `\\#`; newline tells whether s starts a line. */
  predicate HasDoubleBackslashLine(s: string, newline: bool) {
    s != [] &&
    (|| (newline && |s| > 2 && s[0] == '\\' && s[1] == '\\' && s[2] == '#')
     || HasDoubleBackslashLine(s[1..], s[0] == '\n'))
  }

  predicate StartsDouble(s: string) { |s| > 2 && s[0] == '\\' && s[1] == '\\' && s[2] == '#' }

  /** A text after escaping and reading back: each line that starts with `\\#` has lost
      a backslash. */
  function Seen(s: string, newline: bool := true): (r: string)
    ensures HasDoubleBackslashLine(s, newline) ==> |r| < |s|
    ensures !HasDoubleBackslashLine(s, newline) ==> r == s
  {
    if s == [] then []
    else if newline && StartsDouble(s) then Seen(s[1..], false)
    else [s[0]] + Seen(s[1..], s[0] == '\n')
  }

  /** Escaping and stripping gives a text back if and only if none of its lines starts
      with `\\#`: that prefix is left alone by escape and shortened when read back. */
  lemma EscapeRoundTrip(s: string)
    ensures Stripped(Escaped(s, true), true) == s <==> !HasDoubleBackslashLine(s, true)
  {
    StripsToSeen(s, true);
  }

  lemma {:induction false} StripsToSeen(s: string, newline: bool)
    ensures Stripped(Escaped(s, newline), newline) == Seen(s, newline)
  {
    if s != [] {
      StripsToSeen(s[1..], s[0] == '\n');
      if newline && NeedsEscape(s) {
        ProtectedStart(s);
      } else if newline && StartsDouble(s) {
        DoubleStart(s);
      } else {
        OtherStart(s, newline);
      }
    }
  }

  lemma EscapedHead(s: string)
    requires s != []
    ensures Escaped(s, false) == [s[0]] + Escaped(s[1..], s[0] == '\n')
  {
  }

  lemma ProtectedStart(s: string)
    requires NeedsEscape(s)
    ensures Stripped(Escaped(s, true), true) == [s[0]] + Stripped(Escaped(s[1..], s[0] == '\n'), s[0] == '\n')
  {
    var tail := Escaped(s[1..], s[0] == '\n');
    var e := Escaped(s, true);
    assert e == ['\\', s[0]] + tail && e[2..] == tail;
    if s[0] == '\\' {
      EscapedHead(s[1..]);
      assert tail[0] == '#' && e[2] == tail[0];
    }
    assert IsEscaped(e);
  }

  lemma DoubleStart(s: string)
    requires StartsDouble(s)
    ensures Stripped(Escaped(s, true), true) == Stripped(Escaped(s[1..], false), false)
  {
    EscapedHead(s[1..]);
    EscapedHead(s[2..]);
    var tail := Escaped(s[1..], false);
    var e := Escaped(s, true);
    assert s[1..][1..] == s[2..] && tail == ['\\'] + Escaped(s[2..], false);
    assert e == ['\\'] + tail && e[1] == '\\' && e[2] == '#';
    assert e[2..] == tail[1..];
  }

  lemma KeptFirst(c: char, tail: string, newline: bool)
    requires !(newline && (c == '#' || IsEscaped([c] + tail)))
    ensures Stripped([c] + tail, newline) == [c] + Stripped(tail, c == '\n')
  {
    assert ([c] + tail)[1..] == tail;
  }

  lemma NothingToUnescape(s: string)
    requires s != [] && !NeedsEscape(s) && !StartsDouble(s)
    ensures !IsEscaped([s[0]] + Escaped(s[1..], s[0] == '\n'))
  {
    if s[0] == '\\' && |s| > 1 {
      EscapedHead(s[1..]);
      if |s| > 2 && s[1] == '\\' {
        EscapedHead(s[2..]);
        assert s[1..][1..] == s[2..];
      }
    }
  }

  lemma OtherStart(s: string, newline: bool)
    requires s != [] && !(newline && (NeedsEscape(s) || StartsDouble(s)))
    ensures Stripped(Escaped(s, newline), newline) == [s[0]] + Stripped(Escaped(s[1..], s[0] == '\n'), s[0] == '\n')
  {
    var tail := Escaped(s[1..], s[0] == '\n');
    assert Escaped(s, newline) == [s[0]] + tail;
    if newline {
      NothingToUnescape(s);
    }
    KeptFirst(s[0], tail, newline);
  }
}
