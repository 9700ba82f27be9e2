/**
 Decimal integers stored in files (src/lib/dump_dir.c): read_number_from_file_at,
 the dd_load_* family on top of it, and dd_set_owner / dd_get_owner. A byte is a
 char; unsigned long long is a natural number below 2^64.
 */
module NumberFiles {
  import opened Basics

  const TWO32: int := 0x1_0000_0000
  const ULLONG_MAX: int := TWO64 - 1

  datatype Error = ERANGE | EINVAL | EMSGSIZE

  datatype Result<T> = Ok(value: T) | Err(error: Error)

  // ----- strtoull, base 10 -----

  predicate IsDigit(c: char) { '0' <= c <= '9' }

  function DigitValue(c: char): nat
    requires IsDigit(c)
  {
    c as nat - '0' as nat
  }

  function SkipSpace(s: string): (r: string)
    ensures |r| <= |s|
  {
    if s != [] && IsSpace(s[0]) then SkipSpace(s[1..]) else s
  }

  /** The leading digits of s, and what follows them. */
  function DigitRun(s: string): (r: (string, string))
    ensures s == r.0 + r.1
    ensures forall c | c in r.0 :: IsDigit(c)
  {
    if s != [] && IsDigit(s[0]) then
      var (d, rest) := DigitRun(s[1..]);
      ([s[0]] + d, rest)
    else ([], s)
  }

  function Value(digits: string): nat
    requires forall c | c in digits :: IsDigit(c)
  {
    if digits == [] then 0 else 10 * Value(digits[..|digits| - 1]) + DigitValue(digits[|digits| - 1])
  }

  /** What strtoull leaves: the number, whether it overflowed, and whether the whole
      text was consumed by a number (endptr). A minus sign negates modulo 2^64. */
  datatype Conversion = Conversion(res: nat, overflow: bool, whole: bool)

  function Strtoull(text: string): Conversion { SignedNumber(SkipSpace(text)) }

  function SignedNumber(s: string): Conversion {
    if s != [] && s[0] == '-' then FromRun(true, DigitRun(s[1..]))
    else if s != [] && s[0] == '+' then FromRun(false, DigitRun(s[1..]))
    else FromRun(false, DigitRun(s))
  }

  function FromRun(neg: bool, run: (string, string)): Conversion
    requires forall c | c in run.0 :: IsDigit(c)
  {
    if run.0 == [] then Conversion(0, false, false) else Converted(neg, Value(run.0), run.1 == [])
  }

  function Converted(neg: bool, n: nat, whole: bool): Conversion {
    if n > ULLONG_MAX then Conversion(ULLONG_MAX, true, whole)
    else Conversion(if neg then (TWO64 - n) % TWO64 else n, false, whole)
  }

  // ----- the file reader -----

  /** The C string in a buffer: everything before the first NUL. */
  function CString(s: string): string {
    if s == [] || s[0] == '\0' then [] else [s[0]] + CString(s[1..])
  }

  /** The text of a file: without one final newline, up to the first NUL. */
  function TextOf(content: string): string
    requires content != []
  {
    CString(if content[|content| - 1] == '\n' then content[..|content| - 1] else content)
  }

  predicate StartsWithMinus(text: string) { text != [] && text[0] == '-' }

  /** The checks after strtoull. */
  function Judge(c: Conversion, neg: bool, min: nat, max: nat): Result<nat> {
    if neg && min == 0 then Err(ERANGE)
    else if c.overflow then Err(ERANGE)
    else if !c.whole then Err(EINVAL)
    else if (if neg then c.res < min else c.res > max) then Err(ERANGE)
    else Ok(c.res)
  }

  /** read_number_from_file_at on the bytes of a readable file. The source indexes
      the byte before the buffer when the file is empty, hence the precondition. */
  function ReadNumber(content: string, typesz: nat, min: nat, max: nat): Result<nat>
    requires content != []
  {
    if |content| >= typesz * 3 + 2 then Err(EMSGSIZE)
    else Judge(Strtoull(TextOf(content)), StartsWithMinus(TextOf(content)), min, max)
  }

  /** The integer types of dd_load_*: width in bytes and signedness. */
  datatype IntType = Int32 | UInt32 | Int64 | UInt64 {
    function Size(): nat { if Int32? || UInt32? then 4 else 8 }

    function Min(): int {
      match this
      case Int32 => -0x8000_0000
      case Int64 => -0x8000_0000_0000_0000
      case _ => 0
    }

    function Max(): int {
      match this
      case Int32 => 0x7fff_ffff
      case UInt32 => 0xffff_ffff
      case Int64 => 0x7fff_ffff_ffff_ffff
      case UInt64 => 0xffff_ffff_ffff_ffff
    }

    /** Conversion of an unsigned long long to the type. */
    function Cast(x: nat): int {
      var m := if Size() == 4 then TWO32 else TWO64;
      var y := x % m;
      if y > Max() then y - m else y
    }
  }

  /** The image of a constant passed as unsigned long long. */
  function Image(x: int): nat { x % TWO64 }

  /** dd_load_int32, dd_load_uint32, dd_load_int64 and dd_load_uint64. */
  function Load(content: string, t: IntType): Result<int>
    requires content != []
  {
    match ReadNumber(content, t.Size(), Image(t.Min()), Image(t.Max()))
    case Ok(x) => Ok(t.Cast(x))
    case Err(e) => Err(e)
  }

  // ----- decimal printing -----

  function DigitChar(d: nat): (c: char)
    requires d < 10
    ensures IsDigit(c) && DigitValue(c) == d
  {
    ('0' as nat + d) as char
  }

  /** The canonical digits of n. */
  function Digits(n: nat): (s: string)
    ensures s != [] && forall c | c in s :: IsDigit(c)
  {
    if n < 10 then [DigitChar(n)] else Digits(n / 10) + [DigitChar(n % 10)]
  }

  /** What printf prints for %li or %lu. */
  function Print(v: int): (s: string)
    ensures s != []
  {
    if v < 0 then "-" + Digits(-v) else Digits(v)
  }

  lemma {:induction false} ValueOfDigits(n: nat)
    ensures Value(Digits(n)) == n
  {
    if n >= 10 {
      ValueOfDigits(n / 10);
      var s := Digits(n);
      assert s[..|s| - 1] == Digits(n / 10);
    } else {
      assert Digits(n)[..0] == [];
    }
  }

  /** Digits in front count ten times as much for each digit behind them. */
  lemma {:induction false} ValueAppend(a: string, b: string)
    requires forall c | c in a + b :: IsDigit(c)
    ensures (forall c | c in a :: IsDigit(c)) && forall c | c in b :: IsDigit(c)
    ensures Value(a + b) == Value(a) * Pow10(|b|) + Value(b)
  {
    assert forall c | c in a :: c in a + b;
    assert forall c | c in b :: c in a + b;
    if b == "" {
      assert a + b == a;
    } else {
      var front := b[..|b| - 1];
      assert (a + b)[..|a + b| - 1] == a + front;
      ValueAppend(a, front);
      TenTimes(Value(a), Pow10(|front|));
    }
  }

  /** Canonical digits start with no zero, unless there is only one. */
  lemma {:induction false} NoLeadingZero(n: nat)
    requires n > 0
    ensures Digits(n)[0] != '0'
  {
    if n >= 10 {
      NoLeadingZero(n / 10);
    }
  }

  lemma DigitsMore(n: nat, d: nat)
    requires n > 0 && d < 10
    ensures Digits(10 * n + d) == Digits(n) + [DigitChar(d)]
  {
    assert (10 * n + d) / 10 == n && (10 * n + d) % 10 == d;
  }

  /** All ten digits, in order. */
  lemma TenDigits()
    ensures Digits(9876543210) == "9876543210" && Value("9876543210") == 9876543210
  {
    assert Digits(9) == "9";
    DigitsMore(9, 8);
    DigitsMore(98, 7);
    DigitsMore(987, 6);
    DigitsMore(9876, 5);
    DigitsMore(98765, 4);
    DigitsMore(987654, 3);
    DigitsMore(9876543, 2);
    DigitsMore(98765432, 1);
    DigitsMore(987654321, 0);
    ValueOfDigits(9876543210);
  }

  lemma TenTimes(v: nat, p: nat)
    ensures v * (10 * p) == 10 * (v * p)
  {
  }

  function Pow10(k: nat): nat { if k == 0 then 1 else 10 * Pow10(k - 1) }

  lemma {:induction false} DigitsFit(n: nat, k: nat)
    requires k >= 1 && n < Pow10(k)
    ensures |Digits(n)| <= k
  {
    if n >= 10 {
      assert k > 1;
      DigitsFit(n / 10, k - 1);
    }
  }

  lemma {:induction false} AllDigits(s: string, rest: string)
    requires forall c | c in s :: IsDigit(c)
    requires rest == [] || !IsDigit(rest[0])
    ensures DigitRun(s + rest) == (s, rest)
  {
    if s == [] {
      assert s + rest == rest;
    } else {
      var t := s + rest;
      assert t[0] == s[0] && t[1..] == s[1..] + rest && s[0] in s;
      AllDigits(s[1..], rest);
      assert [s[0]] + s[1..] == s;
    }
  }

  lemma {:induction false} NoNul(s: string)
    requires '\0' !in s
    ensures CString(s) == s
  {
    if s != [] {
      NoNul(s[1..]);
    }
  }

  /** What follows a NUL does not count. */
  lemma {:induction false} NulEnds(s: string, rest: string)
    requires '\0' !in s
    ensures CString(s + "\0" + rest) == s
  {
    if s == "" {
      assert (s + "\0" + rest)[0] == '\0';
    } else {
      assert (s + "\0" + rest)[1..] == s[1..] + "\0" + rest;
      NulEnds(s[1..], rest);
    }
  }

  // ----- texts of numbers -----

  datatype Sign = NoSign | Plus | Minus

  predicate Blanks(ws: string) { forall c | c in ws :: IsSpace(c) }

  predicate IsNumeral(ds: string) { ds != [] && forall c | c in ds :: IsDigit(c) }

  function SignText(sign: Sign): string { if sign.Minus? then "-" else if sign.Plus? then "+" else "" }

  function NumberText(ws: string, sign: Sign, ds: string): string { ws + (SignText(sign) + ds) }

  function SignedValue(sign: Sign, ds: string): int
    requires IsNumeral(ds)
  {
    if sign.Minus? then 0 - Value(ds) else Value(ds)
  }

  lemma {:induction false} SkipBlanks(ws: string, rest: string)
    requires Blanks(ws) && rest != [] && !IsSpace(rest[0])
    ensures SkipSpace(ws + rest) == rest
  {
    if ws == [] {
      assert ws + rest == rest;
    } else {
      assert (ws + rest)[1..] == ws[1..] + rest;
      SkipBlanks(ws[1..], rest);
    }
  }

  lemma ConvertSigned(sign: Sign, ds: string)
    requires IsNumeral(ds)
    ensures SignedNumber(SignText(sign) + ds) == Converted(sign.Minus?, Value(ds), true)
  {
    var s := SignText(sign) + ds;
    AllDigits(ds, "");
    assert ds + "" == ds && ds[0] in ds;
    if sign.NoSign? {
      assert s == ds;
    } else {
      assert s[0] == SignText(sign)[0] && s[1..] == ds;
    }
  }

  /** strtoull reads blanks, a sign and digits to the end; the reader sees a minus sign
      only if nothing stands before it. */
  lemma ConvertText(ws: string, sign: Sign, ds: string)
    requires Blanks(ws) && IsNumeral(ds)
    ensures var s := NumberText(ws, sign, ds);
      && Strtoull(s) == Converted(sign.Minus?, Value(ds), true)
      && (StartsWithMinus(s) <==> sign.Minus? && ws == [])
  {
    var rest := SignText(sign) + ds;
    assert ds[0] in ds && rest[0] == if sign.NoSign? then ds[0] else SignText(sign)[0];
    SkipBlanks(ws, rest);
    ConvertSigned(sign, ds);
    if ws == [] {
      assert ws + rest == rest;
    } else {
      assert ws[0] in ws && (ws + rest)[0] == ws[0];
    }
  }

  /** A text without NUL that does not end in a newline, as a whole file. */
  lemma TextOfPlain(s: string, newline: bool)
    requires s != [] && '\0' !in s && s[|s| - 1] != '\n'
    ensures TextOf(s + if newline then "\n" else "") == s
  {
    NoNul(s);
    assert s + "" == s && (s + "\n")[..|s|] == s;
  }

  lemma TextOfNumber(ws: string, sign: Sign, ds: string, newline: bool)
    requires Blanks(ws) && IsNumeral(ds)
    ensures TextOf(NumberText(ws, sign, ds) + if newline then "\n" else "") == NumberText(ws, sign, ds)
  {
    var s := NumberText(ws, sign, ds);
    assert s[|s| - 1] == ds[|ds| - 1] && ds[|ds| - 1] in ds;
    assert forall c | c in s :: c in ws || c in SignText(sign) || c in ds;
    TextOfPlain(s, newline);
  }

  // ----- the range tests -----

  lemma ImageSmall(v: int)
    requires -TWO64 < v < TWO64
    ensures Image(v) == if v < 0 then v + TWO64 else v
  {
  }

  /** The narrowing conversion undoes the widening one for every value in range. */
  lemma CastImage(v: int, t: IntType)
    requires t.Min() <= v <= t.Max()
    ensures t.Cast(Image(v)) == v
  {
    ImageSmall(v);
    if t.Size() == 4 {
      assert (v + TWO64) % TWO32 == v % TWO32;
    }
  }

  /** With the sign in sight, comparing images modulo 2^64 decides as comparing the numbers
      would, except that minus zero is refused. */
  lemma JudgeSigned(n: nat, minus: bool, t: IntType)
    ensures var v: int := if minus then 0 - n else n;
      var r := Judge(Converted(minus, n, true), minus, Image(t.Min()), Image(t.Max()));
      if t.Min() <= v <= t.Max() && !(minus && n == 0) then r.Ok? && t.Cast(r.value) == v else r == Err(ERANGE)
  {
    var v: int := if minus then 0 - n else n;
    ImageSmall(t.Min());
    ImageSmall(t.Max());
    if n < TWO64 {
      ImageSmall(v);
    }
    if t.Min() <= v <= t.Max() {
      CastImage(v, t);
    }
  }

  /** With a minus sign out of sight, the image itself is taken for the number. */
  lemma JudgeHidden(n: nat, t: IntType)
    ensures var r := Judge(Converted(true, n, true), false, Image(t.Min()), Image(t.Max()));
      if n == 0 then r == Ok(0)
      else if TWO64 - t.Max() <= n < TWO64 then r == Ok(TWO64 - n) && t.Cast(TWO64 - n) == TWO64 - n
      else r == Err(ERANGE)
  {
    ImageSmall(t.Min());
    ImageSmall(t.Max());
    if TWO64 - t.Max() <= n < TWO64 {
      CastImage(TWO64 - n, t);
      ImageSmall(TWO64 - n);
    }
  }

  /** The ranges of the four types: 2^32 or 2^64 values, from zero or around it. */
  lemma TypeRange(t: IntType)
    ensures t.Max() - t.Min() + 1 == if t.Int32? || t.UInt32? then TWO32 else TWO64
    ensures if t.UInt32? || t.UInt64? then t.Min() == 0 else t.Min() == -t.Max() - 1
    ensures t.Size() == if t.Int32? || t.UInt32? then 4 else 8
  {
  }

  // ----- loading -----

  predicate Fits(content: string, t: IntType) { |content| < t.Size() * 3 + 2 }

  /** What the checks make of a number, its minus sign being hidden or not. */
  function Outcome(n: nat, minus: bool, hidden: bool, t: IntType): Result<int> {
    match Judge(Converted(minus, n, true), minus && !hidden, Image(t.Min()), Image(t.Max()))
    case Ok(x) => Ok(t.Cast(x))
    case Err(e) => Err(e)
  }

  lemma LoadText(ws: string, sign: Sign, ds: string, newline: bool, t: IntType)
    requires Blanks(ws) && IsNumeral(ds)
    ensures var content := NumberText(ws, sign, ds) + if newline then "\n" else "";
      content != [] &&
      Load(content, t) == if Fits(content, t) then Outcome(Value(ds), sign.Minus?, ws != [], t) else Err(EMSGSIZE)
  {
    TextOfNumber(ws, sign, ds, newline);
    ConvertText(ws, sign, ds);
  }

  lemma OutcomeIs(n: nat, minus: bool, hidden: bool, t: IntType)
    ensures var v: int := if minus then 0 - n else n;
      var r := Outcome(n, minus, hidden, t);
      && (r == Ok(v) <==> t.Min() <= v <= t.Max() && (minus ==> if hidden then v == 0 else v != 0))
      && (r != Ok(v) ==>
            if minus && hidden && TWO64 - t.Max() <= n < TWO64 then r == Ok(TWO64 - n) else r == Err(ERANGE))
  {
    if minus && hidden {
      JudgeHidden(n, t);
    } else {
      JudgeSigned(n, minus, t);
    }
  }

  /** The exact condition: a text of blanks, a sign and digits, with or without a final
      newline, loads as its value if and only if it fits the buffer, the value is in
      range, and a minus sign comes first and not before a zero. */
  lemma LoadsTextIff(ws: string, sign: Sign, ds: string, newline: bool, t: IntType)
    requires Blanks(ws) && IsNumeral(ds)
    ensures var content := NumberText(ws, sign, ds) + if newline then "\n" else "";
      var v := SignedValue(sign, ds);
      content != [] &&
      (Load(content, t) == Ok(v) <==>
        && Fits(content, t) && t.Min() <= v <= t.Max()
        && (sign.Minus? ==> if ws == [] then v != 0 else v == 0))
  {
    LoadText(ws, sign, ds, newline, t);
    OutcomeIs(Value(ds), sign.Minus?, ws != [], t);
  }

  lemma OutcomeOtherwise(n: nat, minus: bool, hidden: bool, t: IntType)
    requires Outcome(n, minus, hidden, t) != Ok(if minus then 0 - n else n as int)
    ensures Outcome(n, minus, hidden, t) ==
      if minus && hidden && TWO64 - t.Max() <= n < TWO64 then Ok(TWO64 - n) else Err(ERANGE)
  {
    OutcomeIs(n, minus, hidden, t);
  }

  predicate TakesComplement(content: string, ws: string, sign: Sign, n: nat, t: IntType) {
    Fits(content, t) && sign.Minus? && ws != [] && TWO64 - t.Max() <= n < TWO64
  }

  lemma LoadOtherwise(content: string, ws: string, sign: Sign, n: nat, t: IntType)
    requires content != []
    requires Load(content, t) == if Fits(content, t) then Outcome(n, sign.Minus?, ws != [], t) else Err(EMSGSIZE)
    ensures Load(content, t) != Ok(if sign.Minus? then 0 - n else n as int) ==>
      if TakesComplement(content, ws, sign, n, t) then Load(content, t) == Ok(TWO64 - n)
      else Load(content, t) == Err(if Fits(content, t) then ERANGE else EMSGSIZE)
  {
    if Outcome(n, sign.Minus?, ws != [], t) != Ok(if sign.Minus? then 0 - n else n as int) {
      OutcomeOtherwise(n, sign.Minus?, ws != [], t);
    }
  }

  /** What the text loads as otherwise: nothing, or - after blanks that hide the minus
      sign - the difference to 2^64, if the type can hold it. */
  lemma LoadsOtherwise(ws: string, sign: Sign, ds: string, newline: bool, t: IntType)
    requires Blanks(ws) && IsNumeral(ds)
    ensures var content := NumberText(ws, sign, ds) + if newline then "\n" else "";
      content != [] && (Load(content, t) != Ok(SignedValue(sign, ds)) ==>
        if TakesComplement(content, ws, sign, Value(ds), t)
        then Load(content, t) == Ok(TWO64 - Value(ds)) else Load(content, t) == Err(if Fits(content, t) then ERANGE else EMSGSIZE))
  {
    LoadText(ws, sign, ds, newline, t);
    LoadOtherwise(NumberText(ws, sign, ds) + if newline then "\n" else "", ws, sign, Value(ds), t);
  }

  function BlankRun(s: string): (ws: string)
    ensures Blanks(ws)
  {
    if s != [] && IsSpace(s[0]) then [s[0]] + BlankRun(s[1..]) else []
  }

  lemma {:induction false} BlanksSkipped(s: string)
    ensures s == BlankRun(s) + SkipSpace(s)
  {
    if s != [] && IsSpace(s[0]) {
      BlanksSkipped(s[1..]);
      Cons(s[0], BlankRun(s[1..]), SkipSpace(s[1..]));
      assert s == [s[0]] + s[1..];
    } else {
      assert [] + s == s;
    }
  }

  lemma Cons(c: char, a: string, b: string)
    ensures [c] + (a + b) == [c] + a + b
  {
  }

  lemma WholeIsNumber(s: string) returns (sign: Sign, ds: string)
    requires SignedNumber(s).whole
    ensures IsNumeral(ds) && s == SignText(sign) + ds
  {
    sign := if s != [] && s[0] == '-' then Minus else if s != [] && s[0] == '+' then Plus else NoSign;
    ds := DigitRun(if sign.NoSign? then s else s[1..]).0;
    assert DigitRun(if sign.NoSign? then s else s[1..]).1 == [];
  }

  /** Nothing else loads: the text of a file that does is blanks, a sign and digits. */
  lemma LoadedIsNumber(content: string, t: IntType) returns (ws: string, sign: Sign, ds: string)
    requires content != [] && Load(content, t).Ok?
    ensures Blanks(ws) && IsNumeral(ds) && TextOf(content) == NumberText(ws, sign, ds)
  {
    ws := BlankRun(TextOf(content));
    BlanksSkipped(TextOf(content));
    sign, ds := WholeIsNumber(SkipSpace(TextOf(content)));
  }

  // ----- canonical texts -----

  function SignOf(v: int): Sign { if v < 0 then Minus else NoSign }

  lemma PrintIsText(v: int)
    ensures var ds := Digits(if v < 0 then -v else v);
      IsNumeral(ds) && Print(v) == NumberText("", SignOf(v), ds) && SignedValue(SignOf(v), ds) == v
  {
    var n := if v < 0 then -v else v;
    ValueOfDigits(n);
    assert "" + (SignText(SignOf(v)) + Digits(n)) == Print(v);
  }

  /** A canonical decimal text, with or without a final newline, loads if and only if
      its value is in the range of the type, and then as that value, although the range
      tests compare images modulo 2^64. */
  lemma LoadsIffInRange(v: int, newline: bool, t: IntType)
    ensures var content := Print(v) + if newline then "\n" else "";
      content != [] && if t.Min() <= v <= t.Max() then Load(content, t) == Ok(v)
      else Load(content, t) == Err(if Fits(content, t) then ERANGE else EMSGSIZE)
  {
    var ds := Digits(if v < 0 then -v else v);
    PrintIsText(v);
    LoadsTextIff("", SignOf(v), ds, newline, t);
    LoadsOtherwise("", SignOf(v), ds, newline, t);
    if t.Min() <= v <= t.Max() {
      LengthInRange(v, t);
    }
  }

  lemma PowersOfTen()
    ensures Pow10(10) == 10_000_000_000
    ensures Pow10(20) == 100_000_000_000_000_000_000
  {
    assert Pow10(4) == 10_000;
    assert Pow10(8) == 100_000_000;
    assert Pow10(12) == 1_000_000_000_000;
    assert Pow10(16) == 10_000_000_000_000_000;
  }

  lemma LengthInRange(v: int, t: IntType)
    requires t.Min() <= v <= t.Max()
    ensures |Print(v)| + 2 < t.Size() * 3 + 2
  {
    PowersOfTen();
    DigitsFit(if v < 0 then -v else v, if t.Size() == 4 then 10 else 20);
  }

  /** "-0" is the text of a value in range that every type rejects. */
  lemma MinusZeroRejected(t: IntType)
    ensures Load("-0", t).Err?
  {
    assert NumberText("", Minus, "0") + "" == "-0";
    assert Value("0") == 0 by { assert "0"[..0] == []; }
    LoadsTextIff("", Minus, "0", false, t);
    LoadsOtherwise("", Minus, "0", false, t);
  }

  /** A blank before the minus sign hides it: the 64-bit unsigned type then takes a
      negative number, as its image modulo 2^64. */
  lemma BlankHidesMinus(n: nat)
    requires 0 < n < TWO64
    ensures Load(" " + Print(0 - n), UInt64) == Ok(TWO64 - n)
  {
    var s := " " + Print(0 - n);
    PrintIsText(0 - n);
    assert NumberText(" ", Minus, Digits(n)) + "" == s;
    LengthInRange(n, UInt64);
    LoadsTextIff(" ", Minus, Digits(n), false, UInt64);
    LoadsOtherwise(" ", Minus, Digits(n), false, UInt64);
  }

  /** The same blank makes the signed types reject a negative number in their range. */
  lemma BlankRejectsNegative(n: nat, t: IntType)
    requires 0 < n < 0x8000_0000
    ensures Load(" " + Print(0 - n), t) != Ok(0 - n)
  {
    PrintIsText(0 - n);
    assert NumberText(" ", Minus, Digits(n)) + "" == " " + Print(0 - n);
    LoadsTextIff(" ", Minus, Digits(n), false, t);
  }

  // ----- the owner element -----

  const ERANGE_CODE: nat := 34

  /** The uid dd_set_owner stores: (uid_t)-1 stands for the owner in the file system. */
  function OwnerToStore(owner: nat, fsOwner: nat): nat {
    if owner == TWO32 - 1 then fsOwner else owner
  }

  /** dd_get_owner when the element exists; its errors come back cast to uid_t. */
  function GetOwner(content: string): nat
    requires content != []
  {
    match ReadNumber(content, 4, 0, 0x7fff_ffff)
    case Ok(x) => x % TWO32
    case Err(ERANGE) => TWO32 - ERANGE_CODE
    case Err(EINVAL) => TWO32 - 22
    case Err(EMSGSIZE) => TWO32 - 90
  }

  lemma ReadPrinted(o: nat)
    requires o < TWO32
    ensures ReadNumber(Print(o), 4, 0, 0x7fff_ffff) == if o <= 0x7fff_ffff then Ok(o) else Err(ERANGE)
  {
    PrintIsText(o);
    TextOfNumber("", NoSign, Digits(o), false);
    assert Print(o) + "" == Print(o);
    ConvertText("", NoSign, Digits(o));
    LengthInRange(o, UInt32);
    assert Converted(false, o, true) == Conversion(o, false, true);
  }

  lemma OwnerOfPrinted(o: nat)
    requires o < TWO32
    ensures GetOwner(Print(o)) == if o <= 0x7fff_ffff then o else TWO32 - ERANGE_CODE
  {
    ReadPrinted(o);
  }

  /** dd_get_owner after dd_set_owner(owner) returns owner if and only if it is at most
      2^31 - 1, or is the one uid that equals the error code -ERANGE. */
  lemma OwnerRoundTrip(owner: nat, fsOwner: nat)
    requires owner < TWO32 - 1 && fsOwner < TWO32
    ensures GetOwner(Print(OwnerToStore(owner, fsOwner))) == owner <==> owner <= 0x7fff_ffff || owner == TWO32 - 34
  {
    OwnerOfPrinted(owner);
  }

  /** After dd_set_owner(-1) it returns the owner in the file system, under the same condition. */
  lemma DefaultOwnerRoundTrip(fsOwner: nat)
    requires fsOwner < TWO32
    ensures GetOwner(Print(OwnerToStore(TWO32 - 1, fsOwner))) == fsOwner <==> fsOwner <= 0x7fff_ffff || fsOwner == TWO32 - 34
  {
    OwnerOfPrinted(fsOwner);
  }
}
