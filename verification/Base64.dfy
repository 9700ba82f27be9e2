/**
 Base 64 (src/lib/encbase64.c:23-93) against section 4 of RFC 4648: every three bytes
 make a number of 24 bits that is written as four digits of 6 bits, and the last group
 is filled with equals signs.
 */
module Base64 {
  import opened Basics

  // ----- RFC 4648 -----

  /** Table 1 of RFC 4648, which tbl_base64 spells out; PAD is its entry 64. */
  function Symbol(v: nat): char
    requires v < 64
  {
    if v < 26 then 'A' + v as char
    else if v < 52 then 'a' + (v - 26) as char
    else if v < 62 then '0' + (v - 52) as char
    else if v == 62 then '+'
    else '/'
  }

  const PAD := '='

  function SymbolValue(c: char): nat {
    if 'A' <= c <= 'Z' then c as nat - 'A' as nat
    else if 'a' <= c <= 'z' then c as nat - 'a' as nat + 26
    else if '0' <= c <= '9' then c as nat - '0' as nat + 52
    else if c == '+' then 62
    else 63
  }

  /** Digit k of the 24 bits. */
  function Digit(group: nat, k: nat): (d: nat)
    requires k < 4
    ensures d < 64
  {
    (match k case 0 => group / 0x40000 case 1 => group / 0x1000 case 2 => group / 0x40 case _ => group) % 64
  }

  function Group(a: Byte, b: Byte, c: Byte): nat { a * 0x10000 + b * 0x100 + c }

  function Quad(a: Byte, b: Byte, c: Byte): (q: string)
    ensures |q| == 4
  {
    var g := Group(a, b, c);
    [Symbol(Digit(g, 0)), Symbol(Digit(g, 1)), Symbol(Digit(g, 2)), Symbol(Digit(g, 3))]
  }

  /** The encoding of the bytes from number s on. */
  function Encoded(src: seq<Byte>, s: nat := 0): string
    requires s <= |src|
    decreases |src| - s
  {
    if |src| == s then ""
    else if |src| == s + 1 then Quad(src[s], 0, 0)[..2] + [PAD, PAD]
    else if |src| == s + 2 then Quad(src[s], src[s + 1], 0)[..3] + [PAD]
    else Quad(src[s], src[s + 1], src[s + 2]) + Encoded(src, s + 3)
  }

  // ----- the encoder -----

  lemma {:induction false} AtLeast(d: nat, m: nat)
    requires d >= 1
    ensures d * m >= m
  {
    if d > 1 {
      AtLeast(d - 1, m);
      assert d * m == (d - 1) * m + m;
    }
  }

  lemma Multiple(d: int, m: nat)
    ensures d >= 1 ==> d * m >= m
    ensures d <= -1 ==> -d * m >= m && d * m == -(-d * m)
  {
    if d >= 1 {
      AtLeast(d, m);
    } else if d <= -1 {
      AtLeast(-d, m);
    }
  }

  lemma Quotient(x: nat, m: nat, q: nat, r: nat)
    requires 0 < m && x == q * m + r && r < m
    ensures x / m == q && x % m == r
  {
    assert x == x / m * m + x % m;
    assert (x / m - q) * m == r - x % m;
    Multiple(x / m - q, m);
  }

  /** The four 6-bit numbers the encoder shifts together are the digits of the group. */
  lemma ShiftsAreDigits(a: Byte, b: Byte, c: Byte)
    ensures a / 4 == Digit(Group(a, b, c), 0)
    ensures a % 4 * 16 + b / 16 == Digit(Group(a, b, c), 1)
    ensures b % 16 * 4 + c / 64 == Digit(Group(a, b, c), 2)
    ensures c % 64 == Digit(Group(a, b, c), 3)
  {
    var g := Group(a, b, c);
    Quotient(g, 0x40000, a / 4, a % 4 * 0x10000 + b * 0x100 + c);
    Quotient(a / 4, 64, 0, a / 4);
    Quotient(g, 0x1000, a * 16 + b / 16, b % 16 * 0x100 + c);
    Quotient(a * 16 + b / 16, 64, a / 4, a % 4 * 16 + b / 16);
    Quotient(g, 0x40, a * 0x400 + b * 4 + c / 64, c % 64);
    Quotient(a * 0x400 + b * 4 + c / 64, 64, a * 16 + b / 16, b % 16 * 4 + c / 64);
  }

  /** One turn of the loop: four characters for the next three bytes, missing ones being 0. */
  method PutQuad(dst: array<char>, p: nat, s0: Byte, s1: Byte, s2: Byte)
    requires p + 4 <= dst.Length
    modifies dst
    ensures dst[..] == old(dst[..p]) + Quad(s0, s1, s2) + old(dst[p + 4..])
  {
    ShiftsAreDigits(s0, s1, s2);
    dst[p] := Symbol(s0 / 4);
    dst[p + 1] := Symbol(s0 % 4 * 16 + s1 / 16);
    dst[p + 2] := Symbol(s1 % 16 * 4 + s2 / 64);
    dst[p + 3] := Symbol(s2 % 64);
  }

  lemma FullGroup(whole: string, out: string, src: seq<Byte>, s: nat)
    requires s + 3 <= |src| && whole == out + Encoded(src, s)
    ensures whole == out + Quad(src[s], src[s + 1], src[s + 2]) + Encoded(src, s + 3)
  {
    assert Encoded(src, s) == Quad(src[s], src[s + 1], src[s + 2]) + Encoded(src, s + 3);
  }

  /** The zero bytes that fill the last group do not show in the digits that are kept. */
  lemma LastGroup(whole: string, out: string, src: seq<Byte>, s: nat)
    requires s < |src| < s + 3 && whole == out + Encoded(src, s)
    ensures var missing := s + 3 - |src|;
      var q := Quad(src[s], if s + 1 < |src| then src[s + 1] else 0, 0);
      whole == (out + q)[..|out| + 4 - missing] + Repeat(PAD, missing)
  {
    var missing := s + 3 - |src|;
    var q := Quad(src[s], if s + 1 < |src| then src[s + 1] else 0, 0);
    assert (out + q)[..|out| + 4 - missing] == out + q[..4 - missing];
    assert Repeat(PAD, missing) == if missing == 1 then "=" else "==";
    assert Encoded(src, s) == q[..4 - missing] + Repeat(PAD, missing);
  }

  /** The padding loop: overwrites the last missing characters, walking back from p. */
  method Pad(dst: array<char>, end: nat, missing: nat)
    requires missing <= end <= dst.Length
    modifies dst
    ensures dst[..] == old(dst[..end - missing]) + Repeat(PAD, missing) + old(dst[end..])
  {
    var p, length := end, -(missing as int);
    while length != 0
      invariant length <= 0 && length >= -(missing as int) && p == end - missing - length
      invariant forall i | 0 <= i < dst.Length ::
        dst[i] == if p <= i < end then PAD else old(dst[i])
      decreases -length
    {
      p := p - 1;
      dst[p] := PAD;
      length := length + 1;
    }
  }

  /** The text whole as far as it is known when p characters have been written and
      length bytes are left, some of the last group missing if that is negative. */
  ghost predicate SoFar(whole: string, out: string, src: seq<Byte>, length: int) {
    if 0 <= length <= |src| then whole == out + Encoded(src, |src| - length)
    else 0 <= |out| + length <= |out| && whole == out[..|out| + length] + Repeat(PAD, -length)
  }

  lemma SoFarEnds(whole: string, out: string, src: seq<Byte>, length: int)
    requires length <= 0 && SoFar(whole, out, src, length)
    ensures 0 <= |out| + length && whole == out[..|out| + length] + Repeat(PAD, -length)
  {
    assert Repeat(PAD, 0) == [];
  }

  /** One turn of the encoding loop. */
  method EncodeGroup(dst: array<char>, p: nat, src: seq<Byte>, s: nat, ghost whole: string) returns (length: int)
    requires s < |src| && p + 4 <= dst.Length && SoFar(whole, dst[..p], src, |src| - s)
    modifies dst
    ensures length == |src| - s - 3 && SoFar(whole, dst[..p + 4], src, length)
  {
    var s1, s2: Byte := 0, 0;
    ghost var out := dst[..p];
    length := |src| - s - 3;
    if length >= -1 {
      s1 := src[s + 1];
      if length >= 0 {
        s2 := src[s + 2];
      }
    }
    PutQuad(dst, p, src[s], s1, s2);
    assert dst[..p + 4] == out + Quad(src[s], s1, s2);
    if length >= 0 {
      FullGroup(whole, out, src, s);
    } else {
      LastGroup(whole, out, src, s);
    }
  }

  lemma GroupsLeft(n: nat, k: nat, groups: nat)
    requires n <= 3 * groups < n + 3
    ensures n - 3 * k > 0 ==> k < groups
    ensures -3 < n - 3 * k <= 0 ==> k == groups
  {}

  /** The encoding loop; length is what is left in the end, not positive. */
  method EncodeGroups(dst: array<char>, src: seq<Byte>, ghost groups: nat, ghost whole: string)
    returns (p: nat, length: int)
    requires dst.Length == 4 * groups + 1 && |src| <= 3 * groups < |src| + 3
    requires SoFar(whole, [], src, |src|)
    modifies dst
    ensures p == dst.Length - 1 && -3 < length <= 0 && p + length >= 0
    ensures whole == dst[..p + length] + Repeat(PAD, -length)
  {
    var s := 0;
    p, length := 0, |src|;
    ghost var k := 0;
    assert dst[..0] == [];
    while length > 0
      invariant s == 3 * k && p == 4 * k && length == |src| - s && -3 < length && k <= groups
      invariant SoFar(whole, dst[..p], src, length)
    {
      GroupsLeft(|src|, k, groups);
      length := EncodeGroup(dst, p, src, s, whole);
      p, s, k := p + 4, s + 3, k + 1;
    }
    GroupsLeft(|src|, k, groups);
    SoFarEnds(whole, dst[..p], src, length);
    assert dst[..p][..p + length] == dst[..p + length];
  }

  /** encode_64bit. */
  method Encode64Bit(dst: array<char>, src: seq<Byte>)
    requires dst.Length == 4 * ((|src| + 2) / 3) + 1
    modifies dst
    ensures dst[..dst.Length - 1] == Encoded(src) && dst[dst.Length - 1] == '\0'
  {
    var p, length := EncodeGroups(dst, src, (|src| + 2) / 3, Encoded(src));
    dst[p] := '\0';
    ghost var kept := dst[..p + length];
    Pad(dst, p, -length);
    assert dst[..p] == kept + Repeat(PAD, -length);
  }

  /** encode_base64. */
  method EncodeBase64(src: seq<Byte>) returns (text: string)
    ensures text == Encoded(src)
  {
    var dst := new char[4 * ((|src| + 2) / 3) + 1];
    Encode64Bit(dst, src);
    text := dst[..dst.Length - 1];
  }

  // ----- what the text means -----

  function Joined(w: nat, x: nat, y: nat, z: nat): nat { w * 0x40000 + x * 0x1000 + y * 0x40 + z }

  function Bytes(group: nat): seq<int> { [group / 0x10000, group / 0x100 % 0x100, group % 0x100] }

  /** Four characters as the bytes they stand for. */
  function DecodedQuad(q: string): seq<int>
    requires |q| == 4
  {
    var w, x := SymbolValue(q[0]), SymbolValue(q[1]);
    if q[2] == PAD then Bytes(Joined(w, x, 0, 0))[..1]
    else if q[3] == PAD then Bytes(Joined(w, x, SymbolValue(q[2]), 0))[..2]
    else Bytes(Joined(w, x, SymbolValue(q[2]), SymbolValue(q[3])))
  }

  /** Section 4 of RFC 4648 read backwards, four characters at a time. */
  function Decoded(text: string): seq<int> {
    if |text| < 4 then [] else DecodedQuad(text[..4]) + Decoded(text[4..])
  }

  lemma SymbolsDiffer(v: nat)
    requires v < 64
    ensures SymbolValue(Symbol(v)) == v && Symbol(v) != PAD
  {}

  lemma DigitsJoin(a: Byte, b: Byte, c: Byte)
    ensures var g := Group(a, b, c); Joined(Digit(g, 0), Digit(g, 1), Digit(g, 2), Digit(g, 3)) == g
    ensures c == 0 ==> Digit(Group(a, b, c), 3) == 0
    ensures b == 0 && c == 0 ==> Digit(Group(a, b, c), 2) == 0
  {
    ShiftsAreDigits(a, b, c);
  }

  lemma BytesOfGroup(a: Byte, b: Byte, c: Byte)
    ensures Bytes(Group(a, b, c)) == [a, b, c]
  {
    Quotient(Group(a, b, c), 0x10000, a, b * 0x100 + c);
    Quotient(Group(a, b, c), 0x100, a * 0x100 + b, c);
    Quotient(a * 0x100 + b, 0x100, a, b);
  }

  lemma QuadDecodes(a: Byte, b: Byte, c: Byte)
    ensures DecodedQuad(Quad(a, b, c)) == [a, b, c]
    ensures c == 0 ==> DecodedQuad(Quad(a, b, c)[..3] + [PAD]) == [a, b]
    ensures b == 0 && c == 0 ==> DecodedQuad(Quad(a, b, c)[..2] + [PAD, PAD]) == [a]
  {
    var g := Group(a, b, c);
    SymbolsDiffer(Digit(g, 0));
    SymbolsDiffer(Digit(g, 1));
    SymbolsDiffer(Digit(g, 2));
    SymbolsDiffer(Digit(g, 3));
    DigitsJoin(a, b, c);
    BytesOfGroup(a, b, c);
  }

  lemma DecodeFirst(q: string, rest: string)
    requires |q| == 4
    ensures Decoded(q + rest) == DecodedQuad(q) + Decoded(rest)
  {
    assert (q + rest)[..4] == q && (q + rest)[4..] == rest;
  }

  lemma {:induction false} EncodedDecodes(src: seq<Byte>, s: nat)
    requires s <= |src|
    ensures Decoded(Encoded(src, s)) == src[s..]
    decreases |src| - s
  {
    if s < |src| < s + 3 {
      QuadDecodes(src[s], if s + 1 < |src| then src[s + 1] else 0, 0);
      DecodeFirst(Encoded(src, s), "");
      assert Encoded(src, s) + "" == Encoded(src, s);
    } else if s + 3 <= |src| {
      EncodedDecodes(src, s + 3);
      QuadDecodes(src[s], src[s + 1], src[s + 2]);
      DecodeFirst(Quad(src[s], src[s + 1], src[s + 2]), Encoded(src, s + 3));
      assert src[s..] == [src[s], src[s + 1], src[s + 2]] + src[s + 3..];
    }
  }

  /** Decoding an encoded byte string gives it back. */
  lemma Base64RoundTrip(src: seq<Byte>)
    ensures Decoded(Encoded(src)) == src
  {
    EncodedDecodes(src, 0);
    assert src[0..] == src;
  }

  // ----- the published examples -----

  lemma QuadIs(a: Byte, b: Byte, c: Byte, d: seq<nat>)
    requires d == [a / 4, a % 4 * 16 + b / 16, b % 16 * 4 + c / 64, c % 64]
    ensures Quad(a, b, c) == [Symbol(d[0]), Symbol(d[1]), Symbol(d[2]), Symbol(d[3])]
  {
    ShiftsAreDigits(a, b, c);
  }

  lemma F()
    ensures Quad(0x66, 0, 0) == "ZgAA"
  {
    QuadIs(0x66, 0, 0, [25, 32, 0, 0]);
  }

  lemma Fo()
    ensures Quad(0x66, 0x6f, 0) == "Zm8A"
  {
    QuadIs(0x66, 0x6f, 0, [25, 38, 60, 0]);
  }

  lemma Foo()
    ensures Quad(0x66, 0x6f, 0x6f) == "Zm9v"
  {
    QuadIs(0x66, 0x6f, 0x6f, [25, 38, 61, 47]);
  }

  lemma B()
    ensures Quad(0x62, 0, 0) == "YgAA"
  {
    QuadIs(0x62, 0, 0, [24, 32, 0, 0]);
  }

  lemma Ba()
    ensures Quad(0x62, 0x61, 0) == "YmEA"
  {
    QuadIs(0x62, 0x61, 0, [24, 38, 4, 0]);
  }

  lemma Bar()
    ensures Quad(0x62, 0x61, 0x72) == "YmFy"
  {
    QuadIs(0x62, 0x61, 0x72, [24, 38, 5, 50]);
  }

  /** The test vectors of section 10 of RFC 4648: the beginnings of "foobar". */
  lemma TestVectors()
    ensures Encoded([]) == "" && Encoded([0x66]) == "Zg==" && Encoded([0x66, 0x6f]) == "Zm8="
    ensures Encoded([0x66, 0x6f, 0x6f]) == "Zm9v"
  {
    F();
    Fo();
    Foo();
  }

  lemma LongerTestVectors()
    ensures Encoded([0x66, 0x6f, 0x6f, 0x62]) == "Zm9v" + "Yg=="
    ensures Encoded([0x66, 0x6f, 0x6f, 0x62, 0x61]) == "Zm9v" + "YmE="
    ensures Encoded([0x66, 0x6f, 0x6f, 0x62, 0x61, 0x72]) == "Zm9v" + "YmFy"
  {
    Foo();
    B();
    Ba();
    Bar();
  }

  /** The alphabet of section 4: 64 digits in order, sixteen groups of four. */
  lemma Alphabet(g: nat)
    requires g < 16
    ensures [Symbol(4 * g), Symbol(4 * g + 1), Symbol(4 * g + 2), Symbol(4 * g + 3)] ==
      match g
      case 0 => "ABCD" case 1 => "EFGH" case 2 => "IJKL" case 3 => "MNOP" case 4 => "QRST" case 5 => "UVWX"
      case 6 => "YZab" case 7 => "cdef" case 8 => "ghij" case 9 => "klmn" case 10 => "opqr" case 11 => "stuv"
      case 12 => "wxyz" case 13 => "0123" case 14 => "4567" case _ => "89+/"
  {
  }
}
