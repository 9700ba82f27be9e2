/** Small notions that several modules share. */
module Basics {

  datatype Option<T> = None | Some(value: T)

  /** A byte as a number. */
  type Byte = x: int | 0 <= x < 256

  const TWO64: int := 0x1_0000_0000_0000_0000

  predicate Distinct<T(==)>(s: seq<T>) {
    forall i, j | 0 <= i < j < |s| :: s[i] != s[j]
  }

  function RemoveAt<T>(s: seq<T>, i: nat): seq<T>
    requires i < |s|
  {
    s[..i] + s[i + 1..]
  }

  function Repeat<T>(x: T, n: nat): (s: seq<T>)
    ensures |s| == n && forall i | 0 <= i < n :: s[i] == x
  {
    seq(n, _ => x)
  }

  /** isspace in the C locale. */
  predicate IsSpace(c: char) { c in " \t\n\U{0b}\U{0c}\r" }

  lemma SpacesAre(c: char)
    ensures IsSpace(c) <==> c == ' ' || 9 <= c as int <= 13
  {
  }

  /** strchrnul(s + from, c): the first place of c, or the length of s. */
  function IndexOf<T(==)>(s: seq<T>, c: T, from: nat := 0): (k: nat)
    requires from <= |s|
    ensures from <= k <= |s|
    ensures k < |s| ==> s[k] == c
    ensures forall i | from <= i < k :: s[i] != c
    decreases |s| - from
  {
    if from == |s| || s[from] == c then from else IndexOf(s, c, from + 1)
  }

  // ----- filling a buffer -----

  /** a begins with x, and n points behind it. */
  ghost predicate Holds<T>(a: array<T>, n: nat, x: seq<T>)
    reads a
  {
    n == |x| <= a.Length && a[..n] == x
  }

  method Put<T>(a: array<T>, n: nat, x: seq<T>, ghost have: seq<T>) returns (n': nat)
    requires Holds(a, n, have) && n + |x| <= a.Length
    modifies a
    ensures n' == n + |x| && Holds(a, n', have + x)
    ensures forall k | n' <= k < a.Length :: a[k] == old(a[k])
  {
    forall i | 0 <= i < |x| {
      a[n + i] := x[i];
    }
    n' := n + |x|;
  }

  // ----- concatenation is associative -----

  lemma Regroup<T>(a: seq<T>, b: seq<T>, c: seq<T>)
    ensures a + b + c == a + (b + c)
  {
  }

  lemma Regroup4<T>(a: seq<T>, b: seq<T>, c: seq<T>, d: seq<T>)
    ensures a + b + c + d == a + (b + c + d)
  {
  }

  lemma Regroup5<T>(a: seq<T>, b: seq<T>, c: seq<T>, d: seq<T>, e: seq<T>)
    ensures a + b + c + d + e == a + (b + c + d + e)
  {
  }
}
