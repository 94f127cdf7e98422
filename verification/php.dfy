/** The PHP language primitives the IERS engine leans on, given an exact
    meaning: integer and float truncation, `fmod`, `round`, `trim`, `substr`,
    string truthiness, and the three shapes a query can end in. */
module Php {

  /** What a PHP query method hands back: a float, the literal `false`, or an
      exception escaping the call. */
  datatype Outcome = Value(v: real) | False | Throws

  /** A value, or PHP's `null` (a variable never assigned). */
  datatype Option<T> = None | Some(value: T)

  /** The values of a sequence of options, when none is missing. */
  function AllPresent<T>(xs: seq<Option<T>>): (r: Option<seq<T>>)
    ensures r.None? <==> exists k :: 0 <= k < |xs| && xs[k].None?
    ensures r.Some? ==> |r.value| == |xs| && forall k :: 0 <= k < |xs| ==> xs[k] == Some(r.value[k])
  {
    if exists k :: 0 <= k < |xs| && xs[k].None? then None
    else Some(seq(|xs|, k requires 0 <= k < |xs| => xs[k].value))
  }

  /** `intval(a / b)` for a positive divisor: PHP divides exactly and then
      truncates toward zero, which differs from Dafny's Euclidean `/` when
      `a` is negative. */
  function Div(a: int, b: int): (q: int)
    requires b > 0
    ensures a >= 0 ==> 0 <= a - q * b < b
    ensures a < 0 ==> -b < a - q * b <= 0
  {
    if a >= 0 then a / b else -((-a) / b)
  }

  /** `intval(x)` / `(int)x` for a float: truncation toward zero. */
  function TruncReal(x: real): (r: int)
    ensures x >= 0.0 ==> r as real <= x < r as real + 1.0
    ensures x < 0.0 ==> r as real - 1.0 < x <= r as real
  {
    if x >= 0.0 then x.Floor else -((-x).Floor)
  }

  lemma PositiveFactor(u: real, d: real)
    requires d > 0.0 && u * d > 0.0
    ensures u > 0.0
  {
  }

  /** Bounds on a real quotient by a positive divisor. */
  lemma QuotientBounds(n: real, d: real)
    requires d > 0.0
    ensures n >= 0.0 ==> n / d >= 0.0
    ensures n <= 0.0 ==> n / d <= 0.0
    ensures n < d ==> n / d < 1.0
    ensures n > -d ==> n / d > -1.0
  {
    var x := n / d;
    assert x * d == n;
    if n < d {
      assert (1.0 - x) * d == d - n;
      PositiveFactor(1.0 - x, d);
    }
    if n > -d {
      assert (1.0 + x) * d == d + n;
      PositiveFactor(1.0 + x, d);
    }
  }

  /** Dividing a sum splits it. */
  lemma QuotientSplit(n: real, r: real, q: real, d: real)
    requires d > 0.0 && n == q * d + r
    ensures n / d == q + r / d
  {
  }

  /** The cast to real carries an integer product over. */
  lemma CastProduct(q: int, b: int)
    ensures (q * b) as real == q as real * b as real
  {
  }

  /** Truncating the exact quotient of two integers is PHP's `intval(a / b)`
      either way it is written. */
  lemma TruncOfQuotient(a: int, b: int)
    requires b > 0
    ensures TruncReal(a as real / b as real) == Div(a, b)
  {
    var q := Div(a, b);
    var rem := a - q * b;
    QuotientBounds(rem as real, b as real);
    CastProduct(q, b);
    QuotientSplit(a as real, rem as real, q as real, b as real);
  }

  /** Truncation leaves a float unchanged exactly when it is a whole
      number. */
  lemma TruncIsWhole(x: real)
    ensures TruncReal(x) as real == x <==> x.Floor as real == x
  {
    if x < 0.0 && x.Floor as real == x {
      assert -x == (-(x.Floor)) as real;
      assert (-x).Floor == -(x.Floor);
    }
  }

  /** `fmod(x, 1.0)`: the remainder keeps the sign of the dividend. */
  function FMod1(x: real): (r: real)
    ensures -1.0 < r < 1.0
    ensures x >= 0.0 ==> r >= 0.0
    ensures x < 0.0 ==> r <= 0.0
    ensures (x - r).Floor as real == x - r
  {
    x - TruncReal(x) as real
  }

  /** PHP `round(x)`: nearest integer, halves rounded away from zero. */
  function Round(x: real): (r: int)
    ensures -0.5 <= x - r as real <= 0.5
    ensures x - r as real == 0.5 ==> x < 0.0
    ensures x - r as real == -0.5 ==> x > 0.0
  {
    if x >= 0.0 then (x + 0.5).Floor else -((-x + 0.5).Floor)
  }

  /** The characters PHP's `trim` strips by default: space, tab, line feed,
      carriage return, NUL and vertical tab. */
  predicate IsBlank(c: char) {
    c == ' ' || c == '\t' || c == '\n' || c == '\r' || c == '\0' || c == '\U{0B}'
  }

  predicate AllBlank(s: string) {
    forall k :: 0 <= k < |s| ==> IsBlank(s[k])
  }

  /** The number of blanks `s` starts with. */
  function LeadingBlanks(s: string): (i: nat)
    ensures i <= |s| && AllBlank(s[..i])
    ensures i < |s| ==> !IsBlank(s[i])
  {
    if |s| > 0 && IsBlank(s[0]) then
      var i := LeadingBlanks(s[1..]);
      assert s[..i + 1] == [s[0]] + s[1..][..i];
      i + 1
    else 0
  }

  /** Where the blanks `s` ends with begin, looking no further left than
      `i`. */
  function TrailingStart(s: string, i: nat): (j: nat)
    requires i <= |s|
    ensures i <= j <= |s| && AllBlank(s[j..])
    ensures j > i ==> !IsBlank(s[j - 1])
  {
    if |s| > i && IsBlank(s[|s| - 1]) then
      var j := TrailingStart(s[..|s| - 1], i);
      assert s[j..] == s[..|s| - 1][j..] + [s[|s| - 1]];
      j
    else |s|
  }

  /** PHP `trim(s)`: the piece of `s` left once blanks are cut from both
      ends. It is a slice of `s` with only blanks on either side of it, it
      neither starts nor ends with a blank, and it is empty exactly when `s`
      holds nothing but blanks. */
  function Trim(s: string): (r: string)
    ensures exists i, j :: 0 <= i <= j <= |s| && r == s[i..j] && AllBlank(s[..i]) && AllBlank(s[j..])
    ensures r == [] || (!IsBlank(r[0]) && !IsBlank(r[|r| - 1]))
    ensures r == [] <==> AllBlank(s)
    ensures |r| <= |s|
  {
    var i := LeadingBlanks(s);
    var j := TrailingStart(s, i);
    assert i == j ==> AllBlank(s) by {
      if i == j {
        assert s == s[..i] + s[j..];
      }
    }
    s[i..j]
  }

  /** PHP truthiness of a string in a conditional: only "" and "0" are falsy. */
  predicate Truthy(s: string) {
    s != "" && s != "0"
  }

  /** `substr(s, start, len)` for non-negative arguments; a start past the
      end yields the empty string. */
  function Substr(s: string, start: nat, len: nat): (r: string)
    ensures |r| <= len
    ensures start <= |s| ==> |r| == if start + len <= |s| then len else |s| - start
    ensures start >= |s| ==> r == []
    ensures start < |s| ==> r == s[start..start + |r|]
  {
    if start >= |s| then ""
    else if start + len <= |s| then s[start..start + len]
    else s[start..]
  }
}
