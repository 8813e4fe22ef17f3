/**
 * String primitives the gallery script relies on: decimal digits, the
 * integer-to-string conversion of a template literal, `parseInt` on a run
 * of digits, and `String.prototype.includes`.
 */
module Strings {

  predicate IsDigit(c: char) {
    '0' <= c <= '9'
  }

  predicate AllDigits(s: string) {
    forall k :: 0 <= k < |s| ==> IsDigit(s[k])
  }

  function DigitChar(d: nat): (c: char)
    requires d < 10
    ensures IsDigit(c) && c as int - '0' as int == d
  {
    ('0' as int + d) as char
  }

  function DigitValue(c: char): (d: nat)
    requires IsDigit(c)
    ensures d < 10 && DigitChar(d) == c
  {
    c as int - '0' as int
  }

  /**
   * `parseInt` applied to a run of decimal digits. Every caller passes a
   * non-empty capture of `\d+`; the empty run, which `parseInt` reads as
   * `NaN`, is given the value 0 here and is never reached.
   */
  function ParseDecimal(s: string): nat
    requires AllDigits(s)
    decreases |s|
  {
    if s == [] then 0 else 10 * ParseDecimal(s[..|s| - 1]) + DigitValue(s[|s| - 1])
  }

  /** The text of a non-negative integer in a template literal: decimal, no leading zero. */
  function Decimal(n: nat): (s: string)
    ensures s != [] && AllDigits(s)
    ensures s[0] == '0' ==> s == "0"
    decreases n
  {
    if n < 10 then [DigitChar(n)] else Decimal(n / 10) + [DigitChar(n % 10)]
  }

  /** Reading back the text of a number gives the number. */
  lemma {:induction false} ParseDecimalOfDecimal(n: nat)
    ensures ParseDecimal(Decimal(n)) == n
  {
    var s := Decimal(n);
    if n >= 10 {
      assert s[..|s| - 1] == Decimal(n / 10);
      ParseDecimalOfDecimal(n / 10);
    }
  }

  /** `sub` occurs in `s` starting at position `i`. */
  predicate OccursAt(s: string, sub: string, i: nat) {
    i + |sub| <= |s| && s[i..i + |sub|] == sub
  }

  /** The search of `includes` from position `i` on. */
  function ContainsFrom(s: string, sub: string, i: nat): bool
    requires i <= |s|
    decreases |s| - i
  {
    if OccursAt(s, sub, i) then true
    else if i == |s| then false
    else ContainsFrom(s, sub, i + 1)
  }

  /** The search from `i` succeeds exactly when `sub` occurs at `i` or later. */
  lemma {:induction false} ContainsFromSpec(s: string, sub: string, i: nat)
    requires i <= |s|
    ensures ContainsFrom(s, sub, i) <==> exists j: nat :: i <= j && OccursAt(s, sub, j)
    decreases |s| - i
  {
    if !OccursAt(s, sub, i) && i < |s| {
      ContainsFromSpec(s, sub, i + 1);
    }
  }

  /** `s.includes(sub)`: some occurrence of `sub` in `s`. */
  function Contains(s: string, sub: string): (r: bool)
    ensures r <==> exists i: nat :: OccursAt(s, sub, i)
  {
    ContainsFromSpec(s, sub, 0);
    ContainsFrom(s, sub, 0)
  }

  /** A slice of `x + y` that lies within `x` is that slice of `x`. */
  lemma SliceOfConcatLeft(x: string, y: string, a: nat, b: nat)
    requires a <= b <= |x|
    ensures (x + y)[a..b] == x[a..b]
  {
  }

  /** A slice of `x + y` that lies within `y` is the matching slice of `y`. */
  lemma SliceOfConcatRight(x: string, y: string, a: nat, b: nat)
    requires a <= b <= |y|
    ensures (x + y)[|x| + a..|x| + b] == y[a..b]
  {
  }

  /** A string ends with `suffix`: its last characters form an occurrence of it. */
  lemma ContainsOwnSuffix(base: string, suffix: string)
    ensures Contains(base + suffix, suffix)
  {
    assert (base + suffix)[|base|..|base| + |suffix|] == suffix;
    assert OccursAt(base + suffix, suffix, |base|);
  }
}
