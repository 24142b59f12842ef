/**
 The JavaScript values that reach the schedule evaluator's comparisons, and
 the parts of ECMAScript's `Number` conversion and relational comparison
 (`<`, `<=`, `>=`) that decide how those comparisons come out.
 */
module JsValue {
  import opened JsString

  /**
   A value that can stand on either side of a comparison in the evaluator:
   a number from `HH * 60 + MM` arithmetic, NaN from a failed conversion,
   a string that `reduce` handed back unconverted, or `undefined` (a missing
   array element, or a day letter that the table does not have).
   The clock never goes below zero and every number parsed here is a run of
   decimal digits, so numbers are natural.
   */
  datatype Value = Num(n: nat) | NaN | Str(s: string) | Undefined

  predicate IsDigit(c: char)
  {
    '0' <= c <= '9'
  }

  predicate AllDigits(s: string)
  {
    forall k :: 0 <= k < |s| ==> IsDigit(s[k])
  }

  /** The decimal value of a run of digits. */
  function DigitsValue(s: string): nat
    requires AllDigits(s)
  {
    if s == [] then 0 else DigitsValue(s[..|s| - 1]) * 10 + (s[|s| - 1] as int - '0' as int)
  }

  /**
   `Number(s)` for the strings a schedule can hold: white space is trimmed,
   the empty string is 0, a run of decimal digits is its value, and anything
   else is NaN (`None`).
   */
  function StringToNumber(s: string): Option<nat>
  {
    var t := Trim(s);
    if t == [] then Some(0)
    else if AllDigits(t) then Some(DigitsValue(t))
    else None
  }

  /** ToNumber: `None` stands for NaN. */
  function ToNumber(v: Value): Option<nat>
  {
    match v
    case Num(n) => Some(n)
    case NaN => None
    case Str(s) => StringToNumber(s)
    case Undefined => None
  }

  /** Comparison of two strings by their characters, as `<` does when both sides are strings. */
  function StrLess(a: string, b: string): bool
  {
    if b == [] then false
    else if a == [] then true
    else if a[0] != b[0] then a[0] < b[0]
    else StrLess(a[1..], b[1..])
  }

  /**
   IsLessThan of ECMAScript: two strings compare by characters; otherwise
   both sides are converted to numbers, and NaN on either side gives the
   third outcome `None` ("undefined"), which makes every relational operator
   false.
   */
  function IsLessThan(x: Value, y: Value): Option<bool>
  {
    if x.Str? && y.Str? then Some(StrLess(x.s, y.s))
    else match (ToNumber(x), ToNumber(y))
      case (Some(a), Some(b)) => Some(a < b)
      case _ => None
  }

  /** `x < y` */
  predicate Lt(x: Value, y: Value)
  {
    IsLessThan(x, y) == Some(true)
  }

  /** `x <= y`, which ECMAScript evaluates as "not (y < x)" unless that is undefined. */
  predicate Le(x: Value, y: Value)
  {
    IsLessThan(y, x) == Some(false)
  }

  /** `x >= y`, which ECMAScript evaluates as "not (x < y)" unless that is undefined. */
  predicate Ge(x: Value, y: Value)
  {
    IsLessThan(x, y) == Some(false)
  }

  /**
   The evaluator's containment test, used for days and for minutes alike:
   `(x >= lo && x <= hi) || (hi < lo && (x >= lo || x <= hi))`.
   */
  predicate InRange(lo: Value, hi: Value, x: Value)
  {
    (Ge(x, lo) && Le(x, hi)) || (Lt(hi, lo) && (Ge(x, lo) || Le(x, hi)))
  }

  /**
   The reading the test is meant to have on numbers: inclusive at both ends,
   and wrapping past the end of the cycle when the end comes before the start.
   */
  predicate WrapContains(lo: int, hi: int, x: int)
  {
    if lo <= hi then lo <= x <= hi else x >= lo || x <= hi
  }

  /** On numbers the containment test is exactly the wrap-aware inclusive range. */
  lemma InRangeOnNumbers(lo: nat, hi: nat, x: nat)
    ensures InRange(Num(lo), Num(hi), Num(x)) <==> WrapContains(lo, hi, x)
  {
  }

  /**
   A bound that is `undefined` or NaN makes the test false whatever the other
   bound is, because every comparison with it is false.
   */
  lemma InRangeNeedsBounds(lo: Value, hi: Value, x: nat)
    requires InRange(lo, hi, Num(x))
    ensures lo != Undefined && lo != NaN && hi != Undefined && hi != NaN
  {
  }

  /** The test can hold only if at least one bound converts to a number. */
  lemma InRangeNeedsNumber(lo: Value, hi: Value, x: nat)
    requires InRange(lo, hi, Num(x))
    ensures ToNumber(lo).Some? || ToNumber(hi).Some?
  {
  }

  /** `a` is a proper prefix of `b`. */
  predicate ProperPrefix(a: string, b: string)
  {
    |a| < |b| && a == b[..|a|]
  }

  /** `a` and `b` first differ at `k`, where `a` has the smaller character. */
  predicate FirstDiffLess(a: string, b: string, k: nat)
  {
    k < |a| && k < |b| && a[..k] == b[..k] && a[k] < b[k]
  }

  /**
   The lexicographic order: `a` comes first when it is a proper prefix of
   `b`, or when at the first position where they differ `a` has the smaller
   character.
   */
  ghost predicate LexLess(a: string, b: string)
  {
    ProperPrefix(a, b) || exists k: nat :: FirstDiffLess(a, b, k)
  }

  lemma ProperPrefixCons(c: char, a: string, b: string)
    ensures ProperPrefix([c] + a, [c] + b) <==> ProperPrefix(a, b)
  {
    if |a| < |b| {
      assert ([c] + b)[..|[c] + a|] == [c] + b[..|a|];
      assert ([c] + a)[1..] == a && ([c] + b[..|a|])[1..] == b[..|a|];
    }
  }

  lemma FirstDiffLessCons(c: char, a: string, b: string, k: nat)
    ensures FirstDiffLess([c] + a, [c] + b, k + 1) <==> FirstDiffLess(a, b, k)
  {
    if k < |a| && k < |b| {
      assert ([c] + a)[..k + 1] == [c] + a[..k] && ([c] + b)[..k + 1] == [c] + b[..k];
      assert ([c] + a[..k])[1..] == a[..k] && ([c] + b[..k])[1..] == b[..k];
    }
  }

  /** A common first character does not change the lexicographic order. */
  lemma LexLessCons(c: char, a: string, b: string)
    ensures LexLess([c] + a, [c] + b) <==> LexLess(a, b)
  {
    ProperPrefixCons(c, a, b);
    if exists k: nat :: FirstDiffLess(a, b, k) {
      var k: nat :| FirstDiffLess(a, b, k);
      FirstDiffLessCons(c, a, b, k);
    }
    if exists k: nat :: FirstDiffLess([c] + a, [c] + b, k) {
      var k: nat :| FirstDiffLess([c] + a, [c] + b, k);
      assert k > 0;
      FirstDiffLessCons(c, a, b, k - 1);
    }
  }

  /** Character comparison of strings, as `<` does it, is the lexicographic order. */
  lemma {:induction false} StrLessLexicographic(a: string, b: string)
    ensures StrLess(a, b) <==> LexLess(a, b)
  {
    if b == [] || a == [] {
    } else if a[0] != b[0] {
      assert !ProperPrefix(a, b) && a[..0] == b[..0];
      assert forall k: nat :: 0 < k ==> !FirstDiffLess(a, b, k);
      assert FirstDiffLess(a, b, 0) <==> a[0] < b[0];
    } else {
      StrLessLexicographic(a[1..], b[1..]);
      assert a == [a[0]] + a[1..] && b == [a[0]] + b[1..];
      LexLessCons(a[0], a[1..], b[1..]);
    }
  }

  /** A run of digits converts to its decimal value. */
  lemma StringToNumberDigits(s: string)
    requires AllDigits(s)
    ensures StringToNumber(s) == Some(DigitsValue(s))
  {
    if s != [] {
      assert IsDigit(s[0]) && IsDigit(s[|s| - 1]);
    }
    TrimNoEnds(s);
  }

  /** Two digits are read tens first, then units. */
  lemma TwoDigitsValue(a: char, b: char)
    requires IsDigit(a) && IsDigit(b)
    ensures DigitsValue([a, b]) == (a as int - '0' as int) * 10 + (b as int - '0' as int)
  {
    assert [a][..0] == [];
    assert DigitsValue([a]) == a as int - '0' as int;
    assert [a, b][..1] == [a];
  }
}
