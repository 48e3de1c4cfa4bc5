/** Numeric equivalence (`extract_amount`, `exact_match_amount` in utils/evaluation_utils.py).
    An amount is read by replacing number words with digits, deleting every character but
    digits and '.', and reading what is left as a decimal. What is left is read as an exact
    decimal, where Python reads a binary float. */
module Amounts {
  import opened Wrappers
  import opened Text
  import opened NumberWords
  import opened Seqs

  predicate IsNumericChar(c: char) { IsDigit(c) || c == '.' }

  predicate Numeric(t: string) { forall k :: 0 <= k < |t| ==> IsNumericChar(t[k]) }

  /** `re.sub("[^0-9.]", "", s)`, from position i on. */
  function KeepNumericFrom(s: string, i: nat): string
    requires i <= |s|
    decreases |s| - i
  {
    if i == |s| then []
    else if IsNumericChar(s[i]) then [s[i]] + KeepNumericFrom(s, i + 1)
    else KeepNumericFrom(s, i + 1)
  }

  function KeepNumeric(s: string): (r: string)
    ensures Numeric(r)
  {
    KeepNumericShape(s, 0);
    KeepNumericFrom(s, 0)
  }

  function Pow10(n: nat): (r: int)
    ensures r >= 1
  {
    if n == 0 then 1 else 10 * Pow10(n - 1)
  }

  /** Python's `float(t)` on a string of digits and dots: the integer digits, an optional
      '.', the fraction digits; None where `float` raises `ValueError`. */
  function FloatOf(t: string): Option<real>
    requires Numeric(t)
  {
    var p := CharIndex(t, '.', 0);
    if p == |t| then
      (if t == [] then None else Some(NumberValue(t) as real))
    else
      var a, b := t[..p], t[p + 1..];
      if CharIndex(b, '.', 0) < |b| || (a == [] && b == []) then None
      else Some(NumberValue(a) as real + NumberValue(b) as real / Pow10(|b|) as real)
  }

  /** `extract_amount(text)`: None where no amount can be read. */
  function ExtractAmount(text: string): Option<real> {
    FloatOf(KeepNumeric(Parse(English, text)))
  }

  /** `exact_match_amount(prediction, ground_truth)` */
  function ExactMatchAmount(prediction: string, groundTruth: string): bool {
    var pa := ExtractAmount(prediction);
    pa == ExtractAmount(groundTruth) && pa.Some?
  }

  // ---------------------------------------------------------------------------------
  // What float() accepts and what it reads
  // ---------------------------------------------------------------------------------

  predicate HasDigit(t: string) { exists k :: 0 <= k < |t| && IsDigit(t[k]) }

  /** A decimal numeral: some digit and at most one '.'. */
  predicate ValidDecimal(t: string) {
    HasDigit(t) && forall p, q :: 0 <= p < q < |t| && t[p] == '.' ==> t[q] != '.'
  }

  predicate NoDot(t: string) { forall k :: 0 <= k < |t| ==> t[k] != '.' }

  /** The digits of t, in order. */
  function DigitsOf(t: string): string
    decreases |t|
  {
    if t == [] then [] else (if IsDigit(t[0]) then [t[0]] else []) + DigitsOf(t[1..])
  }

  /** Number of digits after the first '.' of t. */
  function FracLength(t: string): nat {
    var p := CharIndex(t, '.', 0);
    if p == |t| then 0 else |t| - p - 1
  }

  /** `float` accepts exactly the valid decimals ... */
  lemma FloatOfAccepts(t: string)
    requires Numeric(t)
    ensures FloatOf(t).Some? <==> ValidDecimal(t)
  {
    var p := CharIndex(t, '.', 0);
    if p == |t| {
      if t != [] {
        assert IsNumericChar(t[0]) && t[0] != '.';
      }
    } else {
      var a, b := t[..p], t[p + 1..];
      assert t == a + ['.'] + b;
      var d := CharIndex(b, '.', 0);
      if d < |b| {
        assert t[p] == '.' && t[p + 1 + d] == '.';
      } else if a == [] && b == [] {
        assert t == ".";
      } else {
        if a != [] {
          assert IsDigit(t[0]);
        } else {
          assert IsNumericChar(b[0]) && b[0] == t[p + 1];
        }
        forall i, j | 0 <= i < j < |t| && t[i] == '.' ensures t[j] != '.' {
          assert i == p;
          assert j > p && b[j - p - 1] == t[j];
        }
      }
    }
  }

  /** ... and read them as their digits over a power of ten. */
  lemma FloatOfValue(t: string)
    requires Numeric(t) && FloatOf(t).Some?
    ensures FloatOf(t).value == NumberValue(DigitsOf(t)) as real / Pow10(FracLength(t)) as real
  {
    var p := CharIndex(t, '.', 0);
    if p == |t| {
      DigitsOfNoDot(t);
    } else {
      FloatOfValueDot(t, p);
    }
  }

  lemma FloatOfValueDot(t: string, p: nat)
    requires Numeric(t) && FloatOf(t).Some? && p == CharIndex(t, '.', 0) < |t|
    ensures FloatOf(t).value == NumberValue(DigitsOf(t)) as real / Pow10(FracLength(t)) as real
  {
    var a, b := t[..p], t[p + 1..];
    assert CharIndex(b, '.', 0) == |b|;
    FloatOfDot(t, p);
    DotDigits(t, p);
    NumberValueAppend(a, b);
    ValueChain(FloatOf(t).value, NumberValue(a), NumberValue(b), Pow10(|b|), NumberValue(DigitsOf(t)));
  }

  lemma ValueChain(v: real, x: int, y: int, z: int, n: int)
    requires z >= 1 && v == x as real + y as real / z as real && n == x * z + y
    ensures v == n as real / z as real
  {
    ShiftFraction(x, y, z);
  }

  /** What float reads from a numeral with a '.' at p. */
  lemma FloatOfDot(t: string, p: nat)
    requires Numeric(t) && FloatOf(t).Some? && p == CharIndex(t, '.', 0) < |t|
    ensures FracLength(t) == |t[p + 1..]|
    ensures FloatOf(t).value == NumberValue(t[..p]) as real + NumberValue(t[p + 1..]) as real / Pow10(|t[p + 1..]|) as real
  {
  }

  /** The digits of a numeral with a single '.' at p are those on either side of it. */
  lemma DotDigits(t: string, p: nat)
    requires Numeric(t) && p < |t| && t[p] == '.' && NoDot(t[..p]) && NoDot(t[p + 1..])
    ensures DigitsOf(t) == t[..p] + t[p + 1..]
  {
    var a, b := t[..p], t[p + 1..];
    assert t == a + (['.'] + b);
    assert Numeric(a) by {
      forall k | 0 <= k < |a| ensures IsNumericChar(a[k]) { assert a[k] == t[k]; }
    }
    assert Numeric(b) by {
      forall k | 0 <= k < |b| ensures IsNumericChar(b[k]) { assert b[k] == t[p + 1 + k]; }
    }
    DigitsAroundDot(a, b);
  }

  lemma DigitsAroundDot(a: string, b: string)
    requires Numeric(a) && NoDot(a) && Numeric(b) && NoDot(b)
    ensures DigitsOf(a + (['.'] + b)) == a + b
  {
    DigitsOfAppend(a, ['.'] + b);
    DigitsOfDot(b);
    DigitsOfNoDot(a);
    DigitsOfNoDot(b);
  }

  lemma DigitsOfDot(b: string)
    ensures DigitsOf(['.'] + b) == DigitsOf(b)
  {
    assert (['.'] + b)[1..] == b;
  }

  lemma ShiftFraction(x: int, y: int, z: int)
    requires z >= 1
    ensures x as real + y as real / z as real == (x * z + y) as real / z as real
  {
  }

  lemma {:induction false} DigitsOfNoDot(t: string)
    requires Numeric(t) && NoDot(t)
    ensures DigitsOf(t) == t
    decreases |t|
  {
    if t != [] {
      DigitsOfNoDot(t[1..]);
    }
  }

  lemma {:induction false} DigitsOfAppend(a: string, b: string)
    ensures DigitsOf(a + b) == DigitsOf(a) + DigitsOf(b)
    decreases |a|
  {
    if a == [] {
      assert a + b == b;
    } else {
      var head := if IsDigit(a[0]) then [a[0]] else [];
      assert (a + b)[1..] == a[1..] + b;
      assert DigitsOf(a + b) == head + DigitsOf(a[1..] + b);
      DigitsOfAppend(a[1..], b);
      Associative(head, DigitsOf(a[1..]), DigitsOf(b));
    }
  }

  /** The value of a numeral written as a + b. */
  lemma {:induction false} NumberValueAppend(a: string, b: string)
    ensures NumberValue(a + b) == NumberValue(a) * Pow10(|b|) + NumberValue(b)
    decreases |b|
  {
    if b == [] {
      assert a + b == a;
    } else {
      var b' := b[..|b| - 1];
      var c := b[|b| - 1];
      assert a + b == (a + b') + [c];
      assert b == b' + [c];
      NumberValueSnoc(a + b', c);
      NumberValueSnoc(b', c);
      NumberValueAppend(a, b');
      assert Pow10(|b|) == 10 * Pow10(|b'|);
      AppendArith(NumberValue(a), Pow10(|b'|), NumberValue(b'), DigitValue(c), NumberValue(a + b'));
    }
  }

  lemma AppendArith(x: int, p: int, v: int, d: int, w: int)
    requires w == x * p + v
    ensures 10 * w + d == x * (10 * p) + (10 * v + d)
  {
  }

  // ---------------------------------------------------------------------------------
  // extract_amount and exact_match_amount
  // ---------------------------------------------------------------------------------

  /** `extract_amount` returns None exactly when the digits-and-dots residue of the text is not
      a valid decimal, and otherwise its value. */
  lemma ExtractAmountSpec(text: string)
    ensures var t := KeepNumeric(Parse(English, text));
      (ExtractAmount(text).None? <==> !ValidDecimal(t))
      && (ExtractAmount(text).Some? ==> ExtractAmount(text).value == NumberValue(DigitsOf(t)) as real / Pow10(FracLength(t)) as real)
  {
    var t := KeepNumeric(Parse(English, text));
    FloatOfAccepts(t);
    if FloatOf(t).Some? {
      FloatOfValue(t);
    }
  }

  /** An amount written in digits is read back as itself. */
  lemma ExtractNumeral(n: nat)
    ensures ExtractAmount(Numeral(n)) == Some(n as real)
  {
    var w := Numeral(n);
    assert NoLetters(w);
    EnglishLettered();
    ParseNoLetters(English, w);
    KeepNumericIdentity(w, 0);
    assert w[0..] == w;
    assert CharIndex(w, '.', 0) == |w|;
  }

  /** Two texts match on amounts only if both hold an amount, and then the relation is an
      equivalence. */
  lemma ExactMatchAmountProperties(p: string, g: string, h: string)
    ensures ExactMatchAmount(p, g) ==> ExtractAmount(p).Some? && ExtractAmount(g).Some?
    ensures ExactMatchAmount(p, g) == ExactMatchAmount(g, p)
    ensures ExactMatchAmount(p, g) && ExactMatchAmount(g, h) ==> ExactMatchAmount(p, h)
    ensures ExactMatchAmount(p, p) <==> ExtractAmount(p).Some?
  {
  }

  /** A text whose residue holds no digit never matches any text on amounts. */
  lemma NoDigitNoMatch(p: string, g: string)
    requires !HasDigit(KeepNumeric(Parse(English, p)))
    ensures !ExactMatchAmount(p, g) && !ExactMatchAmount(g, p)
  {
    ExtractAmountSpec(p);
  }

  lemma {:induction false} KeepNumericShape(s: string, i: nat)
    requires i <= |s|
    ensures Numeric(KeepNumericFrom(s, i))
    decreases |s| - i
  {
    if i < |s| {
      KeepNumericShape(s, i + 1);
    }
  }

  lemma {:induction false} KeepNumericIdentity(s: string, i: nat)
    requires i <= |s| && Numeric(s)
    ensures KeepNumericFrom(s, i) == s[i..]
    decreases |s| - i
  {
    if i < |s| {
      KeepNumericIdentity(s, i + 1);
      assert s[i..] == [s[i]] + s[i + 1..];
    }
  }

  /** The scan of p + b from |p| + j is the scan of b from j. */
  lemma {:induction false} KeepNumericShift(p: string, b: string, i: nat, j: nat)
    requires i == |p| + j && j <= |b|
    ensures KeepNumericFrom(p + b, i) == KeepNumericFrom(b, j)
    decreases |b| - j
  {
    if j < |b| {
      assert (p + b)[i] == b[j];
      KeepNumericShift(p, b, i + 1, j + 1);
    }
  }

  lemma {:induction false} KeepNumericAppend(a: string, b: string, i: nat)
    requires i <= |a|
    ensures KeepNumericFrom(a + b, i) == KeepNumericFrom(a, i) + KeepNumericFrom(b, 0)
    decreases |a| - i
  {
    if i == |a| {
      KeepNumericShift(a, b, i, 0);
    } else {
      assert (a + b)[i] == a[i];
      KeepNumericAppend(a, b, i + 1);
      AppendAssoc([a[i]], KeepNumericFrom(a, i + 1), KeepNumericFrom(b, 0));
    }
  }

  /** `re.sub("[^0-9.]", "", s)` keeps exactly the digits and dots of s, in order: it
      distributes over concatenation, and keeps a single character iff it is a digit or
      a dot. */
  lemma KeepNumericFilter(a: string, b: string, c: char)
    ensures KeepNumeric(a + b) == KeepNumeric(a) + KeepNumeric(b)
    ensures KeepNumeric([c]) == if IsNumericChar(c) then [c] else []
  {
    KeepNumericAppend(a, b, 0);
    assert KeepNumericFrom([c], 1) == [];
  }
}
