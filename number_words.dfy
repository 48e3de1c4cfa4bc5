/** A model of `number_parser.parse` as `extract_amount` (utils/evaluation_utils.py) uses
    it: number words in the text are replaced by their digits and everything else is kept.
    The parser is written over a vocabulary of four tables; the real parser's English
    vocabulary is larger, and this model assumes a small lower-case one: the units zero-nine,
    ten-nineteen, the tens twenty-ninety, a tens word joined to a unit word by a space or a
    hyphen ("twenty five", "twenty-two"), and the ordinals first-tenth. A word is a maximal
    run of ASCII word characters. */
module NumberWords {
  import opened Wrappers
  import opened Text
  import opened WordRemoval

  /** The number words a parser knows: units[k] stands for k, teens[k] for 10 + k, tens[k]
      for 20 + 10 k and ordinals[k] for k + 1. */
  datatype Vocabulary = Vocabulary(units: seq<string>, teens: seq<string>, tens: seq<string>, ordinals: seq<string>)

  const English := Vocabulary(
    ["zero", "one", "two", "three", "four", "five", "six", "seven", "eight", "nine"],
    ["ten", "eleven", "twelve", "thirteen", "fourteen", "fifteen", "sixteen", "seventeen",
     "eighteen", "nineteen"],
    ["twenty", "thirty", "forty", "fifty", "sixty", "seventy", "eighty", "ninety"],
    ["first", "second", "third", "fourth", "fifth", "sixth", "seventh", "eighth", "ninth", "tenth"])

  /** The first position from k on of w in a table, if it is there. */
  function IndexFrom(table: seq<string>, w: string, k: nat): (r: Option<nat>)
    requires k <= |table|
    ensures r.Some? ==> k <= r.value < |table| && table[r.value] == w && forall q :: k <= q < r.value ==> table[q] != w
    ensures r.None? ==> forall q :: k <= q < |table| ==> table[q] != w
    decreases |table| - k
  {
    if k == |table| then None
    else if table[k] == w then Some(k)
    else IndexFrom(table, w, k + 1)
  }

  /** The position of w in a table, if it is there. */
  function IndexOf(table: seq<string>, w: string): (r: Option<nat>)
    ensures r.Some? ==> r.value < |table| && table[r.value] == w
    ensures r.None? <==> w !in table
  {
    IndexFrom(table, w, 0)
  }

  /** The number a single word stands for: a word has one exactly when it is in a table. */
  function WordValue(voc: Vocabulary, w: string): (r: Option<nat>)
    ensures r.Some? <==> w in voc.units || w in voc.teens || w in voc.tens || w in voc.ordinals
  {
    match IndexOf(voc.units, w)
    case Some(k) => Some(k)
    case None =>
      match IndexOf(voc.teens, w)
      case Some(k) => Some(10 + k)
      case None =>
        match IndexOf(voc.tens, w)
        case Some(k) => Some(20 + 10 * k)
        case None =>
          match IndexOf(voc.ordinals, w)
          case Some(k) => Some(k + 1)
          case None => None
  }

  /** A tens word of n characters at the start of s, then a space or a hyphen, then a unit
      word other than the first: the number and where the unit word ends. */
  function CompoundAt(voc: Vocabulary, s: string, n: nat): (r: Option<(nat, nat)>)
    requires n <= |s|
    ensures r.Some? ==> s[..n] in voc.tens && n + 1 < |s| && (s[n] == ' ' || s[n] == '-')
    ensures r.Some? ==> 20 < r.value.0 && n + 1 <= r.value.1 <= |s|
  {
    match IndexOf(voc.tens, s[..n])
    case None => None
    case Some(t) =>
      if n + 1 < |s| && (s[n] == ' ' || s[n] == '-') then
        match UnitAt(voc, s, n + 1)
        case Some((u, e)) => Some((20 + 10 * t + u, e))
        case None => None
      else None
  }

  /** A unit word other than the first starting at j: its value and where it ends. */
  function UnitAt(voc: Vocabulary, s: string, j: nat): (r: Option<(nat, nat)>)
    requires j <= |s|
    ensures r.Some? ==> 0 < r.value.0 < |voc.units| && j <= r.value.1 <= |s|
    ensures r.Some? ==> s[j..r.value.1] == voc.units[r.value.0]
  {
    var m := RunLength(s, j);
    match IndexOf(voc.units, s[j..j + m])
    case Some(u) => if u == 0 then None else Some((u, j + m))
    case None => None
  }

  /** `number_parser.parse(text)`: each word that is a number word, or a compound of two,
      is replaced by its digits; every other character is kept. */
  function Parse(voc: Vocabulary, s: string): string
    decreases |s|
  {
    if s == [] then []
    else if !IsWordChar(s[0]) then [s[0]] + Parse(voc, s[1..])
    else
      var n := RunLength(s, 0);
      match CompoundAt(voc, s, n)
      case Some((v, e)) => Numeral(v) + Parse(voc, s[e..])
      case None =>
        match WordValue(voc, s[..n])
        case Some(v) => Numeral(v) + Parse(voc, s[n..])
        case None => s[..n] + Parse(voc, s[n..])
  }

  // ---------------------------------------------------------------------------------
  // Text without letters
  // ---------------------------------------------------------------------------------

  /** Every word of a table is a non-empty run of lower-case letters. */
  predicate WordTable(table: seq<string>) {
    forall k :: 0 <= k < |table| ==> |table[k]| > 0 && forall j :: 0 <= j < |table[k]| ==> IsLower(table[k][j])
  }

  predicate Lettered(voc: Vocabulary) {
    WordTable(voc.units) && WordTable(voc.teens) && WordTable(voc.tens) && WordTable(voc.ordinals)
  }

  lemma EnglishLettered()
    ensures Lettered(English)
  {
    UnitsLettered();
    TeensLettered();
    TensLettered();
    OrdinalsLettered();
  }

  lemma UnitsLettered() ensures WordTable(English.units) { }
  lemma TeensLettered() ensures WordTable(English.teens) { }
  lemma TensLettered() ensures WordTable(English.tens) { }
  lemma OrdinalsLettered() ensures WordTable(English.ordinals) { }

  predicate NoLetters(s: string) {
    forall k :: 0 <= k < |s| ==> !IsLetter(s[k])
  }

  /** A word that does not start with a letter is no number word. */
  lemma NotNumberWord(voc: Vocabulary, w: string)
    requires Lettered(voc) && |w| > 0 && !IsLetter(w[0])
    ensures w !in voc.tens && WordValue(voc, w).None?
  {
    NotInTable(voc.units, w);
    NotInTable(voc.teens, w);
    NotInTable(voc.tens, w);
    NotInTable(voc.ordinals, w);
  }

  lemma NotInTable(table: seq<string>, w: string)
    requires WordTable(table) && |w| > 0 && !IsLetter(w[0])
    ensures w !in table
  {
    forall k | 0 <= k < |table| ensures table[k] != w {
      assert table[k][0] != w[0];
    }
  }

  /** Number words start with a letter, so text without letters passes through unchanged. */
  lemma {:induction false} ParseNoLetters(voc: Vocabulary, s: string)
    requires Lettered(voc) && NoLetters(s)
    ensures Parse(voc, s) == s
    decreases |s|
  {
    if s != [] {
      if !IsWordChar(s[0]) {
        ParseNoLetters(voc, s[1..]);
        assert s == [s[0]] + s[1..];
      } else {
        var n := RunLength(s, 0);
        NotNumberWord(voc, s[..n]);
        assert CompoundAt(voc, s, n).None?;
        ParseNoLetters(voc, s[n..]);
        assert s == s[..n] + s[n..];
      }
    }
  }

  // ---------------------------------------------------------------------------------
  // Parsing word by word
  // ---------------------------------------------------------------------------------

  predicate WordRun(w: string) {
    |w| > 0 && forall k :: 0 <= k < |w| ==> IsWordChar(w[k])
  }

  /** Where a word ends: what follows is empty or starts with a non-word character. */
  predicate EndsWord(rest: string) {
    rest == [] || !IsWordChar(rest[0])
  }

  lemma {:induction false} RunLengthOf(s: string, i: nat, n: nat)
    requires i + n <= |s|
    requires forall q :: i <= q < i + n ==> IsWordChar(s[q])
    requires i + n == |s| || !IsWordChar(s[i + n])
    ensures RunLength(s, i) == n
    decreases n
  {
    if n > 0 {
      RunLengthOf(s, i + 1, n - 1);
    }
  }

  lemma WordRunAt(w: string, rest: string, i: nat, s: string)
    requires WordRun(w) && EndsWord(rest) && i <= |s| && s[i..] == w + rest
    ensures RunLength(s, i) == |w| && s[i..i + |w|] == w && s[i + |w|..] == rest
  {
    forall q | i <= q < i + |w| ensures IsWordChar(s[q]) { assert s[q] == s[i..][q - i] == w[q - i]; }
    if rest != [] {
      assert s[i + |w|] == s[i..][|w|] == rest[0];
    }
    RunLengthOf(s, i, |w|);
    assert s[i..i + |w|] == s[i..][..|w|];
    assert s[i + |w|..] == s[i..][|w|..];
  }

  /** A character outside every word is kept. */
  lemma ParseChar(voc: Vocabulary, c: char, rest: string)
    requires !IsWordChar(c)
    ensures Parse(voc, [c] + rest) == [c] + Parse(voc, rest)
  {
    assert ([c] + rest)[1..] == rest;
  }

  /** A word that is no number word is kept. */
  lemma ParseWord(voc: Vocabulary, w: string, rest: string)
    requires WordRun(w) && EndsWord(rest)
    requires w !in voc.tens && WordValue(voc, w).None?
    ensures Parse(voc, w + rest) == w + Parse(voc, rest)
  {
    WordRunAt(w, rest, 0, w + rest);
    assert CompoundAt(voc, w + rest, |w|).None?;
  }

  /** A number word outside a compound becomes its digits. */
  lemma ParseNumberWord(voc: Vocabulary, w: string, v: nat, rest: string)
    requires WordRun(w) && EndsWord(rest)
    requires w !in voc.tens && WordValue(voc, w) == Some(v)
    ensures Parse(voc, w + rest) == Numeral(v) + Parse(voc, rest)
  {
    WordRunAt(w, rest, 0, w + rest);
    assert CompoundAt(voc, w + rest, |w|).None?;
  }

  /** A tens word joined to a unit word by a space or a hyphen becomes the digits of the sum. */
  lemma ParseCompound(voc: Vocabulary, t: string, c: char, u: string, rest: string, a: nat, b: nat)
    requires WordRun(t) && WordRun(u) && EndsWord(rest) && (c == ' ' || c == '-')
    requires IndexOf(voc.tens, t) == Some(a) && IndexOf(voc.units, u) == Some(b) && b > 0
    ensures Parse(voc, t + ([c] + (u + rest))) == Numeral(20 + 10 * a + b) + Parse(voc, rest)
  {
    var s := t + ([c] + (u + rest));
    CompoundText(voc, t, c, u, rest, a, b);
    ParseCompoundStep(voc, s, |t|, 20 + 10 * a + b, |t| + 1 + |u|);
  }

  lemma CompoundText(voc: Vocabulary, t: string, c: char, u: string, rest: string, a: nat, b: nat)
    requires WordRun(t) && WordRun(u) && EndsWord(rest) && (c == ' ' || c == '-')
    requires IndexOf(voc.tens, t) == Some(a) && IndexOf(voc.units, u) == Some(b) && b > 0
    ensures var s := t + ([c] + (u + rest));
      s != [] && IsWordChar(s[0]) && RunLength(s, 0) == |t| && |t| + 1 + |u| <= |s|
      && CompoundAt(voc, s, |t|) == Some((20 + 10 * a + b, |t| + 1 + |u|)) && s[|t| + 1 + |u|..] == rest
  {
    var s := t + ([c] + (u + rest));
    ConcatParts(t, c, u + rest);
    WordRunAt(t, [c] + (u + rest), 0, s);
    CompoundTail(voc, s, |t|, c, u, rest, a, b);
  }

  lemma ConcatParts(t: string, c: char, r: string)
    ensures var s := t + ([c] + r); s[0..] == t + ([c] + r) && s[..|t|] == t && s[|t|] == c && s[|t| + 1..] == r
  {
  }

  lemma CompoundTail(voc: Vocabulary, s: string, n: nat, c: char, u: string, rest: string, a: nat, b: nat)
    requires WordRun(u) && EndsWord(rest) && (c == ' ' || c == '-')
    requires n < |s| && s[n] == c && s[n + 1..] == u + rest
    requires IndexOf(voc.tens, s[..n]) == Some(a) && IndexOf(voc.units, u) == Some(b) && b > 0
    ensures n + 1 + |u| <= |s| && CompoundAt(voc, s, n) == Some((20 + 10 * a + b, n + 1 + |u|))
    ensures s[n + 1 + |u|..] == rest
  {
    WordRunAt(u, rest, n + 1, s);
    UnitOf(voc, s, n + 1, b, |u|);
    CompoundOf(voc, s, n, a, b, n + 1 + |u|);
  }

  lemma UnitOf(voc: Vocabulary, s: string, j: nat, b: nat, m: nat)
    requires j + m <= |s| && RunLength(s, j) == m
    requires IndexOf(voc.units, s[j..j + m]) == Some(b) && b > 0
    ensures UnitAt(voc, s, j) == Some((b, j + m))
  {
  }

  lemma CompoundOf(voc: Vocabulary, s: string, n: nat, a: nat, b: nat, e: nat)
    requires n + 1 < |s| && (s[n] == ' ' || s[n] == '-')
    requires IndexOf(voc.tens, s[..n]) == Some(a) && UnitAt(voc, s, n + 1) == Some((b, e))
    ensures CompoundAt(voc, s, n) == Some((20 + 10 * a + b, e))
  {
  }

  lemma ParseCompoundStep(voc: Vocabulary, s: string, n: nat, v: nat, e: nat)
    requires s != [] && IsWordChar(s[0]) && n == RunLength(s, 0) && CompoundAt(voc, s, n) == Some((v, e))
    ensures Parse(voc, s) == Numeral(v) + Parse(voc, s[e..])
  {
  }
}
