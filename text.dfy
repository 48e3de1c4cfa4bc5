/** ASCII character classes and the Python `str` operations the answer normaliser uses:
    `str.split()` with no argument, `' '.join(...)` and `str.strip()`. Only ASCII is modelled:
    Python's Unicode whitespace, digits and word characters beyond ASCII are not. */
module Text {

  /** Python's `str.isspace()` on ASCII: space, \t \n \v \f \r and the separators \x1c-\x1f. */
  predicate IsSpace(c: char) {
    c == ' ' || 9 <= c as int <= 13 || 28 <= c as int <= 31
  }

  predicate IsDigit(c: char) { '0' <= c <= '9' }

  predicate IsUpper(c: char) { 'A' <= c <= 'Z' }

  predicate IsLower(c: char) { 'a' <= c <= 'z' }

  predicate IsLetter(c: char) { IsUpper(c) || IsLower(c) }

  /** A character `\w` matches, so the ones a regex `\b` separates from the others. */
  predicate IsWordChar(c: char) { IsLetter(c) || IsDigit(c) || c == '_' }

  /** Python's `string.punctuation`: !"#$%&'()*+,-./:;<=>?@[\]^_`{|}~ */
  predicate IsPunctuation(c: char) {
    ('!' <= c <= '/') || (':' <= c <= '@') || ('[' <= c <= '`') || ('{' <= c <= '~')
  }

  predicate NoSpace(w: string) {
    forall i :: 0 <= i < |w| ==> !IsSpace(w[i])
  }

  /** The shape `' '.join(text.split())` produces: the only whitespace is a single ' '
      with a non-space character on either side. */
  predicate SpacesClean(r: string) {
    forall i :: 0 <= i < |r| && IsSpace(r[i]) ==> r[i] == ' ' && 0 < i < |r| - 1 && !IsSpace(r[i + 1])
  }

  // ---------------------------------------------------------------------------------
  // Decimal numerals
  // ---------------------------------------------------------------------------------

  function DigitValue(c: char): int {
    c as int - '0' as int
  }

  function DigitChar(k: int): (c: char)
    requires 0 <= k <= 9
    ensures IsDigit(c) && DigitValue(c) == k
  {
    ('0' as int + k) as char
  }

  /** The value of the decimal numeral w. */
  function NumberValue(w: string): int
    decreases |w|
  {
    if w == [] then 0 else 10 * NumberValue(w[..|w| - 1]) + DigitValue(w[|w| - 1])
  }

  lemma NumberValueSnoc(w: string, c: char)
    ensures NumberValue(w + [c]) == 10 * NumberValue(w) + DigitValue(c)
  {
    assert (w + [c])[..|w|] == w;
  }

  /** n written in decimal, without leading zeros. */
  function Numeral(n: nat): (r: string)
    ensures |r| > 0 && forall k :: 0 <= k < |r| ==> IsDigit(r[k])
    ensures NumberValue(r) == n
  {
    if n < 10 then
      NumberValueSnoc([], DigitChar(n));
      assert [] + [DigitChar(n)] == [DigitChar(n)];
      [DigitChar(n)]
    else
      NumberValueSnoc(Numeral(n / 10), DigitChar(n % 10));
      Numeral(n / 10) + [DigitChar(n % 10)]
  }

  // ---------------------------------------------------------------------------------
  // str.split() and ' '.join(...)
  // ---------------------------------------------------------------------------------

  /** The first index at or after i that holds c, or |s| when there is none. */
  function CharIndex(s: string, c: char, i: nat): (p: nat)
    requires i <= |s|
    ensures i <= p <= |s|
    ensures forall k :: i <= k < p ==> s[k] != c
    ensures p == |s| || s[p] == c
    decreases |s| - i
  {
    if i == |s| || s[i] == c then i else CharIndex(s, c, i + 1)
  }

  /** Length of the leading run of non-space characters. */
  function WordEnd(s: string): (e: nat)
    ensures e <= |s|
    ensures forall k :: 0 <= k < e ==> !IsSpace(s[k])
    ensures e == |s| || IsSpace(s[e])
  {
    if s == [] || IsSpace(s[0]) then 0 else 1 + WordEnd(s[1..])
  }

  /** Python's `s.split()`: the maximal runs of non-whitespace characters, in order. */
  function Words(s: string): (ws: seq<string>)
    ensures forall k :: 0 <= k < |ws| ==> |ws[k]| > 0 && NoSpace(ws[k])
    decreases |s|
  {
    if s == [] then []
    else if IsSpace(s[0]) then Words(s[1..])
    else
      var e := WordEnd(s);
      [s[..e]] + Words(s[e..])
  }

  /** Python's `' '.join(ws)`. */
  function Join(ws: seq<string>): string {
    if ws == [] then []
    else if |ws| == 1 then ws[0]
    else ws[0] + " " + Join(ws[1..])
  }

  /** Two texts joined by one space, an empty side dropped: `' '.join` of the tokens of
      x followed by the tokens of y, when x and y are joined texts. */
  function Glue(x: string, y: string): string {
    if x == [] then y else if y == [] then x else x + " " + y
  }

  /** Python's `s.strip()`: drops leading and trailing whitespace. */
  function Strip(s: string): (r: string)
    ensures |r| <= |s|
    ensures r == [] || (!IsSpace(r[0]) && !IsSpace(r[|r| - 1]))
    ensures exists a, b :: 0 <= a <= b <= |s| && r == s[a..b]
              && (forall k :: 0 <= k < a ==> IsSpace(s[k]))
              && (forall k :: b <= k < |s| ==> IsSpace(s[k]))
  {
    var a := LeadingSpaces(s, 0);
    if a == |s| then
      assert s[|s|..|s|] == [];
      []
    else
      var b := TrailEnd(s, |s|);
      s[a..b]
  }

  /** First index at or after `i` that holds a non-space character, or |s|. */
  function LeadingSpaces(s: string, i: nat): (a: nat)
    requires i <= |s|
    ensures i <= a <= |s|
    ensures forall k :: i <= k < a ==> IsSpace(s[k])
    ensures a == |s| || !IsSpace(s[a])
    decreases |s| - i
  {
    if i < |s| && IsSpace(s[i]) then LeadingSpaces(s, i + 1) else i
  }

  /** Largest end `b <= j` such that s[b..j] is all whitespace. */
  function TrailEnd(s: string, j: nat): (b: nat)
    requires j <= |s|
    ensures b <= j
    ensures forall k :: b <= k < j ==> IsSpace(s[k])
    ensures b == 0 || !IsSpace(s[b - 1])
  {
    if j > 0 && IsSpace(s[j - 1]) then TrailEnd(s, j - 1) else j
  }

  // ---------------------------------------------------------------------------------
  // Lemmas
  // ---------------------------------------------------------------------------------

  /** A string with no leading or trailing whitespace is its own `strip()`. */
  lemma StripNoOp(s: string)
    requires s == [] || (!IsSpace(s[0]) && !IsSpace(s[|s| - 1]))
    ensures Strip(s) == s
  {
    if s != [] {
      assert LeadingSpaces(s, 0) == 0;
      assert TrailEnd(s, |s|) == |s|;
    }
  }

  /** Every word of `s.split()` is made of characters of `s`. */
  lemma {:induction false} WordsChars(s: string)
    ensures forall k, j :: 0 <= k < |Words(s)| && 0 <= j < |Words(s)[k]| ==> Words(s)[k][j] in s
    decreases |s|
  {
    if s == [] {
    } else if IsSpace(s[0]) {
      WordsChars(s[1..]);
      forall k, j | 0 <= k < |Words(s)| && 0 <= j < |Words(s)[k]|
        ensures Words(s)[k][j] in s
      {
        assert Words(s)[k][j] in s[1..];
      }
    } else {
      var e := WordEnd(s);
      WordsChars(s[e..]);
      forall k, j | 0 <= k < |Words(s)| && 0 <= j < |Words(s)[k]|
        ensures Words(s)[k][j] in s
      {
        if k == 0 {
          assert Words(s)[k][j] == s[j];
        } else {
          assert Words(s)[k] == Words(s[e..])[k - 1];
          assert Words(s)[k][j] in s[e..];
        }
      }
    }
  }

  /** Every character of `' '.join(ws)` is a space or a character of some word. */
  lemma {:induction false} JoinChars(ws: seq<string>)
    ensures forall i :: 0 <= i < |Join(ws)| ==>
              Join(ws)[i] == ' ' || exists k, j :: 0 <= k < |ws| && 0 <= j < |ws[k]| && Join(ws)[i] == ws[k][j]
  {
    if |ws| > 1 {
      JoinChars(ws[1..]);
      var r := Join(ws);
      forall i | 0 <= i < |r|
        ensures r[i] == ' ' || exists k, j :: 0 <= k < |ws| && 0 <= j < |ws[k]| && r[i] == ws[k][j]
      {
        if i < |ws[0]| {
          assert r[i] == ws[0][i];
        } else if i > |ws[0]| {
          var i' := i - |ws[0]| - 1;
          assert r[i] == Join(ws[1..])[i'];
          if Join(ws[1..])[i'] != ' ' {
            var k, j :| 0 <= k < |ws[1..]| && 0 <= j < |ws[1..][k]| && Join(ws[1..])[i'] == ws[1..][k][j];
            assert r[i] == ws[k + 1][j];
          }
        }
      }
    } else if |ws| == 1 {
      forall i | 0 <= i < |Join(ws)|
        ensures Join(ws)[i] == ' ' || exists k, j :: 0 <= k < |ws| && 0 <= j < |ws[k]| && Join(ws)[i] == ws[k][j]
      {
        assert Join(ws)[i] == ws[0][i];
      }
    }
  }

  /** The join of non-empty space-free words starts and ends with a non-space. */
  lemma {:induction false} JoinEnds(ws: seq<string>)
    requires |ws| > 0
    requires forall k :: 0 <= k < |ws| ==> |ws[k]| > 0 && NoSpace(ws[k])
    ensures |Join(ws)| > 0 && !IsSpace(Join(ws)[0]) && !IsSpace(Join(ws)[|Join(ws)| - 1])
  {
    if |ws| > 1 {
      JoinEnds(ws[1..]);
      var t := Join(ws[1..]);
      assert Join(ws) == ws[0] + " " + t;
      assert Join(ws)[0] == ws[0][0];
      assert Join(ws)[|Join(ws)| - 1] == t[|t| - 1];
    }
  }

  /** `' '.join` of non-empty space-free words has the clean single-space shape. */
  lemma {:induction false} JoinClean(ws: seq<string>)
    requires forall k :: 0 <= k < |ws| ==> |ws[k]| > 0 && NoSpace(ws[k])
    ensures SpacesClean(Join(ws))
  {
    if |ws| > 1 {
      JoinClean(ws[1..]);
      JoinEnds(ws[1..]);
      var w, t := ws[0], Join(ws[1..]);
      var r := Join(ws);
      assert r == w + " " + t;
      forall i | 0 <= i < |r| && IsSpace(r[i])
        ensures r[i] == ' ' && 0 < i < |r| - 1 && !IsSpace(r[i + 1])
      {
        if i == |w| {
          assert r[i + 1] == t[0];
        } else if i > |w| {
          assert r[i] == t[i - |w| - 1];
          if i + 1 < |r| {
            assert r[i + 1] == t[i - |w|];
          }
        }
      }
    }
  }

  /** On a string of the clean shape, `' '.join(s.split())` gives the string back. */
  lemma {:induction false} JoinWordsOfClean(r: string)
    requires SpacesClean(r)
    ensures Join(Words(r)) == r
    decreases |r|
  {
    if r != [] {
      var e := WordEnd(r);
      assert Words(r) == [r[..e]] + Words(r[e..]);
      if e < |r| {
        var rest := r[e + 1..];
        CleanAfterSpace(r, e);
        assert r[e..][1..] == rest;
        JoinWordsOfClean(rest);
        JoinCons(r[..e], Words(rest));
        assert r == r[..e] + " " + rest;
      } else {
        assert r[..e] == r;
      }
    }
  }

  lemma JoinCons(w: string, ws: seq<string>)
    requires ws != []
    ensures Join([w] + ws) == w + " " + Join(ws)
  {
    assert ([w] + ws)[1..] == ws;
  }

  /** After a space of a clean string comes a clean, non-empty string that starts with a
      word. */
  lemma CleanAfterSpace(r: string, e: nat)
    requires SpacesClean(r) && e < |r| && IsSpace(r[e])
    ensures r[e] == ' ' && e + 1 < |r| && !IsSpace(r[e + 1])
    ensures SpacesClean(r[e + 1..]) && Words(r[e..]) == Words(r[e + 1..]) && Words(r[e + 1..]) != []
  {
    var rest := r[e + 1..];
    assert r[e..][1..] == rest;
    forall i | 0 <= i < |rest| && IsSpace(rest[i])
      ensures rest[i] == ' ' && 0 < i < |rest| - 1 && !IsSpace(rest[i + 1])
    {
      assert rest[i] == r[e + 1 + i];
      assert rest[i + 1] == r[e + 2 + i];
    }
  }

  // ---------------------------------------------------------------------------------
  // What split() and join compute
  // ---------------------------------------------------------------------------------

  /** The end of the leading run of non-space characters is the only position that
      ends it. */
  lemma WordEndUnique(s: string, e: nat)
    requires e <= |s|
    requires forall k :: 0 <= k < e ==> !IsSpace(s[k])
    requires e == |s| || IsSpace(s[e])
    ensures WordEnd(s) == e
  {
  }

  /** A text without whitespace is a single token of `split()`, or none when it is empty. */
  lemma WordsOfToken(s: string)
    requires NoSpace(s)
    ensures Words(s) == if s == [] then [] else [s]
  {
    if s != [] {
      WordEndUnique(s, |s|);
      assert s[..|s|] == s;
      assert s[|s|..] == [];
    }
  }

  /** `split()` cuts at every whitespace character: the tokens of a + [c] + b are the
      tokens of a followed by the tokens of b. With WordsOfToken this says that the
      tokens are exactly the maximal runs of non-whitespace characters, in order. */
  lemma {:induction false} WordsSplit(a: string, c: char, b: string)
    requires IsSpace(c)
    ensures Words(a + [c] + b) == Words(a) + Words(b)
    decreases |a|
  {
    if a == [] {
      assert (a + [c] + b)[1..] == b;
    } else if IsSpace(a[0]) {
      WordsSplit(a[1..], c, b);
      WordsSplitSpace(a, c, b);
    } else {
      var e := WordEnd(a);
      var q := [c] + b;
      assert a + [c] + b == a + q && a[e..] + [c] + b == a[e..] + q;
      WordsSplit(a[e..], c, b);
      WordsSplitToken(a, q, e, Words(b));
    }
  }

  /** The step of WordsSplit over a leading whitespace character of a. */
  lemma WordsSplitSpace(a: string, c: char, b: string)
    requires a != [] && IsSpace(a[0])
    requires Words(a[1..] + [c] + b) == Words(a[1..]) + Words(b)
    ensures Words(a + [c] + b) == Words(a) + Words(b)
  {
    assert (a + [c] + b)[1..] == a[1..] + [c] + b;
  }

  /** The step of WordsSplit over a leading token a[..e] of a, before text q that starts
      with whitespace. */
  lemma WordsSplitToken(a: string, q: string, e: nat, w: seq<string>)
    requires a != [] && !IsSpace(a[0]) && e == WordEnd(a)
    requires q != [] && IsSpace(q[0])
    requires Words(a[e..] + q) == Words(a[e..]) + w
    ensures Words(a + q) == Words(a) + w
  {
    WordsToken(a, q, e);
    WordsStep(a, e);
    AppendAssoc([a[..e]], Words(a[e..]), w);
  }

  /** Concatenation regroups. */
  lemma AppendAssoc<T>(x: seq<T>, y: seq<T>, z: seq<T>)
    ensures x + (y + z) == (x + y) + z
  {
  }

  /** Before text that starts with whitespace, the leading token of a stays a token. */
  lemma WordsToken(a: string, q: string, e: nat)
    requires a != [] && !IsSpace(a[0]) && e == WordEnd(a)
    requires q != [] && IsSpace(q[0])
    ensures Words(a + q) == [a[..e]] + Words(a[e..] + q)
  {
    WordEndAppend(a, q, e);
    SliceAppend(a, q, e);
    WordsStep(a + q, e);
  }

  /** Appending text that starts with whitespace does not move the end of a leading
      token that reaches the end. */
  lemma WordEndAppend(a: string, q: string, e: nat)
    requires e == WordEnd(a) && q != [] && IsSpace(q[0])
    ensures WordEnd(a + q) == e
  {
    var t := a + q;
    assert t[e] == if e == |a| then q[0] else a[e];
    WordEndUnique(t, e);
  }

  lemma SliceAppend(a: string, q: string, e: nat)
    requires e <= |a|
    ensures (a + q)[..e] == a[..e] && (a + q)[e..] == a[e..] + q
  {
  }

  /** A text starting with a token of length e splits into that token and the tokens of
      the rest. */
  lemma WordsStep(s: string, e: nat)
    requires s != [] && !IsSpace(s[0]) && e == WordEnd(s)
    ensures Words(s) == [s[..e]] + Words(s[e..])
  {
  }

  /** `' '.join` of the tokens of two token lists is the join of each, glued by a space. */
  lemma {:induction false} JoinAppend(u: seq<string>, v: seq<string>)
    requires forall k :: 0 <= k < |u| ==> |u[k]| > 0
    requires forall k :: 0 <= k < |v| ==> |v[k]| > 0
    ensures Join(u + v) == Glue(Join(u), Join(v))
    decreases |u|
  {
    if u == [] {
      assert u + v == v;
    } else if v == [] {
      assert u + v == u;
    } else {
      JoinStart(v);
      if |u| == 1 {
        JoinCons(u[0], v);
        assert u + v == [u[0]] + v;
      } else {
        var u' := u[1..];
        JoinAppend(u', v);
        JoinStart(u');
        assert u == [u[0]] + u';
        AppendAssoc([u[0]], u', v);
        JoinCons(u[0], u' + v);
      }
    }
  }

  /** The join of a non-empty list of non-empty tokens is not empty. */
  lemma JoinStart(ws: seq<string>)
    requires ws != [] && |ws[0]| > 0
    ensures Join(ws) != []
  {
  }
}
