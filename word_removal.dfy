/** `regex.sub(r'\b(w1|w2|...)\b', ' ', text)`: every whole-word occurrence of one of a
    fixed list of words is replaced by a single space. The replacement scans the ORIGINAL
    text left to right, as `re.sub` does, and `\b` is decided on the original text; the
    alternatives are tried in order, so `a|an` backtracks to `an` when `\b` fails after `a`.

    The main result, `RemoveWordsFree`, is that no listed word is left standing as a
    whole word in the output, although the replacement changes the text around it. */
module WordRemoval {
  import opened Wrappers
  import opened Text

  /** The alternatives of the pattern: non-empty words made of `\w` characters. */
  predicate WordList(ws: seq<string>) {
    forall k :: 0 <= k < |ws| ==> |ws[k]| > 0 && forall j :: 0 <= j < |ws[k]| ==> IsWordChar(ws[k][j])
  }

  // ---------------------------------------------------------------------------------
  // The scanner, written over positions of the original text
  // ---------------------------------------------------------------------------------

  /** Regex `\b` at position p: a word character on exactly one side. */
  predicate Boundary(s: string, p: nat)
    requires p <= |s|
  {
    (p > 0 && IsWordChar(s[p - 1])) != (p < |s| && IsWordChar(s[p]))
  }

  /** The characters w[j..] appear in s from position i + j on. */
  predicate CharsMatch(w: string, s: string, i: nat, j: nat)
    requires j <= |w|
    decreases |w| - j
  {
    j == |w| || (i + j < |s| && s[i + j] == w[j] && CharsMatch(w, s, i, j + 1))
  }

  /** Length of the text the pattern matches at position i, trying alternatives k, k+1, ...
      in order; None when none of them matches there. */
  function FirstAlt(ws: seq<string>, s: string, i: nat, k: nat): (r: Option<nat>)
    requires i <= |s| && k <= |ws|
    ensures r.Some? ==> 0 < r.value && i + r.value <= |s|
    decreases |ws| - k
  {
    if k == |ws| then None
    else
      var w := ws[k];
      if |w| > 0 && i + |w| <= |s| && Boundary(s, i) && CharsMatch(w, s, i, 0) && Boundary(s, i + |w|)
      then Some(|w|)
      else FirstAlt(ws, s, i, k + 1)
  }

  /** The substitution applied to s[i..], the scanner standing at position i. */
  function ScanFrom(ws: seq<string>, s: string, i: nat): string
    requires i <= |s|
    decreases |s| - i
  {
    if i == |s| then []
    else match FirstAlt(ws, s, i, 0)
      case Some(n) => " " + ScanFrom(ws, s, i + n)
      case None => [s[i]] + ScanFrom(ws, s, i + 1)
  }

  /** A match at i is replaced by a space and the scan resumes after it. */
  lemma ScanMatched(ws: seq<string>, s: string, i: nat, n: nat)
    requires i < |s| && FirstAlt(ws, s, i, 0) == Some(n)
    ensures i + n <= |s| && ScanFrom(ws, s, i) == " " + ScanFrom(ws, s, i + n)
  {
  }

  /** Without a match at i the character there is copied. */
  lemma ScanCopied(ws: seq<string>, s: string, i: nat)
    requires i < |s| && FirstAlt(ws, s, i, 0).None?
    ensures ScanFrom(ws, s, i) == [s[i]] + ScanFrom(ws, s, i + 1)
  {
  }

  function RemoveWords(ws: seq<string>, s: string): (r: string)
    ensures |r| <= |s|
    ensures forall j :: 0 <= j < |r| ==> r[j] == ' ' || r[j] in s
  {
    ScanShape(ws, s, 0);
    ScanFrom(ws, s, 0)
  }

  // ---------------------------------------------------------------------------------
  // Whole-word occurrences, stated on strings
  // ---------------------------------------------------------------------------------

  /** Left of position p is not a word character; f says whether the start of t counts. */
  predicate LeftOpen(t: string, p: nat, f: bool)
    requires p <= |t|
  {
    if p == 0 then f else !IsWordChar(t[p - 1])
  }

  predicate RightOpen(t: string, q: nat)
    requires q <= |t|
  {
    q == |t| || !IsWordChar(t[q])
  }

  /** w stands as a whole word at position p of t. */
  predicate Occurs(w: string, t: string, p: nat, f: bool) {
    p + |w| <= |t| && t[p..p + |w|] == w && LeftOpen(t, p, f) && RightOpen(t, p + |w|)
  }

  /** No listed word stands as a whole word anywhere in t. */
  predicate Free(ws: seq<string>, t: string, f: bool) {
    forall p, k :: 0 <= p < |t| && 0 <= k < |ws| ==> !Occurs(ws[k], t, p, f)
  }

  predicate NoneAt0(ws: seq<string>, t: string, f: bool) {
    forall k :: 0 <= k < |ws| ==> !Occurs(ws[k], t, 0, f)
  }

  // ---------------------------------------------------------------------------------
  // The scanner agrees with the occurrence predicate
  // ---------------------------------------------------------------------------------

  lemma {:induction false} CharsMatchSlice(w: string, s: string, i: nat, j: nat)
    requires j <= |w| && i + j <= |s|
    ensures CharsMatch(w, s, i, j) <==> i + |w| <= |s| && s[i + j..i + |w|] == w[j..]
    decreases |w| - j
  {
    if j < |w| && i + j < |s| {
      CharsMatchSlice(w, s, i, j + 1);
      if i + |w| <= |s| && s[i + j..i + |w|] == w[j..] {
        assert s[i + j] == s[i + j..i + |w|][0];
        assert s[i + j + 1..i + |w|] == s[i + j..i + |w|][1..];
        assert w[j + 1..] == w[j..][1..];
      }
      if CharsMatch(w, s, i, j) {
        assert s[i + j..i + |w|] == [s[i + j]] + s[i + j + 1..i + |w|];
        assert w[j..] == [w[j]] + w[j + 1..];
      }
    }
  }

  /** For a listed word the pattern's `\b ... \b` is a whole-word occurrence. */
  lemma WordMatchIff(w: string, s: string, i: nat)
    requires |w| > 0 && forall j :: 0 <= j < |w| ==> IsWordChar(w[j])
    requires i <= |s|
    ensures (i + |w| <= |s| && Boundary(s, i) && CharsMatch(w, s, i, 0) && Boundary(s, i + |w|))
            <==> Occurs(w, s, i, true)
  {
    CharsMatchSlice(w, s, i, 0);
    if i + |w| <= |s| && s[i..i + |w|] == w {
      assert s[i] == w[0];
      assert s[i + |w| - 1] == w[|w| - 1];
    }
  }

  lemma {:induction false} FirstAltNone(ws: seq<string>, s: string, i: nat, k: nat)
    requires WordList(ws)
    requires i <= |s| && k <= |ws|
    ensures FirstAlt(ws, s, i, k).None? <==> forall k' :: k <= k' < |ws| ==> !Occurs(ws[k'], s, i, true)
    decreases |ws| - k
  {
    if k < |ws| {
      WordMatchIff(ws[k], s, i);
      FirstAltNone(ws, s, i, k + 1);
    }
  }

  /** Positions holding a non-word character are copied: no listed word starts there. */
  lemma ScanHead(ws: seq<string>, s: string, i: nat)
    requires WordList(ws)
    requires i < |s| && !IsWordChar(s[i])
    ensures ScanFrom(ws, s, i) == [s[i]] + ScanFrom(ws, s, i + 1)
  {
    FirstAltNone(ws, s, i, 0);
    forall k | 0 <= k < |ws| ensures !Occurs(ws[k], s, i, true) {
      if i + |ws[k]| <= |s| && s[i..i + |ws[k]|] == ws[k] {
        assert s[i] == ws[k][0];
      }
    }
    ScanCopied(ws, s, i);
  }

  /** Inside a word of the text nothing can match: a run of word characters that follows a
      word character is copied unchanged. */
  lemma {:induction false} RunCopied(ws: seq<string>, s: string, i: nat, m: nat)
    requires WordList(ws)
    requires 0 < i && i + m <= |s| && IsWordChar(s[i - 1])
    requires forall q :: i <= q < i + m ==> IsWordChar(s[q])
    ensures ScanFrom(ws, s, i) == s[i..i + m] + ScanFrom(ws, s, i + m)
    decreases m
  {
    if m > 0 {
      assert !Boundary(s, i);
      FirstAltNo(ws, s, i, 0);
      ScanCopied(ws, s, i);
      RunCopied(ws, s, i + 1, m - 1);
      ConsSliceAppend(s, i, i + m, ScanFrom(ws, s, i + m));
    }
  }

  /** s[i..j] + x is s[i] followed by s[i+1..j] + x. */
  lemma ConsSliceAppend(s: string, i: nat, j: nat, x: string)
    requires i < j <= |s|
    ensures s[i..j] + x == [s[i]] + (s[i + 1..j] + x)
  {
    assert s[i..j] == [s[i]] + s[i + 1..j];
  }

  lemma {:induction false} FirstAltNo(ws: seq<string>, s: string, i: nat, k: nat)
    requires i <= |s| && k <= |ws| && !Boundary(s, i)
    ensures FirstAlt(ws, s, i, k).None?
    decreases |ws| - k
  {
    if k < |ws| {
      FirstAltNo(ws, s, i, k + 1);
    }
  }

  /** Length of the run of word characters starting at position j. */
  function RunLength(s: string, j: nat): (m: nat)
    requires j <= |s|
    ensures j + m <= |s|
    ensures forall q :: j <= q < j + m ==> IsWordChar(s[q])
    ensures j + m == |s| || !IsWordChar(s[j + m])
    decreases |s| - j
  {
    if j < |s| && IsWordChar(s[j]) then 1 + RunLength(s, j + 1) else 0
  }

  lemma {:induction false} ScanShape(ws: seq<string>, s: string, i: nat)
    requires i <= |s|
    ensures |ScanFrom(ws, s, i)| <= |s| - i
    ensures forall j :: 0 <= j < |ScanFrom(ws, s, i)| ==> ScanFrom(ws, s, i)[j] == ' ' || ScanFrom(ws, s, i)[j] in s
    decreases |s| - i
  {
    if i < |s| {
      match FirstAlt(ws, s, i, 0)
      case Some(n) =>
        ScanMatched(ws, s, i, n);
        ScanShape(ws, s, i + n);
      case None =>
        ScanCopied(ws, s, i);
        ScanShape(ws, s, i + 1);
    }
  }

  // ---------------------------------------------------------------------------------
  // Occurrences in composed strings
  // ---------------------------------------------------------------------------------

  /** An occurrence past the first character of [c] + y is one in y. */
  lemma ShiftOccurs(w: string, c: char, y: string, p: nat, f: bool)
    requires p > 0
    ensures Occurs(w, [c] + y, p, f) <==> Occurs(w, y, p - 1, !IsWordChar(c))
  {
    var t := [c] + y;
    if p + |w| <= |t| {
      assert t[p..p + |w|] == y[p - 1..p - 1 + |w|];
      if p > 1 { assert t[p - 1] == y[p - 2]; }
      if p + |w| < |t| { assert t[p + |w|] == y[p - 1 + |w|]; }
    }
  }

  lemma ShiftFree(ws: seq<string>, c: char, y: string, f: bool)
    ensures Free(ws, [c] + y, f) <==> NoneAt0(ws, [c] + y, f) && Free(ws, y, !IsWordChar(c))
  {
    var t := [c] + y;
    if Free(ws, t, f) {
      var g := !IsWordChar(c);
      forall p, k | 0 <= p < |y| && 0 <= k < |ws| ensures !Occurs(ws[k], y, p, g) {
        ShiftOccurs(ws[k], c, y, p + 1, f);
      }
    }
    if NoneAt0(ws, t, f) && Free(ws, y, !IsWordChar(c)) {
      forall p, k | 0 <= p < |t| && 0 <= k < |ws| ensures !Occurs(ws[k], t, p, f) {
        if p > 0 { ShiftOccurs(ws[k], c, y, p, f); }
      }
    }
  }

  /** The start flag only matters when t begins with a word character. */
  lemma FlagIrrelevant(ws: seq<string>, t: string, f: bool, g: bool)
    requires WordList(ws)
    requires t == [] || !IsWordChar(t[0])
    ensures Free(ws, t, f) <==> Free(ws, t, g)
  {
    forall p, k | 0 <= p < |t| && 0 <= k < |ws|
      ensures Occurs(ws[k], t, p, f) <==> Occurs(ws[k], t, p, g)
    {
    }
  }

  /** A non-word character c splits x + [c] + y: occurrences are those of x and of y. */
  lemma {:induction false} SplitFree(ws: seq<string>, x: string, c: char, y: string, f: bool)
    requires WordList(ws) && !IsWordChar(c)
    ensures Free(ws, x + [c] + y, f) <==> Free(ws, x, f) && Free(ws, y, true)
    decreases |x|
  {
    if x == [] {
      assert x + [c] + y == [c] + y;
      ShiftFree(ws, c, y, f);
      NoneAt0NonWord(ws, [c] + y, f);
    } else {
      var c0, x' := x[0], x[1..];
      assert x + [c] + y == [c0] + (x' + [c] + y);
      assert x == [c0] + x';
      ShiftFree(ws, c0, x' + [c] + y, f);
      ShiftFree(ws, c0, x', f);
      SplitFree(ws, x', c, y, !IsWordChar(c0));
      Prefix0(ws, x, c, y, f);
    }
  }

  lemma NoneAt0NonWord(ws: seq<string>, t: string, f: bool)
    requires WordList(ws)
    requires t != [] && !IsWordChar(t[0])
    ensures NoneAt0(ws, t, f)
  {
    forall k | 0 <= k < |ws| ensures !Occurs(ws[k], t, 0, f) {
    }
  }

  /** An occurrence at the start of x + [c] + y cannot reach past the non-word c. */
  lemma Prefix0(ws: seq<string>, x: string, c: char, y: string, f: bool)
    requires WordList(ws) && !IsWordChar(c)
    ensures NoneAt0(ws, x + [c] + y, f) <==> NoneAt0(ws, x, f)
  {
    var t := x + [c] + y;
    forall k | 0 <= k < |ws| ensures Occurs(ws[k], t, 0, f) <==> Occurs(ws[k], x, 0, f) {
      var w := ws[k];
      if |w| <= |x| {
        assert t[..|w|] == x[..|w|];
        if |w| < |x| { assert t[|w|] == x[|w|]; }
        else { assert t[|w|] == c; }
      } else {
        assert |w| <= |t| ==> t[|x|] == c;
      }
    }
  }

  // ---------------------------------------------------------------------------------
  // What the substitution guarantees
  // ---------------------------------------------------------------------------------

  predicate LeftCtx(s: string, i: nat)
    requires i <= |s|
  {
    i == 0 || !IsWordChar(s[i - 1])
  }

  /** The step the scanner takes when nothing matches at i: no listed word can stand at
      the start of the output, because the output copies the run of word characters at i
      verbatim and a whole-word occurrence there would have been one in the text. */
  lemma CopiedStart(ws: seq<string>, s: string, i: nat)
    requires WordList(ws)
    requires i < |s| && FirstAlt(ws, s, i, 0).None?
    ensures NoneAt0(ws, [s[i]] + ScanFrom(ws, s, i + 1), LeftCtx(s, i))
  {
    var t := [s[i]] + ScanFrom(ws, s, i + 1);
    if !IsWordChar(s[i]) {
      NoneAt0NonWord(ws, t, LeftCtx(s, i));
    } else {
      var m := RunLength(s, i + 1);
      var rest := CopiedRun(ws, s, i, m);
      FirstAltNone(ws, s, i, 0);
      NoneAt0Copied(ws, s, i, m, rest);
    }
  }

  /** No listed word stands at the start of a copied run of word characters when none
      stands at the start of the run in the text. */
  lemma NoneAt0Copied(ws: seq<string>, s: string, i: nat, m: nat, rest: string)
    requires WordList(ws)
    requires i + 1 + m <= |s|
    requires forall q :: i <= q < i + 1 + m ==> IsWordChar(s[q])
    requires i + 1 + m == |s| ==> rest == []
    requires i + 1 + m < |s| ==> rest != [] && rest[0] == s[i + 1 + m] && !IsWordChar(s[i + 1 + m])
    requires forall k :: 0 <= k < |ws| ==> !Occurs(ws[k], s, i, true)
    ensures NoneAt0(ws, s[i..i + 1 + m] + rest, LeftCtx(s, i))
  {
    forall k | 0 <= k < |ws| ensures !Occurs(ws[k], s[i..i + 1 + m] + rest, 0, LeftCtx(s, i)) {
      if Occurs(ws[k], s[i..i + 1 + m] + rest, 0, LeftCtx(s, i)) {
        OccursInCopied(ws[k], s, i, m, rest);
      }
    }
  }

  /** The output at a word character i copies the word's remaining m characters and
      continues with a non-word character or nothing. */
  lemma CopiedRun(ws: seq<string>, s: string, i: nat, m: nat) returns (rest: string)
    requires WordList(ws)
    requires i < |s| && IsWordChar(s[i]) && m == RunLength(s, i + 1)
    ensures [s[i]] + ScanFrom(ws, s, i + 1) == s[i..i + 1 + m] + rest
    ensures i + 1 + m == |s| ==> rest == []
    ensures i + 1 + m < |s| ==> rest != [] && rest[0] == s[i + 1 + m]
  {
    RunCopied(ws, s, i + 1, m);
    rest := ScanFrom(ws, s, i + 1 + m);
    if i + 1 + m < |s| {
      ScanHead(ws, s, i + 1 + m);
    }
    ConsSliceAppend(s, i, i + 1 + m, rest);
  }

  /** A whole word at the start of s[i..i+1+m] + rest, where the run of word characters
      s[i..i+1+m] ends at the end of the text or before the non-word character rest
      begins with, is a whole word of the text. */
  lemma OccursInCopied(w: string, s: string, i: nat, m: nat, rest: string)
    requires |w| > 0 && forall j :: 0 <= j < |w| ==> IsWordChar(w[j])
    requires i + 1 + m <= |s|
    requires forall q :: i <= q < i + 1 + m ==> IsWordChar(s[q])
    requires i + 1 + m == |s| ==> rest == []
    requires i + 1 + m < |s| ==> rest != [] && rest[0] == s[i + 1 + m] && !IsWordChar(s[i + 1 + m])
    requires Occurs(w, s[i..i + 1 + m] + rest, 0, LeftCtx(s, i))
    ensures Occurs(w, s, i, true)
  {
    var t := s[i..i + 1 + m] + rest;
    assert |t| > m + 1 ==> !IsWordChar(t[m + 1]);
    if |w| > m + 1 {
      assert false;
    } else if |w| < m + 1 {
      assert false;
    } else {
      assert s[i..i + |w|] == t[..|w|];
    }
  }

  /** The output from position i on holds no whole-word occurrence, with the start counted
      as open exactly when the text is open at i. */
  lemma {:induction false} ScanFree(ws: seq<string>, s: string, i: nat)
    requires WordList(ws)
    requires i <= |s|
    ensures Free(ws, ScanFrom(ws, s, i), LeftCtx(s, i))
    decreases |s| - i
  {
    if i < |s| {
      match FirstAlt(ws, s, i, 0)
      case Some(n) =>
        ScanFree(ws, s, i + n);
        MatchStepFree(ws, s, i, n);
      case None =>
        ScanFree(ws, s, i + 1);
        CopyStepFree(ws, s, i);
    }
  }

  /** A replaced match keeps the output free: the space it leaves is not a word character. */
  lemma MatchStepFree(ws: seq<string>, s: string, i: nat, n: nat)
    requires WordList(ws)
    requires i < |s| && FirstAlt(ws, s, i, 0) == Some(n)
    requires Free(ws, ScanFrom(ws, s, i + n), LeftCtx(s, i + n))
    ensures Free(ws, ScanFrom(ws, s, i), LeftCtx(s, i))
  {
    var rest := ScanFrom(ws, s, i + n);
    ScanMatched(ws, s, i, n);
    FirstAltSome(ws, s, i, 0);
    if i + n < |s| {
      ScanHead(ws, s, i + n);
    }
    FlagIrrelevant(ws, rest, LeftCtx(s, i + n), true);
    ShiftFree(ws, ' ', rest, LeftCtx(s, i));
    NoneAt0NonWord(ws, " " + rest, LeftCtx(s, i));
  }

  /** A copied character keeps the output free. */
  lemma CopyStepFree(ws: seq<string>, s: string, i: nat)
    requires WordList(ws)
    requires i < |s| && FirstAlt(ws, s, i, 0).None?
    requires Free(ws, ScanFrom(ws, s, i + 1), LeftCtx(s, i + 1))
    ensures Free(ws, ScanFrom(ws, s, i), LeftCtx(s, i))
  {
    ScanCopied(ws, s, i);
    ShiftFree(ws, s[i], ScanFrom(ws, s, i + 1), LeftCtx(s, i));
    CopiedStart(ws, s, i);
  }

  /** A match ends on a word character followed by a non-word character or the end. */
  lemma {:induction false} FirstAltSome(ws: seq<string>, s: string, i: nat, k: nat)
    requires WordList(ws)
    requires i <= |s| && k <= |ws| && FirstAlt(ws, s, i, k).Some?
    ensures var n := FirstAlt(ws, s, i, k).value;
      IsWordChar(s[i + n - 1]) && (i + n == |s| || !IsWordChar(s[i + n]))
    decreases |ws| - k
  {
    var w := ws[k];
    if |w| > 0 && i + |w| <= |s| && Boundary(s, i) && CharsMatch(w, s, i, 0) && Boundary(s, i + |w|) {
      CharsMatchSlice(w, s, i, 0);
      assert s[i + |w| - 1] == w[|w| - 1];
    } else {
      FirstAltSome(ws, s, i, k + 1);
    }
  }

  /** Main property: no listed word is left standing as a whole word. */
  lemma RemoveWordsFree(ws: seq<string>, s: string)
    requires WordList(ws)
    ensures Free(ws, RemoveWords(ws, s), true)
  {
    ScanFree(ws, s, 0);
  }

  /** Text with no whole-word occurrence is left unchanged. */
  lemma RemoveWordsIdentity(ws: seq<string>, s: string)
    requires WordList(ws) && Free(ws, s, true)
    ensures RemoveWords(ws, s) == s
  {
    ScanIdentity(ws, s, 0);
  }

  lemma {:induction false} ScanIdentity(ws: seq<string>, s: string, i: nat)
    requires WordList(ws) && Free(ws, s, true)
    requires i <= |s|
    ensures ScanFrom(ws, s, i) == s[i..]
    decreases |s| - i
  {
    if i < |s| {
      FirstAltNone(ws, s, i, 0);
      ScanCopied(ws, s, i);
      ScanIdentity(ws, s, i + 1);
      assert s[i..] == [s[i]] + s[i + 1..];
    }
  }

  // ---------------------------------------------------------------------------------
  // What the substitution replaces
  // ---------------------------------------------------------------------------------

  /** A whole word before a non-word character (or the end) is one of the text up to it. */
  lemma OccursBefore(w: string, a: string, q: string, i: nat)
    requires |w| > 0 && forall j :: 0 <= j < |w| ==> IsWordChar(w[j])
    requires q == [] || !IsWordChar(q[0])
    requires i < |a|
    ensures Occurs(w, a + q, i, true) <==> Occurs(w, a, i, true)
  {
    var t := a + q;
    if i + |w| <= |a| {
      assert t[i..i + |w|] == a[i..i + |w|];
      if i > 0 { assert t[i - 1] == a[i - 1]; }
      if i + |w| < |a| { assert t[i + |w|] == a[i + |w|]; }
    } else if i + |w| <= |t| {
      assert t[i..i + |w|][|a| - i] == q[0];
    }
  }

  /** A whole word after a non-word character (or the start) is one of the text from it. */
  lemma OccursAfter(w: string, p: string, b: string, j: nat)
    requires p == [] || !IsWordChar(p[|p| - 1])
    requires j < |b|
    ensures Occurs(w, p + b, |p| + j, true) <==> Occurs(w, b, j, true)
  {
    var t := p + b;
    if |p| + j + |w| <= |t| {
      assert t[|p| + j..|p| + j + |w|] == b[j..j + |w|];
      if j > 0 { assert t[|p| + j - 1] == b[j - 1]; }
      if j + |w| < |b| { assert t[|p| + j + |w|] == b[j + |w|]; }
    }
  }

  /** The pattern matches the same way at two positions of two texts where the same whole
      words stand. */
  lemma {:induction false} FirstAltAgree(ws: seq<string>, s: string, i: nat, t: string, j: nat, k: nat)
    requires WordList(ws) && i <= |s| && j <= |t| && k <= |ws|
    requires forall k' :: k <= k' < |ws| ==> (Occurs(ws[k'], s, i, true) <==> Occurs(ws[k'], t, j, true))
    ensures FirstAlt(ws, s, i, k) == FirstAlt(ws, t, j, k)
    decreases |ws| - k
  {
    if k < |ws| {
      WordMatchIff(ws[k], s, i);
      WordMatchIff(ws[k], t, j);
      FirstAltAgree(ws, s, i, t, j, k + 1);
    }
  }

  /** After a non-word character the pattern matches in p + b as it does in b. */
  lemma FirstAltAfter(ws: seq<string>, t: string, p: string, b: string, i: nat, j: nat)
    requires WordList(ws) && t == p + b && i == |p| + j && j < |b|
    requires p == [] || !IsWordChar(p[|p| - 1])
    ensures t[i] == b[j] && FirstAlt(ws, t, i, 0) == FirstAlt(ws, b, j, 0)
  {
    forall k | 0 <= k < |ws| ensures Occurs(ws[k], t, i, true) <==> Occurs(ws[k], b, j, true) {
      OccursAfter(ws[k], p, b, j);
    }
    FirstAltAgree(ws, t, i, b, j, 0);
  }

  /** Before a non-word character the pattern matches in a + q as it does in a. */
  lemma FirstAltBefore(ws: seq<string>, t: string, a: string, q: string, i: nat)
    requires WordList(ws) && t == a + q && i < |a|
    requires q == [] || !IsWordChar(q[0])
    ensures t[i] == a[i] && FirstAlt(ws, t, i, 0) == FirstAlt(ws, a, i, 0)
  {
    forall k | 0 <= k < |ws| ensures Occurs(ws[k], t, i, true) <==> Occurs(ws[k], a, i, true) {
      OccursBefore(ws[k], a, q, i);
    }
    FirstAltAgree(ws, t, i, a, i, 0);
  }

  /** The pattern's match at every position of s, as the scanner finds it there. */
  ghost function MatchTable(ws: seq<string>, s: string): (ms: seq<Option<nat>>)
    ensures |ms| == |s|
  {
    seq(|s|, i requires 0 <= i < |s| => FirstAlt(ws, s, i, 0))
  }

  /** The scan driven by a table of matches; a table entry that does not fit is copied. */
  ghost function TableScan(s: string, ms: seq<Option<nat>>, i: nat): string
    requires i <= |s| && |ms| == |s|
    decreases |s| - i
  {
    if i == |s| then []
    else if ms[i].Some? && 0 < ms[i].value && i + ms[i].value <= |s| then " " + TableScan(s, ms, i + ms[i].value)
    else [s[i]] + TableScan(s, ms, i + 1)
  }

  /** A fitting table entry at i is replaced by a space, and the table scan resumes after it. */
  lemma TableMatched(s: string, ms: seq<Option<nat>>, i: nat, n: nat)
    requires |ms| == |s| && i < |s| && ms[i] == Some(n) && 0 < n && i + n <= |s|
    ensures TableScan(s, ms, i) == " " + TableScan(s, ms, i + n)
  {
  }

  /** Without a table entry at i the table scan copies the character there. */
  lemma TableCopied(s: string, ms: seq<Option<nat>>, i: nat)
    requires |ms| == |s| && i < |s| && ms[i].None?
    ensures TableScan(s, ms, i) == [s[i]] + TableScan(s, ms, i + 1)
  {
  }

  /** The scanner is the scan driven by its own match table. */
  lemma {:induction false} ScanTable(ws: seq<string>, s: string, ms: seq<Option<nat>>, i: nat)
    requires ms == MatchTable(ws, s) && i <= |s|
    ensures ScanFrom(ws, s, i) == TableScan(s, ms, i)
    decreases |s| - i
  {
    if i < |s| {
      var m := FirstAlt(ws, s, i, 0);
      assert ms[i] == m;
      match m
      case Some(n) =>
        ScanMatched(ws, s, i, n);
        TableMatched(s, ms, i, n);
        ScanTable(ws, s, ms, i + n);
      case None =>
        ScanCopied(ws, s, i);
        TableCopied(s, ms, i);
        ScanTable(ws, s, ms, i + 1);
    }
  }

  /** Where t and its table, dropped to o, are b and its table, the scan of t from o + j
      is the scan of b from j. */
  lemma {:induction false} TableAgree(t: string, mt: seq<Option<nat>>, o: nat, b: string, mb: seq<Option<nat>>, i: nat, j: nat)
    requires |mt| == |t| && |mb| == |b| && o <= |t| && i == o + j && j <= |b|
    requires t[o..] == b && mt[o..] == mb
    ensures TableScan(t, mt, i) == TableScan(b, mb, j)
    decreases |b| - j
  {
    if j < |b| {
      assert t[o..][j] == t[i] && mt[o..][j] == mt[i];
      if mb[j].Some? && 0 < mb[j].value && j + mb[j].value <= |b| {
        TableAgree(t, mt, o, b, mb, i + mb[j].value, j + mb[j].value);
      } else {
        TableAgree(t, mt, o, b, mb, i + 1, j + 1);
      }
    }
  }

  /** Where t and its table agree with a and its table up to |a|, and no match of a runs
      past its end, the scan of t from i is the scan of a from i followed by the scan of t
      from |a|. */
  lemma {:induction false} TablePrefix(t: string, mt: seq<Option<nat>>, a: string, ma: seq<Option<nat>>, i: nat)
    requires |mt| == |t| && |ma| == |a| && |a| <= |t| && i <= |a|
    requires forall i' :: i <= i' < |a| ==> t[i'] == a[i'] && mt[i'] == ma[i']
    requires forall i' :: i <= i' < |a| && ma[i'].Some? ==> i' + ma[i'].value <= |a|
    ensures TableScan(t, mt, i) == TableScan(a, ma, i) + TableScan(t, mt, |a|)
    decreases |a| - i
  {
    if i < |a| {
      var r := TableScan(t, mt, |a|);
      assert t[i] == a[i] && mt[i] == ma[i];
      if ma[i].Some? && 0 < ma[i].value {
        var n := ma[i].value;
        TablePrefix(t, mt, a, ma, i + n);
        AppendAssoc(" ", TableScan(a, ma, i + n), r);
      } else {
        TablePrefix(t, mt, a, ma, i + 1);
        AppendAssoc([a[i]], TableScan(a, ma, i + 1), r);
      }
    }
  }

  /** Before a non-word character the tables of a + q and a agree, and a's matches stay
      inside a. */
  lemma TablesBefore(ws: seq<string>, t: string, a: string, q: string)
    requires WordList(ws) && t == a + q
    requires q == [] || !IsWordChar(q[0])
    ensures forall i' :: 0 <= i' < |a| ==> t[i'] == a[i'] && MatchTable(ws, t)[i'] == MatchTable(ws, a)[i']
    ensures forall i' :: 0 <= i' < |a| && MatchTable(ws, a)[i'].Some? ==> i' + MatchTable(ws, a)[i'].value <= |a|
  {
    forall i' | 0 <= i' < |a| ensures t[i'] == a[i'] && MatchTable(ws, t)[i'] == MatchTable(ws, a)[i'] {
      FirstAltBefore(ws, t, a, q, i');
    }
  }

  /** After a non-word character the tables of p + b and b agree. */
  lemma TablesAfter(ws: seq<string>, t: string, p: string, b: string)
    requires WordList(ws) && t == p + b
    requires p == [] || !IsWordChar(p[|p| - 1])
    ensures t[|p|..] == b && MatchTable(ws, t)[|p|..] == MatchTable(ws, b)
  {
    var mt, mb := MatchTable(ws, t), MatchTable(ws, b);
    forall j | 0 <= j < |b| ensures mt[|p|..][j] == mb[j] {
      FirstAltAfter(ws, t, p, b, |p| + j, j);
    }
  }

  /** Before a non-word character, the table scan of t = a + q is the table scan of a
      followed by the table scan of t from |a|. */
  lemma TableSplitBefore(ws: seq<string>, t: string, a: string, q: string)
    requires WordList(ws) && t == a + q
    requires q == [] || !IsWordChar(q[0])
    ensures TableScan(t, MatchTable(ws, t), 0)
         == TableScan(a, MatchTable(ws, a), 0) + TableScan(t, MatchTable(ws, t), |a|)
  {
    TablesBefore(ws, t, a, q);
    TablePrefix(t, MatchTable(ws, t), a, MatchTable(ws, a), 0);
  }

  /** After a non-word character, the table scan of t = p + b from |p| is the table scan
      of b. */
  lemma TableSplitAfter(ws: seq<string>, t: string, p: string, b: string)
    requires WordList(ws) && t == p + b
    requires p == [] || !IsWordChar(p[|p| - 1])
    ensures TableScan(t, MatchTable(ws, t), |p|) == TableScan(b, MatchTable(ws, b), 0)
  {
    TablesAfter(ws, t, p, b);
    TableAgree(t, MatchTable(ws, t), |p|, b, MatchTable(ws, b), |p|, 0);
  }

  /** Before a non-word character, the scan of t = a + q is the scan of a followed by
      the scan of t from |a|. */
  lemma SplitBefore(ws: seq<string>, t: string, a: string, q: string)
    requires WordList(ws) && t == a + q
    requires q == [] || !IsWordChar(q[0])
    ensures ScanFrom(ws, t, 0) == ScanFrom(ws, a, 0) + ScanFrom(ws, t, |a|)
  {
    var mt, ma := MatchTable(ws, t), MatchTable(ws, a);
    ScanTable(ws, t, mt, 0);
    ScanTable(ws, a, ma, 0);
    ScanTable(ws, t, mt, |a|);
    TableSplitBefore(ws, t, a, q);
  }

  /** After a non-word character, the scan of t = p + b from |p| is the scan of b. */
  lemma SplitAfter(ws: seq<string>, t: string, p: string, b: string)
    requires WordList(ws) && t == p + b
    requires p == [] || !IsWordChar(p[|p| - 1])
    ensures ScanFrom(ws, t, |p|) == ScanFrom(ws, b, 0)
  {
    var mt, mb := MatchTable(ws, t), MatchTable(ws, b);
    ScanTable(ws, t, mt, |p|);
    ScanTable(ws, b, mb, 0);
    TableSplitAfter(ws, t, p, b);
  }

  /** A non-word character splits the substitution: it is kept, and the text on either
      side of it is substituted on its own. */
  lemma RemoveWordsSplit(ws: seq<string>, a: string, c: char, b: string)
    requires WordList(ws) && !IsWordChar(c)
    ensures RemoveWords(ws, a + [c] + b) == RemoveWords(ws, a) + [c] + RemoveWords(ws, b)
  {
    var t := a + [c] + b;
    SplitBefore(ws, t, a, [c] + b);
    ScanHead(ws, t, |a|);
    SplitAfter(ws, t, a + [c], b);
  }

  /** A maximal run of word characters is replaced by one space exactly when it is a
      listed word, and kept otherwise. With RemoveWordsSplit this says what the
      substitution does to every text: each whole-word occurrence becomes a space and
      every other character stays, in order. */
  lemma RemoveWordsRun(ws: seq<string>, s: string)
    requires WordList(ws)
    requires forall j :: 0 <= j < |s| ==> IsWordChar(s[j])
    ensures RemoveWords(ws, s) == if s in ws then " " else s
  {
    if s == [] {
      assert forall k :: 0 <= k < |ws| ==> ws[k] != s;
    } else {
      assert s[0..|s|] == s;
      forall k | 0 <= k < |ws| ensures Occurs(ws[k], s, 0, true) <==> ws[k] == s {
        if |ws[k]| < |s| {
          assert IsWordChar(s[|ws[k]|]);
        }
      }
      FirstAltNone(ws, s, 0, 0);
      match FirstAlt(ws, s, 0, 0)
      case Some(n) =>
        FirstAltSome(ws, s, 0, 0);
        assert n == |s|;
        var k :| 0 <= k < |ws| && Occurs(ws[k], s, 0, true);
        assert ws[k] == s;
        ScanMatched(ws, s, 0, n);
      case None =>
        RunCopied(ws, s, 1, |s| - 1);
        assert s == [s[0]] + s[1..|s|];
    }
  }

  // ---------------------------------------------------------------------------------
  // Whole-word occurrences and Python's split/join
  // ---------------------------------------------------------------------------------

  /** Every token of `s.split()` is free of listed words when s is. */
  lemma {:induction false} FreeWords(ws: seq<string>, x: string)
    requires WordList(ws) && Free(ws, x, true)
    ensures forall k :: 0 <= k < |Words(x)| ==> Free(ws, Words(x)[k], true)
    decreases |x|
  {
    if x != [] {
      if IsSpace(x[0]) {
        assert x == [x[0]] + x[1..];
        ShiftFree(ws, x[0], x[1..], true);
        FreeWords(ws, x[1..]);
      } else {
        var e := WordEnd(x);
        if e < |x| {
          assert x == x[..e] + [x[e]] + x[e + 1..];
          SplitFree(ws, x[..e], x[e], x[e + 1..], true);
          FreeWords(ws, x[e + 1..]);
          assert x[e..] == [x[e]] + x[e + 1..];
          assert Words(x[e..]) == Words(x[e + 1..]);
        } else {
          assert x[..e] == x;
          assert x[e..] == [];
        }
      }
    }
  }

  /** `' '.join` of free tokens is free: the joining space separates them. */
  lemma {:induction false} FreeJoin(ws: seq<string>, toks: seq<string>)
    requires WordList(ws)
    requires forall k :: 0 <= k < |toks| ==> Free(ws, toks[k], true)
    ensures Free(ws, Join(toks), true)
  {
    if |toks| > 1 {
      FreeJoin(ws, toks[1..]);
      assert Join(toks) == toks[0] + [' '] + Join(toks[1..]);
      SplitFree(ws, toks[0], ' ', Join(toks[1..]), true);
    }
  }

  // ---------------------------------------------------------------------------------
  // A test that can be decided on a literal text
  // ---------------------------------------------------------------------------------

  /** No position from j on that begins a word of the text holds a character of `initials`. */
  predicate NoInitialFrom(initials: set<char>, s: string, j: nat)
    requires j <= |s|
    decreases |s| - j
  {
    j == |s| || (((j > 0 && IsWordChar(s[j - 1])) || s[j] !in initials) && NoInitialFrom(initials, s, j + 1))
  }

  /** A text where no word begins with the first letter of a listed word holds none of them. */
  lemma NoInitialFree(ws: seq<string>, initials: set<char>, s: string)
    requires WordList(ws)
    requires forall k :: 0 <= k < |ws| ==> ws[k][0] in initials
    requires NoInitialFrom(initials, s, 0)
    ensures Free(ws, s, true)
  {
    NoInitialAt(initials, s, 0);
    forall p, k | 0 <= p < |s| && 0 <= k < |ws| ensures !Occurs(ws[k], s, p, true) {
      if p + |ws[k]| <= |s| && s[p..p + |ws[k]|] == ws[k] {
        assert s[p] == ws[k][0];
      }
    }
  }

  lemma {:induction false} NoInitialAt(initials: set<char>, s: string, j: nat)
    requires j <= |s| && NoInitialFrom(initials, s, j)
    ensures forall p :: j <= p < |s| && LeftCtx(s, p) ==> s[p] !in initials
    decreases |s| - j
  {
    if j < |s| {
      NoInitialAt(initials, s, j + 1);
    }
  }
}
