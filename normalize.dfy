/** The SQuAD answer normaliser and plain exact match (utils/evaluation_utils.py):
    lower-case, drop ASCII punctuation, replace the whole words a/an/the by a space,
    then collapse whitespace. */
module Normalize {
  import opened Text
  import opened WordRemoval

  const Articles: seq<string> := ["a", "an", "the"]

  lemma ArticlesWordList()
    ensures WordList(Articles)
  {
  }

  // ---------------------------------------------------------------------------------
  // The four stages
  // ---------------------------------------------------------------------------------

  function LowerChar(c: char): char {
    if IsUpper(c) then (c as int + 32) as char else c
  }

  /** `text.lower()`, restricted to ASCII. */
  function Lower(s: string): (r: string)
    ensures |r| == |s|
    ensures forall i :: 0 <= i < |s| ==> r[i] == LowerChar(s[i])
  {
    seq(|s|, i requires 0 <= i < |s| => LowerChar(s[i]))
  }

  /** `''.join(ch for ch in text if ch not in set(string.punctuation))`, from position i on. */
  function RemovePuncFrom(s: string, i: nat): string
    requires i <= |s|
    decreases |s| - i
  {
    if i == |s| then []
    else if IsPunctuation(s[i]) then RemovePuncFrom(s, i + 1)
    else [s[i]] + RemovePuncFrom(s, i + 1)
  }

  function RemovePunc(s: string): (r: string)
    ensures NoPunct(r)
    ensures |r| <= |s|
    ensures forall j :: 0 <= j < |r| ==> r[j] in s
  {
    RemovePuncShape(s, 0);
    RemovePuncFrom(s, 0)
  }

  function RemoveArticles(s: string): string {
    RemoveWords(Articles, s)
  }

  /** `' '.join(text.split())` */
  function WhiteSpaceFix(s: string): (r: string)
    ensures SpacesClean(r)
  {
    JoinClean(Words(s));
    Join(Words(s))
  }

  predicate NoUpper(s: string) { forall i :: 0 <= i < |s| ==> !IsUpper(s[i]) }

  predicate NoPunct(s: string) { forall i :: 0 <= i < |s| ==> !IsPunctuation(s[i]) }

  /** What a normalised answer looks like: lower-case, no punctuation, no whole-word
      article, single interior spaces only. */
  predicate NormalForm(r: string) {
    NoUpper(r) && NoPunct(r) && Free(Articles, r, true) && SpacesClean(r)
  }

  /** `normalize_answer(s)`: lower, then punctuation, then articles, then whitespace. */
  function NormalizeAnswer(s: string): (r: string)
    ensures NormalForm(r)
    ensures forall k :: 0 <= k < |Words(r)| ==> Words(r)[k] !in Articles
    ensures |r| <= |s|
  {
    var r := WhiteSpaceFix(RemoveArticles(RemovePunc(Lower(s))));
    NormalizeAnswerForm(s);
    r
  }

  /** `exact_match_score(prediction, ground_truth, question)`; the question is unused. */
  function ExactMatchScore(prediction: string, groundTruth: string, question: string): bool {
    NormalizeAnswer(prediction) == NormalizeAnswer(groundTruth)
  }

  // ---------------------------------------------------------------------------------
  // Lemmas
  // ---------------------------------------------------------------------------------

  lemma {:induction false} RemovePuncShape(s: string, i: nat)
    requires i <= |s|
    ensures NoPunct(RemovePuncFrom(s, i))
    ensures |RemovePuncFrom(s, i)| <= |s| - i
    ensures forall j :: 0 <= j < |RemovePuncFrom(s, i)| ==> RemovePuncFrom(s, i)[j] in s
    decreases |s| - i
  {
    if i < |s| {
      RemovePuncShape(s, i + 1);
    }
  }

  lemma {:induction false} RemovePuncIdentity(s: string, i: nat)
    requires i <= |s| && NoPunct(s)
    ensures RemovePuncFrom(s, i) == s[i..]
    decreases |s| - i
  {
    if i < |s| {
      RemovePuncIdentity(s, i + 1);
      assert s[i..] == [s[i]] + s[i + 1..];
    }
  }

  /** In the length of `s.split()` joined back, no characters are added. */
  lemma {:induction false} WordsJoinLength(s: string)
    ensures |Join(Words(s))| <= |s|
    decreases |s|
  {
    if s != [] {
      if IsSpace(s[0]) {
        WordsJoinLength(s[1..]);
      } else {
        var e := WordEnd(s);
        WordsJoinLength(s[e..]);
        if e < |s| {
          assert s[e..][1..] == s[e + 1..];
          assert Words(s[e..]) == Words(s[e + 1..]);
          WordsJoinLength(s[e + 1..]);
        }
      }
    }
  }

  lemma NormalizeAnswerForm(s: string)
    ensures var r := WhiteSpaceFix(RemoveArticles(RemovePunc(Lower(s))));
      NormalForm(r) && |r| <= |s| && forall k :: 0 <= k < |Words(r)| ==> Words(r)[k] !in Articles
  {
    var x1 := Lower(s);
    var x2 := RemovePunc(x1);
    var x3 := RemoveArticles(x2);
    var ws := Words(x3);
    var r := Join(ws);
    ArticlesWordList();
    // characters
    assert NoUpper(x2) by {
      forall j | 0 <= j < |x2| ensures !IsUpper(x2[j]) {
        var c := x2[j];
        assert c in x1;
      }
    }
    assert NoUpper(x3) && NoPunct(x3) by {
      forall j | 0 <= j < |x3| ensures !IsUpper(x3[j]) && !IsPunctuation(x3[j]) {
        if x3[j] != ' ' {
          var c := x3[j];
          assert c in x2;
          var q :| 0 <= q < |x2| && x2[q] == c;
        }
      }
    }
    WordsChars(x3);
    JoinChars(ws);
    assert NoUpper(r) && NoPunct(r) by {
      forall i | 0 <= i < |r| ensures !IsUpper(r[i]) && !IsPunctuation(r[i]) {
        if r[i] != ' ' {
          var k, j :| 0 <= k < |ws| && 0 <= j < |ws[k]| && r[i] == ws[k][j];
          assert ws[k][j] in x3;
        }
      }
    }
    // articles
    RemoveWordsFree(Articles, x2);
    FreeWords(Articles, x3);
    FreeJoin(Articles, ws);
    NoArticleToken(r);
    WordsJoinLength(x3);
  }

  /** A text free of whole-word articles has no article among its tokens. */
  lemma NoArticleToken(r: string)
    requires Free(Articles, r, true)
    ensures forall k :: 0 <= k < |Words(r)| ==> Words(r)[k] !in Articles
  {
    ArticlesWordList();
    FreeWords(Articles, r);
    forall k | 0 <= k < |Words(r)| ensures Words(r)[k] !in Articles {
      var t := Words(r)[k];
      if t in Articles {
        var a :| 0 <= a < |Articles| && Articles[a] == t;
        assert t[0..|t|] == t;
        assert Occurs(Articles[a], t, 0, true);
      }
    }
  }

  /** A normalised answer is its own normalisation. */
  lemma NormalFormFixed(r: string)
    requires NormalForm(r)
    ensures NormalizeAnswer(r) == r
  {
    assert Lower(r) == r;
    RemovePuncIdentity(r, 0);
    ArticlesWordList();
    RemoveWordsIdentity(Articles, r);
    JoinWordsOfClean(r);
  }

  /** Normalising twice is normalising once. */
  lemma NormalizeIdempotent(s: string)
    ensures NormalizeAnswer(NormalizeAnswer(s)) == NormalizeAnswer(s)
  {
    NormalFormFixed(NormalizeAnswer(s));
  }

  /** Exact match is an equivalence relation on answers and never looks at the question. */
  lemma ExactMatchScoreProperties(p: string, g: string, h: string, q: string, q': string)
    ensures ExactMatchScore(p, p, q)
    ensures ExactMatchScore(p, g, q) == ExactMatchScore(g, p, q)
    ensures ExactMatchScore(p, g, q) && ExactMatchScore(g, h, q) ==> ExactMatchScore(p, h, q)
    ensures ExactMatchScore(p, g, q) == ExactMatchScore(p, g, q')
  {
  }

  /** Two answers match exactly iff they normalise to the same normal-form string, and a
      normal-form answer matches exactly the answers that normalise to it. */
  lemma ExactMatchNormalForm(p: string, g: string, q: string)
    requires NormalForm(g)
    ensures ExactMatchScore(p, g, q) <==> NormalizeAnswer(p) == g
  {
    NormalFormFixed(g);
  }

  // ---------------------------------------------------------------------------------
  // What each stage keeps, and what normalisation ignores
  // ---------------------------------------------------------------------------------

  /** The scan of p + b from |p| + j is the scan of b from j. */
  lemma {:induction false} RemovePuncShift(p: string, b: string, i: nat, j: nat)
    requires i == |p| + j && j <= |b|
    ensures RemovePuncFrom(p + b, i) == RemovePuncFrom(b, j)
    decreases |b| - j
  {
    if j < |b| {
      assert (p + b)[i] == b[j];
      RemovePuncShift(p, b, i + 1, j + 1);
    }
  }

  lemma {:induction false} RemovePuncAppend(a: string, b: string, i: nat)
    requires i <= |a|
    ensures RemovePuncFrom(a + b, i) == RemovePuncFrom(a, i) + RemovePuncFrom(b, 0)
    decreases |a| - i
  {
    if i == |a| {
      RemovePuncShift(a, b, i, 0);
    } else {
      assert (a + b)[i] == a[i];
      RemovePuncAppend(a, b, i + 1);
      AppendAssoc([a[i]], RemovePuncFrom(a, i + 1), RemovePuncFrom(b, 0));
    }
  }

  /** `remove_punc` keeps exactly the characters that are not ASCII punctuation, in
      order: it distributes over concatenation, and keeps a single character iff it is
      not punctuation. */
  lemma RemovePuncFilter(a: string, b: string, c: char)
    ensures RemovePunc(a + b) == RemovePunc(a) + RemovePunc(b)
    ensures RemovePunc([c]) == if IsPunctuation(c) then [] else [c]
  {
    RemovePuncAppend(a, b, 0);
    assert RemovePuncFrom([c], 1) == [];
  }

  /** Lower-casing works character by character, and lower-casing twice is lower-casing
      once. */
  lemma LowerAppend(a: string, b: string)
    ensures Lower(a + b) == Lower(a) + Lower(b)
    ensures Lower(Lower(a)) == Lower(a)
  {
  }

  /** `' '.join(text.split())` of a text cut at a whitespace character is the normal
      spacing of each side, glued by one space. */
  lemma WhiteSpaceFixSplit(a: string, c: char, b: string)
    requires IsSpace(c)
    ensures WhiteSpaceFix(a + [c] + b) == Glue(WhiteSpaceFix(a), WhiteSpaceFix(b))
  {
    WordsSplit(a, c, b);
    JoinAppend(Words(a), Words(b));
  }

  /** A text without whitespace keeps its spacing. */
  lemma WhiteSpaceFixToken(s: string)
    requires NoSpace(s)
    ensures WhiteSpaceFix(s) == s
  {
    WordsOfToken(s);
  }

  /** Lower-casing and dropping punctuation work around a character c that neither
      changes: the text is cut at c. */
  lemma CleanAround(a: string, c: char, b: string)
    requires !IsUpper(c)
    ensures RemovePunc(Lower(a + [c] + b)) == RemovePunc(Lower(a)) + RemovePunc([c]) + RemovePunc(Lower(b))
  {
    var la, lb := Lower(a), Lower(b);
    assert a + [c] + b == a + ([c] + b);
    LowerAppend(a, [c] + b);
    LowerAppend([c], b);
    assert Lower([c]) == [c];
    assert la + ([c] + lb) == la + [c] + lb;
    RemovePuncFilter(la, [c] + lb, c);
    RemovePuncFilter([c], lb, c);
    AppendAssoc(RemovePunc(la), RemovePunc([c]), RemovePunc(lb));
  }

  /** Normalising a text cut at a whitespace character normalises each side and glues
      the two by one space. */
  lemma NormalizeAtSpace(a: string, c: char, b: string)
    requires IsSpace(c)
    ensures NormalizeAnswer(a + [c] + b) == Glue(NormalizeAnswer(a), NormalizeAnswer(b))
  {
    var pa, pb := RemovePunc(Lower(a)), RemovePunc(Lower(b));
    CleanAround(a, c, b);
    RemovePuncFilter([], [], c);
    ArticlesWordList();
    RemoveWordsSplit(Articles, pa, c, pb);
    WhiteSpaceFixSplit(RemoveArticles(pa), c, RemoveArticles(pb));
  }

  /** A lone article, in any case, normalises to the empty answer. */
  lemma NormalizeArticle(w: string)
    requires Lower(w) in Articles
    ensures NormalizeAnswer(w) == []
  {
    var l := Lower(w);
    RemovePuncIdentity(l, 0);
    assert l[0..] == l;
    ArticlesWordList();
    RemoveWordsRun(Articles, l);
    assert Words(" ") == Words([]) by { assert " "[1..] == []; }
  }

  /** Normalisation ignores case: an answer normalises as its lower-cased form does, so
      answers equal up to case match exactly. */
  lemma NormalizeIgnoresCase(x: string, y: string, q: string)
    requires Lower(x) == Lower(y)
    ensures NormalizeAnswer(Lower(x)) == NormalizeAnswer(x)
    ensures ExactMatchScore(x, y, q)
  {
    LowerAppend(x, []);
  }

  /** Normalisation ignores each ASCII punctuation character, wherever it stands. */
  lemma NormalizeDropsPunct(a: string, c: char, b: string, q: string)
    requires IsPunctuation(c)
    ensures NormalizeAnswer(a + [c] + b) == NormalizeAnswer(a + b)
    ensures ExactMatchScore(a + [c] + b, a + b, q)
  {
    DropPunct(a, c, b);
  }

  lemma DropPunct(a: string, c: char, b: string)
    requires IsPunctuation(c)
    ensures RemovePunc(Lower(a + [c] + b)) == RemovePunc(Lower(a + b))
  {
    CleanAround(a, c, b);
    RemovePuncFilter(Lower(a), Lower(b), c);
    LowerAppend(a, b);
    assert RemovePunc(Lower(a)) + [] == RemovePunc(Lower(a));
  }

  /** Normalisation ignores the kind and amount of whitespace: any whitespace character
      counts as one space, a run of two counts as one, and whitespace at either end is
      dropped. */
  lemma NormalizeIgnoresSpacing(a: string, c: char, d: char, b: string, q: string)
    requires IsSpace(c) && IsSpace(d)
    ensures NormalizeAnswer(a + [c] + b) == NormalizeAnswer(a + " " + b)
    ensures NormalizeAnswer(a + [c, d] + b) == NormalizeAnswer(a + [c] + b)
    ensures NormalizeAnswer([c] + b) == NormalizeAnswer(b)
    ensures NormalizeAnswer(a + [c]) == NormalizeAnswer(a)
    ensures ExactMatchScore(a + [c] + b, a + " " + b, q)
    ensures ExactMatchScore(a + [c, d] + b, a + [c] + b, q)
  {
    assert a + " " + b == a + [' '] + b;
    assert a + [c, d] + b == a + [c] + ([d] + b);
    assert [] + [d] + b == [d] + b && [] + [c] + b == [c] + b;
    assert a + [c] + [] == a + [c];
    NormalizeAtSpace(a, c, b);
    NormalizeAtSpace(a, ' ', b);
    NormalizeAtSpace(a, c, [d] + b);
    NormalizeAtSpace([], d, b);
    NormalizeAtSpace([], c, b);
    NormalizeAtSpace(a, c, []);
  }

  /** Normalisation ignores a whole-word article, in any case, between whitespace or at
      either end of the answer. */
  lemma NormalizeDropsArticle(a: string, c: char, w: string, d: char, b: string, q: string)
    requires IsSpace(c) && IsSpace(d) && Lower(w) in Articles
    ensures NormalizeAnswer(a + [c] + w + [d] + b) == NormalizeAnswer(a + [c] + b)
    ensures NormalizeAnswer(w + [d] + b) == NormalizeAnswer(b)
    ensures NormalizeAnswer(a + [c] + w) == NormalizeAnswer(a)
    ensures ExactMatchScore(a + [c] + w + [d] + b, a + [c] + b, q)
  {
    assert a + [c] + w + [d] + b == a + [c] + (w + [d] + b);
    NormalizeArticle(w);
    NormalizeAtSpace(w, d, b);
    NormalizeAtSpace(a, c, w + [d] + b);
    NormalizeAtSpace(a, c, b);
    NormalizeAtSpace(a, c, w);
  }
}
