/**
 * The scenarios of `tests/test_evaluation_utils.py` for the cascade of
 * `exact_match_score_normalized`: a date written in full matches the year or
 * the month and year it lies in, and nothing else.
 */
module EquivalenceCases {
  import opened Text
  import opened WordRemoval
  import opened Normalize
  import opened Dates
  import opened Equivalence

  /** A text whose lowering and punctuation removal already give a normal form needs nothing more. */
  lemma NormalizeVia(s: string, x: string)
    requires RemovePunc(Lower(s)) == x && NormalForm(x)
    ensures NormalizeAnswer(s) == x
  {
    ArticlesWordList();
    RemoveWordsIdentity(Articles, x);
    JoinWordsOfClean(x);
  }

  /** Punctuation removal keeps a punctuation-free tail as it is. */
  lemma {:induction false} PuncFreeTail(s: string, i: nat)
    requires i <= |s|
    requires forall j :: i <= j < |s| ==> !IsPunctuation(s[j])
    ensures RemovePuncFrom(s, i) == s[i..]
    decreases |s| - i
  {
    if i < |s| {
      PuncFreeTail(s, i + 1);
      assert s[i..] == [s[i]] + s[i + 1..];
    }
  }

  /** Punctuation removal drops the one punctuation character between two clean texts. */
  lemma {:induction false} PuncDropFrom(a: string, c: char, b: string, i: nat)
    requires i <= |a| && NoPunct(a) && NoPunct(b) && IsPunctuation(c)
    ensures RemovePuncFrom(a + [c] + b, i) == a[i..] + b
    decreases |a| - i
  {
    var s := a + [c] + b;
    if i < |a| {
      PuncDropFrom(a, c, b, i + 1);
      assert s[i] == a[i];
      assert a[i..] == [a[i]] + a[i + 1..];
    } else {
      assert s[i] == c;
      PuncFreeTail(s, i + 1);
      assert s[i + 1..] == b;
    }
  }

  lemma PuncDrop(a: string, c: char, b: string)
    requires NoPunct(a) && NoPunct(b) && IsPunctuation(c)
    ensures RemovePunc(a + [c] + b) == a + b
  {
    PuncDropFrom(a, c, b, 0);
  }

  /** A word, one space and a clean text that starts with a non-space keep single interior spaces. */
  lemma SpaceJoin(a: string, b: string)
    requires |a| > 0 && (forall i :: 0 <= i < |a| ==> !IsSpace(a[i]))
    requires |b| > 0 && !IsSpace(b[0]) && SpacesClean(b)
    ensures SpacesClean(a + [' '] + b)
  {
    var r := a + [' '] + b;
    forall i | 0 <= i < |r| && IsSpace(r[i]) ensures r[i] == ' ' && 0 < i < |r| - 1 && !IsSpace(r[i + 1]) {
      if i > |a| {
        assert r[i] == b[i - |a| - 1];
        assert r[i + 1] == b[i - |a|];
      }
    }
  }

  /** A text without spaces is clean. */
  lemma NoSpaceClean(a: string)
    requires forall i :: 0 <= i < |a| ==> !IsSpace(a[i])
    ensures SpacesClean(a)
  {
  }

  /** A clean text in which no word starts with `a` or `t` is in normal form. */
  lemma FormOf(x: string)
    requires NoUpper(x) && NoPunct(x) && SpacesClean(x)
    requires NoInitialFrom({'a', 't'}, x, 0)
    ensures NormalForm(x)
  {
    ArticlesWordList();
    NoInitialFree(Articles, {'a', 't'}, x);
  }

  lemma December()
    ensures MonthName(12) == "December"
  {
  }

  lemma DayTwo()
    ensures DayText(2) == "2"
  {
  }

  lemma Year2021()
    ensures YearText(2021) == "2021"
  {
  }

  lemma Year2020()
    ensures YearText(2020) == "2020"
  {
  }

  lemma FullDateText()
    ensures Render(MonthDayCommaYear, Date(2021, 12, 2)) == "December 2, 2021"
  {
    December();
    DayTwo();
    Year2021();
  }

  lemma YearText2021()
    ensures Render(YearOnly, Date(2021, 1, 1)) == "2021"
  {
    Year2021();
  }

  lemma YearText2020()
    ensures Render(YearOnly, Date(2020, 1, 1)) == "2020"
  {
    Year2020();
  }

  lemma MonthText2021()
    ensures Render(MonthYear, Date(2021, 12, 1)) == "December 2021"
  {
    December();
    Year2021();
  }

  lemma LowerFullDate()
    ensures Lower("December 2, 2021") == "december 2, 2021"
  {
  }

  lemma PuncFullDate()
    ensures RemovePunc("december 2, 2021") == "december 2 2021"
  {
    FullDatePieces();
    PuncDrop("december 2", ',', " 2021");
  }

  /** "december 2, 2021" is two punctuation-free pieces around a comma. */
  lemma FullDatePieces()
    ensures "december 2, 2021" == "december 2" + [','] + " 2021"
    ensures "december 2" + " 2021" == "december 2 2021"
    ensures NoPunct("december 2") && NoPunct(" 2021") && IsPunctuation(',')
  {
  }

  lemma FullDateInitials()
    ensures NoInitialFrom({'a', 't'}, "december 2 2021", 0)
  {
  }

  lemma FullDateChars()
    ensures NoUpper("december 2 2021") && NoPunct("december 2 2021")
  {
  }

  lemma FullDateSpaces()
    ensures SpacesClean("december 2 2021")
  {
    NoSpaceClean("2021");
    SpaceJoin("2", "2021");
    assert "2" + [' '] + "2021" == "2 2021";
    SpaceJoin("december", "2 2021");
    assert "december" + [' '] + "2 2021" == "december 2 2021";
  }

  lemma FullDateForm()
    ensures NormalForm("december 2 2021")
  {
    FullDateChars();
    FullDateSpaces();
    FullDateInitials();
    FormOf("december 2 2021");
  }

  lemma NormalizeFullDate()
    ensures NormalizeAnswer("December 2, 2021") == "december 2 2021"
  {
    LowerFullDate();
    PuncFullDate();
    FullDateForm();
    NormalizeVia("December 2, 2021", "december 2 2021");
  }

  lemma LowerMonth()
    ensures Lower("December 2021") == "december 2021"
  {
  }

  lemma PuncMonth()
    ensures RemovePunc("december 2021") == "december 2021"
  {
    RemovePuncIdentity("december 2021", 0);
  }

  lemma MonthInitials()
    ensures NoInitialFrom({'a', 't'}, "december 2021", 0)
  {
  }

  lemma MonthChars()
    ensures NoUpper("december 2021") && NoPunct("december 2021")
  {
  }

  lemma MonthSpaces()
    ensures SpacesClean("december 2021")
  {
    NoSpaceClean("2021");
    SpaceJoin("december", "2021");
    assert "december" + [' '] + "2021" == "december 2021";
  }

  lemma MonthForm()
    ensures NormalForm("december 2021")
  {
    MonthChars();
    MonthSpaces();
    MonthInitials();
    FormOf("december 2021");
  }

  lemma NormalizeMonth()
    ensures NormalizeAnswer("December 2021") == "december 2021"
  {
    LowerMonth();
    PuncMonth();
    MonthForm();
    NormalizeVia("December 2021", "december 2021");
  }

  lemma Year2020Form()
    ensures NormalizeAnswer("2020") == "2020"
  {
    ArticlesWordList();
    NoInitialFree(Articles, {'a', 't'}, "2020");
    NormalFormFixed("2020");
  }

  lemma Year2021Form()
    ensures NormalizeAnswer("2021") == "2021"
  {
    ArticlesWordList();
    NoInitialFree(Articles, {'a', 't'}, "2021");
    NormalFormFixed("2021");
  }

  lemma FullDateTextDiffers()
    ensures NormalizeAnswer("December 2, 2021") != NormalizeAnswer("2020")
  {
    NormalizeFullDate();
    Year2020Form();
  }

  lemma YearTextDiffers()
    ensures NormalizeAnswer("2021") != NormalizeAnswer("December 2021")
  {
    Year2021Form();
    NormalizeMonth();
  }

  /** tests/test_evaluation_utils.py:5 */
  lemma YearMatchesYear()
    ensures ExactMatchScoreNormalized("2021", "2021", "")
  {
    ExactImpliesNormalized("2021", "2021", "");
  }

  /** tests/test_evaluation_utils.py:6 */
  lemma FullDateMatchesYear()
    ensures ExactMatchScoreNormalized("December 2, 2021", "2021", "")
  {
    FullDateYear2021();
    NormalizedCascade("December 2, 2021", "2021", "");
  }

  /** The date of "December 2, 2021" falls in the year 2021. */
  lemma FullDateYear2021()
    ensures ExactMatchDate("December 2, 2021", "2021")
  {
    DateCascade(MonthDayCommaYear, YearOnly, Date(2021, 12, 2), Date(2021, 1, 1));
    FullDateText();
    YearText2021();
  }

  /** tests/test_evaluation_utils.py:7 */
  lemma FullDateMissesOtherYear()
    ensures !ExactMatchScoreNormalized("December 2, 2021", "2020", "")
  {
    FullDateNotYear2020();
    FullDateTextDiffers();
    NormalizedCascade("December 2, 2021", "2020", "");
  }

  /** The date of "December 2, 2021" falls in another year than 2020. */
  lemma FullDateNotYear2020()
    ensures !ExactMatchDate("December 2, 2021", "2020")
  {
    DateCascade(MonthDayCommaYear, YearOnly, Date(2021, 12, 2), Date(2020, 1, 1));
    FullDateText();
    YearText2020();
  }

  /** tests/test_evaluation_utils.py:8 */
  lemma FullDateMatchesMonth()
    ensures ExactMatchScoreNormalized("December 2, 2021", "December 2021", "")
  {
    FullDateMonth2021();
    NormalizedCascade("December 2, 2021", "December 2021", "");
  }

  /** The date of "December 2, 2021" falls in December 2021. */
  lemma FullDateMonth2021()
    ensures ExactMatchDate("December 2, 2021", "December 2021")
  {
    DateCascade(MonthDayCommaYear, MonthYear, Date(2021, 12, 2), Date(2021, 12, 1));
    FullDateText();
    MonthText2021();
  }

  /** tests/test_evaluation_utils.py:9 */
  lemma YearMissesMonth()
    ensures !ExactMatchScoreNormalized("2021", "December 2021", "")
  {
    DateCascade(YearOnly, MonthYear, Date(2021, 1, 1), Date(2021, 12, 1));
    YearText2021();
    MonthText2021();
    YearTextDiffers();
    NormalizedCascade("2021", "December 2021", "");
  }

  /** tests/test_evaluation_utils.py:10 */
  lemma MonthMatchesMonth()
    ensures ExactMatchScoreNormalized("October 2021", "October 2021", "")
  {
    ExactImpliesNormalized("October 2021", "October 2021", "");
  }
}
