/** The expectations of `test_exact_match_amount` (tests/test_evaluation_utils.py), proved
    about the model with its English vocabulary. */
module AmountCases {
  import opened Wrappers
  import opened Text
  import opened NumberWords
  import opened Amounts

  /** a is not w, seen from the length or the first two characters. */
  predicate Differs(a: string, w: string) {
    |a| != |w| || (|a| >= 2 && |w| >= 2 && (a[0] != w[0] || a[1] != w[1]))
  }

  predicate DiffersAll(table: seq<string>, w: string) {
    forall q :: 0 <= q < |table| ==> Differs(table[q], w)
  }

  lemma NoNumberWord(w: string)
    requires DiffersAll(English.units, w) && DiffersAll(English.teens, w)
    requires DiffersAll(English.tens, w) && DiffersAll(English.ordinals, w)
    ensures w !in English.tens && WordValue(English, w).None?
  {
  }

  /** An English word that is no number word is kept. */
  lemma KeepWord(w: string, rest: string)
    requires WordRun(w) && EndsWord(rest)
    requires DiffersAll(English.units, w) && DiffersAll(English.teens, w)
    requires DiffersAll(English.tens, w) && DiffersAll(English.ordinals, w)
    ensures Parse(English, w + rest) == w + Parse(English, rest)
  {
    NoNumberWord(w);
    ParseWord(English, w, rest);
  }

  /** A word starting with a digit is kept. */
  lemma KeepDigits(w: string, rest: string)
    requires WordRun(w) && EndsWord(rest) && IsDigit(w[0])
    ensures Parse(English, w + rest) == w + Parse(English, rest)
  {
    EnglishLettered();
    NotNumberWord(English, w);
    ParseWord(English, w, rest);
  }

  lemma FloatOfNumeral(n: nat)
    ensures FloatOf(Numeral(n)) == Some(n as real)
  {
    assert CharIndex(Numeral(n), '.', 0) == |Numeral(n)|;
  }

  /** The amount of a text that parses to p, whose residue is the numeral of n. */
  lemma AmountFrom(s: string, p: string, n: nat)
    requires Parse(English, s) == p && KeepNumeric(p) == Numeral(n)
    ensures ExtractAmount(s) == Some(n as real)
  {
    FloatOfNumeral(n);
  }

  /** The amount of a text without letters whose residue is the numeral of n. */
  lemma LetterlessAmount(s: string, n: nat)
    requires NoLetters(s) && KeepNumeric(s) == Numeral(n)
    ensures ExtractAmount(s) == Some(n as real)
  {
    EnglishLettered();
    ParseNoLetters(English, s);
    FloatOfNumeral(n);
  }

  lemma NoWords() ensures Parse(English, []) == [] { }

  // Texts in digits

  lemma Amount25() ensures ExtractAmount("25") == Some(25 as real) {
    Residue25();
    LetterlessAmount("25", 25);
  }
  lemma Residue25() ensures KeepNumeric("25") == Numeral(25) { }

  lemma Amount250() ensures ExtractAmount("250") == Some(250 as real) {
    Residue250();
    LetterlessAmount("250", 250);
  }
  lemma Residue250() ensures KeepNumeric("250") == Numeral(250) { }

  lemma Amount1852() ensures ExtractAmount("1852") == Some(1852 as real) {
    Residue1852();
    LetterlessAmount("1852", 1852);
  }
  lemma Residue1852() ensures KeepNumeric("1852") == Numeral(1852) { }

  lemma AmountComma1852() ensures ExtractAmount("1,852") == Some(1852 as real) {
    ResidueComma1852();
    LetterlessAmount("1,852", 1852);
  }
  lemma ResidueComma1852() ensures KeepNumeric("1,852") == Numeral(1852) { }

  lemma Amount500() ensures ExtractAmount("500") == Some(500 as real) {
    Residue500();
    LetterlessAmount("500", 500);
  }
  lemma Residue500() ensures KeepNumeric("500") == Numeral(500) { }

  // '500 years'

  lemma Years1() ensures Parse(English, "years" + []) == "years" + Parse(English, []) { KeepWord("years", []); }
  lemma Years2() ensures Parse(English, " " + "years") == " " + Parse(English, "years") { ParseChar(English, ' ', "years"); }
  lemma Years3() ensures Parse(English, "500" + " years") == "500" + Parse(English, " years") { KeepDigits("500", " years"); }
  lemma YearsText() ensures "years" + [] == "years" && " " + "years" == " years" && "500" + " years" == "500 years" { }
  lemma ParseYears() ensures Parse(English, "500 years") == "500 years" {
    YearsText(); NoWords(); Years1(); Years2(); Years3();
  }
  lemma ResidueYears() ensures KeepNumeric("500 years") == Numeral(500) { }
  lemma Amount500Years() ensures ExtractAmount("500 years") == Some(500 as real) {
    ParseYears();
    ResidueYears();
    AmountFrom("500 years", "500 years", 500);
  }

  lemma ResidueNumeral(n: nat)
    ensures KeepNumeric(Numeral(n)) == Numeral(n)
  {
    KeepNumericIdentity(Numeral(n), 0);
    assert Numeral(n)[0..] == Numeral(n);
  }

  /** The amount of a text that parses to the numeral of n. */
  lemma NumeralAmount(s: string, n: nat)
    requires Parse(English, s) == Numeral(n)
    ensures ExtractAmount(s) == Some(n as real)
  {
    ResidueNumeral(n);
    FloatOfNumeral(n);
  }

  // Number words

  lemma TwentyIndex() ensures IndexOf(English.tens, "twenty") == Some(0) { }
  lemma FiveIndex() ensures IndexOf(English.units, "five") == Some(5) { }
  lemma TwoIndex() ensures IndexOf(English.units, "two") == Some(2) { }
  lemma FiveValue() ensures "five" !in English.tens && WordValue(English, "five") == Some(5) { }
  lemma TwoValue() ensures "two" !in English.tens && WordValue(English, "two") == Some(2) { }
  lemma EightValue() ensures "eight" !in English.tens && WordValue(English, "eight") == Some(8) { }
  lemma FifthValue() ensures "fifth" !in English.tens && WordValue(English, "fifth") == Some(5) {
    FifthNotUnit(); FifthNotTen(); FifthOrdinal();
  }
  lemma FifthNotUnit() ensures IndexOf(English.units, "fifth").None? && IndexOf(English.teens, "fifth").None? {
    assert DiffersAll(English.units, "fifth") && DiffersAll(English.teens, "fifth");
  }
  lemma FifthNotTen() ensures "fifth" !in English.tens && IndexOf(English.tens, "fifth").None? { }
  lemma FifthOrdinal() ensures IndexOf(English.ordinals, "fifth") == Some(4) { }

  // 'twenty five', 'twenty two', 'twenty-two'

  lemma TwentyFive1() ensures Parse(English, "twenty" + ([' '] + ("five" + []))) == Numeral(25) + Parse(English, []) {
    TwentyIndex(); FiveIndex();
    ParseCompound(English, "twenty", ' ', "five", [], 0, 5);
  }
  lemma TwentyFiveText() ensures "twenty" + ([' '] + ("five" + [])) == "twenty five" && Numeral(25) + [] == Numeral(25) { }
  lemma ParseTwentyFive() ensures Parse(English, "twenty five") == Numeral(25) {
    TwentyFiveText(); NoWords(); TwentyFive1();
  }
  lemma AmountTwentyFive() ensures ExtractAmount("twenty five") == Some(25 as real) {
    ParseTwentyFive();
    NumeralAmount("twenty five", 25);
  }

  lemma TwentyTwo1() ensures Parse(English, "twenty" + ([' '] + ("two" + []))) == Numeral(22) + Parse(English, []) {
    TwentyIndex(); TwoIndex();
    ParseCompound(English, "twenty", ' ', "two", [], 0, 2);
  }
  lemma TwentyTwoText() ensures "twenty" + ([' '] + ("two" + [])) == "twenty two" && Numeral(22) + [] == Numeral(22) { }
  lemma ParseTwentyTwo() ensures Parse(English, "twenty two") == Numeral(22) {
    TwentyTwoText(); NoWords(); TwentyTwo1();
  }
  lemma AmountTwentyTwo() ensures ExtractAmount("twenty two") == Some(22 as real) {
    ParseTwentyTwo();
    NumeralAmount("twenty two", 22);
  }

  lemma HyphenTwentyTwo1() ensures Parse(English, "twenty" + (['-'] + ("two" + []))) == Numeral(22) + Parse(English, []) {
    TwentyIndex(); TwoIndex();
    ParseCompound(English, "twenty", '-', "two", [], 0, 2);
  }
  lemma HyphenTwentyTwoText() ensures "twenty" + (['-'] + ("two" + [])) == "twenty-two" && Numeral(22) + [] == Numeral(22) { }
  lemma ParseHyphenTwentyTwo() ensures Parse(English, "twenty-two") == Numeral(22) {
    HyphenTwentyTwoText(); NoWords(); HyphenTwentyTwo1();
  }
  lemma AmountHyphenTwentyTwo() ensures ExtractAmount("twenty-two") == Some(22 as real) {
    ParseHyphenTwentyTwo();
    NumeralAmount("twenty-two", 22);
  }

  // 'eight', 'two'

  lemma Eight1() ensures Parse(English, "eight" + []) == Numeral(8) + Parse(English, []) {
    EightValue();
    ParseNumberWord(English, "eight", 8, []);
  }
  lemma EightText() ensures "eight" + [] == "eight" && Numeral(8) + [] == Numeral(8) { }
  lemma ParseEight() ensures Parse(English, "eight") == Numeral(8) {
    EightText(); NoWords(); Eight1();
  }
  lemma AmountEight() ensures ExtractAmount("eight") == Some(8 as real) {
    ParseEight();
    NumeralAmount("eight", 8);
  }

  lemma Two1() ensures Parse(English, "two" + []) == Numeral(2) + Parse(English, []) {
    TwoValue();
    ParseNumberWord(English, "two", 2, []);
  }
  lemma TwoText() ensures "two" + [] == "two" && Numeral(2) + [] == Numeral(2) { }
  lemma ParseTwo() ensures Parse(English, "two") == Numeral(2) {
    TwoText(); NoWords(); Two1();
  }
  lemma AmountTwo() ensures ExtractAmount("two") == Some(2 as real) {
    ParseTwo();
    NumeralAmount("two", 2);
  }

  // '18 chapters', '607 islands and islets', '2 Titles'

  lemma Chapters1() ensures Parse(English, "chapters" + []) == "chapters" + Parse(English, []) { KeepWord("chapters", []); }
  lemma Chapters2() ensures Parse(English, " " + "chapters") == " " + Parse(English, "chapters") { ParseChar(English, ' ', "chapters"); }
  lemma Chapters3() ensures Parse(English, "18" + " chapters") == "18" + Parse(English, " chapters") { KeepDigits("18", " chapters"); }
  lemma ChaptersText() ensures "chapters" + [] == "chapters" && " " + "chapters" == " chapters" && "18" + " chapters" == "18 chapters" { }
  lemma ParseChapters() ensures Parse(English, "18 chapters") == "18 chapters" {
    ChaptersText(); NoWords(); Chapters1(); Chapters2(); Chapters3();
  }
  lemma ResidueChapters() ensures KeepNumeric("18 chapters") == Numeral(18) { }
  lemma Amount18Chapters() ensures ExtractAmount("18 chapters") == Some(18 as real) {
    ParseChapters();
    ResidueChapters();
    AmountFrom("18 chapters", "18 chapters", 18);
  }
  lemma Amount18() ensures ExtractAmount("18") == Some(18 as real) {
    Residue18();
    LetterlessAmount("18", 18);
  }
  lemma Residue18() ensures KeepNumeric("18") == Numeral(18) { }

  lemma Islands1() ensures Parse(English, "islets" + []) == "islets" + Parse(English, []) { KeepWord("islets", []); }
  lemma Islands2() ensures Parse(English, " " + "islets") == " " + Parse(English, "islets") { ParseChar(English, ' ', "islets"); }
  lemma Islands3() ensures Parse(English, "and" + " islets") == "and" + Parse(English, " islets") { KeepWord("and", " islets"); }
  lemma Islands4() ensures Parse(English, " " + "and islets") == " " + Parse(English, "and islets") { ParseChar(English, ' ', "and islets"); }
  lemma Islands5() ensures Parse(English, "islands" + " and islets") == "islands" + Parse(English, " and islets") { KeepWord("islands", " and islets"); }
  lemma Islands6() ensures Parse(English, " " + "islands and islets") == " " + Parse(English, "islands and islets") { ParseChar(English, ' ', "islands and islets"); }
  lemma Islands7() ensures Parse(English, "607" + " islands and islets") == "607" + Parse(English, " islands and islets") { KeepDigits("607", " islands and islets"); }
  lemma IslandsText()
    ensures "islets" + [] == "islets" && " " + "islets" == " islets" && "and" + " islets" == "and islets"
    ensures " " + "and islets" == " and islets" && "islands" + " and islets" == "islands and islets"
    ensures " " + "islands and islets" == " islands and islets" && "607" + " islands and islets" == "607 islands and islets"
  {
    IslandsText1(); IslandsText2();
  }
  lemma IslandsText1() ensures "islets" + [] == "islets" && " " + "islets" == " islets" && "and" + " islets" == "and islets" { }
  lemma IslandsText2() ensures " " + "and islets" == " and islets" && "islands" + " and islets" == "islands and islets" { }
  lemma ParseIslands() ensures Parse(English, "607 islands and islets") == "607 islands and islets" {
    IslandsText(); NoWords(); Islands1(); Islands2(); Islands3(); Islands4(); Islands5(); Islands6(); Islands7();
  }
  lemma ResidueIslands() ensures KeepNumeric("607 islands and islets") == Numeral(607) {
    IslandsTail();
    assert KeepNumericFrom("607 islands and islets", 3) == [];
    assert Numeral(607) == "607";
  }
  lemma IslandsTail() ensures KeepNumericFrom("607 islands and islets", 11) == [] {
    assert KeepNumericFrom("607 islands and islets", 16) == [];
  }
  lemma Amount607Islands() ensures ExtractAmount("607 islands and islets") == Some(607 as real) {
    ParseIslands();
    ResidueIslands();
    AmountFrom("607 islands and islets", "607 islands and islets", 607);
  }
  lemma Amount607() ensures ExtractAmount("607") == Some(607 as real) {
    Residue607();
    LetterlessAmount("607", 607);
  }
  lemma Residue607() ensures KeepNumeric("607") == Numeral(607) { }

  lemma Titles1() ensures Parse(English, "Titles" + []) == "Titles" + Parse(English, []) { KeepWord("Titles", []); }
  lemma Titles2() ensures Parse(English, " " + "Titles") == " " + Parse(English, "Titles") { ParseChar(English, ' ', "Titles"); }
  lemma Titles3() ensures Parse(English, "2" + " Titles") == "2" + Parse(English, " Titles") { KeepDigits("2", " Titles"); }
  lemma TitlesText() ensures "Titles" + [] == "Titles" && " " + "Titles" == " Titles" && "2" + " Titles" == "2 Titles" { }
  lemma ParseTitles() ensures Parse(English, "2 Titles") == "2 Titles" {
    TitlesText(); NoWords(); Titles1(); Titles2(); Titles3();
  }
  lemma ResidueTitles() ensures KeepNumeric("2 Titles") == Numeral(2) { }
  lemma Amount2Titles() ensures ExtractAmount("2 Titles") == Some(2 as real) {
    ParseTitles();
    ResidueTitles();
    AmountFrom("2 Titles", "2 Titles", 2);
  }

  // 'fifth title', 'five times', '5', '8'

  lemma Title1() ensures Parse(English, "title" + []) == "title" + Parse(English, []) { KeepWord("title", []); }
  lemma Title2() ensures Parse(English, " " + "title") == " " + Parse(English, "title") { ParseChar(English, ' ', "title"); }
  lemma Title3() ensures Parse(English, "fifth" + " title") == Numeral(5) + Parse(English, " title") {
    FifthValue();
    ParseNumberWord(English, "fifth", 5, " title");
  }
  lemma TitleText() ensures "title" + [] == "title" && " " + "title" == " title" && "fifth" + " title" == "fifth title" && Numeral(5) + " title" == "5 title" { }
  lemma ParseTitle() ensures Parse(English, "fifth title") == "5 title" {
    TitleText(); NoWords(); Title1(); Title2(); Title3();
  }
  lemma ResidueTitle() ensures KeepNumeric("5 title") == Numeral(5) { }
  lemma AmountFifthTitle() ensures ExtractAmount("fifth title") == Some(5 as real) {
    ParseTitle();
    ResidueTitle();
    AmountFrom("fifth title", "5 title", 5);
  }

  lemma Times1() ensures Parse(English, "times" + []) == "times" + Parse(English, []) { KeepWord("times", []); }
  lemma Times2() ensures Parse(English, " " + "times") == " " + Parse(English, "times") { ParseChar(English, ' ', "times"); }
  lemma Times3() ensures Parse(English, "five" + " times") == Numeral(5) + Parse(English, " times") {
    FiveValue();
    ParseNumberWord(English, "five", 5, " times");
  }
  lemma TimesText() ensures "times" + [] == "times" && " " + "times" == " times" && "five" + " times" == "five times" && Numeral(5) + " times" == "5 times" { }
  lemma ParseTimes() ensures Parse(English, "five times") == "5 times" {
    TimesText(); NoWords(); Times1(); Times2(); Times3();
  }
  lemma ResidueTimes() ensures KeepNumeric("5 times") == Numeral(5) { }
  lemma AmountFiveTimes() ensures ExtractAmount("five times") == Some(5 as real) {
    ParseTimes();
    ResidueTimes();
    AmountFrom("five times", "5 times", 5);
  }

  lemma Amount5() ensures ExtractAmount("5") == Some(5 as real) {
    Residue5();
    LetterlessAmount("5", 5);
  }
  lemma Residue5() ensures KeepNumeric("5") == Numeral(5) { }

  lemma Amount8() ensures ExtractAmount("8") == Some(8 as real) {
    Residue8();
    LetterlessAmount("8", 8);
  }
  lemma Residue8() ensures KeepNumeric("8") == Numeral(8) { }

  // '2,700', 'about 2,700', '1,800', '1,800 acres'

  lemma Amount2700() ensures ExtractAmount("2,700") == Some(2700 as real) {
    Residue2700();
    LetterlessAmount("2,700", 2700);
  }
  lemma Residue2700() ensures KeepNumeric("2,700") == Numeral(2700) { }

  lemma About1() ensures Parse(English, " 2,700") == " 2,700" { EnglishLettered(); ParseNoLetters(English, " 2,700"); }
  lemma About2() ensures Parse(English, "about" + " 2,700") == "about" + Parse(English, " 2,700") { KeepWord("about", " 2,700"); }
  lemma AboutText() ensures "about" + " 2,700" == "about 2,700" { }
  lemma ParseAbout() ensures Parse(English, "about 2,700") == "about 2,700" {
    AboutText(); About1(); About2();
  }
  lemma ResidueAbout() ensures KeepNumeric("about 2,700") == Numeral(2700) { }
  lemma AmountAbout2700() ensures ExtractAmount("about 2,700") == Some(2700 as real) {
    ParseAbout();
    ResidueAbout();
    AmountFrom("about 2,700", "about 2,700", 2700);
  }

  lemma Amount1800() ensures ExtractAmount("1,800") == Some(1800 as real) {
    Residue1800();
    LetterlessAmount("1,800", 1800);
  }
  lemma Residue1800() ensures KeepNumeric("1,800") == Numeral(1800) { }

  lemma Acres1() ensures Parse(English, "acres" + []) == "acres" + Parse(English, []) { KeepWord("acres", []); }
  lemma Acres2() ensures Parse(English, " " + "acres") == " " + Parse(English, "acres") { ParseChar(English, ' ', "acres"); }
  lemma Acres3() ensures Parse(English, "800" + " acres") == "800" + Parse(English, " acres") { KeepDigits("800", " acres"); }
  lemma Acres4() ensures Parse(English, "," + "800 acres") == "," + Parse(English, "800 acres") { ParseChar(English, ',', "800 acres"); }
  lemma Acres5() ensures Parse(English, "1" + ",800 acres") == "1" + Parse(English, ",800 acres") { KeepDigits("1", ",800 acres"); }
  lemma AcresText()
    ensures "acres" + [] == "acres" && " " + "acres" == " acres" && "800" + " acres" == "800 acres"
    ensures "," + "800 acres" == ",800 acres" && "1" + ",800 acres" == "1,800 acres"
  { }
  lemma ParseAcres() ensures Parse(English, "1,800 acres") == "1,800 acres" {
    AcresText(); NoWords(); Acres1(); Acres2(); Acres3(); Acres4(); Acres5();
  }
  lemma ResidueAcres() ensures KeepNumeric("1,800 acres") == Numeral(1800) { }
  lemma Amount1800Acres() ensures ExtractAmount("1,800 acres") == Some(1800 as real) {
    ParseAcres();
    ResidueAcres();
    AmountFrom("1,800 acres", "1,800 acres", 1800);
  }

  // 'test', 'test test'

  lemma ParseTest() ensures Parse(English, "test" + []) == "test" + Parse(English, []) { KeepWord("test", []); }
  lemma TestText() ensures "test" + [] == "test" { }
  lemma ResidueTest() ensures !HasDigit(KeepNumeric(Parse(English, "test"))) {
    TestText(); NoWords(); ParseTest();
    assert KeepNumeric("test") == [];
  }

  /** tests/test_evaluation_utils.py:14 */
  lemma DigitsDiffer()
    ensures !ExactMatchAmount("25", "250")
  {
    Amount25();
    Amount250();
  }

  /** tests/test_evaluation_utils.py:17 */
  lemma CommaIgnored()
    ensures ExactMatchAmount("1852", "1,852")
  {
    Amount1852();
    AmountComma1852();
  }

  /** tests/test_evaluation_utils.py:18 */
  lemma UnitIgnored()
    ensures ExactMatchAmount("500 years", "500")
  {
    Amount500Years();
    Amount500();
  }

  /** tests/test_evaluation_utils.py:15 */
  lemma WordsAndDigitsDiffer()
    ensures !ExactMatchAmount("twenty five", "250")
  {
    AmountTwentyFive();
    Amount250();
  }

  /** tests/test_evaluation_utils.py:16 */
  lemma CompoundMatches()
    ensures ExactMatchAmount("twenty five", "25")
  {
    AmountTwentyFive();
    Amount25();
  }

  /** tests/test_evaluation_utils.py:19 */
  lemma HyphenIgnored()
    ensures ExactMatchAmount("twenty-two", "twenty two")
  {
    AmountHyphenTwentyTwo();
    AmountTwentyTwo();
  }

  /** tests/test_evaluation_utils.py:20 */
  lemma ChaptersIgnored()
    ensures ExactMatchAmount("18 chapters", "18")
  {
    Amount18Chapters();
    Amount18();
  }

  /** tests/test_evaluation_utils.py:21 */
  lemma WordMatchesDigit()
    ensures ExactMatchAmount("8", "eight")
  {
    Amount8();
    AmountEight();
  }

  /** tests/test_evaluation_utils.py:22 */
  lemma IslandsIgnored()
    ensures ExactMatchAmount("607 islands and islets", "607")
  {
    Amount607Islands();
    Amount607();
  }

  /** tests/test_evaluation_utils.py:23 */
  lemma OrdinalMatches()
    ensures ExactMatchAmount("fifth title", "5")
  {
    AmountFifthTitle();
    Amount5();
  }

  /** tests/test_evaluation_utils.py:24 */
  lemma AboutIgnored()
    ensures ExactMatchAmount("2,700", "about 2,700")
  {
    Amount2700();
    AmountAbout2700();
  }

  /** tests/test_evaluation_utils.py:25 */
  lemma AcresIgnored()
    ensures ExactMatchAmount("1,800", "1,800 acres")
  {
    Amount1800();
    Amount1800Acres();
  }

  /** tests/test_evaluation_utils.py:26 */
  lemma WordBeforeUnit()
    ensures ExactMatchAmount("five times", "5")
  {
    AmountFiveTimes();
    Amount5();
  }

  /** tests/test_evaluation_utils.py:27 */
  lemma CapitalsIgnored()
    ensures ExactMatchAmount("2 Titles", "two")
  {
    Amount2Titles();
    AmountTwo();
  }

  /** tests/test_evaluation_utils.py:28 */
  lemma NoAmountNoMatch()
    ensures !ExactMatchAmount("test", "test test")
  {
    ResidueTest();
    NoDigitNoMatch("test", "test test");
  }
}
