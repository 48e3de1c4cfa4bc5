/** Date equivalence (`exact_match_date`, `try_parsing_date`, `potential_year` in
    utils/evaluation_utils.py) over a model of `pendulum.from_format` restricted to the three
    tokens the code uses: `D` (day, one or two digits), `MMMM` (English month name) and `YYYY`
    (four-digit year); every other format character must appear literally. The whole text
    must be consumed, absent fields default to 1, and an impossible calendar date is a
    parse failure, as the `ValueError` pendulum raises for it is caught by the cascade. */
module Dates {
  import opened Wrappers
  import opened Text
  import opened WordRemoval

  datatype Date = Date(year: int, month: int, day: int)

  predicate IsLeapYear(y: int) {
    y % 4 == 0 && (y % 100 != 0 || y % 400 == 0)
  }

  function DaysInMonth(y: int, m: int): int
    requires 1 <= m <= 12
  {
    if m == 2 then (if IsLeapYear(y) then 29 else 28)
    else if m == 4 || m == 6 || m == 9 || m == 11 then 30
    else 31
  }

  /** A date Python's `datetime` accepts. */
  predicate Valid(d: Date) {
    1 <= d.year <= 9999 && 1 <= d.month <= 12 && 1 <= d.day <= DaysInMonth(d.year, d.month)
  }

  /** English month names, as pendulum's `MMMM` token writes and reads them. */
  function MonthName(m: int): string
    requires 1 <= m <= 12
  {
    if m == 1 then "January" else if m == 2 then "February" else if m == 3 then "March"
    else if m == 4 then "April" else if m == 5 then "May" else if m == 6 then "June"
    else if m == 7 then "July" else if m == 8 then "August" else if m == 9 then "September"
    else if m == 10 then "October" else if m == 11 then "November" else "December"
  }

  /** The first month from k on whose name is w. */
  function FindMonth(w: string, k: int): (r: Option<int>)
    requires 1 <= k <= 13
    ensures r.Some? ==> k <= r.value <= 12 && MonthName(r.value) == w
    decreases 13 - k
  {
    if k == 13 then None else if MonthName(k) == w then Some(k) else FindMonth(w, k + 1)
  }

  /** The month a name stands for; names are matched exactly, in title case. */
  function MonthNumber(w: string): (r: Option<int>)
    ensures r.Some? ==> 1 <= r.value <= 12 && MonthName(r.value) == w
  {
    FindMonth(w, 1)
  }

  /** Each name is read back as its own month: no two months share a name. */
  lemma MonthNumberOfName(m: int)
    requires 1 <= m <= 12
    ensures MonthNumber(MonthName(m)) == Some(m)
  {
    if m == 1 { } else if m == 2 { } else if m == 3 { } else if m == 4 { }
    else if m == 5 { } else if m == 6 { } else if m == 7 { } else if m == 8 { }
    else if m == 9 { } else if m == 10 { } else if m == 11 { } else { }
  }

  lemma MonthNameShape(m: int)
    requires 1 <= m <= 12
    ensures |MonthName(m)| >= 3
    ensures forall j :: 0 <= j < |MonthName(m)| ==> IsLetter(MonthName(m)[j])
  {
  }

  // ---------------------------------------------------------------------------------
  // Format strings
  // ---------------------------------------------------------------------------------

  datatype Token = DayToken | MonthToken | YearToken | LitToken(c: char)

  /** Splits a pendulum format string into the tokens D, MMMM, YYYY and literal characters. */
  function TokenizeFrom(f: string, i: nat): seq<Token>
    requires i <= |f|
    decreases |f| - i
  {
    if i == |f| then []
    else if i + 4 <= |f| && f[i] == 'M' && f[i + 1] == 'M' && f[i + 2] == 'M' && f[i + 3] == 'M' then
      [MonthToken] + TokenizeFrom(f, i + 4)
    else if i + 4 <= |f| && f[i] == 'Y' && f[i + 1] == 'Y' && f[i + 2] == 'Y' && f[i + 3] == 'Y' then
      [YearToken] + TokenizeFrom(f, i + 4)
    else if f[i] == 'D' then [DayToken] + TokenizeFrom(f, i + 1)
    else [LitToken(f[i])] + TokenizeFrom(f, i + 1)
  }

  function Tokenize(f: string): seq<Token> {
    TokenizeFrom(f, 0)
  }

  /** The five formats of the cascade. */
  datatype Format = DayMonthYear | MonthDayCommaYear | MonthDayYear | MonthYear | YearOnly

  function FormatString(fmt: Format): string {
    match fmt
    case DayMonthYear => "D MMMM YYYY"
    case MonthDayCommaYear => "MMMM D, YYYY"
    case MonthDayYear => "MMMM D YYYY"
    case MonthYear => "MMMM YYYY"
    case YearOnly => "YYYY"
  }

  function Tokens(fmt: Format): seq<Token> {
    match fmt
    case DayMonthYear => [DayToken, LitToken(' '), MonthToken, LitToken(' '), YearToken]
    case MonthDayCommaYear => [MonthToken, LitToken(' '), DayToken, LitToken(','), LitToken(' '), YearToken]
    case MonthDayYear => [MonthToken, LitToken(' '), DayToken, LitToken(' '), YearToken]
    case MonthYear => [MonthToken, LitToken(' '), YearToken]
    case YearOnly => [YearToken]
  }

  /** Each format string splits into the tokens the cascade's formats are made of. */
  lemma TokenizeFormats(fmt: Format)
    ensures Tokenize(FormatString(fmt)) == Tokens(fmt)
  {
    match fmt
    case DayMonthYear => TokenizeDayMonthYear();
    case MonthDayCommaYear => TokenizeMonthDayCommaYear();
    case MonthDayYear => TokenizeMonthDayYear();
    case MonthYear => TokenizeMonthYear();
    case YearOnly => TokenizeYearOnly();
  }

  lemma TokenizeDayMonthYear()
    ensures Tokenize("D MMMM YYYY") == Tokens(DayMonthYear)
  {
    var f := "D MMMM YYYY";
    assert TokenizeFrom(f, 7) == [YearToken];
    assert TokenizeFrom(f, 6) == [LitToken(' '), YearToken];
    assert TokenizeFrom(f, 2) == [MonthToken, LitToken(' '), YearToken];
  }

  lemma TokenizeMonthDayCommaYear()
    ensures Tokenize("MMMM D, YYYY") == Tokens(MonthDayCommaYear)
  {
    var f := "MMMM D, YYYY";
    assert TokenizeFrom(f, 8) == [YearToken];
    assert TokenizeFrom(f, 7) == [LitToken(' '), YearToken];
    assert TokenizeFrom(f, 6) == [LitToken(','), LitToken(' '), YearToken];
    assert TokenizeFrom(f, 5) == [DayToken, LitToken(','), LitToken(' '), YearToken];
  }

  lemma TokenizeMonthDayYear()
    ensures Tokenize("MMMM D YYYY") == Tokens(MonthDayYear)
  {
    var f := "MMMM D YYYY";
    assert TokenizeFrom(f, 7) == [YearToken];
    assert TokenizeFrom(f, 6) == [LitToken(' '), YearToken];
    assert TokenizeFrom(f, 5) == [DayToken, LitToken(' '), YearToken];
  }

  lemma TokenizeMonthYear()
    ensures Tokenize("MMMM YYYY") == Tokens(MonthYear)
  {
    var f := "MMMM YYYY";
    assert TokenizeFrom(f, 5) == [YearToken];
  }

  lemma TokenizeYearOnly()
    ensures Tokenize("YYYY") == Tokens(YearOnly)
  {
    var f := "YYYY";
    assert TokenizeFrom(f, 4) == [];
  }

  // ---------------------------------------------------------------------------------
  // Parsing a text against a format
  // ---------------------------------------------------------------------------------

  datatype Fields = Fields(year: Option<int>, month: Option<int>, day: Option<int>)

  const NoFields := Fields(None, None, None)

  /** Length of the run of ASCII letters at the start of s. */
  function LetterRun(s: string): (n: nat)
    ensures n <= |s|
  {
    if s != [] && IsLetter(s[0]) then 1 + LetterRun(s[1..]) else 0
  }

  /** Length of the run of digits at the start of s, at most cap. */
  function DigitRun(s: string, cap: nat): (n: nat)
    ensures n <= cap && n <= |s|
    decreases cap
  {
    if cap > 0 && s != [] && IsDigit(s[0]) then 1 + DigitRun(s[1..], cap - 1) else 0
  }

  /** Where reading a token leaves the parser: the text still to read and the fields so far. */
  datatype Cursor = Cursor(rest: string, fields: Fields)

  /** Reads one token of a format at the start of the text s. */
  function ReadToken(tok: Token, s: string, f: Fields): (r: Option<Cursor>)
    ensures r.Some? ==> |r.value.rest| < |s|
  {
    match tok
    case LitToken(c) => if s != [] && s[0] == c then Some(Cursor(s[1..], f)) else None
    case DayToken =>
      var n := DigitRun(s, 2);
      if n == 0 then None else Some(Cursor(s[n..], f.(day := Some(NumberValue(s[..n])))))
    case MonthToken =>
      var n := LetterRun(s);
      var m := MonthNumber(s[..n]);
      if n == 0 || m.None? then None else Some(Cursor(s[n..], f.(month := Some(m.value))))
    case YearToken =>
      if DigitRun(s, 4) == 4 then Some(Cursor(s[4..], f.(year := Some(NumberValue(s[..4]))))) else None
  }

  /** Reads tokens t.. of a format from the text s, collecting the fields; the whole text
      must be consumed. */
  function ParseTokens(toks: seq<Token>, t: nat, s: string, f: Fields): Option<Fields>
    requires t <= |toks|
    decreases |toks| - t
  {
    if t == |toks| then (if s == [] then Some(f) else None)
    else match ReadToken(toks[t], s, f)
      case None => None
      case Some(c) => ParseTokens(toks, t + 1, c.rest, c.fields)
  }

  /** The date fields give, with month and day defaulting to 1. */
  function FieldsDate(f: Fields): Option<Date> {
    if f.year.None? then None
    else
      var d := Date(f.year.value,
                    if f.month.Some? then f.month.value else 1,
                    if f.day.Some? then f.day.value else 1);
      if Valid(d) then Some(d) else None
  }

  /** `pendulum.from_format(text, format)`; None where it raises. */
  function FromFormat(format: string, text: string): (r: Option<Date>)
    ensures r.Some? ==> Valid(r.value)
  {
    match ParseTokens(Tokenize(format), 0, text, NoFields)
    case None => None
    case Some(f) => FieldsDate(f)
  }

  /** The date the first format from k on that reads the text gives. */
  function FirstParse(formats: seq<string>, text: string, k: nat): Option<Date>
    requires k <= |formats|
    decreases |formats| - k
  {
    if k == |formats| then None
    else
      var d := FromFormat(formats[k], text);
      if d.Some? then d else FirstParse(formats, text, k + 1)
  }

  /** `try_parsing_date(text, formats)`: the formats are tried in order and the first that
      reads the text wins; None where it raises `ValueError('No valid date format found')`. */
  method TryParsingDate(text: string, formats: seq<string>) returns (r: Option<Date>)
    ensures r == FirstParse(formats, text, 0)
  {
    var k := 0;
    while k < |formats|
      invariant 0 <= k <= |formats|
      invariant FirstParse(formats, text, 0) == FirstParse(formats, text, k)
    {
      var d := FromFormat(formats[k], text);
      if d.Some? {
        return d;
      }
      k := k + 1;
    }
    return None;
  }

  // ---------------------------------------------------------------------------------
  // exact_match_date
  // ---------------------------------------------------------------------------------

  /** `year_pattern.search(s)` for `\d{4}$`: four digits at the very end, or just before a
      final newline, which `$` also accepts. */
  predicate PotentialYear(s: string) {
    (|s| >= 4 && IsDigit(s[|s| - 4]) && IsDigit(s[|s| - 3]) && IsDigit(s[|s| - 2]) && IsDigit(s[|s| - 1]))
    || (|s| >= 5 && s[|s| - 1] == '\n' &&
        IsDigit(s[|s| - 5]) && IsDigit(s[|s| - 4]) && IsDigit(s[|s| - 3]) && IsDigit(s[|s| - 2]))
  }

  /** The words `exact_match_date` removes before comparing; case-sensitive. */
  const DateWords: seq<string> := ["a", "an", "the", "in", "on"]

  /** `regex.sub(r'\b(a|an|the|in|on)\b', ' ', text).strip()` */
  function StripDateWords(text: string): string {
    Strip(RemoveWords(DateWords, text))
  }

  const PredictionFormats: seq<string> := ["D MMMM YYYY", "MMMM D, YYYY", "MMMM D YYYY", "MMMM YYYY", "YYYY"]
  const FullDateFormats: seq<string> := ["D MMMM YYYY", "MMMM D, YYYY", "MMMM D YYYY"]

  /** `exact_match_date(prediction, ground_truth)`. The ground truth is read at full-date,
      then month-year, then year granularity, and compared on those fields only. */
  function ExactMatchDate(prediction: string, groundTruth: string): (r: bool)
    ensures StripDateWords(prediction) == StripDateWords(groundTruth) ==> r
    ensures r ==> StripDateWords(prediction) == StripDateWords(groundTruth)
                  || (PotentialYear(StripDateWords(prediction)) && PotentialYear(groundTruth)
                      && FirstParse(PredictionFormats, StripDateWords(prediction), 0).Some?)
  {
    var pred := StripDateWords(prediction);
    var gt := StripDateWords(groundTruth);
    if pred == gt then true
    else if !(PotentialYear(pred) && PotentialYear(groundTruth)) then false
    else match FirstParse(PredictionFormats, pred, 0)
      case None => false
      case Some(pd) => GroundTruthMatches(gt, pd)
  }

  /** The ground-truth half of `exact_match_date`: the ground truth is read at full-date,
      then month-year, then year granularity and compared with the prediction's date on
      the fields it was read with. */
  function GroundTruthMatches(gt: string, pd: Date): bool {
    match FirstParse(FullDateFormats, gt, 0)
    case Some(gd) => gd == pd
    case None =>
      match FirstParse(["MMMM YYYY"], gt, 0)
      case Some(gd) => gd.month == pd.month && gd.year == pd.year
      case None =>
        match FirstParse(["YYYY"], gt, 0)
        case Some(gd) => gd.year == pd.year
        case None => false
  }

  // ---------------------------------------------------------------------------------
  // Dates written out in each format
  // ---------------------------------------------------------------------------------

  /** A day as pendulum's `D` token writes it: no leading zero. */
  function DayText(day: int): string
    requires 1 <= day <= 31
  {
    if day < 10 then [DigitChar(day)] else [DigitChar(day / 10), DigitChar(day % 10)]
  }

  /** A year as `YYYY` writes it: four digits, zero-padded. */
  function YearText(y: int): string
    requires 0 <= y <= 9999
  {
    var q1 := y / 10;
    var q2 := q1 / 10;
    [DigitChar(q2 / 10), DigitChar(q2 % 10), DigitChar(q1 % 10), DigitChar(y % 10)]
  }

  /** The text a format gives for a month name, a day and a year. */
  function Write(fmt: Format, mn: string, dt: string, yt: string): string {
    match fmt
    case DayMonthYear => dt + ([' '] + (mn + ([' '] + yt)))
    case MonthDayCommaYear => mn + ([' '] + (dt + ([','] + ([' '] + yt))))
    case MonthDayYear => mn + ([' '] + (dt + ([' '] + yt)))
    case MonthYear => mn + ([' '] + yt)
    case YearOnly => yt
  }

  /** A date written out in a format, as pendulum's `format` would. */
  function Render(fmt: Format, d: Date): string
    requires Valid(d)
  {
    Write(fmt, MonthName(d.month), DayText(d.day), YearText(d.year))
  }

  /** The date a format reads back: the fields it does not write default to 1. */
  function Canon(fmt: Format, d: Date): Date {
    match fmt
    case MonthYear => Date(d.year, d.month, 1)
    case YearOnly => Date(d.year, 1, 1)
    case _ => d
  }

  /** When a ground truth written in `gt` matches a prediction: the fields it carries agree. */
  predicate Agree(gt: Format, pd: Date, gd: Date) {
    match gt
    case MonthYear => pd.month == gd.month && pd.year == gd.year
    case YearOnly => pd.year == gd.year
    case _ => pd == gd
  }

  // ---------------------------------------------------------------------------------
  // The cascade takes the first format that reads the text
  // ---------------------------------------------------------------------------------

  lemma {:induction false} FirstParseSpec(formats: seq<string>, text: string, k: nat)
    requires k <= |formats|
    ensures FirstParse(formats, text, k).Some? <==> exists j :: k <= j < |formats| && FromFormat(formats[j], text).Some?
    ensures FirstParse(formats, text, k).Some? ==>
      exists j :: k <= j < |formats| && FromFormat(formats[j], text) == FirstParse(formats, text, k)
                  && forall j' :: k <= j' < j ==> FromFormat(formats[j'], text).None?
    decreases |formats| - k
  {
    if k < |formats| {
      FirstParseSpec(formats, text, k + 1);
      if FromFormat(formats[k], text).None? && FirstParse(formats, text, k).Some? {
        var j :| k + 1 <= j < |formats| && FromFormat(formats[j], text) == FirstParse(formats, text, k + 1)
                 && forall j' :: k + 1 <= j' < j ==> FromFormat(formats[j'], text).None?;
        assert forall j' :: k <= j' < j ==> FromFormat(formats[j'], text).None?;
      }
    }
  }

  /** When every format before j fails and format j reads the text, the cascade gives
      format j's date. */
  lemma {:induction false} FirstParseAt(formats: seq<string>, text: string, k: nat, j: nat)
    requires k <= j < |formats|
    requires forall q :: k <= q < j ==> FromFormat(formats[q], text).None?
    requires FromFormat(formats[j], text).Some?
    ensures FirstParse(formats, text, k) == FromFormat(formats[j], text)
    decreases j - k
  {
    if k < j {
      FirstParseAt(formats, text, k + 1, j);
    }
  }

  lemma {:induction false} FirstParseNone(formats: seq<string>, text: string, k: nat)
    requires k <= |formats|
    requires forall q :: k <= q < |formats| ==> FromFormat(formats[q], text).None?
    ensures FirstParse(formats, text, k) == None
    decreases |formats| - k
  {
    if k < |formats| {
      FirstParseNone(formats, text, k + 1);
    }
  }

  // ---------------------------------------------------------------------------------
  // Reading one token
  // ---------------------------------------------------------------------------------

  predicate AllDigits(w: string) { forall j :: 0 <= j < |w| ==> IsDigit(w[j]) }

  predicate MonthPiece(mn: string, m: int) {
    MonthNumber(mn) == Some(m) && |mn| > 0 && forall j :: 0 <= j < |mn| ==> IsLetter(mn[j])
  }

  predicate DayPiece(dt: string, v: int) {
    1 <= |dt| <= 2 && AllDigits(dt) && NumberValue(dt) == v
  }

  predicate YearPiece(yt: string, y: int) {
    |yt| == 4 && AllDigits(yt) && NumberValue(yt) == y
  }

  /** The letter run of x + rest is x when rest does not start with a letter. */
  lemma {:induction false} LetterRunOf(x: string, rest: string)
    requires forall q :: 0 <= q < |x| ==> IsLetter(x[q])
    requires rest == [] || !IsLetter(rest[0])
    ensures LetterRun(x + rest) == |x|
    decreases |x|
  {
    if x == [] {
      assert x + rest == rest;
    } else {
      assert (x + rest)[1..] == x[1..] + rest;
      LetterRunOf(x[1..], rest);
    }
  }

  /** The digit run of x + rest, capped at cap, is x when x has cap digits or rest does not
      start with a digit. */
  lemma {:induction false} DigitRunOf(cap: nat, x: string, rest: string)
    requires |x| <= cap
    requires forall q :: 0 <= q < |x| ==> IsDigit(x[q])
    requires |x| == cap || rest == [] || !IsDigit(rest[0])
    ensures DigitRun(x + rest, cap) == |x|
    decreases |x|
  {
    if x == [] {
      assert x + rest == rest;
    } else {
      assert (x + rest)[1..] == x[1..] + rest;
      DigitRunOf(cap - 1, x[1..], rest);
    }
  }

  lemma DayTextPiece(v: int)
    requires 1 <= v <= 31
    ensures DayPiece(DayText(v), v)
  {
    if v < 10 {
      NumberValueSnoc([], DigitChar(v));
      assert [] + [DigitChar(v)] == DayText(v);
    } else {
      NumberValueSnoc([], DigitChar(v / 10));
      assert [] + [DigitChar(v / 10)] == [DigitChar(v / 10)];
      NumberValueSnoc([DigitChar(v / 10)], DigitChar(v % 10));
      assert [DigitChar(v / 10)] + [DigitChar(v % 10)] == DayText(v);
    }
  }

  lemma YearTextPiece(y: int)
    requires 0 <= y <= 9999
    ensures YearPiece(YearText(y), y)
  {
    var w := YearText(y);
    var q1 := y / 10;
    var q2 := q1 / 10;
    assert w == [DigitChar(q2 / 10), DigitChar(q2 % 10), DigitChar(q1 % 10), DigitChar(y % 10)];
    NumberValueSnoc([], w[0]);
    NumberValueSnoc([w[0]], w[1]);
    NumberValueSnoc([w[0], w[1]], w[2]);
    NumberValueSnoc([w[0], w[1], w[2]], w[3]);
    assert [] + [w[0]] == [w[0]];
    assert [w[0]] + [w[1]] == [w[0], w[1]];
    assert [w[0], w[1]] + [w[2]] == [w[0], w[1], w[2]];
    assert [w[0], w[1], w[2]] + [w[3]] == w;
  }

  lemma MonthNamePiece(m: int)
    requires 1 <= m <= 12
    ensures MonthPiece(MonthName(m), m)
  {
    MonthNumberOfName(m);
    MonthNameShape(m);
  }

  lemma MonthRead(mn: string, m: int, rest: string, f: Fields)
    requires MonthPiece(mn, m) && (rest == [] || !IsLetter(rest[0]))
    ensures ReadToken(MonthToken, mn + rest, f) == Some(Cursor(rest, f.(month := Some(m))))
  {
    LetterRunOf(mn, rest);
    assert (mn + rest)[..|mn|] == mn;
  }

  lemma DayRead(dt: string, v: int, rest: string, f: Fields)
    requires DayPiece(dt, v) && (rest == [] || !IsDigit(rest[0]))
    ensures ReadToken(DayToken, dt + rest, f) == Some(Cursor(rest, f.(day := Some(v))))
  {
    DigitRunOf(2, dt, rest);
    assert (dt + rest)[..|dt|] == dt;
  }

  lemma YearRead(yt: string, y: int, rest: string, f: Fields)
    requires YearPiece(yt, y)
    ensures ReadToken(YearToken, yt + rest, f) == Some(Cursor(rest, f.(year := Some(y))))
  {
    DigitRunOf(4, yt, rest);
    assert (yt + rest)[..4] == yt;
  }

  lemma LitRead(c: char, rest: string, f: Fields)
    ensures ReadToken(LitToken(c), [c] + rest, f) == Some(Cursor(rest, f))
  {
    assert ([c] + rest)[1..] == rest;
  }

  /** The parser goes on from where a token leaves it... */
  lemma ParseStep(toks: seq<Token>, t: nat, s: string, f: Fields, c: Cursor)
    requires t < |toks| && ReadToken(toks[t], s, f) == Some(c)
    ensures ParseTokens(toks, t, s, f) == ParseTokens(toks, t + 1, c.rest, c.fields)
  {
  }

  /** ... and stops at a token it cannot read. */
  lemma ParseHalt(toks: seq<Token>, t: nat, s: string, f: Fields)
    requires t < |toks| && ReadToken(toks[t], s, f).None?
    ensures ParseTokens(toks, t, s, f) == None
  {
  }

  /** A month name cannot start where no letter does. */
  lemma MonthFails(s: string, f: Fields)
    requires s == [] || !IsLetter(s[0])
    ensures ReadToken(MonthToken, s, f) == None
  {
    assert LetterRun(s) == 0;
  }

  /** A day token standing on a four-digit year reads its first two digits, and the
      literal the format expects next meets the third. */
  lemma DayOnYearFails(toks: seq<Token>, t: nat, f: Fields, yt: string, y: int)
    requires t + 1 < |toks| && toks[t] == DayToken && toks[t + 1].LitToken? && !IsDigit(toks[t + 1].c)
    requires YearPiece(yt, y)
    ensures ReadToken(DayToken, yt, f) == Some(Cursor(yt[2..], f.(day := Some(NumberValue(yt[..2])))))
    ensures ParseTokens(toks, t, yt, f) == None
  {
    assert yt == yt[..2] + yt[2..];
    DigitRunOf(2, yt[..2], yt[2..]);
    var c := ReadToken(DayToken, yt, f).value;
    assert c.rest == yt[2..] && c.rest[0] == yt[2];
    ParseStep(toks, t, yt, f, c);
    ParseHalt(toks, t + 1, c.rest, c.fields);
  }

  // ---------------------------------------------------------------------------------
  // Each format reads back what it writes
  // ---------------------------------------------------------------------------------

  /** Reading a token that stands at token t of a format, the parser goes on at t + 1. */
  lemma MonthAt(toks: seq<Token>, t: nat, mn: string, m: int, r: string, f: Fields)
    requires t < |toks| && toks[t] == MonthToken
    requires MonthPiece(mn, m) && (r == [] || !IsLetter(r[0]))
    ensures ReadToken(MonthToken, mn + r, f) == Some(Cursor(r, f.(month := Some(m))))
    ensures ParseTokens(toks, t, mn + r, f) == ParseTokens(toks, t + 1, r, f.(month := Some(m)))
  {
    MonthRead(mn, m, r, f);
  }

  lemma DayAt(toks: seq<Token>, t: nat, dt: string, v: int, r: string, f: Fields)
    requires t < |toks| && toks[t] == DayToken
    requires DayPiece(dt, v) && (r == [] || !IsDigit(r[0]))
    ensures ReadToken(DayToken, dt + r, f) == Some(Cursor(r, f.(day := Some(v))))
    ensures ParseTokens(toks, t, dt + r, f) == ParseTokens(toks, t + 1, r, f.(day := Some(v)))
  {
    DayRead(dt, v, r, f);
  }

  lemma YearAt(toks: seq<Token>, t: nat, yt: string, y: int, r: string, f: Fields)
    requires t < |toks| && toks[t] == YearToken && YearPiece(yt, y)
    ensures ReadToken(YearToken, yt + r, f) == Some(Cursor(r, f.(year := Some(y))))
    ensures ParseTokens(toks, t, yt + r, f) == ParseTokens(toks, t + 1, r, f.(year := Some(y)))
  {
    YearRead(yt, y, r, f);
  }

  lemma LitAt(toks: seq<Token>, t: nat, c: char, r: string, f: Fields)
    requires t < |toks| && toks[t] == LitToken(c)
    ensures ReadToken(LitToken(c), [c] + r, f) == Some(Cursor(r, f))
    ensures ParseTokens(toks, t, [c] + r, f) == ParseTokens(toks, t + 1, r, f)
  {
    LitRead(c, r, f);
  }

  /** The fields a format carries. */
  function FieldsOf(fmt: Format, y: int, m: int, v: int): Fields {
    match fmt
    case MonthYear => Fields(Some(y), Some(m), None)
    case YearOnly => Fields(Some(y), None, None)
    case _ => Fields(Some(y), Some(m), Some(v))
  }

  /** Each format reads back the fields it writes. */
  lemma ReadWritten(fmt: Format, mn: string, m: int, dt: string, v: int, yt: string, y: int)
    requires MonthPiece(mn, m) && DayPiece(dt, v) && YearPiece(yt, y)
    ensures ParseTokens(Tokens(fmt), 0, Write(fmt, mn, dt, yt), NoFields) == Some(FieldsOf(fmt, y, m, v))
  {
    var toks := Tokens(fmt);
    match fmt
    case DayMonthYear =>
      assert toks[0] == DayToken && toks[1] == LitToken(' ') && toks[2] == MonthToken;
      assert |toks| == 5 && toks[3] == LitToken(' ') && toks[4] == YearToken;
      ReadDayMonthYear(toks, mn, m, dt, v, yt, y);
    case MonthDayCommaYear =>
      assert toks[0] == MonthToken && toks[1] == LitToken(' ') && toks[2] == DayToken && toks[3] == LitToken(',');
      assert |toks| == 6 && toks[4] == LitToken(' ') && toks[5] == YearToken;
      ReadMonthDayCommaYear(toks, mn, m, dt, v, yt, y);
    case MonthDayYear =>
      assert toks[0] == MonthToken && toks[1] == LitToken(' ') && toks[2] == DayToken;
      assert |toks| == 5 && toks[3] == LitToken(' ') && toks[4] == YearToken;
      ReadMonthDayYear(toks, mn, m, dt, v, yt, y);
    case MonthYear =>
      assert |toks| == 3 && toks[0] == MonthToken && toks[1] == LitToken(' ') && toks[2] == YearToken;
      MonthAt(toks, 0, mn, m, [' '] + yt, NoFields);
      SpaceYearEnd(toks, 1, yt, y, NoFields.(month := Some(m)));
    case YearOnly =>
      assert yt + [] == yt;
      YearAt(toks, 0, yt, y, [], NoFields);
  }

  /** A format ending in a space and a year reads a space and a year to the end. */
  lemma SpaceYearEnd(toks: seq<Token>, t: nat, yt: string, y: int, f: Fields)
    requires |toks| == t + 2 && toks[t] == LitToken(' ') && toks[t + 1] == YearToken && YearPiece(yt, y)
    ensures ParseTokens(toks, t, [' '] + yt, f) == Some(f.(year := Some(y)))
  {
    assert yt + [] == yt;
    LitAt(toks, t, ' ', yt, f);
    YearAt(toks, t + 1, yt, y, [], f);
  }

  lemma ReadDayMonthYear(toks: seq<Token>, mn: string, m: int, dt: string, v: int, yt: string, y: int)
    requires |toks| == 5 && toks[0] == DayToken && toks[1] == LitToken(' ') && toks[2] == MonthToken
    requires toks[3] == LitToken(' ') && toks[4] == YearToken
    requires MonthPiece(mn, m) && DayPiece(dt, v) && YearPiece(yt, y)
    ensures ParseTokens(toks, 0, dt + ([' '] + (mn + ([' '] + yt))), NoFields) == Some(Fields(Some(y), Some(m), Some(v)))
  {
    var fd := NoFields.(day := Some(v));
    DayAt(toks, 0, dt, v, [' '] + (mn + ([' '] + yt)), NoFields);
    LitAt(toks, 1, ' ', mn + ([' '] + yt), fd);
    MonthAt(toks, 2, mn, m, [' '] + yt, fd);
    SpaceYearEnd(toks, 3, yt, y, fd.(month := Some(m)));
  }

  lemma ReadMonthDayCommaYear(toks: seq<Token>, mn: string, m: int, dt: string, v: int, yt: string, y: int)
    requires |toks| == 6 && toks[0] == MonthToken && toks[1] == LitToken(' ') && toks[2] == DayToken
    requires toks[3] == LitToken(',') && toks[4] == LitToken(' ') && toks[5] == YearToken
    requires MonthPiece(mn, m) && DayPiece(dt, v) && YearPiece(yt, y)
    ensures ParseTokens(toks, 0, mn + ([' '] + (dt + ([','] + ([' '] + yt)))), NoFields) == Some(Fields(Some(y), Some(m), Some(v)))
  {
    var fm := NoFields.(month := Some(m));
    MonthAt(toks, 0, mn, m, [' '] + (dt + ([','] + ([' '] + yt))), NoFields);
    LitAt(toks, 1, ' ', dt + ([','] + ([' '] + yt)), fm);
    DayAt(toks, 2, dt, v, [','] + ([' '] + yt), fm);
    LitAt(toks, 3, ',', [' '] + yt, fm.(day := Some(v)));
    SpaceYearEnd(toks, 4, yt, y, fm.(day := Some(v)));
  }

  lemma ReadMonthDayYear(toks: seq<Token>, mn: string, m: int, dt: string, v: int, yt: string, y: int)
    requires |toks| == 5 && toks[0] == MonthToken && toks[1] == LitToken(' ') && toks[2] == DayToken
    requires toks[3] == LitToken(' ') && toks[4] == YearToken
    requires MonthPiece(mn, m) && DayPiece(dt, v) && YearPiece(yt, y)
    ensures ParseTokens(toks, 0, mn + ([' '] + (dt + ([' '] + yt))), NoFields) == Some(Fields(Some(y), Some(m), Some(v)))
  {
    var fm := NoFields.(month := Some(m));
    MonthAt(toks, 0, mn, m, [' '] + (dt + ([' '] + yt)), NoFields);
    LitAt(toks, 1, ' ', dt + ([' '] + yt), fm);
    DayAt(toks, 2, dt, v, [' '] + yt, fm);
    SpaceYearEnd(toks, 3, yt, y, fm.(day := Some(v)));
  }

  lemma FromFormatTokens(fmt: Format, s: string)
    ensures FromFormat(FormatString(fmt), s) ==
      match ParseTokens(Tokens(fmt), 0, s, NoFields) case None => None case Some(f) => FieldsDate(f)
  {
    TokenizeFormats(fmt);
  }

  /** Writing a valid date in a format and reading it back with the same format gives the
      date, with the fields the format leaves out set to 1. */
  lemma RenderParse(fmt: Format, d: Date)
    requires Valid(d)
    ensures FromFormat(FormatString(fmt), Render(fmt, d)) == Some(Canon(fmt, d))
  {
    MonthNamePiece(d.month);
    DayTextPiece(d.day);
    YearTextPiece(d.year);
    ReadWritten(fmt, MonthName(d.month), d.month, DayText(d.day), d.day, YearText(d.year), d.year);
    FromFormatTokens(fmt, Render(fmt, d));
  }

  // ---------------------------------------------------------------------------------
  // ... and no earlier format of the cascade reads it
  // ---------------------------------------------------------------------------------

  function Rank(fmt: Format): nat {
    match fmt
    case DayMonthYear => 0
    case MonthDayCommaYear => 1
    case MonthDayYear => 2
    case MonthYear => 3
    case YearOnly => 4
  }

  /** A leading day token needs a digit; the month-first formats begin with a letter. */
  lemma DayFirstFails(fmt: Format, mn: string, m: int, dt: string, yt: string)
    requires MonthPiece(mn, m) && fmt != DayMonthYear && fmt != YearOnly
    ensures ParseTokens(Tokens(DayMonthYear), 0, Write(fmt, mn, dt, yt), NoFields) == None
  {
    var s := Write(fmt, mn, dt, yt);
    assert s[0] == mn[0];
    assert DigitRun(s, 2) == 0;
    ParseHalt(Tokens(DayMonthYear), 0, s, NoFields);
  }

  /** A year alone is read by no format that starts with a month or a day. */
  lemma YearTextFails(earlier: Format, yt: string, y: int)
    requires YearPiece(yt, y) && earlier != YearOnly
    ensures ParseTokens(Tokens(earlier), 0, yt, NoFields) == None
  {
    if earlier == DayMonthYear {
      DayOnYearFails(Tokens(earlier), 0, NoFields, yt, y);
    } else {
      MonthFails(yt, NoFields);
      ParseHalt(Tokens(earlier), 0, yt, NoFields);
    }
  }

  /** Month-day formats cannot read a month and a year alone: the day token takes the
      year's first two digits and the literal after it meets the third. */
  lemma MonthYearFails(earlier: Format, mn: string, m: int, dt: string, yt: string, y: int)
    requires MonthPiece(mn, m) && YearPiece(yt, y)
    requires earlier == MonthDayCommaYear || earlier == MonthDayYear
    ensures ParseTokens(Tokens(earlier), 0, Write(MonthYear, mn, dt, yt), NoFields) == None
  {
    var toks := Tokens(earlier);
    assert toks[0] == MonthToken && toks[1] == LitToken(' ') && toks[2] == DayToken;
    assert toks[3].LitToken? && !IsDigit(toks[3].c);
    MonthDayOnYear(toks, mn, m, yt, y);
  }

  lemma MonthDayOnYear(toks: seq<Token>, mn: string, m: int, yt: string, y: int)
    requires 4 <= |toks| && toks[0] == MonthToken && toks[1] == LitToken(' ') && toks[2] == DayToken
    requires toks[3].LitToken? && !IsDigit(toks[3].c)
    requires MonthPiece(mn, m) && YearPiece(yt, y)
    ensures ParseTokens(toks, 0, mn + ([' '] + yt), NoFields) == None
  {
    var fm := NoFields.(month := Some(m));
    MonthAt(toks, 0, mn, m, [' '] + yt, NoFields);
    LitAt(toks, 1, ' ', yt, fm);
    DayOnYearFails(toks, 2, fm, yt, y);
  }

  /** `MMMM D, YYYY` cannot read `MMMM D YYYY` text: the comma is missing. */
  lemma CommaMissingFails(mn: string, m: int, dt: string, v: int, yt: string)
    requires MonthPiece(mn, m) && DayPiece(dt, v)
    ensures ParseTokens(Tokens(MonthDayCommaYear), 0, Write(MonthDayYear, mn, dt, yt), NoFields) == None
  {
    var toks := Tokens(MonthDayCommaYear);
    assert toks[0] == MonthToken && toks[1] == LitToken(' ') && toks[2] == DayToken && toks[3] == LitToken(',');
    CommaMissing(toks, mn, m, dt, v, yt);
  }

  lemma CommaMissing(toks: seq<Token>, mn: string, m: int, dt: string, v: int, yt: string)
    requires 4 <= |toks| && toks[0] == MonthToken && toks[1] == LitToken(' ') && toks[2] == DayToken
    requires toks[3] == LitToken(',')
    requires MonthPiece(mn, m) && DayPiece(dt, v)
    ensures ParseTokens(toks, 0, mn + ([' '] + (dt + ([' '] + yt))), NoFields) == None
  {
    var fm := NoFields.(month := Some(m));
    MonthAt(toks, 0, mn, m, [' '] + (dt + ([' '] + yt)), NoFields);
    LitAt(toks, 1, ' ', dt + ([' '] + yt), fm);
    DayAt(toks, 2, dt, v, [' '] + yt, fm);
    assert ReadToken(LitToken(','), [' '] + yt, fm.(day := Some(v))).None?;
    ParseHalt(toks, 3, [' '] + yt, fm.(day := Some(v)));
  }

  /** A date written in a format is read by no format that comes before it in the
      cascade's order. */
  lemma EarlierFormatFails(earlier: Format, fmt: Format, d: Date)
    requires Valid(d) && Rank(earlier) < Rank(fmt)
    ensures FromFormat(FormatString(earlier), Render(fmt, d)) == None
  {
    var mn, dt, yt := MonthName(d.month), DayText(d.day), YearText(d.year);
    MonthNamePiece(d.month);
    DayTextPiece(d.day);
    YearTextPiece(d.year);
    FromFormatTokens(earlier, Render(fmt, d));
    if fmt == YearOnly {
      YearTextFails(earlier, yt, d.year);
    } else if earlier == DayMonthYear {
      DayFirstFails(fmt, mn, d.month, dt, yt);
    } else if fmt == MonthYear {
      MonthYearFails(earlier, mn, d.month, dt, yt, d.year);
    } else {
      CommaMissingFails(mn, d.month, dt, d.day, yt);
    }
  }

  function FormatAt(k: nat): Format
    requires k < 5
  {
    [DayMonthYear, MonthDayCommaYear, MonthDayYear, MonthYear, YearOnly][k]
  }

  lemma FormatAtRank(fmt: Format)
    ensures Rank(fmt) < 5 && FormatAt(Rank(fmt)) == fmt
    ensures forall k :: 0 <= k < Rank(fmt) ==> Rank(FormatAt(k)) < Rank(fmt)
  {
  }

  /** The prediction cascade reads a written date at the granularity it was written in. */
  lemma PredictionParse(fmt: Format, d: Date)
    requires Valid(d)
    ensures FirstParse(PredictionFormats, Render(fmt, d), 0) == Some(Canon(fmt, d))
  {
    var s := Render(fmt, d);
    assert forall k :: 0 <= k < 5 ==> PredictionFormats[k] == FormatString(FormatAt(k));
    FormatAtRank(fmt);
    forall k | 0 <= k < Rank(fmt) ensures FromFormat(PredictionFormats[k], s).None? {
      EarlierFormatFails(FormatAt(k), fmt, d);
    }
    RenderParse(fmt, d);
    FirstParseAt(PredictionFormats, s, 0, Rank(fmt));
  }

  /** A ground truth written with day, month and year is read by the full-date cascade;
      one written as month-year or year is not. */
  lemma FullDateParse(fmt: Format, e: Date)
    requires Valid(e)
    ensures Rank(fmt) < 3 ==> FirstParse(FullDateFormats, Render(fmt, e), 0) == Some(e)
    ensures Rank(fmt) >= 3 ==> FirstParse(FullDateFormats, Render(fmt, e), 0) == None
  {
    var s := Render(fmt, e);
    assert forall k :: 0 <= k < 3 ==> FullDateFormats[k] == FormatString(FormatAt(k));
    FormatAtRank(fmt);
    forall k | 0 <= k < 3 && k < Rank(fmt) ensures FromFormat(FullDateFormats[k], s).None? {
      EarlierFormatFails(FormatAt(k), fmt, e);
    }
    if Rank(fmt) < 3 {
      RenderParse(fmt, e);
      FirstParseAt(FullDateFormats, s, 0, Rank(fmt));
    } else {
      FirstParseNone(FullDateFormats, s, 0);
    }
  }

  // ---------------------------------------------------------------------------------
  // The whole cascade on written dates
  // ---------------------------------------------------------------------------------

  /** Text made of word characters only holds a listed word only by being one. */
  lemma TokenFree(ws: seq<string>, x: string)
    requires WordList(ws)
    requires forall j :: 0 <= j < |x| ==> IsWordChar(x[j])
    requires x !in ws
    ensures Free(ws, x, true)
  {
    assert x[..|x|] == x;
    forall p, k | 0 <= p < |x| && 0 <= k < |ws| ensures !Occurs(ws[k], x, p, true) {
      var w := ws[k];
      if p == 0 && |w| < |x| {
        assert IsWordChar(x[|w|]);
      } else if p > 0 {
        assert IsWordChar(x[p - 1]);
      }
    }
  }

  lemma DateWordList()
    ensures WordList(DateWords)
  {
  }

  lemma WrittenFree(fmt: Format, mn: string, m: int, dt: string, v: int, yt: string, y: int)
    requires MonthPiece(mn, m) && DayPiece(dt, v) && YearPiece(yt, y)
    ensures Free(DateWords, Write(fmt, mn, dt, yt), true)
  {
    DateWordList();
    PiecesFree(mn, m, dt, v, yt, y);
    match fmt
    case DayMonthYear =>
      SplitFreeRight(DateWords, mn, ' ', yt);
      SplitFreeRight(DateWords, dt, ' ', mn + ([' '] + yt));
    case MonthDayCommaYear =>
      SplitFreeRight(DateWords, [], ' ', yt);
      assert [] + ([' '] + yt) == [' '] + yt;
      SplitFreeRight(DateWords, dt, ',', [' '] + yt);
      SplitFreeRight(DateWords, mn, ' ', dt + ([','] + ([' '] + yt)));
    case MonthDayYear =>
      SplitFreeRight(DateWords, dt, ' ', yt);
      SplitFreeRight(DateWords, mn, ' ', dt + ([' '] + yt));
    case MonthYear =>
      SplitFreeRight(DateWords, mn, ' ', yt);
    case YearOnly =>
  }

  /** No piece of a written date is one of the removed words. */
  lemma PiecesFree(mn: string, m: int, dt: string, v: int, yt: string, y: int)
    requires MonthPiece(mn, m) && DayPiece(dt, v) && YearPiece(yt, y)
    ensures Free(DateWords, mn, true) && Free(DateWords, dt, true) && Free(DateWords, yt, true)
  {
    DateWordList();
    assert yt[0] != DateWords[0][0];
    TokenFree(DateWords, yt);
    assert dt[0] != DateWords[0][0];
    TokenFree(DateWords, dt);
    assert mn !in DateWords;
    TokenFree(DateWords, mn);
  }

  lemma SplitFreeRight(ws: seq<string>, x: string, c: char, y: string)
    requires WordList(ws) && !IsWordChar(c)
    ensures Free(ws, x + ([c] + y), true) <==> Free(ws, x, true) && Free(ws, y, true)
  {
    assert x + ([c] + y) == x + [c] + y;
    SplitFree(ws, x, c, y, true);
  }

  /** A written date ends in its four-digit year and starts with its first piece. */
  lemma WriteEnds(fmt: Format, mn: string, dt: string, yt: string)
    requires |mn| > 0 && |dt| > 0 && |yt| == 4
    ensures |Write(fmt, mn, dt, yt)| >= 4
    ensures Write(fmt, mn, dt, yt)[|Write(fmt, mn, dt, yt)| - 4..] == yt
    ensures Write(fmt, mn, dt, yt)[0] == (match fmt case DayMonthYear => dt[0] case YearOnly => yt[0] case _ => mn[0])
  {
    var sy := [' '] + yt;
    TailOf([' '], yt);
    match fmt
    case DayMonthYear =>
      TailOf(mn, sy);
      TailOf([' '], mn + sy);
      TailOf(dt, [' '] + (mn + sy));
    case MonthDayCommaYear =>
      TailOf([','], sy);
      TailOf(dt, [','] + sy);
      TailOf([' '], dt + ([','] + sy));
      TailOf(mn, [' '] + (dt + ([','] + sy)));
    case MonthDayYear =>
      TailOf(dt, sy);
      TailOf([' '], dt + sy);
      TailOf(mn, [' '] + (dt + sy));
    case MonthYear =>
      TailOf(mn, sy);
    case YearOnly =>
      assert yt[0..] == yt;
  }

  /** Prepending keeps the last four characters. */
  lemma TailOf(a: string, r: string)
    requires |r| >= 4
    ensures (a + r)[|a + r| - 4..] == r[|r| - 4..]
  {
  }

  /** A written date holds none of the removed words and no surrounding whitespace, so the
      first step of `exact_match_date` leaves it as it is; it ends in its year. */
  lemma RenderStripped(fmt: Format, d: Date)
    requires Valid(d)
    ensures StripDateWords(Render(fmt, d)) == Render(fmt, d)
    ensures PotentialYear(Render(fmt, d))
  {
    MonthNamePiece(d.month);
    DayTextPiece(d.day);
    YearTextPiece(d.year);
    WrittenStripped(fmt, MonthName(d.month), d.month, DayText(d.day), d.day, YearText(d.year), d.year);
  }

  lemma WrittenStripped(fmt: Format, mn: string, m: int, dt: string, v: int, yt: string, y: int)
    requires MonthPiece(mn, m) && DayPiece(dt, v) && YearPiece(yt, y)
    ensures StripDateWords(Write(fmt, mn, dt, yt)) == Write(fmt, mn, dt, yt)
    ensures PotentialYear(Write(fmt, mn, dt, yt))
  {
    var s := Write(fmt, mn, dt, yt);
    WrittenFree(fmt, mn, m, dt, v, yt, y);
    DateWordList();
    RemoveWordsIdentity(DateWords, s);
    WriteEnds(fmt, mn, dt, yt);
    assert s[|s| - 4] == yt[0] && s[|s| - 3] == yt[1] && s[|s| - 2] == yt[2] && s[|s| - 1] == yt[3];
    StripNoOp(s);
  }

  /** The date cascade on written dates: a prediction written in format pf and a ground
      truth written in format gf match exactly when the fields the ground truth's format
      carries agree, the prediction's missing fields counting as 1. */
  lemma DateCascade(pf: Format, gf: Format, d: Date, e: Date)
    requires Valid(d) && Valid(e)
    ensures ExactMatchDate(Render(pf, d), Render(gf, e)) == Agree(gf, Canon(pf, d), Canon(gf, e))
  {
    var p, g := Render(pf, d), Render(gf, e);
    RenderStripped(pf, d);
    RenderStripped(gf, e);
    PredictionParse(pf, d);
    if p == g {
      PredictionParse(gf, e);
    } else {
      GroundTruthWritten(gf, e, Canon(pf, d));
    }
  }

  /** A ground truth written in format gf matches a prediction's date on the fields gf
      carries. */
  lemma GroundTruthWritten(gf: Format, e: Date, pd: Date)
    requires Valid(e)
    ensures GroundTruthMatches(Render(gf, e), pd) == Agree(gf, pd, Canon(gf, e))
  {
    var g := Render(gf, e);
    FullDateParse(gf, e);
    if gf == MonthYear {
      RenderParse(MonthYear, e);
      assert FirstParse(["MMMM YYYY"], g, 0) == Some(Canon(gf, e));
    } else if gf == YearOnly {
      EarlierFormatFails(MonthYear, YearOnly, e);
      assert FirstParse(["MMMM YYYY"], g, 0) == None;
      RenderParse(YearOnly, e);
      assert FirstParse(["YYYY"], g, 0) == Some(Canon(gf, e));
    }
  }
}
