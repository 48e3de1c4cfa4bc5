/**
 * The two title cleaners of the movie extractor. `clean_movie_entity` removes a
 * parenthesised part of an entity label; `clean_movie_text` removes show/series/film
 * phrases and season or episode numbers from a question fragment. Each `re.sub` is a
 * scan of the original string from left to right: at each position the pattern either
 * matches, and the matched text is dropped and the scan resumes after it, or it does not,
 * and the character is kept.
 */
module MovieExtractor {
  import opened Wrappers
  import opened Text
  import opened Seqs

  // ---------------------------------------------------------------------------------
  // clean_movie_entity: re.sub("\(.*\)", "", entity).strip()
  // ---------------------------------------------------------------------------------

  /** The last index in lo..hi-1 that holds `)`, if there is one. */
  function LastClose(s: string, lo: nat, hi: nat): (r: Option<nat>)
    requires lo <= hi <= |s|
    ensures r.Some? ==> lo <= r.value < hi && s[r.value] == ')' && forall k :: r.value < k < hi ==> s[k] != ')'
    ensures r.None? ==> forall k :: lo <= k < hi ==> s[k] != ')'
    decreases hi - lo
  {
    if hi == lo then None
    else if s[hi - 1] == ')' then Some(hi - 1)
    else LastClose(s, lo, hi - 1)
  }

  /** `re.sub("\(.*\)", "", s[i..])` on the whole string scanned from i: at a `(` the
      greedy `.*` reaches the end of the line and gives back characters until a `)`,
      so a match runs to the last `)` of the same line. */
  function DropParenthesised(s: string, i: nat): string
    requires i <= |s|
    decreases |s| - i
  {
    if i == |s| then []
    else if s[i] == '(' then
      match LastClose(s, i + 1, CharIndex(s, '\n', i + 1))
      case Some(k) => DropParenthesised(s, k + 1)
      case None => [s[i]] + DropParenthesised(s, i + 1)
    else [s[i]] + DropParenthesised(s, i + 1)
  }

  function CleanMovieEntity(entity: string): string {
    Strip(DropParenthesised(entity, 0))
  }

  // ---------------------------------------------------------------------------------
  // clean_movie_text: three substitutions and a strip
  // ---------------------------------------------------------------------------------

  /** A positive match length. */
  type Pos = n: nat | n > 0 witness 1

  /** The words a show phrase starts with (besides a four-digit year), the media it
      names, and the words a season or episode number starts with. */
  datatype Producer = Tv | Netflix
  datatype Medium = Show | Series | Movie | Film
  datatype Part = Season | Episode

  function ProducerWord(p: Producer): string {
    match p
    case Tv => "tv"
    case Netflix => "netflix"
  }

  function MediumWord(m: Medium): string {
    match m
    case Show => "show"
    case Series => "series"
    case Movie => "movie"
    case Film => "film"
  }

  function PartWord(p: Part): string {
    match p
    case Season => "season"
    case Episode => "episode"
  }

  /** s[i..] starts with w. */
  predicate WordAt(s: string, i: nat, w: string) {
    i + |w| <= |s| && forall j :: 0 <= j < |w| ==> s[i + j] == w[j]
  }

  predicate SpaceAt(s: string, i: nat) {
    i < |s| && s[i] == ' '
  }

  /** The length of `tv`, `netflix` or four digits at i, tried in that order. */
  function ProducerLen(s: string, i: nat): Option<nat> {
    if WordAt(s, i, "tv") then Some(2)
    else if WordAt(s, i, "netflix") then Some(7)
    else if i + 4 <= |s| && IsDigit(s[i]) && IsDigit(s[i + 1]) && IsDigit(s[i + 2]) && IsDigit(s[i + 3]) then Some(4)
    else None
  }

  /** The length of `show`, `series`, `movie` or `film` at i, tried in that order. */
  function MediumLen(s: string, i: nat): Option<nat> {
    if WordAt(s, i, "show") then Some(4)
    else if WordAt(s, i, "series") then Some(6)
    else if WordAt(s, i, "movie") then Some(5)
    else if WordAt(s, i, "film") then Some(4)
    else None
  }

  /** The length of `season` or `episode` at i, tried in that order, or 0. */
  function PartLen(s: string, i: nat): nat {
    if WordAt(s, i, "season") then 6 else if WordAt(s, i, "episode") then 7 else 0
  }

  /** The number of consecutive digits from i. */
  function DigitRun(s: string, i: nat): (r: nat)
    requires i <= |s|
    ensures i + r <= |s|
    decreases |s| - i
  {
    if i < |s| && IsDigit(s[i]) then 1 + DigitRun(s, i + 1) else 0
  }

  /** The lengths an optional literal group can take at i, longest first (`?` is greedy). */
  function Optional(s: string, i: nat, w: string): seq<nat> {
    if WordAt(s, i, w) then [|w|, 0] else [0]
  }

  function Concat(xss: seq<seq<nat>>): seq<nat> {
    if xss == [] then [] else xss[0] + Concat(xss[1..])
  }

  /** The lengths `(tv )?(show|series)|movie|film` can match at b, in backtracking order. */
  function TailLengths(s: string, b: nat): seq<nat> {
    var tv := Optional(s, b, "tv ");
    Concat(seq(|tv|, j requires 0 <= j < |tv| =>
      (if WordAt(s, b + tv[j], "show") then [tv[j] + 4] else [])
      + (if WordAt(s, b + tv[j], "series") then [tv[j] + 6] else [])))
    + (if WordAt(s, b, "movie") then [5] else [])
    + (if WordAt(s, b, "film") then [4] else [])
  }

  /** The lengths `(netflix )?((tv )?(show|series)|movie|film)` can match at a. */
  function NetflixLengths(s: string, a: nat): seq<nat> {
    var netflix := Optional(s, a, "netflix ");
    Concat(seq(|netflix|, j requires 0 <= j < |netflix| =>
      var tail := TailLengths(s, a + netflix[j]);
      seq(|tail|, t requires 0 <= t < |tail| => netflix[j] + tail[t])))
  }

  /** The lengths the group before `$` can match at i, in backtracking order. */
  function AnchoredLengths(s: string, i: nat): seq<nat> {
    var the := Optional(s, i, "the ");
    Concat(seq(|the|, j requires 0 <= j < |the| =>
      var rest := NetflixLengths(s, i + the[j]);
      seq(|rest|, t requires 0 <= t < |rest| => the[j] + rest[t])))
  }

  /** `$` holds at k (the end, or just before a final newline) and a space follows it. */
  predicate DollarSpace(s: string, k: nat) {
    (k == |s| || (k + 1 == |s| && s[k] == '\n')) && SpaceAt(s, k)
  }

  /** The first group length, in backtracking order, after which `$ ` matches. */
  function FirstAnchored(s: string, i: nat, lengths: seq<nat>): Option<nat> {
    if lengths == [] then None
    else
      var n := lengths[0];
      if DollarSpace(s, i + n) then Some(n) else FirstAnchored(s, i, lengths[1..])
  }

  /** The first pattern of `clean_movie_text`, `((tv|netflix|[0-9]{4}) (show|series|movie|film)) `,
      at i. */
  function ShowMatch(s: string, i: nat): (r: Option<Pos>)
    ensures r.Some? ==> i + r.value <= |s|
  {
    match ProducerLen(s, i)
    case None => None
    case Some(a) =>
      if !SpaceAt(s, i + a) then None
      else
        (match MediumLen(s, i + a + 1)
         case None => None
         case Some(b) => if SpaceAt(s, i + a + 1 + b) then Some(a + b + 2) else None)
  }

  /** The second pattern, `((the )?(netflix )?((tv )?(show|series)|movie|film))$ `, at i. */
  function AnchoredMatch(s: string, i: nat): (r: Option<Pos>)
    ensures r.Some? ==> i + r.value <= |s|
  {
    match FirstAnchored(s, i, AnchoredLengths(s, i))
    case None => None
    case Some(n) => if SpaceAt(s, i + n) then Some(n + 1) else None
  }

  /** The third pattern, `(season|episode) [0-9]+`, at i, the digits taken greedily. */
  function EpisodeMatch(s: string, i: nat): (r: Option<Pos>)
    ensures r.Some? ==> i + r.value <= |s|
  {
    var w := PartLen(s, i);
    if w == 0 || !SpaceAt(s, i + w) then None
    else
      var d := DigitRun(s, i + w + 1);
      if d == 0 then None else Some(w + 1 + d)
  }

  /** Every match a scan can meet ends within the text. */
  predicate Fits(s: string, ms: seq<Option<Pos>>) {
    |ms| == |s| && forall k :: 0 <= k < |ms| && ms[k].Some? ==> k + ms[k].value <= |s|
  }

  /** The match of each pattern at every position of the original string. */
  function ShowMatches(s: string): (ms: seq<Option<Pos>>)
    ensures Fits(s, ms)
  {
    seq(|s|, k requires 0 <= k < |s| => ShowMatch(s, k))
  }

  function AnchoredMatches(s: string): (ms: seq<Option<Pos>>)
    ensures Fits(s, ms)
  {
    seq(|s|, k requires 0 <= k < |s| => AnchoredMatch(s, k))
  }

  function EpisodeMatches(s: string): (ms: seq<Option<Pos>>)
    ensures Fits(s, ms)
  {
    seq(|s|, k requires 0 <= k < |s| => EpisodeMatch(s, k))
  }

  /** The scan of `re.sub` from i, given the match at every position: a match is dropped
      and the scan resumes after it, a position without one keeps its character. */
  function Scan(s: string, ms: seq<Option<Pos>>, i: nat): string
    requires Fits(s, ms) && i <= |s|
    decreases |s| - i
  {
    if i == |s| then []
    else
      match ms[i]
      case Some(n) => Scan(s, ms, i + n)
      case None => [s[i]] + Scan(s, ms, i + 1)
  }

  /** The three substitutions of `clean_movie_text`, one after the other. */
  function Substituted(text: string): string {
    var shows := Scan(text, ShowMatches(text), 0);
    var anchored := Scan(shows, AnchoredMatches(shows), 0);
    Scan(anchored, EpisodeMatches(anchored), 0)
  }

  function CleanMovieText(text: string): string {
    Strip(Substituted(text))
  }

  // ---------------------------------------------------------------------------------
  // Lemmas
  // ---------------------------------------------------------------------------------

  /** Characters before the first `(` are kept as they are. */
  lemma {:induction false} KeepBeforeParen(s: string, i: nat, a: nat)
    requires i <= a <= |s|
    requires forall k :: i <= k < a ==> s[k] != '('
    ensures DropParenthesised(s, i) == s[i..a] + DropParenthesised(s, a)
    decreases a - i
  {
    if i < a {
      KeepBeforeParen(s, i + 1, a);
      ConsSlice(s, i, a);
      Associative([s[i]], s[i + 1..a], DropParenthesised(s, a));
    }
  }

  /** With no `)` from i on, nothing from i on is removed. */
  lemma {:induction false} KeepWithoutClose(s: string, i: nat)
    requires i <= |s|
    requires forall k :: i <= k < |s| ==> s[k] != ')'
    ensures DropParenthesised(s, i) == s[i..]
    decreases |s| - i
  {
    if i < |s| {
      KeepWithoutClose(s, i + 1);
      assert s[i..] == [s[i]] + s[i + 1..];
    }
  }

  /** With no `(` that has a `)` after it, nothing from i on is removed. */
  lemma {:induction false} KeepWithoutPair(s: string, i: nat)
    requires i <= |s|
    requires forall a, b :: i <= a < b < |s| && s[a] == '(' ==> s[b] != ')'
    ensures DropParenthesised(s, i) == s[i..]
    decreases |s| - i
  {
    if i < |s| {
      KeepWithoutPair(s, i + 1);
      assert s[i..] == [s[i]] + s[i + 1..];
    }
  }

  /** On single-line input, `clean_movie_entity` removes the span from the first `(` to the
      last `)` after it and strips what is left. */
  lemma EntitySpanRemoved(s: string, a: nat, b: nat)
    requires forall k :: 0 <= k < |s| ==> s[k] != '\n'
    requires a < b < |s| && s[a] == '(' && s[b] == ')'
    requires forall k :: 0 <= k < a ==> s[k] != '('
    requires forall k :: b < k < |s| ==> s[k] != ')'
    ensures CleanMovieEntity(s) == Strip(s[..a] + s[b + 1..])
  {
    SpanDropped(s, a, b);
  }

  /** The scan behind `EntitySpanRemoved`. */
  lemma SpanDropped(s: string, a: nat, b: nat)
    requires forall k :: a < k < |s| ==> s[k] != '\n'
    requires a < b < |s| && s[a] == '(' && s[b] == ')'
    requires forall k :: 0 <= k < a ==> s[k] != '('
    requires forall k :: b < k < |s| ==> s[k] != ')'
    ensures DropParenthesised(s, 0) == s[..a] + s[b + 1..]
  {
    KeepBeforeParen(s, 0, a);
    var e := CharIndex(s, '\n', a + 1);
    assert e == |s|;
    assert LastClose(s, a + 1, e) == Some(b);
    DropSpan(s, a, b);
    KeepWithoutClose(s, b + 1);
  }

  /** A `(` whose line has a last `)` at k: the scan drops up to k and goes on after it. */
  lemma DropSpan(s: string, i: nat, k: nat)
    requires i < |s| && s[i] == '(' && LastClose(s, i + 1, CharIndex(s, '\n', i + 1)) == Some(k)
    ensures DropParenthesised(s, i) == DropParenthesised(s, k + 1)
  {
  }

  /** An entity with no `(` followed later by a `)` is only stripped. */
  lemma EntityWithoutPair(s: string)
    requires forall a, b :: 0 <= a < b < |s| && s[a] == '(' ==> s[b] != ')'
    ensures CleanMovieEntity(s) == Strip(s)
  {
    KeepWithoutPair(s, 0);
  }

  /** The assertion of the source: `clean_movie_entity("King Kong (1976 film)") == "King Kong"`. */
  lemma KingKong()
    ensures CleanMovieEntity("King Kong (1976 film)") == "King Kong"
  {
    KingKongSpan();
    KingKongStripped();
  }

  lemma KingKongSpan()
    ensures CleanMovieEntity("King Kong (1976 film)") == Strip("King Kong ")
  {
    var s := "King Kong (1976 film)";
    SpanDropped(s, 10, 20);
    assert s[..10] + s[21..] == "King Kong ";
  }

  lemma KingKongStripped()
    ensures Strip("King Kong ") == "King Kong"
  {
    StripNoOp("King Kong");
    assert LeadingSpaces("King Kong ", 0) == 0;
    assert TrailEnd("King Kong ", 10) == 9;
  }

  /** Dropping parenthesised spans never lengthens the text. */
  lemma {:induction false} DropShorter(s: string, i: nat)
    requires i <= |s|
    ensures |DropParenthesised(s, i)| <= |s| - i
    decreases |s| - i
  {
    if i < |s| {
      if s[i] == '(' {
        match LastClose(s, i + 1, CharIndex(s, '\n', i + 1))
        case Some(k) => DropShorter(s, k + 1);
        case None => DropShorter(s, i + 1);
      } else {
        DropShorter(s, i + 1);
      }
    }
  }

  /** A scan never lengthens the text. */
  lemma {:induction false} ScanShorter(s: string, ms: seq<Option<Pos>>, i: nat)
    requires Fits(s, ms) && i <= |s|
    ensures |Scan(s, ms, i)| <= |s| - i
    decreases |s| - i
  {
    if i < |s| {
      match ms[i]
      case Some(n) => ScanShorter(s, ms, i + n);
      case None => ScanShorter(s, ms, i + 1);
    }
  }

  /** A match at i is dropped: the scan goes on right after it. */
  lemma ScanSkips(s: string, ms: seq<Option<Pos>>, i: nat, j: nat)
    requires Fits(s, ms) && i < |s| && ms[i].Some? && j == i + ms[i].value
    ensures j <= |s| && Scan(s, ms, i) == Scan(s, ms, j)
  {
  }

  /** A scan that meets no match from i on keeps the text as it is. */
  lemma {:induction false} ScanWithoutMatch(s: string, ms: seq<Option<Pos>>, i: nat)
    requires Fits(s, ms) && i <= |s|
    requires forall k :: i <= k < |s| ==> ms[k].None?
    ensures Scan(s, ms, i) == s[i..]
    decreases |s| - i
  {
    if i < |s| {
      ScanWithoutMatch(s, ms, i + 1);
      assert s[i..] == [s[i]] + s[i + 1..];
    }
  }

  /** `$` is followed by a literal space in the second pattern, and no character follows
      the end of the text or a final newline but that newline: the search over every
      length the group can take finds nothing. */
  lemma {:induction false} AnchoredNeverFirst(s: string, i: nat, lengths: seq<nat>)
    ensures FirstAnchored(s, i, lengths) == None
  {
    if lengths != [] {
      AnchoredNeverFirst(s, i, lengths[1..]);
    }
  }

  /** The second substitution of `clean_movie_text` never matches: it returns its input. */
  lemma AnchoredIsIdentity(s: string)
    ensures Scan(s, AnchoredMatches(s), 0) == s
  {
    var ms := AnchoredMatches(s);
    forall k | 0 <= k < |s|
      ensures ms[k].None?
    {
      AnchoredNeverFirst(s, k, AnchoredLengths(s, k));
    }
    ScanWithoutMatch(s, ms, 0);
  }

  /** `clean_movie_entity` returns text with no leading or trailing whitespace that is
      never longer than its input. */
  lemma EntityStrippedAndShorter(entity: string)
    ensures var e := CleanMovieEntity(entity);
      |e| <= |entity| && (e == [] || (!IsSpace(e[0]) && !IsSpace(e[|e| - 1])))
  {
    DropShorter(entity, 0);
  }

  /** So does `clean_movie_text`. */
  lemma TextStrippedAndShorter(text: string)
    ensures var t := CleanMovieText(text);
      |t| <= |text| && (t == [] || (!IsSpace(t[0]) && !IsSpace(t[|t| - 1])))
  {
    SubstitutedShorter(text);
    StrippedWithin(Substituted(text), text);
  }

  /** Stripping a text no longer than t gives one no longer than t, without whitespace at
      either end. */
  lemma StrippedWithin(x: string, t: string)
    requires |x| <= |t|
    ensures var r := Strip(x); |r| <= |t| && (r == [] || (!IsSpace(r[0]) && !IsSpace(r[|r| - 1])))
  {
  }

  /** The substitutions never lengthen the text. */
  lemma SubstitutedShorter(text: string)
    ensures |Substituted(text)| <= |text|
  {
    var shows := Scan(text, ShowMatches(text), 0);
    ScanShorter(text, ShowMatches(text), 0);
    AnchoredIsIdentity(shows);
    ScanShorter(shows, EpisodeMatches(shows), 0);
  }

  /** A text in which neither a show phrase nor a season or episode number occurs is only
      stripped. */
  lemma TextWithoutPatterns(text: string)
    requires forall k :: 0 <= k < |text| ==> ShowMatch(text, k).None? && EpisodeMatch(text, k).None?
    ensures CleanMovieText(text) == Strip(text)
  {
    ScanWithoutMatch(text, ShowMatches(text), 0);
    AnchoredIsIdentity(text);
    ScanWithoutMatch(text, EpisodeMatches(text), 0);
  }

  /** A show phrase at i (a producer word, a space, a medium word and a space) is dropped
      together with its trailing space. */
  lemma ShowPhraseDropped(s: string, i: nat, p: Producer, m: Medium)
    requires WordAt(s, i, ProducerWord(p)) && SpaceAt(s, i + |ProducerWord(p)|)
    requires WordAt(s, i + |ProducerWord(p)| + 1, MediumWord(m)) && SpaceAt(s, i + |ProducerWord(p)| + 1 + |MediumWord(m)|)
    ensures var j := i + |ProducerWord(p)| + |MediumWord(m)| + 2;
      j <= |s| && Scan(s, ShowMatches(s), i) == Scan(s, ShowMatches(s), j)
  {
    ProducerAt(s, i, p);
    MediumAt(s, i + |ProducerWord(p)| + 1, m);
    ShowDropped(s, i, |ProducerWord(p)|, |MediumWord(m)|, i + |ProducerWord(p)| + |MediumWord(m)| + 2);
  }

  /** A four-digit year followed by a space, a medium word and a space is dropped too. */
  lemma YearPhraseDropped(s: string, i: nat, m: Medium)
    requires i + 4 <= |s| && forall k :: i <= k < i + 4 ==> IsDigit(s[k])
    requires SpaceAt(s, i + 4) && WordAt(s, i + 5, MediumWord(m)) && SpaceAt(s, i + 5 + |MediumWord(m)|)
    ensures var j := i + 4 + |MediumWord(m)| + 2;
      j <= |s| && Scan(s, ShowMatches(s), i) == Scan(s, ShowMatches(s), j)
  {
    YearAt(s, i);
    MediumAt(s, i + 5, m);
    ShowDropped(s, i, 4, |MediumWord(m)|, i + 4 + |MediumWord(m)| + 2);
  }

  lemma YearAt(s: string, i: nat)
    requires i + 4 <= |s| && forall k :: i <= k < i + 4 ==> IsDigit(s[k])
    ensures ProducerLen(s, i) == Some(4)
  {
    assert IsDigit(s[i]) && IsDigit(s[i + 1]) && IsDigit(s[i + 2]) && IsDigit(s[i + 3]);
    NotWordAt(s, i, "tv", 0);
    NotWordAt(s, i, "netflix", 0);
  }

  /** A match of the first pattern at i, made of a producer of length a, a space, a
      medium of length b and a space, is dropped and the scan goes on after it. */
  lemma ShowDropped(s: string, i: nat, a: nat, b: nat, j: nat)
    requires ProducerLen(s, i) == Some(a) && SpaceAt(s, i + a)
    requires MediumLen(s, i + a + 1) == Some(b) && SpaceAt(s, i + a + 1 + b)
    requires j == i + a + b + 2
    ensures j <= |s| && Scan(s, ShowMatches(s), i) == Scan(s, ShowMatches(s), j)
  {
    var ms := ShowMatches(s);
    assert ms[i] == ShowMatch(s, i) == Some(a + b + 2);
    ScanSkips(s, ms, i, j);
  }

  lemma ProducerAt(s: string, i: nat, p: Producer)
    requires WordAt(s, i, ProducerWord(p))
    ensures ProducerLen(s, i) == Some(|ProducerWord(p)|)
  {
    CharAt(s, i, ProducerWord(p), 0);
    if p == Netflix {
      NotWordAt(s, i, "tv", 0);
    }
  }

  lemma MediumAt(s: string, i: nat, m: Medium)
    requires WordAt(s, i, MediumWord(m))
    ensures MediumLen(s, i) == Some(|MediumWord(m)|)
  {
    CharAt(s, i, MediumWord(m), 0);
    CharAt(s, i, MediumWord(m), 1);
    match m
    case Show =>
    case Series =>
      NotWordAt(s, i, "show", 1);
    case Movie =>
      NotWordAt(s, i, "show", 0);
      NotWordAt(s, i, "series", 0);
    case Film =>
      NotWordAt(s, i, "show", 0);
      NotWordAt(s, i, "series", 0);
      NotWordAt(s, i, "movie", 0);
  }

  /** The j-th character of a word at i. */
  lemma CharAt(s: string, i: nat, w: string, j: nat)
    requires WordAt(s, i, w) && j < |w|
    ensures i + j < |s| && s[i + j] == w[j]
  {
  }

  /** A word is not at i when one of its characters differs from the text's. */
  lemma NotWordAt(s: string, i: nat, w: string, j: nat)
    requires j < |w| && i + j < |s| && s[i + j] != w[j]
    ensures !WordAt(s, i, w)
  {
    if WordAt(s, i, w) {
      CharAt(s, i, w, j);
    }
  }

  /** `season N` / `episode N` at i is dropped with all the digits of N. */
  lemma EpisodeNumberDropped(s: string, i: nat, part: Part, digits: nat)
    requires WordAt(s, i, PartWord(part)) && SpaceAt(s, i + |PartWord(part)|)
    requires 0 < digits && i + |PartWord(part)| + 1 + digits <= |s|
    requires forall k :: i + |PartWord(part)| + 1 <= k < i + |PartWord(part)| + 1 + digits ==> IsDigit(s[k])
    requires i + |PartWord(part)| + 1 + digits == |s| || !IsDigit(s[i + |PartWord(part)| + 1 + digits])
    ensures var j := i + |PartWord(part)| + 1 + digits;
      Scan(s, EpisodeMatches(s), i) == Scan(s, EpisodeMatches(s), j)
  {
    var w := |PartWord(part)|;
    var q := i + w + 1;
    PartAt(s, i, part);
    DigitRunIs(s, q, digits);
    EpisodeDropped(s, i, w, digits, q + digits);
  }

  /** A match of the third pattern at i, a word of length w, a space and a run of d
      digits, is dropped and the scan goes on after it, at j. */
  lemma EpisodeDropped(s: string, i: nat, w: nat, d: nat, j: nat)
    requires PartLen(s, i) == w && w > 0 && SpaceAt(s, i + w)
    requires DigitRun(s, i + w + 1) == d && d > 0
    requires j == i + w + 1 + d
    ensures j <= |s| && Scan(s, EpisodeMatches(s), i) == Scan(s, EpisodeMatches(s), j)
  {
    var ms := EpisodeMatches(s);
    assert ms[i] == EpisodeMatch(s, i) == Some(w + 1 + d);
    ScanSkips(s, ms, i, j);
  }

  lemma PartAt(s: string, i: nat, part: Part)
    requires WordAt(s, i, PartWord(part))
    ensures PartLen(s, i) == |PartWord(part)|
  {
    CharAt(s, i, PartWord(part), 0);
    if part == Episode {
      NotWordAt(s, i, "season", 0);
    }
  }

  lemma {:induction false} DigitRunIs(s: string, i: nat, n: nat)
    requires i + n <= |s|
    requires forall k :: i <= k < i + n ==> IsDigit(s[k])
    requires i + n == |s| || !IsDigit(s[i + n])
    ensures DigitRun(s, i) == n
    decreases n
  {
    if n > 0 {
      DigitRunIs(s, i + 1, n - 1);
    }
  }
}
