/** The agent's helpers: turning a natural-language date into `YYYY-MM-DD`, and the
    keyword search over a content list. The clock is the parameter `today`; a
    `ValueError` that the source does not catch becomes a `Failure`. */
module AgentUtils {
  import opened Common
  import opened Text
  import opened Dates
  import opened Records

  /** Python's `\w` and `\s`, ASCII range. */
  predicate IsWordChar(c: char) { IsAsciiAlnum(c) || c == '_' }
  predicate IsPySpace(c: char) { c == ' ' || 9 <= c as int <= 13 }

  /** The end of the longest run of characters satisfying `p` that starts at `i`. */
  function RunEnd(s: string, i: nat, p: char -> bool): (j: nat)
    requires i <= |s|
    ensures i <= j <= |s|
    ensures forall m :: i <= m < j ==> p(s[m])
    ensures j == |s| || !p(s[j])
    decreases |s| - i
  {
    if i < |s| && p(s[i]) then RunEnd(s, i + 1, p) else i
  }

  function WordEnd(s: string, i: nat): nat
    requires i <= |s|
  {
    RunEnd(s, i, IsWordChar)
  }

  function SpaceEnd(s: string, j: nat): nat
    requires j <= |s|
  {
    RunEnd(s, j, IsPySpace)
  }

  /** The pattern `(\w+)\s+(\d{1,2})` matches at `i` with the word `s[i..j]`, the
      white space `s[j..k]` and the first digit at `k`. */
  ghost predicate RegexAt(s: string, i: nat, j: nat, k: nat) {
    i < j < k < |s|
    && (forall m :: i <= m < j ==> IsWordChar(s[m]))
    && (forall m :: j <= m < k ==> IsPySpace(s[m]))
    && IsDigit(s[k])
  }

  /** The pattern matches at `i` with the longest word run and the longest white space
      run after it. */
  predicate MatchesAt(s: string, i: nat) {
    i < |s| && IsWordChar(s[i])
    && var j := WordEnd(s, i);
    var k := SpaceEnd(s, j);
    j < k < |s| && IsDigit(s[k])
  }

  /** The pattern matches at `i` exactly when the greedy runs do, and then the groups
      are the greedy ones: no other split of the text matches. */
  lemma MatchesAtIsRegex(s: string, i: nat, j: nat, k: nat)
    ensures MatchesAt(s, i) ==> RegexAt(s, i, WordEnd(s, i), SpaceEnd(s, WordEnd(s, i)))
    ensures RegexAt(s, i, j, k) ==> MatchesAt(s, i) && j == WordEnd(s, i) && k == SpaceEnd(s, j)
  {
    if RegexAt(s, i, j, k) {
      assert !IsWordChar(s[j]) && !IsPySpace(s[k]);
    }
  }

  /** `re.search`: the leftmost position from `i` on where the pattern matches. */
  function FirstMatch(s: string, i: nat): (r: Option<nat>)
    requires i <= |s|
    ensures r.Some? ==> i <= r.value < |s| && MatchesAt(s, r.value)
    ensures r.Some? ==> forall m :: i <= m < r.value ==> !MatchesAt(s, m)
    ensures r.None? ==> forall m :: i <= m < |s| ==> !MatchesAt(s, m)
    decreases |s| - i
  {
    if i == |s| then None
    else if MatchesAt(s, i) then Some(i)
    else FirstMatch(s, i + 1)
  }

  /** `int()` of the one or two digits at `k` (`\d{1,2}` is greedy). */
  function DayAt(s: string, k: nat): (day: int)
    requires k < |s| && IsDigit(s[k])
    ensures 0 <= day <= 99
  {
    if k + 1 < |s| && IsDigit(s[k + 1]) then Value2(s[k], s[k + 1]) else DigitValue(s[k])
  }

  /** The month table: full names and three-letter abbreviations ("may" only once). */
  function MonthNumber(name: string): (m: Option<int>)
    ensures m.Some? ==> 1 <= m.value <= 12
  {
    if name == "january" || name == "jan" then Some(1)
    else if name == "february" || name == "feb" then Some(2)
    else if name == "march" || name == "mar" then Some(3)
    else if name == "april" || name == "apr" then Some(4)
    else if name == "may" then Some(5)
    else if name == "june" || name == "jun" then Some(6)
    else if name == "july" || name == "jul" then Some(7)
    else if name == "august" || name == "aug" then Some(8)
    else if name == "september" || name == "sep" then Some(9)
    else if name == "october" || name == "oct" then Some(10)
    else if name == "november" || name == "nov" then Some(11)
    else if name == "december" || name == "dec" then Some(12)
    else None
  }

  /** The month and day of the first "word number" pair, when its word is a month;
      the search is not repeated when the first word is not a month. */
  function MonthDay(low: string): (r: Option<(int, int)>)
    ensures r.Some? ==> 1 <= r.value.0 <= 12 && 0 <= r.value.1 <= 99
  {
    match FirstMatch(low, 0)
    case None => None
    case Some(i) =>
      var j := WordEnd(low, i);
      var k := SpaceEnd(low, j);
      match MonthNumber(low[i..j])
      case None => None
      case Some(m) => Some((m, DayAt(low, k)))
  }

  /** `date(year, month, day)` raising ValueError for a day the month lacks. */
  datatype DateError = ValueError

  /** The date the month branch picks: this year's, or next year's when this year's
      has passed. */
  function Upcoming(today: Date, month: int, day: int): (r: Result<Date, DateError>)
    requires Valid(today)
    ensures r.Ok? ==> Valid(r.value) && r.value.month == month && r.value.day == day
    ensures r.Ok? ==> !Before(r.value, today)
    ensures r.Ok? ==> r.value.year == today.year || (r.value.year == today.year + 1 && Before(Date(today.year, month, day), today))
    ensures r.Failure? <==>
      (!Valid(Date(today.year, month, day))
       || (Before(Date(today.year, month, day), today) && !Valid(Date(today.year + 1, month, day))))
  {
    var target := Date(today.year, month, day);
    if !Valid(target) then Failure(ValueError)
    else if Before(target, today) then
      var next := Date(today.year + 1, month, day);
      if Valid(next) then Ok(next) else Failure(ValueError)
    else Ok(target)
  }

  /** `parse_natural_date`: "today" anywhere wins; then a month name with a day; then
      a text that starts in `YYYY-MM-DD` shape is returned as given; anything else
      gives today. Every answer starts in `YYYY-MM-DD` shape. */
  function ParseNaturalDate(input: string, today: Date): (r: Result<string, DateError>)
    requires Valid(today)
    ensures r.Ok? ==> IsoShaped(r.value)
    ensures r.Failure? ==> MonthDay(Lower(input)).Some?
  {
    var low := Lower(input);
    if Contains(low, "today") then Ok(Iso(today))
    else
      match MonthDay(low)
      case Some((month, day)) =>
        (match Upcoming(today, month, day)
         case Ok(d) => Ok(Iso(d))
         case Failure(e) => Failure(e))
      case None =>
        if IsoShaped(input) then Ok(input) else Ok(Iso(today))
  }

  /** "today" in any letter case gives today's date, whatever else the text says. */
  lemma TodayWins(input: string, today: Date)
    requires Valid(today) && Contains(Lower(input), "today")
    ensures ParseNaturalDate(input, today) == Ok(Iso(today))
  {
  }

  /** `d` is the given month and day, not before today, in this year or the next. */
  predicate UpcomingDate(d: Date, today: Date, month: int, day: int) {
    Valid(d) && d.month == month && d.day == day && !Before(d, today)
    && (d.year == today.year || d.year == today.year + 1)
  }

  /** A date from the month branch is the upcoming date of that month and day: never
      before today, and in next year only when this year's has passed. */
  lemma MonthBranchNotPast(input: string, today: Date, month: int, day: int)
    requires Valid(today) && !Contains(Lower(input), "today")
    requires MonthDay(Lower(input)) == Some((month, day))
    ensures var r := ParseNaturalDate(input, today);
      r.Ok? ==> exists d :: UpcomingDate(d, today, month, day) && r.value == Iso(d)
    ensures ParseNaturalDate(input, today).Failure? <==> Upcoming(today, month, day).Failure?
    ensures ParseNaturalDate(input, today).Ok? ==> ParseNaturalDate(input, today).value == Iso(Upcoming(today, month, day).value)
  {
    var u := Upcoming(today, month, day);
    if u.Ok? {
      assert ParseNaturalDate(input, today) == Ok(Iso(u.value));
    }
  }

  /** A text in `YYYY-MM-DD` shape without a month pair is returned unchanged. */
  lemma IsoPassesThrough(input: string, today: Date)
    requires Valid(today) && !Contains(Lower(input), "today")
    requires MonthDay(Lower(input)).None? && IsoShaped(input)
    ensures ParseNaturalDate(input, today) == Ok(input)
  {
  }

  /** Anything else is read as today. */
  lemma OtherwiseToday(input: string, today: Date)
    requires Valid(today) && !Contains(Lower(input), "today")
    requires MonthDay(Lower(input)).None? && !IsoShaped(input)
    ensures ParseNaturalDate(input, today) == Ok(Iso(today))
  {
  }

  /** When the text starts with a word that ends at `j`, then white space up to `k`,
      then a digit, the first pair is that word and the number at `k` ("nov 5th" gives
      November and 5). */
  lemma MonthDayAtStart(s: string, j: nat, k: nat)
    requires 0 < j < k < |s| && IsDigit(s[k])
    requires forall m :: 0 <= m < j ==> IsWordChar(s[m])
    requires forall m :: j <= m < k ==> IsPySpace(s[m])
    ensures MonthDay(s) == match MonthNumber(s[0..j]) case None => None case Some(m) => Some((m, DayAt(s, k)))
  {
    MatchesAtIsRegex(s, 0, j, k);
    assert FirstMatch(s, 0) == Some(0);
  }

  /** A day no month has, or a day past the 29th of February ("february 30"), raises
      the uncaught error in every year. */
  lemma ImpossibleDayFails(input: string, today: Date, month: int, day: int)
    requires Valid(today) && !Contains(Lower(input), "today")
    requires MonthDay(Lower(input)) == Some((month, day))
    requires day < 1 || day > 31 || (month == 2 && day > 29)
    ensures ParseNaturalDate(input, today).Failure?
  {
    MonthBranchNotPast(input, today, month, day);
  }

  // ----- keyword search -----

  /** A missing description reads as empty text. */
  function DescriptionText(c: ContentItem): string {
    match c.description
    case None => ""
    case Some(d) => d
  }

  /** The test `find_content_by_keyword` applies: the type, when one is given (an empty
      type counts as none), must match case-insensitively; the keyword must occur in
      the title or the description, case-insensitively. */
  predicate KeywordMatch(c: ContentItem, keyword: string, contentType: Option<string>) {
    (contentType.None? || contentType.value == "" || Lower(c.content_type) == Lower(contentType.value))
    && (Contains(Lower(c.title), Lower(keyword)) || Contains(Lower(DescriptionText(c)), Lower(keyword)))
  }

  function KeywordPred(keyword: string, contentType: Option<string>): ContentItem -> bool {
    c => KeywordMatch(c, keyword, contentType)
  }

  /** `find_content_by_keyword`: the loop appends every item that passes. */
  method FindContentByKeyword(contents: seq<ContentItem>, keyword: string, contentType: Option<string>)
    returns (results: seq<ContentItem>)
    ensures results == Filter(contents, KeywordPred(keyword, contentType))
  {
    var p := KeywordPred(keyword, contentType);
    results := [];
    var i := 0;
    while i < |contents|
      invariant 0 <= i <= |contents|
      invariant results == Filter(contents[..i], p)
    {
      var c := contents[i];
      FilterPrefixStep(contents, i, p);
      if p(c) {
        results := results + [c];
      }
      i := i + 1;
    }
    assert contents[..|contents|] == contents;
  }

  /** The results are the passing items in their original order. */
  lemma KeywordSearchCorrect(contents: seq<ContentItem>, keyword: string, contentType: Option<string>)
    ensures IsSubseq(Filter(contents, KeywordPred(keyword, contentType)), contents)
    ensures forall c :: c in Filter(contents, KeywordPred(keyword, contentType)) <==>
      c in contents && KeywordMatch(c, keyword, contentType)
  {
    FilterIsSubseq(contents, KeywordPred(keyword, contentType));
  }

  /** An item without a description is found by its title alone. */
  lemma MissingDescriptionIsEmpty(c: ContentItem, keyword: string)
    requires c.description.None?
    ensures KeywordMatch(c, keyword, None) <==> Contains(Lower(c.title), Lower(keyword))
  {
    if Contains(Lower(DescriptionText(c)), Lower(keyword)) {
      assert Lower(DescriptionText(c)) == "";
      var i: nat :| i <= 0 && OccursAt("", Lower(keyword), i);
      assert Lower(keyword) == "";
      ContainsEmpty(Lower(c.title));
    }
  }
}
