/**
 * `formatDemoEntry`: the mapping from one extracted entry to the display record
 * handed to the table widget.
 */
module Formatter {
  import opened Wrappers
  import opened JsNumbers
  import opened Extractor

  /**
   * `releaseDateSortValue`: 0 for an unknown date, otherwise the value of
   * `new Date(year, monthIndex, day).getTime()`, kept as an uninterpreted term over
   * the three `parseInt` results (None stands for NaN).
   */
  datatype SortValue = ZeroSortValue | Timestamp(year: Option<int>, monthIndex: Option<int>, day: Option<int>)

  /** The display record; None stands for `null` (or `undefined` for id and name). */
  datatype DisplayRecord = DisplayRecord(
    id: Option<string>,
    name: Option<string>,
    place: string,
    releaseDate: string,
    releaseDateSortValue: SortValue,
    rating: Number,
    votes: int,
    csdbUrl: string,
    screenshot: Option<string>,
    achievement: Option<string>,
    event: Option<string>)

  const ReleaseUrlPrefix := "https://csdb.dk/release/?id="
  const UnknownDate := "Unknown"

  /** JavaScript truthiness of a property holding a string: present and non-empty. */
  predicate Truthy(o: Option<string>) {
    o.Some? && o.value != ""
  }

  /** `x || null` for a property holding a string. */
  function OrNull(o: Option<string>): (r: Option<string>)
    ensures r.None? <==> !Truthy(o)
    ensures r.Some? ==> r == o
  {
    if Truthy(o) then o else None
  }

  /** How a template literal prints a property holding a string: `undefined` when it is missing. */
  function Interpolate(o: Option<string>): string {
    match o
    case None => "undefined"
    case Some(s) => s
  }

  /** The condition of the date branch: day, month and year are all truthy. */
  predicate HasFullDate(release: RawRelease) {
    Truthy(release.releaseDay) && Truthy(release.releaseMonth) && Truthy(release.releaseYear)
  }

  /** `parseInt(month) - 1`: NaN stays NaN. */
  function MonthIndex(month: string): (r: Option<int>)
    ensures r.None? <==> NoIntLiteral(Unsigned(TrimStart(month)))
  {
    ParseIntNaNIff(month);
    match ParseInt(month)
    case None => None
    case Some(m) => Some(m - 1)
  }

  /** The `releaseDate` field: "day/month/year" verbatim when all three parts are truthy, else "Unknown". */
  function ReleaseDateText(release: RawRelease): (s: string)
    ensures s == UnknownDate <==> !HasFullDate(release)
    ensures HasFullDate(release) ==>
              s == release.releaseDay.value + "/" + release.releaseMonth.value + "/" + release.releaseYear.value
  {
    if HasFullDate(release) then
      var s := release.releaseDay.value + "/" + release.releaseMonth.value + "/" + release.releaseYear.value;
      assert s[|release.releaseDay.value|] == '/' && UnknownDate[0] == 'U';
      s
    else UnknownDate
  }

  /** The `releaseDateSortValue` field: 0 for an unknown date, else the timestamp built with a 0-based month. */
  function SortValueOf(release: RawRelease): (v: SortValue)
    ensures v == ZeroSortValue <==> !HasFullDate(release)
    ensures HasFullDate(release) ==>
              v == Timestamp(ParseInt(release.releaseYear.value), MonthIndex(release.releaseMonth.value),
                             ParseInt(release.releaseDay.value))
  {
    if HasFullDate(release) then
      Timestamp(ParseInt(release.releaseYear.value), MonthIndex(release.releaseMonth.value), ParseInt(release.releaseDay.value))
    else ZeroSortValue
  }

  /** The `csdbUrl` field: the release page link with the id interpolated. */
  function ReleaseUrl(id: Option<string>): (url: string)
    ensures |url| >= |ReleaseUrlPrefix| && url[..|ReleaseUrlPrefix|] == ReleaseUrlPrefix
    ensures url[|ReleaseUrlPrefix|..] == Interpolate(id)
  {
    ReleaseUrlPrefix + Interpolate(id)
  }

  /** The `achievement` field: "<place>. place at <compo>" when the release has an achievement, else null. */
  function AchievementText(a: Option<Achievement>): (r: Option<string>)
    ensures r.Some? <==> a.Some?
    ensures r.Some? ==> r.value == a.value.place + ". place at " + a.value.compo
  {
    match a
    case None => None
    case Some(x) => Some(x.place + ". place at " + x.compo)
  }

  /** The `event` field: `release.ReleasedAt?.Event?.Name || null`. */
  function EventName(e: Option<Event>): (r: Option<string>)
    ensures r.None? <==> e.None? || e.value.name == ""
    ensures r.Some? ==> r.value == e.value.name
  {
    match e
    case None => None
    case Some(x) => OrNull(Some(x.name))
  }

  /** `formatDemoEntry(entry)`. */
  function FormatDemoEntry(entry: RawEntry): (d: DisplayRecord)
    ensures d.id == entry.release.id && d.name == entry.release.name && d.place == entry.place
    ensures d.releaseDate == ReleaseDateText(entry.release)
    ensures d.releaseDateSortValue == SortValueOf(entry.release)
    ensures d.rating == NumberOrZero(ParseFloat(entry.rating))
    ensures d.votes == IntOrZero(ParseInt(entry.votes))
    ensures d.csdbUrl == ReleaseUrl(entry.release.id)
    ensures d.screenshot == OrNull(entry.release.screenShot)
    ensures d.achievement == AchievementText(entry.release.achievement)
    ensures d.event == EventName(entry.release.releasedAt)
  {
    var release := entry.release;
    DisplayRecord(
      release.id,
      release.name,
      entry.place,
      ReleaseDateText(release),
      SortValueOf(release),
      NumberOrZero(ParseFloat(entry.rating)),
      IntOrZero(ParseInt(entry.votes)),
      ReleaseUrl(release.id),
      OrNull(release.screenShot),
      AchievementText(release.achievement),
      EventName(release.releasedAt))
  }

  /** `entries.map(formatDemoEntry)`. */
  function FormatEntries(entries: seq<RawEntry>): (r: seq<DisplayRecord>)
    ensures |r| == |entries|
    ensures forall i :: 0 <= i < |entries| ==> r[i] == FormatDemoEntry(entries[i])
  {
    seq(|entries|, i requires 0 <= i < |entries| => FormatDemoEntry(entries[i]))
  }

  // ---------------------------------------------------------------------------
  // Lemmas
  // ---------------------------------------------------------------------------

  /** Mapping distributes over concatenation: one display record per raw entry, order kept. */
  lemma FormatEntriesAppend(a: seq<RawEntry>, b: seq<RawEntry>)
    ensures FormatEntries(a + b) == FormatEntries(a) + FormatEntries(b)
  {
    assert forall i :: 0 <= i < |a| ==> (a + b)[i] == a[i];
    assert forall i :: |a| <= i < |a| + |b| ==> (a + b)[i] == b[i - |a|];
  }

  /** The pieces of `s` between the occurrences of `sep`. */
  function Split(s: string, sep: char): (r: seq<string>)
    ensures |r| >= 1
  {
    if sep !in s then [s]
    else
      var i := IndexOf(s, sep);
      [s[..i]] + Split(s[i + 1..], sep)
  }

  /** The position of the first `c` in `s`. */
  function IndexOf(s: string, c: char): (i: nat)
    requires c in s
    ensures i < |s| && s[i] == c && c !in s[..i]
  {
    if s[0] == c then 0 else 1 + IndexOf(s[1..], c)
  }

  lemma SplitFront(a: string, b: string, sep: char)
    requires sep !in a
    ensures Split(a + [sep] + b, sep) == [a] + Split(b, sep)
  {
    var s := a + [sep] + b;
    assert s[|a|] == sep;
    assert s[..|a|] == a && s[|a| + 1..] == b;
    var i := IndexOf(s, sep);
    assert i <= |a| by {
      assert forall k :: 0 <= k < |a| ==> s[k] == a[k];
    }
    assert i >= |a| by {
      assert forall k :: 0 <= k < i ==> s[..i][k] == s[k];
    }
  }

  lemma SplitThree(day: string, month: string, year: string)
    requires '/' !in day && '/' !in month && '/' !in year
    ensures Split(day + "/" + month + "/" + year, '/') == [day, month, year]
  {
    assert day + "/" + month + "/" + year == day + ['/'] + (month + ['/'] + year);
    SplitFront(day, month + ['/'] + year, '/');
    SplitFront(month, year, '/');
    assert Split(year, '/') == [year];
  }

  /** Round trip: a known date string splits back, at its slashes, into the day, month and year it was built from. */
  lemma ReleaseDateRoundTrip(entry: RawEntry)
    requires HasFullDate(entry.release)
    requires var r := entry.release;
             '/' !in r.releaseDay.value && '/' !in r.releaseMonth.value && '/' !in r.releaseYear.value
    ensures var r := entry.release;
            Split(FormatDemoEntry(entry).releaseDate, '/') == [r.releaseDay.value, r.releaseMonth.value, r.releaseYear.value]
  {
    var r := entry.release;
    SplitThree(r.releaseDay.value, r.releaseMonth.value, r.releaseYear.value);
  }

  /** A date given as three numerals is shown verbatim and sorts by the calendar date with a 0-based month. */
  lemma NumericDate(entry: RawEntry, day: nat, month: nat, year: nat)
    requires entry.release.releaseDay == Some(DecimalString(day))
    requires entry.release.releaseMonth == Some(DecimalString(month))
    requires entry.release.releaseYear == Some(DecimalString(year))
    ensures FormatDemoEntry(entry).releaseDate == DecimalString(day) + "/" + DecimalString(month) + "/" + DecimalString(year)
    ensures FormatDemoEntry(entry).releaseDateSortValue == Timestamp(Some(year), Some(month - 1), Some(day))
  {
    NumericSortValue(entry.release, day, month, year);
  }

  lemma {:induction false} NumericSortValue(release: RawRelease, day: nat, month: nat, year: nat)
    requires release.releaseDay == Some(DecimalString(day))
    requires release.releaseMonth == Some(DecimalString(month))
    requires release.releaseYear == Some(DecimalString(year))
    ensures HasFullDate(release)
    ensures SortValueOf(release) == Timestamp(Some(year), Some(month - 1), Some(day))
  {
    ParseIntDecimalString(day);
    ParseIntDecimalString(month);
    ParseIntDecimalString(year);
    ParsedSortValue(release, day, month, year);
  }

  /** A full date whose three parts parse to given integers sorts by those integers, with the month 0-based. */
  lemma {:induction false} ParsedSortValue(release: RawRelease, day: int, month: int, year: int)
    requires HasFullDate(release)
    requires ParseInt(release.releaseDay.value) == Some(day)
    requires ParseInt(release.releaseMonth.value) == Some(month)
    requires ParseInt(release.releaseYear.value) == Some(year)
    ensures SortValueOf(release) == Timestamp(Some(year), Some(month - 1), Some(day))
  {
    ParsedMonthIndex(release.releaseMonth.value, month);
    assert SortValueOf(release) == Timestamp(ParseInt(release.releaseYear.value), MonthIndex(release.releaseMonth.value),
                                             ParseInt(release.releaseDay.value));
  }

  /** A month that parses to `month` gives the 0-based month index `month - 1`. */
  lemma {:induction false} ParsedMonthIndex(monthText: string, month: int)
    requires ParseInt(monthText) == Some(month)
    ensures MonthIndex(monthText) == Some(month - 1)
  {
  }

  /** The vote count of a numeral is its value; text with no leading integer literal counts 0 votes. */
  lemma VotesOfText(entry: RawEntry, n: nat)
    ensures entry.votes == DecimalString(n) ==> FormatDemoEntry(entry).votes == n
    ensures NoIntLiteral(Unsigned(TrimStart(entry.votes))) ==> FormatDemoEntry(entry).votes == 0
  {
    if entry.votes == DecimalString(n) { ParseIntDecimalString(n); }
    ParseIntNaNIff(entry.votes);
  }

  /** The rating of a whole-number text is that number; text with no leading decimal literal rates 0. */
  lemma RatingOfText(entry: RawEntry)
    ensures (|entry.rating| >= 1 && forall i :: 0 <= i < |entry.rating| ==> IsDecimalDigit(entry.rating[i])) ==>
              FormatDemoEntry(entry).rating == Finite(DigitsValue(entry.rating, 10) as real)
    ensures NoFloatLiteral(Unsigned(TrimStart(entry.rating))) ==> FormatDemoEntry(entry).rating == Finite(0.0)
  {
    if |entry.rating| >= 1 && forall i :: 0 <= i < |entry.rating| ==> IsDecimalDigit(entry.rating[i]) {
      ParseFloatAllDigits(entry.rating);
    }
    ParseFloatNaNIff(entry.rating);
  }

  /** An entry without a Release element still gives a record: unknown date, no optional parts, and "undefined" in its link. */
  lemma MissingRelease(entry: RawEntry)
    requires entry.release == EmptyRelease
    ensures var d := FormatDemoEntry(entry);
            && d.id.None? && d.name.None?
            && d.releaseDate == UnknownDate && d.releaseDateSortValue == ZeroSortValue
            && d.csdbUrl == ReleaseUrlPrefix + "undefined"
            && d.screenshot.None? && d.achievement.None? && d.event.None?
  {
  }
}
