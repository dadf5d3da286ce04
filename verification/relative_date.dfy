/** The relative date resolver of the scraper: French phrases such as
    "aujourd'hui", "hier" or "il y a 3 jours" become a calendar day, counted
    back from a reference instant that the caller passes in. */
module RelativeDate {
  import opened Outcome
  import opened Text

  const MicrosPerMinute: int := 60_000_000
  const MicrosPerHour: int := 3_600_000_000
  const MicrosPerDay: int := 86_400_000_000

  /** Days from 0001-01-01 through 9999-12-31, the range of Python's `date`. */
  const CalendarDays: int := 3_652_059

  /** A `datetime`, as microseconds elapsed since 0001-01-01T00:00. */
  type Instant = t: int | 0 <= t < CalendarDays * MicrosPerDay

  /** A `date`, as days elapsed since 0001-01-01 (its ordinal minus one). */
  type Day = d: int | 0 <= d < CalendarDays

  /** `datetime.date()`: the calendar day an instant falls on. */
  function DayOf(t: Instant): Day {
    t / MicrosPerDay
  }

  /** The published date of a listing: a resolved day, or text kept as it came. */
  datatype PubDate = OnDay(day: Day) | Verbatim(text: string)

  /** Subtracting a `timedelta` before 0001-01-01 raises `OverflowError`. */
  datatype DateError = OutOfRange

  /** `(now - timedelta(...)).date()` for a delta of `delta` microseconds. */
  function Back(now: Instant, delta: nat): (r: Result<PubDate, DateError>)
    ensures r.Ok? <==> delta <= now
    ensures r.Ok? ==> r.value.OnDay? && r.value.day * MicrosPerDay <= now - delta < (r.value.day + 1) * MicrosPerDay
  {
    if delta <= now then Ok(OnDay(DayOf(now - delta))) else Err(OutOfRange)
  }

  predicate IsDigit(c: char) {
    '0' <= c <= '9'
  }

  /** ASCII reading of the regular-expression class `\w`. */
  predicate IsWordChar(c: char) {
    IsDigit(c) || 'a' <= c <= 'z' || 'A' <= c <= 'Z' || c == '_'
  }

  predicate AllDigits(s: string) {
    forall i | 0 <= i < |s| :: IsDigit(s[i])
  }

  predicate AllWordChars(s: string) {
    forall i | 0 <= i < |s| :: IsWordChar(s[i])
  }

  /** Length of the longest prefix of digits (what a greedy `\d+` takes). */
  function DigitRun(s: string): (n: nat)
    ensures n <= |s|
    ensures AllDigits(s[..n])
    ensures n < |s| ==> !IsDigit(s[n])
  {
    if |s| > 0 && IsDigit(s[0]) then 1 + DigitRun(s[1..]) else 0
  }

  /** Length of the longest prefix of word characters (a greedy `\w+`). */
  function WordRun(s: string): (n: nat)
    ensures n <= |s|
    ensures AllWordChars(s[..n])
    ensures n < |s| ==> !IsWordChar(s[n])
  {
    if |s| > 0 && IsWordChar(s[0]) then 1 + WordRun(s[1..]) else 0
  }

  /** `int(d)` for a string of decimal digits. */
  function DigitsValue(d: string): nat
    requires AllDigits(d)
  {
    if |d| == 0 then 0
    else DigitsValue(d[..|d| - 1]) * 10 + (d[|d| - 1] as int - '0' as int)
  }

  /** The decimal numeral of `n`, without leading zeros. */
  function Numeral(n: nat): string {
    if n < 10 then [('0' as int + n) as char]
    else Numeral(n / 10) + [('0' as int + n % 10) as char]
  }

  /** `int(str(n)) == n`: reading back a numeral gives the number. */
  lemma {:induction false} NumeralRoundTrip(n: nat)
    ensures |Numeral(n)| > 0 && AllDigits(Numeral(n))
    ensures DigitsValue(Numeral(n)) == n
  {
    if n >= 10 {
      NumeralRoundTrip(n / 10);
      var d := Numeral(n);
      assert d[..|d| - 1] == Numeral(n / 10);
    }
  }

  /** The literal part of the pattern `il y a (\d+) (\w+)`. */
  const Marker: string := "il y a "

  /** The two groups of a match: the number and the unit word. */
  datatype Phrase = Phrase(digits: string, unit: string)

  /** The regular expression `il y a (\d+) (\w+)` matches `s` at index `i`
      with groups `p`: the marker, then the two groups. */
  predicate IsMatch(s: string, i: int, p: Phrase) {
    && 0 <= i && i + |Marker| <= |s|
    && s[i..i + |Marker|] == Marker
    && IsGroups(s, i + |Marker|, p)
  }

  /** `(\d+) (\w+)` matches `s` at index `j` with groups `p`: the digits,
      one space and the unit, where both groups are non-empty and the unit
      is as long as `\w+` makes it. */
  predicate IsGroups(s: string, j: int, p: Phrase) {
    var k := j + |p.digits| + 1;
    var e := k + |p.unit|;
    && 0 <= j && e <= |s|
    && s[j..k - 1] == p.digits && |p.digits| > 0 && AllDigits(p.digits)
    && s[k - 1] == ' '
    && s[k..e] == p.unit && |p.unit| > 0 && AllWordChars(p.unit)
    && (e == |s| || !IsWordChar(s[e]))
  }

  /** Tries the pattern at index `i` only. */
  function MatchAt(s: string, i: nat): (r: Option<Phrase>)
    requires i <= |s|
    ensures r.Some? ==> IsMatch(s, i, r.value)
  {
    if i + |Marker| <= |s| && s[i..i + |Marker|] == Marker then GroupsAt(s, i + |Marker|)
    else None
  }

  /** Tries `(\d+) (\w+)` at index `j` only; both runs are greedy. */
  function GroupsAt(s: string, j: nat): (r: Option<Phrase>)
    requires j <= |s|
    ensures r.Some? ==> IsGroups(s, j, r.value)
  {
    var d := DigitRun(s[j..]);
    if d == 0 || j + d >= |s| || s[j + d] != ' ' then None
    else
      assert s[j..j + d] == s[j..][..d];
      UnitAt(s, j, d)
  }

  /** The unit group, once `d` digits and a space have matched at `j`. */
  function UnitAt(s: string, j: nat, d: nat): (r: Option<Phrase>)
    requires 0 < d && j + d < |s| && AllDigits(s[j..j + d]) && s[j + d] == ' '
    ensures r.Some? ==> IsGroups(s, j, r.value)
  {
    var k := j + d + 1;
    var w := WordRun(s[k..]);
    if w == 0 then None
    else
      assert s[k..k + w] == s[k..][..w];
      Some(Phrase(s[j..j + d], s[k..k + w]))
  }

  /** Whenever the pattern matches at `i`, `MatchAt` finds exactly that match. */
  lemma MatchAtComplete(s: string, i: nat, p: Phrase)
    requires IsMatch(s, i, p)
    ensures MatchAt(s, i) == Some(p)
  {
    GroupsComplete(s, i + |Marker|, p);
  }

  lemma GroupsComplete(s: string, j: nat, p: Phrase)
    requires IsGroups(s, j, p)
    ensures GroupsAt(s, j) == Some(p)
  {
    var d := |p.digits|;
    var k := j + d + 1;
    var e := k + |p.unit|;
    assert s[j..][..d] == s[j..k - 1];
    DigitRunOf(s[j..], d);
    assert GroupsAt(s, j) == UnitAt(s, j, d);
    assert s[k..][..|p.unit|] == s[k..e];
    WordRunOf(s[k..], |p.unit|);
  }

  lemma DigitRunOf(s: string, n: nat)
    requires n < |s| && AllDigits(s[..n]) && !IsDigit(s[n])
    ensures DigitRun(s) == n
  {
    if n > 0 {
      assert s[1..][..n - 1] == s[1..n];
      DigitRunOf(s[1..], n - 1);
    }
  }

  lemma WordRunOf(s: string, n: nat)
    requires n <= |s| && AllWordChars(s[..n]) && (n == |s| || !IsWordChar(s[n]))
    ensures WordRun(s) == n
  {
    if n > 0 {
      assert s[1..][..n - 1] == s[1..n];
      WordRunOf(s[1..], n - 1);
    }
  }

  /** A match of the pattern found by `re.search`: where, and its groups. */
  datatype Hit = Hit(at: nat, phrase: Phrase)

  /** `re.search`: the leftmost index at or after `from` where the pattern
      matches, or nothing when it matches nowhere. */
  function Search(s: string, from: nat): (r: Option<Hit>)
    requires from <= |s| + 1
    decreases |s| + 1 - from
    ensures r.Some? ==> from <= r.value.at <= |s| && MatchAt(s, r.value.at) == Some(r.value.phrase)
    ensures r.Some? ==> NoMatchIn(s, from, r.value.at)
    ensures r.None? ==> NoMatchIn(s, from, |s| + 1)
  {
    if from > |s| then None
    else match MatchAt(s, from)
      case Some(p) => Some(Hit(from, p))
      case None =>
        var r := Search(s, from + 1);
        NoMatchExtend(s, from, if r.Some? then r.value.at else |s| + 1);
        r
  }

  /** The pattern matches at no index from `a` up to but excluding `b`. */
  predicate NoMatchIn(s: string, a: nat, b: nat)
    requires b <= |s| + 1
  {
    forall k | a <= k < b :: MatchAt(s, k).None?
  }

  lemma NoMatchExtend(s: string, a: nat, b: nat)
    requires a < b <= |s| + 1
    requires MatchAt(s, a).None? && NoMatchIn(s, a + 1, b)
    ensures NoMatchIn(s, a, b)
  {
  }

  /** `convertir_date_relative(texte)` with `datetime.now()` passed in as
      `now`. "aujourd" wins over "hier", and both win over the numeric
      pattern; whatever else it is given comes back unchanged. */
  function Resolve(text: string, now: Instant): (r: Result<PubDate, DateError>)
    ensures r.Ok? && r.value.Verbatim? ==> r.value.text == text
    ensures r.Ok? && r.value.OnDay? ==> r.value.day <= DayOf(now)
  {
    var low := Lower(text);
    if Contains(low, "aujourd") then Ok(OnDay(DayOf(now)))
    else if Contains(low, "hier") then Back(now, MicrosPerDay)
    else match Search(low, 0)
      case None => Ok(Verbatim(text))
      case Some(hit) =>
        var n := DigitsValue(hit.phrase.digits);
        var unit := hit.phrase.unit;
        if Contains(unit, "jour") then Back(now, n * MicrosPerDay)
        else if Contains(unit, "heure") then Back(now, n * MicrosPerHour)
        else if Contains(unit, "minute") then Back(now, n * MicrosPerMinute)
        else Ok(Verbatim(text))
  }

  /** Any text mentioning "aujourd", in any letter case, is the reference day. */
  lemma ResolveToday(text: string, now: Instant)
    requires Contains(Lower(text), "aujourd")
    ensures Resolve(text, now) == Ok(OnDay(DayOf(now)))
  {
  }

  /** Text mentioning "hier" (and not "aujourd") is the day before the
      reference day, even when it also holds an "il y a" phrase. */
  lemma ResolveYesterday(text: string, now: Instant)
    requires !Contains(Lower(text), "aujourd") && Contains(Lower(text), "hier")
    ensures now >= MicrosPerDay ==> Resolve(text, now) == Ok(OnDay(DayOf(now) - 1))
    ensures now < MicrosPerDay ==> Resolve(text, now) == Err(OutOfRange)
  {
  }

  /** The unit words the resolver understands, and how long each one is. */
  function UnitLength(unit: string): int {
    if unit == "jour" || unit == "jours" then MicrosPerDay
    else if unit == "heure" || unit == "heures" then MicrosPerHour
    else MicrosPerMinute
  }

  predicate IsKnownUnit(unit: string) {
    unit in {"jour", "jours", "heure", "heures", "minute", "minutes"}
  }

  /** The phrase "il y a N <unit>". */
  function Ago(n: nat, unit: string): string {
    Marker + Numeral(n) + " " + unit
  }

  /** "il y a N jours" is N days back, "il y a N heures" N hours back and
      "il y a N minutes" N minutes back, each truncated to a day; a phrase
      that reaches before 0001-01-01 fails. */
  lemma ResolveAgo(n: nat, unit: string, now: Instant)
    requires IsKnownUnit(unit)
    ensures Resolve(Ago(n, unit), now) == Back(now, n * UnitLength(unit))
  {
    var text := Ago(n, unit);
    NumeralRoundTrip(n);
    AgoIsLowerCase(n, unit);
    AgoHasNoKeyword(n, unit);
    AgoMatches(n, unit);
    UnitWords(unit);
  }

  /** Every character of "il y a N <unit>" is the marker's, a digit, the
      separating space or the unit's. */
  lemma AgoChars(n: nat, unit: string, i: int)
    requires 0 <= i < |Ago(n, unit)|
    ensures var text, digits := Ago(n, unit), Numeral(n);
      && |text| == |Marker| + |digits| + 1 + |unit|
      && (i < |Marker| ==> text[i] == Marker[i])
      && (|Marker| <= i < |Marker| + |digits| ==> text[i] == digits[i - |Marker|])
      && (i == |Marker| + |digits| ==> text[i] == ' ')
      && (i > |Marker| + |digits| ==> text[i] == unit[i - |Marker| - |digits| - 1])
  {
  }

  lemma AgoIsLowerCase(n: nat, unit: string)
    requires IsKnownUnit(unit)
    ensures Lower(Ago(n, unit)) == Ago(n, unit)
  {
    var text, digits := Ago(n, unit), Numeral(n);
    NumeralRoundTrip(n);
    forall i | 0 <= i < |text|
      ensures !IsAsciiUpper(text[i])
    {
      AgoChars(n, unit, i);
    }
    LowerOfLower(text);
  }

  /** Neither "aujourd" nor "hier" occurs in "il y a N <unit>": its only 'a'
      is followed by a space and its only 'h' by an 'e'. */
  lemma AgoHasNoKeyword(n: nat, unit: string)
    requires IsKnownUnit(unit)
    ensures !Contains(Ago(n, unit), "aujourd") && !Contains(Ago(n, unit), "hier")
  {
    var text, digits := Ago(n, unit), Numeral(n);
    NumeralRoundTrip(n);
    forall i | 0 <= i < |text| - 1
      ensures !(text[i] == 'a' && text[i + 1] == 'u')
      ensures !(text[i] == 'h' && text[i + 1] == 'i')
    {
      AgoChars(n, unit, i);
      AgoChars(n, unit, i + 1);
    }
    NotContainsMissingPair(text, "aujourd");
    NotContainsMissingPair(text, "hier");
  }

  /** The pattern matches "il y a N <unit>" at its start, so `re.search`
      returns the numeral and the unit as its groups. */
  lemma AgoMatches(n: nat, unit: string)
    requires IsKnownUnit(unit)
    ensures Search(Ago(n, unit), 0) == Some(Hit(0, Phrase(Numeral(n), unit)))
  {
    var text, p := Ago(n, unit), Phrase(Numeral(n), unit);
    KnownUnitIsWord(unit);
    AgoIsMatch(n, unit);
    MatchAtComplete(text, 0, p);
    SearchAtStart(text, p);
  }

  lemma AgoIsMatch(n: nat, unit: string)
    requires |unit| > 0 && AllWordChars(unit)
    ensures IsMatch(Ago(n, unit), 0, Phrase(Numeral(n), unit))
  {
    var text, digits := Ago(n, unit), Numeral(n);
    NumeralRoundTrip(n);
    var k := |Marker| + |digits| + 1;
    assert text == Marker + digits + " " + unit;
    assert |text| == k + |unit|;
    assert text[..|Marker|] == Marker;
    assert text[|Marker|..k - 1] == digits;
    assert text[k - 1] == ' ';
    assert text[k..|text|] == unit;
  }

  lemma SearchAtStart(s: string, p: Phrase)
    requires MatchAt(s, 0) == Some(p)
    ensures Search(s, 0) == Some(Hit(0, p))
  {
  }

  lemma KnownUnitIsWord(unit: string)
    requires IsKnownUnit(unit)
    ensures |unit| > 0 && AllWordChars(unit)
  {
  }

  lemma UnitWords(unit: string)
    requires IsKnownUnit(unit)
    ensures Contains(unit, "jour") <==> (unit == "jour" || unit == "jours")
    ensures !Contains(unit, "jour") ==> (Contains(unit, "heure") <==> (unit == "heure" || unit == "heures"))
    ensures !Contains(unit, "jour") && !Contains(unit, "heure") ==> Contains(unit, "minute")
  {
    if unit == "jour" || unit == "jours" {
      assert OccursAt(unit, "jour", 0);
    } else if unit == "heure" || unit == "heures" {
      NotContainsMissingChar(unit, "jour", 0);
      assert OccursAt(unit, "heure", 0);
    } else {
      NotContainsMissingChar(unit, "jour", 0);
      NotContainsMissingChar(unit, "heure", 0);
      assert OccursAt(unit, "minute", 0);
    }
  }

  /** The text comes back unchanged exactly when it holds neither keyword
      and either the pattern matches nowhere or its unit is none of
      jour, heure and minute. */
  lemma ResolveUnchanged(text: string, now: Instant)
    ensures Resolve(text, now) == Ok(Verbatim(text)) <==>
      && !Contains(Lower(text), "aujourd")
      && !Contains(Lower(text), "hier")
      && (Search(Lower(text), 0).None? ||
          var unit := Search(Lower(text), 0).value.phrase.unit;
          !Contains(unit, "jour") && !Contains(unit, "heure") && !Contains(unit, "minute"))
  {
  }
}
