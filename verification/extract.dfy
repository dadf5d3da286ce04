/** The per-card loop of the scraper's `get_annonces`: each result card of
    the fetched page becomes one listing, or is skipped with a warning when
    one of its parts is missing, without disturbing the other cards. */
module Extract {
  import opened Outcome
  import opened Text
  import opened RelativeDate
  import opened Listings

  /** One `.resultContent` card, as the HTML parser presents it: the text of
      each element the card's selectors find (absent when a selector finds
      nothing), the `href` of the enclosing link (absent when there is no
      enclosing `<a>` or it has no `href`), and the `.string` of every `span`
      that follows the card's start in document order (absent for a span
      whose `.string` is `None`). */
  datatype Card = Card(
    title: Option<string>,      // h2.jobTitle
    company: Option<string>,    // .companyName
    location: Option<string>,   // .companyLocation
    href: Option<string>,       // find_parent('a')['href']
    spans: seq<Option<string>>) // find_next('span', ...) candidates

  /** Why a card was skipped: the exception its processing raised. */
  datatype SkipReason = NoTitle | NoCompany | NoLocation | NoLink | DateOutOfRange

  const SiteRoot: string := "https://fr.indeed.com"

  /** `date_pub` of a card that has no relative-date span. */
  const UnknownDate: string := "inconnue"

  /** The span filter `x and 'il y a' in x.lower()`. */
  predicate IsDateSpan(x: Option<string>) {
    x.Some? && Contains(Lower(x.value), "il y a")
  }

  /** `find_next`: the index of the first span at or after `from` that passes
      the filter, or nothing when none does. */
  function DateSpanFrom(spans: seq<Option<string>>, from: nat): (r: Option<nat>)
    requires from <= |spans|
    decreases |spans| - from
    ensures r.Some? ==> from <= r.value < |spans| && IsDateSpan(spans[r.value])
    ensures r.Some? ==> forall k | from <= k < r.value :: !IsDateSpan(spans[k])
    ensures r.None? ==> forall k | from <= k < |spans| :: !IsDateSpan(spans[k])
  {
    if from == |spans| then None
    else if IsDateSpan(spans[from]) then Some(from)
    else DateSpanFrom(spans, from + 1)
  }

  /** `date_pub` of a card: "inconnue" without a date span, otherwise the
      resolver's reading of the span's stripped text. */
  function CardDate(spans: seq<Option<string>>, now: Instant): (r: Result<PubDate, DateError>)
    ensures DateSpanFrom(spans, 0).None? ==> r == Ok(Verbatim(UnknownDate))
    ensures r.Ok? && r.value.OnDay? ==> r.value.day <= DayOf(now)
    ensures r.Ok? && r.value.Verbatim? && DateSpanFrom(spans, 0).Some? ==>
      r.value.text == Strip(spans[DateSpanFrom(spans, 0).value].value)
    ensures DateSpanFrom(spans, 0).Some? ==>
      r == Resolve(Strip(spans[DateSpanFrom(spans, 0).value].value), now)
  {
    match DateSpanFrom(spans, 0)
    case None => Ok(Verbatim(UnknownDate))
    case Some(k) => Resolve(Strip(spans[k].value), now)
  }

  /** The body of the `try` block for one card, with `datetime.now()` passed
      in as `now`. */
  function ExtractCard(card: Card, now: Instant): Result<Listing, SkipReason> {
    if card.title.None? then Err(NoTitle)
    else if card.company.None? then Err(NoCompany)
    else if card.location.None? then Err(NoLocation)
    else if card.href.None? then Err(NoLink)
    else match CardDate(card.spans, now)
      case Err(_) => Err(DateOutOfRange)
      case Ok(date) =>
        Ok(Listing(Strip(card.title.value), Strip(card.company.value), Strip(card.location.value),
                   date, SiteRoot + card.href.value, now))
  }

  /** A card yields a listing exactly when its four parts are present and its
      date resolves; the listing holds the stripped texts, the link on the
      site root and the clock reading. */
  lemma ExtractCardMeaning(card: Card, now: Instant)
    ensures var r := ExtractCard(card, now);
      && (r.Ok? <==>
           && card.title.Some? && card.company.Some? && card.location.Some? && card.href.Some?
           && CardDate(card.spans, now).Ok?)
      && (r.Ok? ==> r.value.url == SiteRoot + card.href.value && r.value.lastSeen == now)
      && (r.Ok? ==>
           && r.value.title == Strip(card.title.value)
           && r.value.company == Strip(card.company.value)
           && r.value.location == Strip(card.location.value)
           && r.value.pubDate == CardDate(card.spans, now).value)
  {
  }

  /** The listings the loop collects, in card order. */
  function ExtractAll(cards: seq<Card>, now: Instant): (r: seq<Listing>)
    ensures |r| <= |cards|
    ensures forall l | l in r :: l.lastSeen == now && SiteRoot <= l.url
  {
    if cards == [] then []
    else match ExtractCard(cards[0], now)
      case Ok(l) =>
        ExtractCardMeaning(cards[0], now);
        [l] + ExtractAll(cards[1..], now)
      case Err(_) => ExtractAll(cards[1..], now)
  }

  /** The warnings the loop logs, one per skipped card, in card order. */
  function Skips(cards: seq<Card>, now: Instant): seq<SkipReason> {
    if cards == [] then []
    else match ExtractCard(cards[0], now)
      case Ok(_) => Skips(cards[1..], now)
      case Err(why) => [why] + Skips(cards[1..], now)
  }

  /** Every card is accounted for: it is either kept or logged as skipped. */
  lemma {:induction false} EveryCardAccounted(cards: seq<Card>, now: Instant)
    ensures |ExtractAll(cards, now)| + |Skips(cards, now)| == |cards|
  {
    if cards != [] {
      EveryCardAccounted(cards[1..], now);
    }
  }

  /** Cards are processed independently: extracting two runs of cards one
      after the other gives the two results one after the other. */
  lemma {:induction false} ExtractAllAppend(a: seq<Card>, b: seq<Card>, now: Instant)
    ensures ExtractAll(a + b, now) == ExtractAll(a, now) + ExtractAll(b, now)
  {
    if a == [] {
      assert a + b == b;
    } else {
      assert (a + b)[1..] == a[1..] + b;
      ExtractAllAppend(a[1..], b, now);
    }
  }

  /** A card that fails is dropped and changes nothing about its neighbours. */
  lemma {:induction false} BadCardIsolated(a: seq<Card>, bad: Card, b: seq<Card>, now: Instant)
    requires ExtractCard(bad, now).Err?
    ensures ExtractAll(a + [bad] + b, now) == ExtractAll(a, now) + ExtractAll(b, now)
  {
    ExtractAllAppend(a + [bad], b, now);
    ExtractAllAppend(a, [bad], now);
    DropBadCard(bad, now);
  }

  lemma DropBadCard(bad: Card, now: Instant)
    requires ExtractCard(bad, now).Err?
    ensures ExtractAll([bad], now) == [] && |Skips([bad], now)| == 1
    ensures Skips([bad], now) == [ExtractCard(bad, now).error]
  {
    assert [bad][1..] == [];
  }

  /** When every card succeeds, the listings are those cards' listings, one
      per card and in the same order. */
  lemma {:induction false} GoodCardsKept(cards: seq<Card>, now: Instant)
    requires forall k | 0 <= k < |cards| :: ExtractCard(cards[k], now).Ok?
    ensures |ExtractAll(cards, now)| == |cards|
    ensures forall k | 0 <= k < |cards| :: ExtractAll(cards, now)[k] == ExtractCard(cards[k], now).value
  {
    if cards != [] {
      assert ExtractCard(cards[0], now).Ok?;
      GoodCardsKept(cards[1..], now);
      assert forall k | 1 <= k < |cards| :: cards[1..][k - 1] == cards[k];
    }
  }

  /** A page where every card but one is complete and that one lacks its
      title yields one listing fewer than it has cards. */
  lemma {:induction false} OneCardWithoutTitle(a: seq<Card>, bad: Card, b: seq<Card>, now: Instant)
    requires forall k | 0 <= k < |a| :: ExtractCard(a[k], now).Ok?
    requires forall k | 0 <= k < |b| :: ExtractCard(b[k], now).Ok?
    requires bad.title.None?
    ensures |ExtractAll(a + [bad] + b, now)| == |a| + |b|
    ensures Skips(a + [bad] + b, now) == [NoTitle]
  {
    BadCardIsolated(a, bad, b, now);
    GoodCardsKept(a, now);
    GoodCardsKept(b, now);
    SkipsOfGoodCards(a, now);
    SkipsOfGoodCards(b, now);
    SkipsAppend(a + [bad], b, now);
    SkipsAppend(a, [bad], now);
    DropBadCard(bad, now);
  }

  lemma {:induction false} SkipsOfGoodCards(cards: seq<Card>, now: Instant)
    requires forall k | 0 <= k < |cards| :: ExtractCard(cards[k], now).Ok?
    ensures Skips(cards, now) == []
  {
    if cards != [] {
      assert ExtractCard(cards[0], now).Ok?;
      SkipsOfGoodCards(cards[1..], now);
    }
  }

  lemma {:induction false} SkipsAppend(a: seq<Card>, b: seq<Card>, now: Instant)
    ensures Skips(a + b, now) == Skips(a, now) + Skips(b, now)
  {
    if a == [] {
      assert a + b == b;
    } else {
      assert (a + b)[1..] == a[1..] + b;
      SkipsAppend(a[1..], b, now);
    }
  }
}
