/** One pass of the scraper's main loop: collect the page's listings with a
    single clock reading, save them, and report the new ones. */
module Pipeline {
  import opened RelativeDate
  import opened Listings
  import opened Extract
  import opened Store

  /** What one pass leaves behind: the table, the new listings that are
      e-mailed, the number of listings logged as collected, and the warnings
      for the skipped cards. */
  datatype Cycle = Cycle(table: Table, news: seq<Listing>, collected: nat, skipped: seq<SkipReason>)

  /** `annonces = get_annonces(); nouvelles = save_annonces(annonces)` with
      the clock read as `now`. */
  function RunCycle(t: Table, cards: seq<Card>, now: Instant): (r: Cycle)
    ensures r.collected + |r.skipped| == |cards|
    ensures |r.table| == |t| + |r.news|
    ensures UniqueUrls(t) ==> UniqueUrls(r.table)
    ensures forall l | l in r.news :: l.lastSeen == now && l.url !in Urls(t) && SiteRoot <= l.url
  {
    var found := ExtractAll(cards, now);
    var saved := SaveAll(t, found);
    EveryCardAccounted(cards, now);
    SaveAllReportsNew(t, found);
    SubsequenceMembers(saved.news, found);
    Cycle(saved.table, saved.news, |found|, Skips(cards, now))
  }

  /** After a pass, a stored row whose URL was collected carries `now` as
      its `last_seen`, every other stored row is as it was, and the rows
      after them are the new listings. */
  lemma CycleStamps(t: Table, cards: seq<Card>, now: Instant)
    ensures var r := RunCycle(t, cards, now);
      var collected := Urls(ExtractAll(cards, now));
      && (forall i | 0 <= i < |t| ::
            r.table[i] == t[i].(lastSeen := if t[i].url in collected then now else t[i].lastSeen))
      && (forall j | 0 <= j < |r.news| :: r.table[|t| + j] == r.news[j])
  {
    var b := ExtractAll(cards, now);
    var news := Fresh(Urls(t), b);
    var rows := t + news;
    var r := RunCycle(t, cards, now);
    SaveAllClosedForm(t, b);
    assert r.table == RefreshAll(rows, b) && r.news == news;
    forall i | 0 <= i < |t|
      ensures r.table[i] == t[i].(lastSeen := if t[i].url in Urls(b) then now else t[i].lastSeen)
    {
      assert rows[i] == t[i];
      StampOf(b, t[i], now);
    }
    NewsKeepStamp(Urls(t), b, now);
    forall j | 0 <= j < |news|
      ensures r.table[|t| + j] == news[j]
    {
      assert rows[|t| + j] == news[j];
      assert news[j] in news;
    }
  }

  /** A new listing's stamp is the clock reading, so refreshing it changes
      nothing. */
  lemma NewsKeepStamp(seen: set<string>, b: seq<Listing>, now: Instant)
    requires forall x | x in b :: x.lastSeen == now
    ensures forall l | l in Fresh(seen, b) :: Refresh(l, b) == l
  {
    FreshProperties(seen, b);
    SubsequenceMembers(Fresh(seen, b), b);
    forall l | l in Fresh(seen, b)
      ensures Refresh(l, b) == l
    {
      StampOf(b, l, now);
    }
  }

  lemma StampOf(b: seq<Listing>, l: Listing, now: Instant)
    requires forall x | x in b :: x.lastSeen == now
    ensures Refresh(l, b) == l.(lastSeen := if l.url in Urls(b) then now else l.lastSeen)
  {
    LatestBounds(b, l.url, l.lastSeen);
    if l.url !in Urls(b) {
      LatestAbsentUrl(b, l.url, l.lastSeen);
    }
  }

  /** While the clock never reads earlier than a stored `last_seen`, a pass
      moves no `last_seen` back and leaves none later than `now`. */
  lemma CycleNeverGoesBack(t: Table, cards: seq<Card>, now: Instant)
    requires forall i | 0 <= i < |t| :: t[i].lastSeen <= now
    ensures var r := RunCycle(t, cards, now);
      && (forall i | 0 <= i < |t| :: t[i].lastSeen <= r.table[i].lastSeen)
      && (forall i | 0 <= i < |r.table| :: r.table[i].lastSeen <= now)
  {
    CycleStamps(t, cards, now);
    var r := RunCycle(t, cards, now);
    forall i | |t| <= i < |r.table|
      ensures r.table[i].lastSeen <= now
    {
      assert r.news[i - |t|] in r.news;
    }
  }

  /** Repeating a pass on the same page at the same clock reading changes
      nothing and reports nothing. */
  lemma CycleRepeated(t: Table, cards: seq<Card>, now: Instant)
    ensures var once := RunCycle(t, cards, now);
      var again := RunCycle(once.table, cards, now);
      again.table == once.table && again.news == []
  {
    SaveAllIdempotent(t, ExtractAll(cards, now));
  }
}
