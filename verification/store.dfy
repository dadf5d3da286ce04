/** The reconciliation store: `save_annonces` inserts every listing whose
    URL the `annonces` table has not seen, refreshes only `last_seen` of the
    ones it has, and reports the inserted ones. */
module Store {
  import opened RelativeDate
  import opened Listings

  /** The `annonces` table: its rows in `id` order. */
  type Table = seq<Listing>

  /** After one `INSERT` attempt: the table, and whether the row went in. */
  datatype Upserted = Upserted(table: Table, inserted: bool)

  /** After `save_annonces`: the table, and the list `nouvelles`. */
  datatype Saved = Saved(table: Table, news: seq<Listing>)

  /** `UPDATE annonces SET last_seen=? WHERE url=?` */
  function Touch(t: Table, url: string, seen: Instant): Table {
    seq(|t|, i requires 0 <= i < |t| => if t[i].url == url then t[i].(lastSeen := seen) else t[i])
  }

  /** One iteration of the loop: the `INSERT`, or, when the `UNIQUE`
      constraint on `url` rejects it, the `UPDATE` of `last_seen`. */
  function Upsert(t: Table, a: Listing): (r: Upserted)
    ensures r.inserted <==> a.url !in Urls(t)
    ensures Urls(r.table) == Urls(t) + {a.url}
    ensures |r.table| == |t| + (if r.inserted then 1 else 0)
    ensures UniqueUrls(t) ==> UniqueUrls(r.table)
  {
    if a.url in Urls(t) then
      TouchKeepsUrls(t, a.url, a.lastSeen);
      Upserted(Touch(t, a.url, a.lastSeen), false)
    else
      AppendNewUrl(t, a);
      Upserted(t + [a], true)
  }

  lemma TouchKeepsUrls(t: Table, url: string, seen: Instant)
    ensures Urls(Touch(t, url, seen)) == Urls(t)
    ensures UniqueUrls(t) ==> UniqueUrls(Touch(t, url, seen))
  {
    var t' := Touch(t, url, seen);
    forall u | u in Urls(t')
      ensures u in Urls(t)
    {
      var l :| l in t' && l.url == u;
      var i :| 0 <= i < |t'| && t'[i] == l;
      assert t[i] in t;
    }
    forall u | u in Urls(t)
      ensures u in Urls(t')
    {
      var l :| l in t && l.url == u;
      var i :| 0 <= i < |t| && t[i] == l;
      assert t'[i] in t';
    }
  }

  lemma AppendNewUrl(t: Table, a: Listing)
    requires a.url !in Urls(t)
    ensures Urls(t + [a]) == Urls(t) + {a.url}
    ensures UniqueUrls(t) ==> UniqueUrls(t + [a])
  {
    UrlsAppend(t, [a]);
    UrlsTail([a]);
    assert [a][1..] == [];
    forall i | 0 <= i < |t|
      ensures t[i].url != a.url
    {
      assert t[i] in t;
    }
  }

  /** `save_annonces(annonces)`: the upsert folded over the batch in order. */
  function SaveAll(t: Table, batch: seq<Listing>): (r: Saved)
    ensures |r.table| == |t| + |r.news|
    ensures Urls(r.table) == Urls(t) + Urls(batch)
    ensures UniqueUrls(t) ==> UniqueUrls(r.table)
    decreases |batch|
  {
    if batch == [] then Saved(t, [])
    else
      var step := Upsert(t, batch[0]);
      var rest := SaveAll(step.table, batch[1..]);
      UrlsTail(batch);
      Saved(rest.table, if step.inserted then [batch[0]] + rest.news else rest.news)
  }

  // ---------------------------------------------------------------------
  // A description of the result that does not replay the loop

  /** The `last_seen` the last listing of `b` with URL `url` carries, or
      `dflt` when `b` has none. */
  function Latest(b: seq<Listing>, url: string, dflt: Instant): Instant
    decreases |b|
  {
    if b == [] then dflt
    else Latest(b[1..], url, if b[0].url == url then b[0].lastSeen else dflt)
  }

  /** A stored row once the batch has gone by. */
  function Refresh(l: Listing, b: seq<Listing>): Listing {
    l.(lastSeen := Latest(b, l.url, l.lastSeen))
  }

  function RefreshAll(t: Table, b: seq<Listing>): Table {
    seq(|t|, i requires 0 <= i < |t| => Refresh(t[i], b))
  }

  /** The listings of `b` whose URL is neither in `seen` nor on an earlier
      listing of `b`, in the order of `b`. */
  function Fresh(seen: set<string>, b: seq<Listing>): seq<Listing>
    decreases |b|
  {
    if b == [] then []
    else if b[0].url in seen then Fresh(seen, b[1..])
    else [b[0]] + Fresh(seen + {b[0].url}, b[1..])
  }

  /** The first listing of `b` with URL `url`. */
  function FirstWith(b: seq<Listing>, url: string): Listing
    requires url in Urls(b)
    decreases |b|
  {
    UrlsTail(b);
    if b[0].url == url then b[0] else FirstWith(b[1..], url)
  }

  /** `Latest` is the `last_seen` of the last listing with that URL. */
  lemma {:induction false} LatestIsLast(b: seq<Listing>, url: string, dflt: Instant, k: nat)
    requires k < |b| && b[k].url == url
    requires forall j | k < j < |b| :: b[j].url != url
    ensures Latest(b, url, dflt) == b[k].lastSeen
  {
    if k == 0 {
      LatestAbsent(b[1..], url, b[0].lastSeen);
    } else {
      LatestIsLast(b[1..], url, if b[0].url == url then b[0].lastSeen else dflt, k - 1);
    }
  }

  /** A URL the batch does not hold keeps its `last_seen`. */
  lemma {:induction false} LatestAbsent(b: seq<Listing>, url: string, dflt: Instant)
    requires forall j | 0 <= j < |b| :: b[j].url != url
    ensures Latest(b, url, dflt) == dflt
  {
    if b != [] {
      LatestAbsent(b[1..], url, dflt);
    }
  }

  lemma LatestAbsentUrl(b: seq<Listing>, url: string, dflt: Instant)
    requires url !in Urls(b)
    ensures Latest(b, url, dflt) == dflt
  {
    forall j | 0 <= j < |b|
      ensures b[j].url != url
    {
      assert b[j] in b;
    }
    LatestAbsent(b, url, dflt);
  }

  /** For a URL the batch holds, the earlier value does not matter. */
  lemma {:induction false} LatestOverrides(b: seq<Listing>, url: string, d1: Instant, d2: Instant)
    requires url in Urls(b)
    ensures Latest(b, url, d1) == Latest(b, url, d2)
  {
    UrlsTail(b);
    if b[0].url != url {
      LatestOverrides(b[1..], url, d1, d2);
    }
  }

  /** What `Fresh` keeps: listings of the batch, none with a URL already
      seen, no URL twice, each the first of the batch with its URL, and
      every unseen URL of the batch represented. */
  lemma {:induction false} FreshProperties(seen: set<string>, b: seq<Listing>)
    ensures IsSubsequence(Fresh(seen, b), b)
    ensures UniqueUrls(Fresh(seen, b))
    ensures Urls(Fresh(seen, b)) == Urls(b) - seen
    ensures forall l | l in Fresh(seen, b) :: l.url in Urls(b) && l == FirstWith(b, l.url)
    decreases |b|
  {
    if b != [] {
      var f := Fresh(seen, b);
      UrlsTail(b);
      if b[0].url in seen {
        FreshProperties(seen, b[1..]);
        forall l | l in f
          ensures l.url in Urls(b) && l == FirstWith(b, l.url)
        {
          assert l.url != b[0].url;
        }
      } else {
        var rest := Fresh(seen + {b[0].url}, b[1..]);
        FreshProperties(seen + {b[0].url}, b[1..]);
        assert f == [b[0]] + rest;
        assert f[1..] == rest;
        UrlsTail(f);
        forall i, j | 0 <= i < j < |f|
          ensures f[i].url != f[j].url
        {
          if i == 0 {
            assert f[j] in rest;
          } else {
            assert f[i] == rest[i - 1] && f[j] == rest[j - 1];
          }
        }
        forall l | l in f
          ensures l.url in Urls(b) && l == FirstWith(b, l.url)
        {
          if l != b[0] {
            assert l in rest;
          }
        }
      }
    }
  }

  /** The first listing with every unseen URL of the batch is kept. */
  lemma FreshKeepsFirst(seen: set<string>, b: seq<Listing>, url: string)
    requires url in Urls(b) && url !in seen
    ensures FirstWith(b, url) in Fresh(seen, b)
  {
    FreshProperties(seen, b);
    var f := Fresh(seen, b);
    assert url in Urls(f);
    var l :| l in f && l.url == url;
  }

  /** A batch of distinct URLs none of which is stored is kept whole. */
  lemma {:induction false} FreshAllNew(seen: set<string>, b: seq<Listing>)
    requires UniqueUrls(b)
    requires forall k | 0 <= k < |b| :: b[k].url !in seen
    ensures Fresh(seen, b) == b
    decreases |b|
  {
    if b != [] {
      forall k | 0 <= k < |b[1..]|
        ensures b[1..][k].url !in seen + {b[0].url}
      {
        assert b[1..][k] == b[k + 1];
      }
      FreshAllNew(seen + {b[0].url}, b[1..]);
    }
  }

  /** A batch whose URLs are all stored inserts nothing. */
  lemma {:induction false} FreshAllSeen(seen: set<string>, b: seq<Listing>)
    requires Urls(b) <= seen
    ensures Fresh(seen, b) == []
    decreases |b|
  {
    if b != [] {
      UrlsTail(b);
      FreshAllSeen(seen, b[1..]);
    }
  }

  lemma FreshUrlsUnseen(seen: set<string>, b: seq<Listing>, l: Listing)
    requires l in Fresh(seen, b)
    ensures l.url !in seen
  {
    FreshProperties(seen, b);
    assert l.url in Urls(Fresh(seen, b));
  }

  /** `save_annonces` in closed form: the table grows by the new listings of
      the batch, and every row, old or new, ends up with the `last_seen` of
      the last listing of the batch with its URL. */
  lemma {:induction false} SaveAllClosedForm(t: Table, b: seq<Listing>)
    ensures SaveAll(t, b) == Saved(RefreshAll(t + Fresh(Urls(t), b), b), Fresh(Urls(t), b))
    decreases |b|
  {
    if b == [] {
      assert t + [] == t;
      assert RefreshAll(t, b) == t;
    } else {
      var step := Upsert(t, b[0]);
      SaveAllClosedForm(step.table, b[1..]);
      if b[0].url in Urls(t) {
        ClosedFormKnown(t, b);
      } else {
        ClosedFormNew(t, b);
      }
    }
  }

  /** Passing the first listing of the batch over one row. */
  lemma RefreshStep(l: Listing, b: seq<Listing>)
    requires b != []
    ensures Refresh(l, b) == Refresh(if l.url == b[0].url then l.(lastSeen := b[0].lastSeen) else l, b[1..])
  {
  }

  /** The step of the closed form for a first listing whose URL is stored. */
  lemma ClosedFormKnown(t: Table, b: seq<Listing>)
    requires b != [] && b[0].url in Urls(t)
    ensures var step := Upsert(t, b[0]);
      && Fresh(Urls(step.table), b[1..]) == Fresh(Urls(t), b)
      && RefreshAll(step.table + Fresh(Urls(step.table), b[1..]), b[1..]) == RefreshAll(t + Fresh(Urls(t), b), b)
  {
    var step := Upsert(t, b[0]);
    var f := Fresh(Urls(t), b[1..]);
    assert Urls(step.table) == Urls(t);
    var lhs, rhs := RefreshAll(step.table + f, b[1..]), RefreshAll(t + f, b);
    forall i | 0 <= i < |rhs|
      ensures lhs[i] == rhs[i]
    {
      RefreshStep((t + f)[i], b);
      if i >= |t| {
        FreshUrlsUnseen(Urls(t), b[1..], f[i - |t|]);
      }
    }
    assert lhs == rhs;
  }

  /** The step of the closed form for a first listing whose URL is new. */
  lemma ClosedFormNew(t: Table, b: seq<Listing>)
    requires b != [] && b[0].url !in Urls(t)
    ensures var step := Upsert(t, b[0]);
      && [b[0]] + Fresh(Urls(step.table), b[1..]) == Fresh(Urls(t), b)
      && RefreshAll(step.table + Fresh(Urls(step.table), b[1..]), b[1..]) == RefreshAll(t + Fresh(Urls(t), b), b)
  {
    var step := Upsert(t, b[0]);
    var f := Fresh(Urls(t) + {b[0].url}, b[1..]);
    assert Urls(step.table) == Urls(t) + {b[0].url};
    var rows := step.table + f;
    assert t + ([b[0]] + f) == rows;
    var lhs, rhs := RefreshAll(rows, b[1..]), RefreshAll(rows, b);
    forall i | 0 <= i < |rhs|
      ensures lhs[i] == rhs[i]
    {
      RefreshStep(rows[i], b);
      if i < |t| {
        assert t[i] in t;
      } else if i > |t| {
        FreshUrlsUnseen(Urls(t) + {b[0].url}, b[1..], f[i - |t| - 1]);
      }
    }
    assert lhs == rhs;
  }

  // ---------------------------------------------------------------------
  // Properties of save_annonces

  /** The list of new listings is exactly the first listing of the batch
      for each URL the table did not hold, in batch order: an in-batch
      duplicate is reported once, and a stored URL never. */
  lemma SaveAllReportsNew(t: Table, b: seq<Listing>)
    ensures var news := SaveAll(t, b).news;
      && IsSubsequence(news, b)
      && UniqueUrls(news)
      && Urls(news) == Urls(b) - Urls(t)
      && (forall l | l in news :: l.url in Urls(b) && l == FirstWith(b, l.url))
      && (forall u | u in Urls(b) && u !in Urls(t) :: FirstWith(b, u) in news)
  {
    SaveAllClosedForm(t, b);
    FreshProperties(Urls(t), b);
    forall u | u in Urls(b) && u !in Urls(t)
      ensures FirstWith(b, u) in SaveAll(t, b).news
    {
      FreshKeepsFirst(Urls(t), b, u);
    }
  }

  /** A stored row keeps its title, company, location, publication date,
      URL and place; only `last_seen` changes, to that of the last batch
      listing with its URL, and not at all when the batch lacks its URL.
      Nothing is deleted, and the rows after the old ones are the new
      listings, in order. */
  lemma SaveAllKeepsRows(t: Table, b: seq<Listing>)
    ensures var r := SaveAll(t, b);
      && |r.table| == |t| + |r.news|
      && (forall i | 0 <= i < |t| :: r.table[i] == t[i].(lastSeen := r.table[i].lastSeen))
      && (forall i | 0 <= i < |t| && t[i].url !in Urls(b) :: r.table[i] == t[i])
      && (forall i, k | 0 <= i < |t| && 0 <= k < |b| && b[k].url == t[i].url &&
            (forall j | k < j < |b| :: b[j].url != t[i].url) :: r.table[i].lastSeen == b[k].lastSeen)
      && (forall j | 0 <= j < |r.news| :: r.table[|t| + j] == r.news[j].(lastSeen := r.table[|t| + j].lastSeen))
  {
    SaveAllClosedForm(t, b);
    var news := Fresh(Urls(t), b);
    var rows := t + news;
    var r := SaveAll(t, b);
    assert r.table == RefreshAll(rows, b) && r.news == news;
    forall i | 0 <= i < |t|
      ensures r.table[i] == t[i].(lastSeen := r.table[i].lastSeen)
    {
      assert rows[i] == t[i];
    }
    forall i | 0 <= i < |t| && t[i].url !in Urls(b)
      ensures r.table[i] == t[i]
    {
      assert rows[i] == t[i];
      LatestAbsentUrl(b, t[i].url, t[i].lastSeen);
    }
    forall i, k | 0 <= i < |t| && 0 <= k < |b| && b[k].url == t[i].url &&
        (forall j | k < j < |b| :: b[j].url != t[i].url)
      ensures r.table[i].lastSeen == b[k].lastSeen
    {
      assert rows[i] == t[i];
      LatestIsLast(b, t[i].url, t[i].lastSeen, k);
    }
    forall j | 0 <= j < |news|
      ensures r.table[|t| + j] == news[j].(lastSeen := r.table[|t| + j].lastSeen)
    {
      assert rows[|t| + j] == news[j];
    }
  }

  /** The table never holds two rows with one URL, and its URLs are the old
      ones plus the batch's. */
  lemma SaveAllKeepsUnique(t: Table, b: seq<Listing>)
    requires UniqueUrls(t)
    ensures UniqueUrls(SaveAll(t, b).table)
    ensures Urls(SaveAll(t, b).table) == Urls(t) + Urls(b)
  {
  }

  /** Running `save_annonces` again on the same batch reports nothing new and
      leaves the table exactly as the first run left it. */
  lemma SaveAllIdempotent(t: Table, b: seq<Listing>)
    ensures var once := SaveAll(t, b);
      SaveAll(once.table, b) == Saved(once.table, [])
  {
    var once := SaveAll(t, b);
    SaveAllClosedForm(t, b);
    SaveAllClosedForm(once.table, b);
    FreshAllSeen(Urls(once.table), b);
    assert once.table + [] == once.table;
    var again := RefreshAll(once.table, b);
    forall i | 0 <= i < |once.table|
      ensures again[i] == once.table[i]
    {
      var l := (t + Fresh(Urls(t), b))[i];
      if l.url in Urls(b) {
        LatestOverrides(b, l.url, l.lastSeen, Latest(b, l.url, l.lastSeen));
      } else {
        LatestAbsentUrl(b, l.url, l.lastSeen);
      }
    }
  }

  /** A batch of distinct URLs none of which is stored is reported whole. */
  lemma SaveAllAllNew(t: Table, b: seq<Listing>)
    requires UniqueUrls(b)
    requires forall k | 0 <= k < |b| :: b[k].url !in Urls(t)
    ensures SaveAll(t, b).news == b
    ensures SaveAll(t, b).table == t + b
  {
    SaveAllClosedForm(t, b);
    FreshAllNew(Urls(t), b);
    var rows := t + b;
    forall i | 0 <= i < |rows|
      ensures Refresh(rows[i], b) == rows[i]
    {
      if i < |t| {
        assert t[i] in t;
        LatestAbsent(b, t[i].url, t[i].lastSeen);
      } else {
        var k := i - |t|;
        LatestIsLast(b, b[k].url, b[k].lastSeen, k);
      }
    }
  }

  /** When the batch was stamped no earlier than anything stored, no
      `last_seen` goes back, and a URL stamped strictly later moves forward. */
  lemma SaveAllFreshness(t: Table, b: seq<Listing>)
    requires forall i, k | 0 <= i < |t| && 0 <= k < |b| :: t[i].lastSeen <= b[k].lastSeen
    ensures forall i | 0 <= i < |t| :: SaveAll(t, b).table[i].lastSeen >= t[i].lastSeen
    ensures forall i | 0 <= i < |t| && t[i].url in Urls(b) &&
      (forall k | 0 <= k < |b| :: t[i].lastSeen < b[k].lastSeen) ::
        SaveAll(t, b).table[i].lastSeen > t[i].lastSeen
  {
    SaveAllClosedForm(t, b);
    forall i | 0 <= i < |t|
      ensures Latest(b, t[i].url, t[i].lastSeen) >= t[i].lastSeen
      ensures t[i].url in Urls(b) && (forall k | 0 <= k < |b| :: t[i].lastSeen < b[k].lastSeen) ==>
        Latest(b, t[i].url, t[i].lastSeen) > t[i].lastSeen
    {
      LatestBounds(b, t[i].url, t[i].lastSeen);
    }
  }

  /** `Latest` is the default or one of the batch's stamps. */
  lemma {:induction false} LatestBounds(b: seq<Listing>, url: string, dflt: Instant)
    ensures Latest(b, url, dflt) == dflt || exists k | 0 <= k < |b| :: Latest(b, url, dflt) == b[k].lastSeen
    ensures url in Urls(b) ==> exists k | 0 <= k < |b| :: Latest(b, url, dflt) == b[k].lastSeen
    decreases |b|
  {
    if b != [] {
      var d := if b[0].url == url then b[0].lastSeen else dflt;
      LatestBounds(b[1..], url, d);
      UrlsTail(b);
      if url in Urls(b[1..]) {
        var k :| 0 <= k < |b[1..]| && Latest(b[1..], url, d) == b[1..][k].lastSeen;
        assert b[1..][k] == b[k + 1];
      } else if b[0].url == url {
        LatestAbsentUrl(b[1..], url, d);
      } else {
        var same := Latest(b[1..], url, d);
        if same != dflt {
          var k :| 0 <= k < |b[1..]| && same == b[1..][k].lastSeen;
          assert b[1..][k] == b[k + 1];
        }
      }
    }
  }

  /** Two cycles with overlapping batches {A, B} then {B', C}, where B' is B
      seen again later: the table ends with A, B refreshed to B''s
      `last_seen`, and C; the second cycle reports only C. */
  lemma OverlappingCycles(a: Listing, b: Listing, b2: Listing, c: Listing)
    requires a.url != b.url && a.url != c.url && b.url != c.url
    requires b2.url == b.url
    ensures SaveAll([], [a, b]) == Saved([a, b], [a, b])
    ensures SaveAll([a, b], [b2, c]) == Saved([a, b.(lastSeen := b2.lastSeen), c], [c])
  {
    FirstCycle(a, b);
    SecondCycle(a, b, b2, c);
  }

  lemma FirstCycle(a: Listing, b: Listing)
    requires a.url != b.url
    ensures SaveAll([], [a, b]) == Saved([a, b], [a, b])
  {
    assert UniqueUrls([a, b]);
    assert forall k | 0 <= k < |[a, b]| :: [a, b][k].url !in Urls([]);
    SaveAllAllNew([], [a, b]);
    assert [] + [a, b] == [a, b];
  }

  lemma SecondCycle(a: Listing, b: Listing, b2: Listing, c: Listing)
    requires a.url != b.url && a.url != c.url && b.url != c.url
    requires b2.url == b.url
    ensures SaveAll([a, b], [b2, c]) == Saved([a, b.(lastSeen := b2.lastSeen), c], [c])
  {
    var touched := [a, b.(lastSeen := b2.lastSeen)];
    TouchSecondOfTwo(a, b, b2);
    SaveAllKnownFirst([a, b], [b2, c]);
    assert [b2, c][1..] == [c];
    UrlsTail(touched);
    UrlsTail(touched[1..]);
    assert touched[1..][1..] == [];
    SaveAllSingleNew(touched, c);
    assert touched + [c] == [a, b.(lastSeen := b2.lastSeen), c];
  }

  lemma TouchSecondOfTwo(a: Listing, b: Listing, b2: Listing)
    requires a.url != b.url && b2.url == b.url
    ensures b2.url in Urls([a, b])
    ensures Touch([a, b], b2.url, b2.lastSeen) == [a, b.(lastSeen := b2.lastSeen)]
  {
    UrlsTail([a, b]);
  }

  lemma SaveAllKnownFirst(t: Table, b: seq<Listing>)
    requires b != [] && b[0].url in Urls(t)
    ensures SaveAll(t, b) == SaveAll(Touch(t, b[0].url, b[0].lastSeen), b[1..])
  {
  }

  lemma SaveAllSingleNew(t: Table, c: Listing)
    requires c.url !in Urls(t)
    ensures SaveAll(t, [c]) == Saved(t + [c], [c])
  {
    assert [c][1..] == [];
  }
}
