/** The web view's query `get_annonces(search)`: every stored listing, or
    only those whose title, company or location is `LIKE '%search%'`,
    newest `last_seen` first, as five-column rows. */
module Search {
  import opened Outcome
  import opened Text
  import opened RelativeDate
  import opened Listings
  import opened Store

  /** One result row: `SELECT titre, entreprise, lieu, date_pub, url`. */
  datatype Row = Row(title: string, company: string, location: string, pubDate: PubDate, url: string)

  function Project(l: Listing): Row {
    Row(l.title, l.company, l.location, l.pubDate, l.url)
  }

  function Rows(s: seq<Listing>): seq<Row> {
    if s == [] then [] else [Project(s[0])] + Rows(s[1..])
  }

  /** Python's truth test on the `q` parameter: absent or empty. */
  predicate IsFalsy(search: Option<string>) {
    search.None? || search.value == ""
  }

  /** SQLite's `LIKE` with its default settings: `%` matches any run of
      characters, `_` any single character, and any other character itself
      up to ASCII case. */
  function Like(pattern: string, text: string): bool
    decreases |pattern| + |text|
  {
    if pattern == [] then text == []
    else if pattern[0] == '%' then Like(pattern[1..], text) || (text != [] && Like(pattern, text[1..]))
    else
      && text != []
      && (pattern[0] == '_' || LowerChar(pattern[0]) == LowerChar(text[0]))
      && Like(pattern[1..], text[1..])
  }

  /** `like_search = f"%{search}%"` */
  function Wrap(search: string): string {
    "%" + search + "%"
  }

  /** The `WHERE` clause. */
  predicate Matches(search: string, l: Listing) {
    Like(Wrap(search), l.title) || Like(Wrap(search), l.company) || Like(Wrap(search), l.location)
  }

  /** The rows the `WHERE` clause keeps, in table order. */
  function Where(search: string, t: seq<Listing>): (r: seq<Listing>)
    ensures IsSubsequence(r, t)
    ensures forall l :: l in r <==> l in t && Matches(search, l)
    decreases |t|
  {
    if t == [] then []
    else if Matches(search, t[0]) then [t[0]] + Where(search, t[1..])
    else Where(search, t[1..])
  }

  /** `ORDER BY last_seen DESC` holds of `s`. */
  predicate NewestFirst(s: seq<Listing>) {
    forall i, j | 0 <= i < j < |s| :: s[i].lastSeen >= s[j].lastSeen
  }

  /** Places `l` before the first listing seen no later than it. */
  function Insert(l: Listing, s: seq<Listing>): (r: seq<Listing>)
    ensures multiset(r) == multiset(s) + multiset{l}
    ensures NewestFirst(s) ==> NewestFirst(r)
    decreases |s|
  {
    if s == [] || l.lastSeen >= s[0].lastSeen then [l] + s
    else
      var rest := Insert(l, s[1..]);
      assert s == [s[0]] + s[1..];
      if NewestFirst(s) then
        forall k | 0 <= k < |rest| ensures s[0].lastSeen >= rest[k].lastSeen {
          assert rest[k] in multiset(s[1..]) + multiset{l};
          if rest[k] != l {
            assert rest[k] in s[1..];
          }
        }
        ConsNewestFirst(s[0], rest);
        [s[0]] + rest
      else
        [s[0]] + rest
  }

  lemma ConsNewestFirst(x: Listing, u: seq<Listing>)
    requires NewestFirst(u)
    requires forall k | 0 <= k < |u| :: x.lastSeen >= u[k].lastSeen
    ensures NewestFirst([x] + u)
  {
    forall i, j | 0 <= i < j < |[x] + u|
      ensures ([x] + u)[i].lastSeen >= ([x] + u)[j].lastSeen
    {
      if i > 0 {
        assert ([x] + u)[i] == u[i - 1];
      }
      assert ([x] + u)[j] == u[j - 1];
    }
  }

  /** `ORDER BY last_seen DESC`, keeping table order among equal stamps. */
  function OrderBySeen(s: seq<Listing>): (r: seq<Listing>)
    ensures multiset(r) == multiset(s)
    ensures NewestFirst(r)
    decreases |s|
  {
    if s == [] then []
    else
      assert s == [s[0]] + s[1..];
      Insert(s[0], OrderBySeen(s[1..]))
  }

  /** `get_annonces(search)` over the table `t`. */
  function GetAnnonces(t: Table, search: Option<string>): seq<Row> {
    if search.None? || search.value == "" then Rows(OrderBySeen(t))
    else Rows(OrderBySeen(Where(search.value, t)))
  }

  // ---------------------------------------------------------------------
  // LIKE '%s%' is substring search up to ASCII case

  predicate NoWildcards(s: string) {
    forall i | 0 <= i < |s| :: s[i] != '%' && s[i] != '_'
  }

  lemma {:induction false} LikeAnything(text: string)
    ensures Like("%", text)
    decreases |text|
  {
    assert "%"[1..] == [];
    if text != [] {
      LikeAnything(text[1..]);
    }
  }

  /** `q%` matches exactly the texts that begin with `q` up to case. */
  lemma {:induction false} LikePrefix(q: string, text: string)
    requires NoWildcards(q)
    ensures Like(q + "%", text) <==> |q| <= |text| && Lower(text[..|q|]) == Lower(q)
    decreases |q|
  {
    if q == [] {
      assert q + "%" == "%";
      LikeAnything(text);
      assert Lower(text[..0]) == Lower(q);
    } else {
      assert (q + "%")[0] == q[0];
      assert (q + "%")[1..] == q[1..] + "%";
      LikePrefix(q[1..], if text == [] then text else text[1..]);
      if |q| <= |text| {
        var a, b := Lower(text[..|q|]), Lower(q);
        assert a == [LowerChar(text[0])] + Lower(text[1..][..|q| - 1]) by {
          assert text[..|q|] == [text[0]] + text[1..][..|q| - 1];
          LowerConcat([text[0]], text[1..][..|q| - 1]);
        }
        assert b == [LowerChar(q[0])] + Lower(q[1..]) by {
          assert q == [q[0]] + q[1..];
          LowerConcat([q[0]], q[1..]);
        }
        assert a == b <==> a[0] == b[0] && a[1..] == b[1..];
      }
    }
  }

  /** `%r` matches exactly the texts with a suffix that `r` matches. */
  lemma {:induction false} LikeLeadingPercent(r: string, text: string)
    ensures Like("%" + r, text) <==> exists k | 0 <= k <= |text| :: Like(r, text[k..])
    decreases |text|
  {
    var p := "%" + r;
    assert p[0] == '%' && p[1..] == r;
    if text == [] {
      assert text[0..] == text;
    } else {
      LikeLeadingPercent(r, text[1..]);
      if Like(p, text) {
        if Like(r, text) {
          assert text[0..] == text;
        } else {
          var k :| 0 <= k <= |text[1..]| && Like(r, text[1..][k..]);
          assert text[1..][k..] == text[k + 1..];
        }
      } else {
        forall k | 0 <= k <= |text|
          ensures !Like(r, text[k..])
        {
          if k == 0 {
            assert text[0..] == text;
          } else {
            assert text[1..][k - 1..] == text[k..];
          }
        }
      }
    }
  }

  /** For a search text without wildcards, `LIKE '%s%'` is "contains `s`,
      ignoring ASCII case". */
  lemma LikeIsContains(q: string, text: string)
    requires NoWildcards(q)
    ensures Like(Wrap(q), text) <==> Contains(Lower(text), Lower(q))
  {
    assert Wrap(q) == "%" + (q + "%");
    LikeLeadingPercent(q + "%", text);
    if Like(Wrap(q), text) {
      var k :| 0 <= k <= |text| && Like(q + "%", text[k..]);
      LikePrefix(q, text[k..]);
      assert text[k..][..|q|] == text[k..k + |q|];
      LowerSlice(text, k, k + |q|);
      assert OccursAt(Lower(text), Lower(q), k);
    }
    if Contains(Lower(text), Lower(q)) {
      var k :| 0 <= k <= |text| - |q| && OccursAt(Lower(text), Lower(q), k);
      LowerSlice(text, k, k + |q|);
      assert text[k..][..|q|] == text[k..k + |q|];
      LikePrefix(q, text[k..]);
    }
  }

  /** A lower-case search finds a capitalised title: `web` matches
      "Développeur Web". */
  lemma WebMatchesDeveloperWeb(l: Listing)
    requires l.title == "Développeur Web"
    ensures Matches("web", l)
  {
    var low := Lower(l.title);
    assert low[12..15] == "web";
    assert OccursAt(low, Lower("web"), 12);
    LikeIsContains("web", l.title);
  }

  /** The same search leaves out a listing that mentions "web" nowhere: a
      title "Analyste Data" with empty company and location. */
  lemma WebMissesAnalysteData(l: Listing)
    requires l.title == "Analyste Data" && l.company == "" && l.location == ""
    ensures !Matches("web", l)
  {
    var low := Lower(l.title);
    assert Lower("web") == "web";
    forall k | 0 <= k <= |low| - 3 ensures !OccursAt(low, "web", k) {
      assert l.title[k] != 'w' && l.title[k] != 'W';
      assert low[k] == LowerChar(l.title[k]) == low[k..k + 3][0];
    }
    LikeIsContains("web", l.title);
    LikeIsContains("web", l.company);
    LikeIsContains("web", l.location);
  }

  // ---------------------------------------------------------------------
  // Properties of get_annonces

  lemma {:induction false} RowsMembership(s: seq<Listing>, x: Row)
    ensures x in Rows(s) <==> exists l | l in s :: x == Project(l)
    decreases |s|
  {
    if s != [] {
      RowsMembership(s[1..], x);
      assert forall l | l in s :: l == s[0] || l in s[1..];
    }
  }

  lemma {:induction false} RowsLength(s: seq<Listing>)
    ensures |Rows(s)| == |s|
    decreases |s|
  {
    if s != [] {
      RowsLength(s[1..]);
    }
  }

  /** Without a search text every stored listing comes back, once, as its
      five columns. */
  lemma GetAnnoncesAll(t: Table, search: Option<string>)
    requires IsFalsy(search)
    ensures |GetAnnonces(t, search)| == |t|
    ensures forall x :: x in GetAnnonces(t, search) <==> exists l | l in t :: x == Project(l)
  {
    var sorted := OrderBySeen(t);
    RowsLength(sorted);
    assert |sorted| == |multiset(sorted)| == |multiset(t)| == |t|;
    forall x
      ensures x in Rows(sorted) <==> exists l | l in t :: x == Project(l)
    {
      SortedRowsMembership(t, x);
    }
  }

  /** With a search text free of wildcards, a listing's row comes back
      exactly when its title, company or location contains the text,
      ignoring ASCII case. */
  lemma GetAnnoncesMatching(t: Table, s: string)
    requires s != "" && NoWildcards(s)
    ensures forall x :: x in GetAnnonces(t, Some(s)) <==> exists l | l in t :: x == Project(l) && MentionsText(s, l)
  {
    var kept := Where(s, t);
    var sorted := OrderBySeen(kept);
    assert GetAnnonces(t, Some(s)) == Rows(sorted);
    forall l
      ensures Matches(s, l) <==> MentionsText(s, l)
    {
      MatchesIsMention(s, l);
    }
    forall x
      ensures x in Rows(sorted) <==> exists l | l in t :: x == Project(l) && Matches(s, l)
    {
      SortedRowsMembership(kept, x);
    }
  }

  /** Sorting loses and adds no rows. */
  lemma SortedRowsMembership(u: seq<Listing>, x: Row)
    ensures x in Rows(OrderBySeen(u)) <==> exists l | l in u :: x == Project(l)
  {
    var sorted := OrderBySeen(u);
    RowsMembership(sorted, x);
    assert forall l :: l in sorted <==> l in multiset(sorted);
    assert forall l :: l in u <==> l in multiset(u);
  }

  /** The title, company or location contains `s`, ignoring ASCII case. */
  predicate MentionsText(s: string, l: Listing) {
    Contains(Lower(l.title), Lower(s)) || Contains(Lower(l.company), Lower(s)) ||
    Contains(Lower(l.location), Lower(s))
  }

  lemma MatchesIsMention(s: string, l: Listing)
    requires NoWildcards(s)
    ensures Matches(s, l) <==> MentionsText(s, l)
  {
    LikeIsContains(s, l.title);
    LikeIsContains(s, l.company);
    LikeIsContains(s, l.location);
  }

  /** Rows come newest `last_seen` first: reading each row's stamp back from
      the table by its URL gives a non-increasing sequence. */
  lemma GetAnnoncesNewestFirst(t: Table, search: Option<string>)
    requires UniqueUrls(t)
    ensures var r := GetAnnonces(t, search);
      forall i, j | 0 <= i < j < |r| ::
        r[i].url in Urls(t) && r[j].url in Urls(t) &&
        FirstWith(t, r[i].url).lastSeen >= FirstWith(t, r[j].url).lastSeen
  {
    var chosen := if IsFalsy(search) then t else Where(search.value, t);
    var sorted := OrderBySeen(chosen);
    var r := GetAnnonces(t, search);
    RowsIndex(sorted);
    forall i | 0 <= i < |sorted|
      ensures sorted[i].url in Urls(t) && FirstWith(t, sorted[i].url) == sorted[i]
    {
      assert sorted[i] in multiset(sorted);
      assert sorted[i] in chosen;
      FirstWithUnique(t, sorted[i]);
    }
  }

  lemma {:induction false} RowsIndex(s: seq<Listing>)
    ensures |Rows(s)| == |s|
    ensures forall i | 0 <= i < |s| :: Rows(s)[i] == Project(s[i])
    decreases |s|
  {
    if s != [] {
      RowsIndex(s[1..]);
    }
  }

  /** In a table without repeated URLs, a row is the first with its URL. */
  lemma {:induction false} FirstWithUnique(t: Table, l: Listing)
    requires UniqueUrls(t) && l in t
    ensures l.url in Urls(t) && FirstWith(t, l.url) == l
    decreases |t|
  {
    UrlsTail(t);
    if t[0] != l {
      assert l in t[1..];
      assert t[0].url != l.url by {
        var i :| 0 <= i < |t| && t[i] == l;
      }
      FirstWithUnique(t[1..], l);
    }
  }

  /** Filtering commutes with the stable sort. */
  lemma {:induction false} WhereInsert(s: string, l: Listing, u: seq<Listing>)
    requires NewestFirst(u)
    ensures Where(s, Insert(l, u)) == if Matches(s, l) then Insert(l, Where(s, u)) else Where(s, u)
    decreases |u|
  {
    if u == [] || l.lastSeen >= u[0].lastSeen {
      WhereInsertFirst(s, l, u);
    } else {
      NewestFirstTail(u);
      WhereInsert(s, l, u[1..]);
      WhereInsertLater(s, l, u);
    }
  }

  lemma NewestFirstTail(u: seq<Listing>)
    requires u != [] && NewestFirst(u)
    ensures NewestFirst(u[1..])
  {
    assert forall i | 0 <= i < |u| - 1 :: u[1..][i] == u[i + 1];
  }

  /** `l` is placed in front, before and after filtering. */
  lemma WhereInsertFirst(s: string, l: Listing, u: seq<Listing>)
    requires NewestFirst(u)
    requires u == [] || l.lastSeen >= u[0].lastSeen
    ensures Where(s, Insert(l, u)) == if Matches(s, l) then Insert(l, Where(s, u)) else Where(s, u)
  {
    assert Insert(l, u) == [l] + u;
    WhereCons(s, l, u);
    var w := Where(s, u);
    if Matches(s, l) && w != [] {
      assert w[0] in u;
      var k :| 0 <= k < |u| && u[k] == w[0];
      assert u[0].lastSeen >= u[k].lastSeen;
      assert Insert(l, w) == [l] + w;
    }
  }

  /** `l` is placed after the head, which filtering keeps or drops alone. */
  lemma WhereInsertLater(s: string, l: Listing, u: seq<Listing>)
    requires u != [] && l.lastSeen < u[0].lastSeen
    requires Where(s, Insert(l, u[1..])) ==
      if Matches(s, l) then Insert(l, Where(s, u[1..])) else Where(s, u[1..])
    ensures Where(s, Insert(l, u)) == if Matches(s, l) then Insert(l, Where(s, u)) else Where(s, u)
  {
    var u1 := u[1..];
    var rest := Insert(l, u1);
    assert u == [u[0]] + u1;
    assert Insert(l, u) == [u[0]] + rest;
    WhereCons(s, u[0], rest);
    WhereCons(s, u[0], u1);
    if Matches(s, l) && Matches(s, u[0]) {
      InsertBehind(l, u[0], Where(s, u1));
    }
  }

  /** A listing seen later than `l` stays in front of it. */
  lemma InsertBehind(l: Listing, x: Listing, w: seq<Listing>)
    requires l.lastSeen < x.lastSeen
    ensures Insert(l, [x] + w) == [x] + Insert(l, w)
  {
    assert ([x] + w)[0] == x && ([x] + w)[1..] == w;
  }

  lemma WhereCons(s: string, x: Listing, u: seq<Listing>)
    ensures Where(s, [x] + u) == if Matches(s, x) then [x] + Where(s, u) else Where(s, u)
  {
    assert ([x] + u)[1..] == u;
  }

  lemma {:induction false} WhereOrderBySeen(s: string, t: seq<Listing>)
    ensures Where(s, OrderBySeen(t)) == OrderBySeen(Where(s, t))
    decreases |t|
  {
    if t != [] {
      WhereOrderBySeen(s, t[1..]);
      WhereInsert(s, t[0], OrderBySeen(t[1..]));
    }
  }

  lemma {:induction false} RowsSubsequence(a: seq<Listing>, b: seq<Listing>)
    requires IsSubsequence(a, b)
    ensures IsSubsequence(Rows(a), Rows(b))
    decreases |b|
  {
    if a != [] && b != [] {
      if a[0] == b[0] && IsSubsequence(a[1..], b[1..]) {
        RowsSubsequence(a[1..], b[1..]);
      } else {
        RowsSubsequence(a, b[1..]);
      }
    }
  }

  /** The rows a search returns are some of the rows of the unfiltered
      query, in the same relative order. */
  lemma GetAnnoncesNarrows(t: Table, s: string)
    ensures IsSubsequence(GetAnnonces(t, Some(s)), GetAnnonces(t, None))
  {
    if s != "" {
      WhereOrderBySeen(s, t);
      RowsSubsequence(Where(s, OrderBySeen(t)), OrderBySeen(t));
    } else {
      SubsequenceReflexive(Rows(OrderBySeen(t)));
    }
  }

  lemma {:induction false} SubsequenceReflexive<T>(a: seq<T>)
    ensures IsSubsequence(a, a)
    decreases |a|
  {
    if a != [] {
      SubsequenceReflexive(a[1..]);
    }
  }
}
