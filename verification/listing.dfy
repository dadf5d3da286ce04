/** The one entity of the system: a job listing as stored in the `annonces`
    table (scraper.py:38-48), minus the `id` column, which the table's row
    order stands in for. */
module Listings {
  import opened RelativeDate

  datatype Listing = Listing(
    title: string,      // titre
    company: string,    // entreprise
    location: string,   // lieu
    pubDate: PubDate,   // date_pub
    url: string,        // url, the identity key
    lastSeen: Instant)  // last_seen

  /** The URLs of a sequence of listings. */
  function Urls(s: seq<Listing>): set<string> {
    set l | l in s :: l.url
  }

  lemma UrlsAppend(a: seq<Listing>, b: seq<Listing>)
    ensures Urls(a + b) == Urls(a) + Urls(b)
  {
    forall u | u in Urls(a + b)
      ensures u in Urls(a) + Urls(b)
    {
      var l :| l in a + b && l.url == u;
    }
    forall u | u in Urls(a) + Urls(b)
      ensures u in Urls(a + b)
    {
      if u in Urls(a) {
        var l :| l in a && l.url == u;
        assert l in a + b;
      } else {
        var l :| l in b && l.url == u;
        assert l in a + b;
      }
    }
  }

  lemma UrlsTail(s: seq<Listing>)
    requires s != []
    ensures Urls(s) == {s[0].url} + Urls(s[1..])
  {
    assert s == [s[0]] + s[1..];
    UrlsAppend([s[0]], s[1..]);
  }

  /** No two listings share a URL: what `url TEXT UNIQUE` enforces. */
  predicate UniqueUrls(s: seq<Listing>) {
    forall i, j | 0 <= i < j < |s| :: s[i].url != s[j].url
  }

  /** `a` can be obtained from `b` by deleting elements. */
  predicate IsSubsequence<T(==)>(a: seq<T>, b: seq<T>)
    decreases |b|
  {
    if a == [] then true
    else if b == [] then false
    else (a[0] == b[0] && IsSubsequence(a[1..], b[1..])) || IsSubsequence(a, b[1..])
  }

  /** Whatever a subsequence holds, the whole sequence holds. */
  lemma {:induction false} SubsequenceMembers<T>(a: seq<T>, b: seq<T>)
    requires IsSubsequence(a, b)
    ensures forall x | x in a :: x in b
    decreases |b|
  {
    if a != [] {
      if a[0] == b[0] && IsSubsequence(a[1..], b[1..]) {
        SubsequenceMembers(a[1..], b[1..]);
        assert forall x | x in a :: x == a[0] || x in a[1..];
      } else {
        SubsequenceMembers(a, b[1..]);
      }
    }
  }
}
