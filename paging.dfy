/**
 * Following numbered pages: page `j` is fetched from `url(j)` and shows
 * `links(j)`, and `more(j)` says whether page `j` refers to page `j + 1`.
 * The book scraper of WretchDL_Lite.rb is this walk for the pages of one
 * album book; its facts are proved here once, for any such pages.
 */
module Paging {
  /** What a walk produced: the links, and the page URLs fetched, in order. */
  datatype Crawl = Crawl(urls: seq<string>, fetched: seq<string>)

  /** One part of a walk followed by another. */
  function Then(a: Crawl, b: Crawl): (c: Crawl)
    ensures |c.urls| == |a.urls| + |b.urls| && |c.fetched| == |a.fetched| + |b.fetched|
  {
    Crawl(a.urls + b.urls, a.fetched + b.fetched)
  }

  lemma ThenAssoc(a: Crawl, b: Crawl, c: Crawl)
    ensures Then(Then(a, b), c) == Then(a, Then(b, c))
  {
    assert (a.urls + b.urls) + c.urls == a.urls + (b.urls + c.urls);
    assert (a.fetched + b.fetched) + c.fetched == a.fetched + (b.fetched + c.fetched);
  }

  lemma ThenIdentity(a: Crawl)
    ensures Then(Crawl([], []), a) == a
  {
    assert [] + a.urls == a.urls;
    assert [] + a.fetched == a.fetched;
  }

  lemma ThenNothing(a: Crawl)
    ensures Then(a, Crawl([], [])) == a
  {
    assert a.urls + [] == a.urls;
    assert a.fetched + [] == a.fetched;
  }

  /** The walk from page `i`, fetching at most `fuel` pages: each fetched
      page adds its links, and the next page is fetched only when this one
      refers to it. */
  function Follow(url: nat -> string, links: nat -> seq<string>, more: nat -> bool, i: nat, fuel: nat): (c: Crawl)
    ensures |c.fetched| <= fuel
    decreases fuel
  {
    if fuel == 0 then Crawl([], [])
    else if more(i) then
      var next := Follow(url, links, more, i + 1, fuel - 1);
      Crawl(links(i) + next.urls, [url(i)] + next.fetched)
    else
      Crawl(links(i), [url(i)])
  }

  /** The links of the `n` pages from page `i`, page after page. */
  function LinksFrom(links: nat -> seq<string>, i: nat, n: nat): seq<string>
    decreases n
  {
    if n == 0 then [] else links(i) + LinksFrom(links, i + 1, n - 1)
  }

  /** With `fuel >= 1` at least one and at most `fuel` pages are fetched,
      the j-th being page `i + j`. */
  lemma {:induction false} FollowPages(url: nat -> string, links: nat -> seq<string>, more: nat -> bool, i: nat, fuel: nat)
    requires fuel >= 1
    ensures var c := Follow(url, links, more, i, fuel);
      && 1 <= |c.fetched| <= fuel
      && forall j :: 0 <= j < |c.fetched| ==> c.fetched[j] == url(i + j)
    decreases fuel
  {
    var c := Follow(url, links, more, i, fuel);
    if fuel > 1 && more(i) {
      var next := Follow(url, links, more, i + 1, fuel - 1);
      FollowPages(url, links, more, i + 1, fuel - 1);
      assert c.fetched == [url(i)] + next.fetched;
      forall j | 1 <= j < |c.fetched| ensures c.fetched[j] == url(i + j) {
        assert c.fetched[j] == next.fetched[j - 1];
        assert i + j == (i + 1) + (j - 1);
      }
    }
  }

  /** Every fetched page but the last refers to the page after it, and the
      walk stops early only at a page that does not. */
  lemma {:induction false} FollowStops(url: nat -> string, links: nat -> seq<string>, more: nat -> bool, i: nat, fuel: nat)
    requires fuel >= 1
    ensures var n := |Follow(url, links, more, i, fuel).fetched|;
      && n >= 1
      && (forall j :: i <= j < i + n - 1 ==> more(j))
      && (n < fuel ==> !more(i + n - 1))
    decreases fuel
  {
    if fuel > 1 && more(i) {
      FollowStops(url, links, more, i + 1, fuel - 1);
    }
  }

  /** The links are those of the fetched pages, concatenated in fetch order. */
  lemma {:induction false} FollowLinks(url: nat -> string, links: nat -> seq<string>, more: nat -> bool, i: nat, fuel: nat)
    ensures var c := Follow(url, links, more, i, fuel);
      c.urls == LinksFrom(links, i, |c.fetched|)
    decreases fuel
  {
    if fuel >= 1 {
      if more(i) {
        FollowLinks(url, links, more, i + 1, fuel - 1);
      } else {
        assert LinksFrom(links, i + 1, 0) == [];
        assert links(i) + [] == links(i);
      }
    }
  }

  /** Page `i + 1` is fetched after page `i` exactly when page `i` refers to
      it; how many links page `i` shows plays no part. */
  lemma FollowContinues(url: nat -> string, links: nat -> seq<string>, more: nat -> bool, i: nat, fuel: nat)
    requires fuel >= 2
    ensures |Follow(url, links, more, i, fuel).fetched| >= 2 <==> more(i)
  {
    if more(i) {
      FollowPages(url, links, more, i + 1, fuel - 1);
    }
  }
}
