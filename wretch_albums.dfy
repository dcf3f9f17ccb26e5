/**
 * The album scraper of WretchDL_Lite.rb: the URLs it builds, what it reads
 * out of a fetched page line by line, and how it follows a book's pages.
 *
 * A fetched page is the sequence of lines `each_line` yields (each line keeps
 * its newline). The site is a function from URL to page, the parameter
 * `site` of the methods; it stands for `open(url).read`.
 */
module WretchAlbums {
  import opened Wrappers
  import opened Text
  import opened Matchers
  import opened Lines
  import opened Paging

  /** One album book: its number (digits) and its name, as listed on the album page. */
  datatype BookInfo = BookInfo(bookNumber: string, bookName: string)

  const AlbumRoot := "http://www.wretch.cc/album/"

  // ---------------------------------------------------------------------
  // URLs

  /** The album-list page of `id`; `&page=N` only from page 2 on. */
  function AlbumListUrl(id: string, pageNum: int): (url: string)
    ensures OccursAt(url, AlbumRoot + id, 0)
    ensures |url| == |AlbumRoot + id| <==> pageNum <= 1
  {
    if pageNum >= 2 then
      NatStrDigits(pageNum);
      AlbumRoot + id + "&page=" + NatStr(pageNum)
    else
      AlbumRoot + id
  }

  /** From page 2 on, the page number reads back from the URL's `&page=`
      suffix, which is written without a leading zero. */
  lemma AlbumListUrlPage(id: string, pageNum: int)
    requires pageNum >= 2
    ensures var url := AlbumListUrl(id, pageNum);
      var k := |AlbumRoot + id|;
      |url| > k + 6 && url[k..k + 6] == "&page=" &&
      AllDigits(url[k + 6..]) && url[k + 6] != '0' && ParseNat(url[k + 6..]) == pageNum
  {
    var url := AlbumListUrl(id, pageNum);
    var k := |AlbumRoot + id|;
    assert url[k + 6..] == NatStr(pageNum);
    ParseNatStr(pageNum);
    NatStrNoLeadingZero(pageNum);
  }

  /** Two page numbers give the same album-list URL exactly when they are
      equal or both at most 1. */
  lemma AlbumListUrlInjective(id: string, n: int, m: int)
    ensures AlbumListUrl(id, n) == AlbumListUrl(id, m) <==> n == m || (n <= 1 && m <= 1)
  {
    if AlbumListUrl(id, n) == AlbumListUrl(id, m) && n >= 2 && m >= 2 {
      AlbumListUrlPage(id, n);
      AlbumListUrlPage(id, m);
    }
  }

  /** The first page of a book. */
  function BookUrl(id: string, book: string): string {
    AlbumRoot + "album.php?id=" + id + "&book=" + book
  }

  /** The reference to page `i` of a book that a page must contain for the
      scraper to go on to page `i`. */
  function PageRef(id: string, book: string, i: nat): string {
    "album.php?id=" + id + "&book=" + book + "&page=" + NatStr(i)
  }

  /** The URL of page `i` of a book: the plain book URL for the first page. */
  function PageUrl(id: string, book: string, i: nat): string {
    if i <= 1 then BookUrl(id, book) else BookUrl(id, book) + "&page=" + NatStr(i)
  }

  /** The URL book_photos_urls builds for page `i` from page 2 on is that page's URL. */
  lemma NextPageUrl(id: string, book: string, i: nat)
    requires i >= 2
    ensures AlbumRoot + "album.php?id=" + id + "&book=" + book + "&page=" + NatStr(i) == PageUrl(id, book, i)
  {
  }

  /** Distinct pages of a book have distinct URLs. */
  lemma PageUrlInjective(id: string, book: string, i: nat, j: nat)
    requires i >= 1 && j >= 1
    ensures PageUrl(id, book, i) == PageUrl(id, book, j) <==> i == j
  {
    var base := BookUrl(id, book);
    NatStrDigits(i);
    NatStrDigits(j);
    if PageUrl(id, book, i) == PageUrl(id, book, j) && i >= 2 && j >= 2 {
      assert PageUrl(id, book, i)[|base| + 6..] == NatStr(i);
      assert PageUrl(id, book, j)[|base| + 6..] == NatStr(j);
      NatStrInjective(i, j);
    }
  }

  /** The reference to page `10 * n + d` begins with the reference to page
      `n`: a substring test for `page=2` also succeeds on `page=23`. */
  lemma PageRefExtends(id: string, book: string, n: nat, d: nat)
    requires n >= 1 && d < 10
    ensures PageRef(id, book, 10 * n + d) == PageRef(id, book, n) + [DigitChar(d)]
  {
    var m := 10 * n + d;
    assert m / 10 == n && m % 10 == d;
    assert NatStr(m) == NatStr(n) + [DigitChar(d)];
  }

  /** A line that refers to page `10 * n + d` also makes the scraper go on to page `n`. */
  lemma PageRefFoundInLonger(id: string, book: string, line: string, n: nat, d: nat)
    requires n >= 1 && d < 10
    requires Contains(line, PageRef(id, book, 10 * n + d))
    ensures Contains(line, PageRef(id, book, n))
  {
    PageRefExtends(id, book, n, d);
    var ref := PageRef(id, book, n);
    var e :| 0 <= e <= |line| - |PageRef(id, book, 10 * n + d)| && OccursAt(line, PageRef(id, book, 10 * n + d), e);
    assert line[e..e + |ref|] == line[e..e + |ref| + 1][..|ref|];
    OccursContains(line, ref, e);
  }

  // ---------------------------------------------------------------------
  // books_list: one BookInfo per line that holds a book anchor

  /** The book an album-list line holds, if any. */
  function BookOfLine(id: string, line: string): Option<BookInfo> {
    match BookAnchor(id, line)
    case Some((number, name)) => Some(BookInfo(number, name))
    case None => None
  }

  function BookLine(id: string): string -> Option<BookInfo> {
    (line: string) => BookOfLine(id, line)
  }

  /** The books an album-list page yields, in line order. */
  function BooksOf(id: string, page: seq<string>): seq<BookInfo> {
    Collect(page, BookLine(id))
  }

  /** The books of a page split anywhere are the books of the two parts. */
  lemma BooksOfAppend(id: string, a: seq<string>, b: seq<string>)
    ensures BooksOf(id, a + b) == BooksOf(id, a) + BooksOf(id, b)
  {
    CollectAppend(a, b, BookLine(id));
  }

  /** Exactly one book per line holding an anchor, in line order: there are
      as many books as such lines, and the book of such a line `k` comes
      right after the books of the lines before it. */
  lemma BooksOfLines(id: string, page: seq<string>)
    ensures |BooksOf(id, page)| == MatchCount(page, BookLine(id)) <= |page|
    ensures forall k :: 0 <= k < |page| && BookOfLine(id, page[k]).Some? ==>
      |BooksOf(id, page[..k])| < |BooksOf(id, page)| &&
      BooksOf(id, page)[|BooksOf(id, page[..k])|] == BookOfLine(id, page[k]).value
  {
    CollectCount(page, BookLine(id));
    forall k | 0 <= k < |page| && BookOfLine(id, page[k]).Some?
      ensures |BooksOf(id, page[..k])| < |BooksOf(id, page)| &&
        BooksOf(id, page)[|BooksOf(id, page[..k])|] == BookOfLine(id, page[k]).value
    {
      CollectAt(page, BookLine(id), k);
    }
  }

  /** A page with no book anchor yields no books (not an error), and only such a page does. */
  lemma BooksOfEmpty(id: string, page: seq<string>)
    ensures BooksOf(id, page) == [] <==> forall k :: 0 <= k < |page| ==> BookAnchor(id, page[k]).None?
  {
    CollectEmpty(page, BookLine(id));
    assert forall k :: 0 <= k < |page| ==> (BookLine(id)(page[k]).None? <==> BookAnchor(id, page[k]).None?);
  }

  /** Every book has a non-empty digit string as its number and a one-line
      non-empty name, and some line of the page holds its anchor. */
  lemma BooksOfSound(id: string, page: seq<string>)
    ensures forall b :: b in BooksOf(id, page) ==>
      |b.bookNumber| >= 1 && AllDigits(b.bookNumber) && |b.bookName| >= 1 && NoNewline(b.bookName) &&
      exists k :: 0 <= k < |page| && Contains(page[k], BookAnchorText(id, b.bookNumber, b.bookName))
  {
    CollectFrom(page, BookLine(id));
    forall b | b in BooksOf(id, page)
      ensures |b.bookNumber| >= 1 && AllDigits(b.bookNumber) && |b.bookName| >= 1 && NoNewline(b.bookName) &&
        exists k :: 0 <= k < |page| && Contains(page[k], BookAnchorText(id, b.bookNumber, b.bookName))
    {
      var k :| 0 <= k < |page| && BookLine(id)(page[k]) == Some(b);
      BookAnchorSound(id, page[k]);
    }
  }

  /** The album-list page that lists `books`, one anchor per line. */
  function AlbumListPage(id: string, books: seq<BookInfo>): (page: seq<string>)
    ensures |page| == |books|
    decreases |books|
  {
    if books == [] then []
    else
      var b := books[|books| - 1];
      AlbumListPage(id, books[..|books| - 1]) + [BookAnchorText(id, b.bookNumber, b.bookName) + "\n"]
  }

  predicate WellFormedBook(b: BookInfo) {
    |b.bookNumber| >= 1 && AllDigits(b.bookNumber) && |b.bookName| >= 1 && NoNewline(b.bookName)
  }

  /** Reading the album-list page that lists `books` gives back `books`. */
  lemma {:induction false} BooksOfListPage(id: string, books: seq<BookInfo>)
    requires forall k :: 0 <= k < |books| ==> WellFormedBook(books[k])
    ensures BooksOf(id, AlbumListPage(id, books)) == books
    decreases |books|
  {
    if books != [] {
      var init := books[..|books| - 1];
      var b := books[|books| - 1];
      assert WellFormedBook(b);
      BooksOfListPage(id, init);
      var line := BookAnchorText(id, b.bookNumber, b.bookName) + "\n";
      BookAnchorRoundTrip(id, b.bookNumber, b.bookName, "\n");
      assert AlbumListPage(id, books) == AlbumListPage(id, init) + [line];
      BooksOfAppend(id, AlbumListPage(id, init), [line]);
      assert BooksOf(id, [line]) == [b] by {
        assert [line][..0] == [];
      }
      assert init + [b] == books;
    }
  }

  // ---------------------------------------------------------------------
  // get_photo_url_list: the absolute show.php URL of every photo anchor

  /** The photo URL a book-page line holds, if any. */
  function PhotoUrlOfLine(id: string, book: string, line: string): Option<string> {
    match PhotoLink(id, book, line)
    case Some(path) => Some(AlbumRoot + path)
    case None => None
  }

  function PhotoLine(id: string, book: string): string -> Option<string> {
    (line: string) => PhotoUrlOfLine(id, book, line)
  }

  /** The photo URLs a book page yields, in line order. */
  function PhotoLinksOf(id: string, book: string, page: seq<string>): seq<string> {
    Collect(page, PhotoLine(id, book))
  }

  /** One photo URL per line holding a photo anchor, in line order, and so at most one per line. */
  lemma PhotoLinksOfLines(id: string, book: string, page: seq<string>)
    ensures |PhotoLinksOf(id, book, page)| == MatchCount(page, PhotoLine(id, book)) <= |page|
    ensures forall k :: 0 <= k < |page| && PhotoUrlOfLine(id, book, page[k]).Some? ==>
      |PhotoLinksOf(id, book, page[..k])| < |PhotoLinksOf(id, book, page)| &&
      PhotoLinksOf(id, book, page)[|PhotoLinksOf(id, book, page[..k])|] == PhotoUrlOfLine(id, book, page[k]).value
  {
    CollectCount(page, PhotoLine(id, book));
    forall k | 0 <= k < |page| && PhotoUrlOfLine(id, book, page[k]).Some?
      ensures |PhotoLinksOf(id, book, page[..k])| < |PhotoLinksOf(id, book, page)| &&
        PhotoLinksOf(id, book, page)[|PhotoLinksOf(id, book, page[..k])|] == PhotoUrlOfLine(id, book, page[k]).value
    {
      CollectAt(page, PhotoLine(id, book), k);
    }
  }

  /** Every photo URL is the album root followed by a show.php path of this
      account and book. */
  lemma PhotoLinksOfShape(id: string, book: string, page: seq<string>)
    ensures forall u :: u in PhotoLinksOf(id, book, page) ==>
      OccursAt(u, AlbumRoot + "show", 0) && OccursAt(u, PhotoQuery(id, book), |AlbumRoot| + 5)
  {
    CollectFrom(page, PhotoLine(id, book));
    forall u | u in PhotoLinksOf(id, book, page)
      ensures OccursAt(u, AlbumRoot + "show", 0) && OccursAt(u, PhotoQuery(id, book), |AlbumRoot| + 5)
    {
      var k :| 0 <= k < |page| && PhotoLine(id, book)(page[k]) == Some(u);
      PhotoLinkSound(id, book, page[k]);
      PhotoUrlShape(PhotoLink(id, book, page[k]).value, PhotoQuery(id, book));
    }
  }

  lemma PhotoUrlShape(path: string, query: string)
    requires OccursAt(path, "show", 0) && OccursAt(path, query, 5)
    ensures OccursAt(AlbumRoot + path, AlbumRoot + "show", 0)
    ensures OccursAt(AlbumRoot + path, query, |AlbumRoot| + 5)
  {
    var u := AlbumRoot + path;
    assert u[..|AlbumRoot| + 4] == AlbumRoot + path[..4];
    assert u[|AlbumRoot| + 5..|AlbumRoot| + 5 + |query|] == path[5..5 + |query|];
  }

  /** A photo thumbnail as a book page lists it: the page parameters of its
      show.php path and the attributes and text around the anchor. */
  datatype PhotoEntry = PhotoEntry(f: string, pg: string, sp: string, attrs: string, rest: string)

  predicate WellFormedEntry(x: PhotoEntry) {
    |x.f| >= 1 && AllDigits(x.f) && |x.pg| >= 1 && AllDigits(x.pg) && |x.sp| >= 1 && AllDigits(x.sp) &&
    |x.attrs| >= 1 && NoNewline(x.attrs)
  }

  function EntryPath(id: string, book: string, x: PhotoEntry): string {
    ShowPath('.', id, book, x.f, x.pg, x.sp)
  }

  function EntryLine(id: string, book: string, x: PhotoEntry): string {
    PhotoAnchorHead + EntryPath(id, book, x) + "\"" + x.attrs + "><img src=" + x.rest
  }

  /** The book page that lists `entries`, one anchor per line. */
  function BookPage(id: string, book: string, entries: seq<PhotoEntry>): (page: seq<string>)
    ensures |page| == |entries|
    decreases |entries|
  {
    if entries == [] then []
    else BookPage(id, book, entries[..|entries| - 1]) + [EntryLine(id, book, entries[|entries| - 1])]
  }

  /** The photo URLs of the entries, in order. */
  function EntryUrls(id: string, book: string, entries: seq<PhotoEntry>): (urls: seq<string>)
    ensures |urls| == |entries|
    decreases |entries|
  {
    if entries == [] then []
    else EntryUrls(id, book, entries[..|entries| - 1]) + [AlbumRoot + EntryPath(id, book, entries[|entries| - 1])]
  }

  /** Reading a book page that lists `entries` gives the entries' photo URLs in order. */
  lemma {:induction false} PhotoLinksOfBookPage(id: string, book: string, entries: seq<PhotoEntry>)
    requires forall k :: 0 <= k < |entries| ==> WellFormedEntry(entries[k])
    ensures PhotoLinksOf(id, book, BookPage(id, book, entries)) == EntryUrls(id, book, entries)
    decreases |entries|
  {
    if entries != [] {
      var init := entries[..|entries| - 1];
      var x := entries[|entries| - 1];
      assert WellFormedEntry(x);
      PhotoLinksOfBookPage(id, book, init);
      var line := EntryLine(id, book, x);
      PhotoLinkRoundTrip('.', id, book, x.f, x.pg, x.sp, x.attrs, x.rest);
      assert BookPage(id, book, entries) == BookPage(id, book, init) + [line];
      CollectAppend(BookPage(id, book, init), [line], PhotoLine(id, book));
      assert PhotoLinksOf(id, book, [line]) == [AlbumRoot + EntryPath(id, book, x)] by {
        assert [line][..0] == [];
      }
    }
  }

  // ---------------------------------------------------------------------
  // get_file_url: the image of the last line that shows one

  /** The file URL a photo page yields: the source of the last line holding
      an image tag, "" when none does. */
  function FileUrlOf(page: seq<string>): string {
    match LastMatch(page, LineImage)
    case Some(src) => src
    case None => ""
  }

  /** The last line holding an image tag decides the file URL, whatever the lines before it hold. */
  lemma FileUrlOfLast(page: seq<string>, k: nat)
    requires k < |page| && LineImage(page[k]).Some?
    requires forall j :: k < j < |page| ==> LineImage(page[j]).None?
    ensures FileUrlOf(page) == LineImage(page[k]).value
  {
    LastMatchIs(page, LineImage, k);
  }

  /** An image tag's source is never empty, so the file URL is "" exactly
      when no line holds an image tag; otherwise it is the source of a line
      after which no line holds one. */
  lemma FileUrlOfSound(page: seq<string>)
    ensures FileUrlOf(page) == "" <==> forall k :: 0 <= k < |page| ==> LineImage(page[k]).None?
    ensures FileUrlOf(page) != "" ==>
      exists k :: 0 <= k < |page| && LineImage(page[k]) == Some(FileUrlOf(page)) &&
        forall j :: k < j < |page| ==> LineImage(page[j]).None?
  {
    LastMatchNone(page, LineImage);
    if LastMatch(page, LineImage).Some? {
      LastMatchFrom(page, LineImage);
      var k :| LastMatchAt(page, LineImage, k);
      LineImageSound(page[k]);
    }
  }

  // ---------------------------------------------------------------------
  // book_photos_urls: following a book's pages

  /** Some line of `page` contains `ref` (the next-page regex holds only literal text). */
  predicate RefersTo(page: seq<string>, ref: string) {
    exists k :: 0 <= k < |page| && Contains(page[k], ref)
  }

  /** Page `j` of a book is fetched from PageUrl. */
  function BookPageUrl(id: string, book: string): nat -> string {
    (j: nat) => PageUrl(id, book, j)
  }

  /** The photo URLs page `j` of a book shows. */
  function BookPageLinks(site: string -> seq<string>, id: string, book: string): nat -> seq<string> {
    (j: nat) => PhotoLinksOf(id, book, site(PageUrl(id, book, j)))
  }

  /** Whether page `j` of a book refers to page `j + 1`. */
  function BookPageMore(site: string -> seq<string>, id: string, book: string): nat -> bool {
    (j: nat) => RefersTo(site(PageUrl(id, book, j)), PageRef(id, book, j + 1))
  }

  /** Following a book's pages from page `i`, fetching at most `fuel` of them. */
  function CrawlFrom(site: string -> seq<string>, id: string, book: string, i: nat, fuel: nat): Crawl {
    Follow(BookPageUrl(id, book), BookPageLinks(site, id, book), BookPageMore(site, id, book), i, fuel)
  }

  /** One step of the walk: page `i` is fetched from `url` and adds its
      photo URLs `links`, and the walk goes on from page `i + 1` only when
      page `i` refers to it. */
  lemma CrawlStep(site: string -> seq<string>, id: string, book: string, i: nat, fuel: nat,
                  url: string, page: seq<string>, links: seq<string>, more: bool, after: Crawl)
    requires fuel >= 1 && url == PageUrl(id, book, i) && page == site(url)
    requires links == PhotoLinksOf(id, book, page)
    requires more <==> RefersTo(page, PageRef(id, book, i + 1))
    requires after == if more then CrawlFrom(site, id, book, i + 1, fuel - 1) else Crawl([], [])
    ensures CrawlFrom(site, id, book, i, fuel) == Then(Crawl(links, [url]), after)
  {
    if !more {
      ThenNothing(Crawl(links, [url]));
    }
  }

  /** One round of book_photos_urls: when the walk is what is done so far
      followed by the walk from page `i`, fetching page `i` moves its links and
      URL to what is done, and what is left is the walk from page `i + 1` if
      page `i` refers to it, else nothing. */
  lemma CrawlAdvance(site: string -> seq<string>, id: string, book: string, i: nat, maxPages: nat,
                     urls: seq<string>, fetched: seq<string>, whole: Crawl,
                     url: string, page: seq<string>, links: seq<string>, more: bool)
    requires |fetched| < maxPages
    requires whole == Then(Crawl(urls, fetched), CrawlFrom(site, id, book, i, maxPages - |fetched|))
    requires url == PageUrl(id, book, i) && page == site(url) && links == PhotoLinksOf(id, book, page)
    requires more <==> RefersTo(page, PageRef(id, book, i + 1))
    ensures whole == Then(Crawl(urls + links, fetched + [url]),
      if more then CrawlFrom(site, id, book, i + 1, maxPages - |fetched + [url]|) else Crawl([], []))
  {
    var fuel := maxPages - |fetched|;
    var after := if more then CrawlFrom(site, id, book, i + 1, fuel - 1) else Crawl([], []);
    CrawlStep(site, id, book, i, fuel, url, page, links, more, after);
    ThenAssoc(Crawl(urls, fetched), Crawl(links, [url]), after);
  }

  /** Following a book from page `i` with `fuel >= 1` fetches at least one
      and at most `fuel` pages, the j-th from the URL of page `i + j`. */
  lemma CrawlPages(site: string -> seq<string>, id: string, book: string, i: nat, fuel: nat)
    requires fuel >= 1
    ensures var c := CrawlFrom(site, id, book, i, fuel);
      && 1 <= |c.fetched| <= fuel
      && forall j :: 0 <= j < |c.fetched| ==> c.fetched[j] == PageUrl(id, book, i + j)
  {
    var url := BookPageUrl(id, book);
    var c := CrawlFrom(site, id, book, i, fuel);
    FollowPages(url, BookPageLinks(site, id, book), BookPageMore(site, id, book), i, fuel);
    forall j | 0 <= j < |c.fetched| ensures c.fetched[j] == PageUrl(id, book, i + j) {
      assert c.fetched[j] == url(i + j);
    }
  }

  /** Every fetched page but the last refers to the page after it. */
  lemma CrawlRefersOnward(site: string -> seq<string>, id: string, book: string, i: nat, fuel: nat)
    requires fuel >= 1
    ensures var n := |CrawlFrom(site, id, book, i, fuel).fetched|;
      forall j :: i <= j < i + n - 1 ==> RefersTo(site(PageUrl(id, book, j)), PageRef(id, book, j + 1))
  {
    var more := BookPageMore(site, id, book);
    var n := |CrawlFrom(site, id, book, i, fuel).fetched|;
    FollowStops(BookPageUrl(id, book), BookPageLinks(site, id, book), more, i, fuel);
    forall j | i <= j < i + n - 1 ensures RefersTo(site(PageUrl(id, book, j)), PageRef(id, book, j + 1)) {
      assert more(j);
    }
  }

  /** When fewer than `fuel` pages were fetched, the last one does not refer
      to the page after it. */
  lemma CrawlStopsEarly(site: string -> seq<string>, id: string, book: string, i: nat, fuel: nat)
    requires fuel >= 1
    ensures var n := |CrawlFrom(site, id, book, i, fuel).fetched|;
      n < fuel ==> !RefersTo(site(PageUrl(id, book, i + n - 1)), PageRef(id, book, i + n))
  {
    var more := BookPageMore(site, id, book);
    var n := |CrawlFrom(site, id, book, i, fuel).fetched|;
    FollowStops(BookPageUrl(id, book), BookPageLinks(site, id, book), more, i, fuel);
    if n < fuel {
      assert !more(i + n - 1);
    }
  }

  /** The photo URLs are those of the fetched pages, concatenated in fetch order. */
  lemma CrawlLinks(site: string -> seq<string>, id: string, book: string, i: nat, fuel: nat)
    ensures var c := CrawlFrom(site, id, book, i, fuel);
      c.urls == LinksFrom(BookPageLinks(site, id, book), i, |c.fetched|)
  {
    FollowLinks(BookPageUrl(id, book), BookPageLinks(site, id, book), BookPageMore(site, id, book), i, fuel);
  }

  /** Page `i + 1` of a book is fetched after page `i` exactly when page `i`
      refers to it, even when page `i` shows no photo at all. */
  lemma CrawlContinues(site: string -> seq<string>, id: string, book: string, i: nat, fuel: nat)
    requires fuel >= 2
    ensures |CrawlFrom(site, id, book, i, fuel).fetched| >= 2 <==>
      RefersTo(site(PageUrl(id, book, i)), PageRef(id, book, i + 1))
  {
    FollowContinues(BookPageUrl(id, book), BookPageLinks(site, id, book), BookPageMore(site, id, book), i, fuel);
  }

  /** Following a book starts at its plain URL, without `&page`, and its
      photo URLs begin with those of that first page. */
  lemma CrawlStartsAtBookUrl(site: string -> seq<string>, id: string, book: string, fuel: nat)
    requires fuel >= 1
    ensures var c := CrawlFrom(site, id, book, 1, fuel);
      |c.fetched| >= 1 && c.fetched[0] == BookUrl(id, book) &&
      c.urls == PhotoLinksOf(id, book, site(BookUrl(id, book))) +
                LinksFrom(BookPageLinks(site, id, book), 2, |c.fetched| - 1)
  {
    CrawlPages(site, id, book, 1, fuel);
    CrawlLinks(site, id, book, 1, fuel);
  }

  // ---------------------------------------------------------------------
  // The scraper object

  class WretchAlbumsInfo {
    /** The account whose albums are read. */
    const wretchId: string

    constructor (wretchId: string)
      ensures this.wretchId == wretchId
    {
      this.wretchId := wretchId;
    }

    /** books_list: fetches the album-list page and reads its books. */
    method BooksList(pageNum: int, site: string -> seq<string>) returns (albumBooks: seq<BookInfo>)
      ensures albumBooks == BooksOf(wretchId, site(AlbumListUrl(wretchId, pageNum)))
    {
      var wretchUrl := AlbumRoot + wretchId;
      if pageNum >= 2 {
        wretchUrl := wretchUrl + "&page=" + NatStr(pageNum);
      }
      var pageHtml := site(wretchUrl);
      albumBooks := [];
      var k := 0;
      while k < |pageHtml|
        invariant 0 <= k <= |pageHtml|
        invariant albumBooks == BooksOf(wretchId, pageHtml[..k])
      {
        assert pageHtml[..k + 1][..k] == pageHtml[..k];
        match BookAnchor(wretchId, pageHtml[k]) {
          case Some((number, name)) =>
            albumBooks := albumBooks + [BookInfo(number, name)];
          case None =>
        }
        k := k + 1;
      }
      assert pageHtml[..k] == pageHtml;
    }

    /** get_photo_url_list: the photo URLs of one book page. */
    method GetPhotoUrlList(pageHtml: seq<string>, bookNumber: string) returns (photoUrlList: seq<string>)
      ensures photoUrlList == PhotoLinksOf(wretchId, bookNumber, pageHtml)
    {
      photoUrlList := [];
      var k := 0;
      while k < |pageHtml|
        invariant 0 <= k <= |pageHtml|
        invariant photoUrlList == PhotoLinksOf(wretchId, bookNumber, pageHtml[..k])
      {
        assert pageHtml[..k + 1][..k] == pageHtml[..k];
        match PhotoLink(wretchId, bookNumber, pageHtml[k]) {
          case Some(path) =>
            photoUrlList := photoUrlList + [AlbumRoot + path];
          case None =>
        }
        k := k + 1;
      }
      assert pageHtml[..k] == pageHtml;
    }

    /** get_file_url: every line is scanned and a later image overwrites an earlier one. */
    method GetFileUrl(photoUrl: string, site: string -> seq<string>) returns (fileUrl: string)
      ensures fileUrl == FileUrlOf(site(photoUrl))
    {
      var pageHtml := site(photoUrl);
      fileUrl := "";
      var k := 0;
      while k < |pageHtml|
        invariant 0 <= k <= |pageHtml|
        invariant fileUrl == FileUrlOf(pageHtml[..k])
      {
        assert pageHtml[..k + 1][..k] == pageHtml[..k];
        var src := ImgSrc(DisplayImageHead, pageHtml[k]);
        if src.Some? {
          fileUrl := src.value;
        } else {
          var src2 := ImgSrc(DisplayImgHead, pageHtml[k]);
          if src2.Some? {
            fileUrl := src2.value;
          }
        }
        k := k + 1;
      }
      assert pageHtml[..k] == pageHtml;
    }

    /** book_photos_urls: fetches page after page of a book, at most
        `maxPages` of them, and returns the photo URLs; the page URLs it
        fetched are a ghost result that the contract speaks of. */
    method BookPhotosUrls(bookNumber: string, site: string -> seq<string>, maxPages: nat)
      returns (photosUrls: seq<string>, ghost fetched: seq<string>)
      requires maxPages >= 1
      ensures photosUrls == CrawlFrom(site, wretchId, bookNumber, 1, maxPages).urls
      ensures Crawl(photosUrls, fetched) == CrawlFrom(site, wretchId, bookNumber, 1, maxPages)
    {
      ghost var whole := CrawlFrom(site, wretchId, bookNumber, 1, maxPages);
      var bookUrl := AlbumRoot + "album.php?id=" + wretchId + "&book=" + bookNumber;
      var i := 1;
      var n := true;
      photosUrls := [];
      fetched := [];
      ThenIdentity(whole);
      while n && i <= maxPages
        invariant i == |fetched| + 1 && |fetched| <= maxPages
        invariant n ==> bookUrl == PageUrl(wretchId, bookNumber, i)
        // the walk is what is done followed by what is still to come
        invariant whole == Then(Crawl(photosUrls, fetched),
          if n then CrawlFrom(site, wretchId, bookNumber, i, maxPages - |fetched|) else Crawl([], []))
        decreases maxPages - |fetched|, n
      {
        ghost var urls0, fetched0, url := photosUrls, fetched, bookUrl;
        var pageHtml := site(bookUrl);
        var links := GetPhotoUrlList(pageHtml, bookNumber);
        photosUrls := photosUrls + links;
        fetched := fetched + [bookUrl];
        i := i + 1;
        // Next page?
        n := RefersToPage(pageHtml, bookNumber, i);
        if n {
          bookUrl := AlbumRoot + "album.php?id=" + wretchId + "&book=" + bookNumber + "&page=" + NatStr(i);
          NextPageUrl(wretchId, bookNumber, i);
        }
        CrawlAdvance(site, wretchId, bookNumber, i - 1, maxPages, urls0, fetched0, whole, url, pageHtml, links, n);
      }
      if n {
        assert CrawlFrom(site, wretchId, bookNumber, i, 0) == Crawl([], []);
      }
      ThenNothing(Crawl(photosUrls, fetched));
    }

    /** The `each_line` search of book_photos_urls for a reference to page
        `i`: it stops at the first line holding one. */
    method RefersToPage(pageHtml: seq<string>, bookNumber: string, i: nat) returns (n: bool)
      ensures n <==> RefersTo(pageHtml, PageRef(wretchId, bookNumber, i))
    {
      n := false;
      var k := 0;
      while k < |pageHtml|
        invariant 0 <= k <= |pageHtml|
        invariant forall j :: 0 <= j < k ==> !Contains(pageHtml[j], PageRef(wretchId, bookNumber, i))
      {
        if Contains(pageHtml[k], PageRef(wretchId, bookNumber, i)) {
          n := true;
          break;
        }
        k := k + 1;
      }
    }
  }
}
