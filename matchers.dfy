/**
 * One function per regular expression of WretchDL_Lite.rb, each applied to
 * one line. A regex search is modelled literally: the match attempted at
 * every start index (leftmost first, FirstMatch), greedy `\d+` and `[^']+`
 * as maximal runs (Span), and a greedy `.+` followed by a literal as the
 * last occurrence of that literal before the line's newline (FindLast).
 * The account id and book number are matched as literal text.
 */
module Matchers {
  import opened Wrappers
  import opened Text

  /** A literal `t` at `p`; the index after it. */
  function Lit(s: string, t: string, p: nat): Option<nat>
  {
    if OccursAt(s, t, p) then Some(p + |t|) else None
  }

  /** `\d+` at `p`, greedy; the index after the digits. */
  function Digits(s: string, p: nat): (r: Option<nat>)
    requires p <= |s|
    ensures r.Some? ==> p < r.value <= |s|
  {
    var n := Span(s, p, IsDigit);
    if n == 0 then None else Some(p + n)
  }

  /** Ruby's `.`: one character other than a newline. */
  function AnyChar(s: string, p: nat): Option<nat>
  {
    if p < |s| && s[p] != '\n' then Some(p + 1) else None
  }

  /** What `\d+` consumes is a run of digits. */
  lemma DigitsSound(s: string, p: nat)
    requires p <= |s| && Digits(s, p).Some?
    ensures AllDigits(s[p..Digits(s, p).value])
  {
    SpanSound(s, p, IsDigit);
  }

  lemma DigitsExact(s: string, p: nat, d: string)
    requires OccursAt(s, d, p) && |d| >= 1 && AllDigits(d)
    requires p + |d| == |s| || !IsDigit(s[p + |d|])
    ensures Digits(s, p) == Some(p + |d|)
  {
    forall j | p <= j < p + |d| ensures IsDigit(s[j]) {
      assert s[j] == d[j - p];
    }
    SpanExact(s, p, |d|, IsDigit);
  }

  // ---------------------------------------------------------------------
  // books_list: /<a href="\.\/album\.php\?id=ID&book=(\d+)">(.+)<\/a>/

  function BookAnchorPrefix(id: string): string {
    "<a href=\"./album.php?id=" + id + "&book="
  }

  /** The album anchor regex tried at index `p`; its two captures. */
  function BookAnchorAt(id: string, line: string, p: nat): Option<(string, string)> {
    match Lit(line, BookAnchorPrefix(id), p)
    case None => None
    case Some(q) =>
      match Digits(line, q)
      case None => None
      case Some(r) =>
        match Lit(line, "\">", r)
        case None => None
        case Some(t) =>
          match FindLast(line, "</a>", t + 1, LineEnd(line, t) - 1)
          case None => None
          case Some(e) => Some((line[q..r], line[t..e]))
  }

  /** `line =~ /<a href=.../`: the captures (book number, book name) of the leftmost match. */
  function BookAnchor(id: string, line: string): Option<(string, string)> {
    FirstMatch((p: nat) => BookAnchorAt(id, line, p), 0, |line|)
  }

  /** The text a book entry occupies on an album-list line. */
  function BookAnchorText(id: string, number: string, name: string): string {
    BookAnchorPrefix(id) + number + "\">" + name + "</a>"
  }

  lemma BookAnchorAtSound(id: string, line: string, p: nat)
    requires BookAnchorAt(id, line, p).Some?
    ensures var (number, name) := BookAnchorAt(id, line, p).value;
      |number| >= 1 && AllDigits(number) && |name| >= 1 && NoNewline(name) &&
      OccursAt(line, BookAnchorText(id, number, name), p)
  {
    var q := p + |BookAnchorPrefix(id)|;
    var r := Digits(line, q).value;
    var t := r + 2;
    assert Lit(line, BookAnchorPrefix(id), p) == Some(q);
    assert Lit(line, "\">", r) == Some(t);
    var e := FindLast(line, "</a>", t + 1, LineEnd(line, t) - 1).value;
    assert BookAnchorAt(id, line, p).value == (line[q..r], line[t..e]);
    DigitsSound(line, q);
    BeforeLineEndNoNewline(line, t, e);
    BookAnchorAtLayout(id, line, p, line[q..r], line[t..e]);
  }

  /** A stretch that ends before the line end holds no newline. */
  lemma BeforeLineEndNoNewline(line: string, t: nat, e: nat)
    requires t <= |line| && t <= e <= LineEnd(line, t)
    ensures NoNewline(line[t..e])
  {
    LineEndSound(line, t);
    forall j | 0 <= j < e - t ensures line[t..e][j] != '\n' {
      assert line[t..e][j] == line[t + j];
    }
  }

  lemma BookAnchorAtLayout(id: string, line: string, p: nat, number: string, name: string)
    requires OccursAt(line, BookAnchorPrefix(id), p)
    requires OccursAt(line, number, p + |BookAnchorPrefix(id)|)
    requires OccursAt(line, "\">", p + |BookAnchorPrefix(id)| + |number|)
    requires OccursAt(line, name, p + |BookAnchorPrefix(id)| + |number| + 2)
    requires OccursAt(line, "</a>", p + |BookAnchorPrefix(id)| + |number| + 2 + |name|)
    ensures OccursAt(line, BookAnchorText(id, number, name), p)
  {
    OccursConcat(line, BookAnchorPrefix(id), number, p);
    OccursConcat(line, BookAnchorPrefix(id) + number, "\">", p);
    OccursConcat(line, BookAnchorPrefix(id) + number + "\">", name, p);
    OccursConcat(line, BookAnchorPrefix(id) + number + "\">" + name, "</a>", p);
  }

  /** Whatever the album regex captures is a non-empty digit string and a
      non-empty one-line name, and the line holds the anchor they form. */
  lemma BookAnchorSound(id: string, line: string)
    requires BookAnchor(id, line).Some?
    ensures var (number, name) := BookAnchor(id, line).value;
      |number| >= 1 && AllDigits(number) && |name| >= 1 && NoNewline(name) &&
      Contains(line, BookAnchorText(id, number, name))
  {
    var q := FirstMatchAt((p: nat) => BookAnchorAt(id, line, p), 0, |line|);
    BookAnchorAtSound(id, line, q);
  }

  /** A line made of one book anchor (and its newline) yields exactly that
      anchor's number and name. */
  lemma BookAnchorRoundTrip(id: string, number: string, name: string, rest: string)
    requires |number| >= 1 && AllDigits(number) && |name| >= 1 && NoNewline(name)
    requires rest == [] || rest[0] == '\n'
    ensures BookAnchor(id, BookAnchorText(id, number, name) + rest) == Some((number, name))
  {
    BookLinePieces(id, number, name, rest);
    BookLineEnd(id, number, name, rest);
    BookAnchorAtStart(id, BookAnchorText(id, number, name) + rest, number, name);
  }

  /** The album regex at index 0 of a line laid out as an anchor up to the end of its line. */
  lemma BookAnchorAtStart(id: string, line: string, number: string, name: string)
    requires |number| >= 1 && AllDigits(number) && |name| >= 1
    requires var q := |BookAnchorPrefix(id)|;
      var r := q + |number|;
      var t := r + 2;
      var e := t + |name|;
      && OccursAt(line, BookAnchorPrefix(id), 0)
      && OccursAt(line, number, q) && line[q..r] == number
      && OccursAt(line, "\">", r)
      && OccursAt(line, "</a>", e)
      && line[t..e] == name
      && LineEnd(line, t) == e + 4
    ensures BookAnchor(id, line) == Some((number, name))
  {
    var q := |BookAnchorPrefix(id)|;
    var r := q + |number|;
    var t := r + 2;
    var e := t + |name|;
    DigitsExact(line, q, number);
    forall e' | e < e' <= e + 3 ensures !OccursAt(line, "</a>", e') {
      if OccursAt(line, "</a>", e') {
        OccursBeforeLineEnd(line, "</a>", t, e');
      }
    }
    FindLastIs(line, "</a>", t + 1, e + 3, e);
    assert BookAnchorAt(id, line, 0) == Some((number, name));
  }

  /** Where each piece of a rendered album-list line sits. */
  lemma BookLinePieces(id: string, number: string, name: string, rest: string)
    ensures var line := BookAnchorText(id, number, name) + rest;
      var q := |BookAnchorPrefix(id)|;
      var r := q + |number|;
      var t := r + 2;
      var e := t + |name|;
      && |line| == e + 4 + |rest|
      && OccursAt(line, BookAnchorPrefix(id), 0)
      && OccursAt(line, number, q) && line[q..r] == number
      && line[r] == '"' && OccursAt(line, "\">", r)
      && line[t..e] == name
      && OccursAt(line, "</a>", e)
      && line[e + 4..] == rest
  {
  }

  lemma BookLineEnd(id: string, number: string, name: string, rest: string)
    requires NoNewline(name)
    requires rest == [] || rest[0] == '\n'
    ensures var line := BookAnchorText(id, number, name) + rest;
      var t := |BookAnchorPrefix(id)| + |number| + 2;
      LineEnd(line, t) == t + |name| + 4
  {
    var line := BookAnchorText(id, number, name) + rest;
    var t := |BookAnchorPrefix(id)| + |number| + 2;
    var e := t + |name|;
    BookLinePieces(id, number, name, rest);
    NoNewlineWithin(line, name, t);
    NoNewlineWithin(line, "</a>", e);
    if rest != [] {
      assert line[e + 4] == line[e + 4..][0];
    }
    LineEndAcross(line, t, |name|, 4);
  }

  /** A newline-free text laid out at `t` puts no newline there. */
  lemma NoNewlineWithin(line: string, u: string, t: nat)
    requires NoNewline(u) && t + |u| <= |line| && line[t..t + |u|] == u
    ensures forall j :: t <= j < t + |u| ==> line[j] != '\n'
  {
    forall j | t <= j < t + |u| ensures line[j] != '\n' {
      assert line[j] == line[t..t + |u|][j - t];
    }
  }

  /** Two newline-free stretches from `t`, then the end of the text or a newline, end the line. */
  lemma LineEndAcross(line: string, t: nat, m: nat, n: nat)
    requires t + m + n <= |line|
    requires forall j :: t <= j < t + m ==> line[j] != '\n'
    requires forall j :: t + m <= j < t + m + n ==> line[j] != '\n'
    requires t + m + n == |line| || line[t + m + n] == '\n'
    ensures LineEnd(line, t) == t + m + n
  {
    SpanExact(line, t, m + n, NotNewline);
  }

  /** Two adjacent occurrences make one occurrence of their concatenation. */
  lemma OccursConcat(s: string, t1: string, t2: string, e: int)
    requires OccursAt(s, t1, e) && OccursAt(s, t2, e + |t1|)
    ensures OccursAt(s, t1 + t2, e)
  {
    assert s[e..e + |t1| + |t2|] == s[e..e + |t1|] + s[e + |t1|..e + |t1| + |t2|];
  }

  /** An occurrence inside an occurrence. */
  lemma OccursWithin(s: string, u: string, t: string, c: int, k: int)
    requires OccursAt(s, u, c) && OccursAt(u, t, k)
    ensures OccursAt(s, t, c + k)
  {
    forall i | 0 <= i < |t| ensures s[c + k + i] == t[i] {
      assert s[c + k + i] == s[c..c + |u|][k + i];
      assert t[i] == u[k..k + |t|][i];
    }
    assert s[c + k..c + k + |t|] == t;
  }

  /** An occurrence in `a + b` that starts in `b` is an occurrence in `b`. */
  lemma OccursInSuffix(a: string, b: string, t: string, e: int)
    requires OccursAt(a + b, t, e) && e >= |a|
    ensures OccursAt(b, t, e - |a|)
  {
    assert (a + b)[e..e + |t|] == b[e - |a|..e - |a| + |t|];
  }

  /** A newline-free stretch from `k` of length `m` lies before the line end. */
  lemma LineEndAtLeast(s: string, k: nat, m: nat)
    requires k + m <= |s|
    requires forall j :: k <= j < k + m ==> s[j] != '\n'
    ensures LineEnd(s, k) >= k + m
  {
    LineEndSound(s, k);
  }

  // ---------------------------------------------------------------------
  // get_photo_url_list:
  // /<a href="\.\/(show.php\?i=ID&b=BOOK&f=\d+&p=\d+&sp=\d+)".+><img src=/
  // (the `.` of `show.php` is not escaped and matches any character but a newline)

  const PhotoAnchorHead := "<a href=\"./"

  function PhotoQuery(id: string, book: string): string {
    "php?i=" + id + "&b=" + book + "&f="
  }

  /** `\d+&p=\d+&sp=\d+` at `x`; the index after the last digits. */
  function PageParamsEnd(line: string, x: nat): (r: Option<nat>)
    requires x <= |line|
    ensures r.Some? ==> x < r.value <= |line|
  {
    match Digits(line, x)
    case None => None
    case Some(x4) =>
      match ParamEnd(line, "&p=", x4)
      case None => None
      case Some(x6) => ParamEnd(line, "&sp=", x6)
  }

  /** `KEY\d+` at `x`, KEY a literal such as `&p=`; the index after the digits. */
  function ParamEnd(line: string, key: string, x: nat): (r: Option<nat>)
    ensures r.Some? ==> x < r.value <= |line|
  {
    match Lit(line, key, x)
    case None => None
    case Some(y) => Digits(line, y)
  }

  lemma ParamEndExact(line: string, key: string, x: nat, d: string)
    requires |d| >= 1 && AllDigits(d)
    requires OccursAt(line, key, x) && OccursAt(line, d, x + |key|)
    requires x + |key| + |d| == |line| || !IsDigit(line[x + |key| + |d|])
    ensures ParamEnd(line, key, x) == Some(x + |key| + |d|)
  {
    DigitsExact(line, x + |key|, d);
  }

  /** `show.QUERY\d+&p=\d+&sp=\d+` at `c`, QUERY being `php?i=ID&b=BOOK&f=`;
      the index after it. */
  function ShowPathEnd(query: string, line: string, c: nat): (r: Option<nat>)
    ensures r.Some? ==> OccursAt(line, "show", c) && OccursAt(line, query, c + 5)
    ensures r.Some? ==> c + 5 + |query| < r.value <= |line|
  {
    match Lit(line, "show", c)
    case None => None
    case Some(x1) =>
      match AnyChar(line, x1)
      case None => None
      case Some(x2) =>
        match Lit(line, query, x2)
        case None => None
        case Some(x3) => PageParamsEnd(line, x3)
  }

  /** The photo-link regex tried at index `p`; its capture (the show.php path). */
  function PhotoLinkAt(id: string, book: string, line: string, p: nat): Option<string> {
    match Lit(line, PhotoAnchorHead, p)
    case None => None
    case Some(c) => PhotoPathAt(PhotoQuery(id, book), line, c)
  }

  /** The rest of the photo-link regex once its head ends at `c`. */
  function PhotoPathAt(query: string, line: string, c: nat): Option<string> {
    match ShowPathEnd(query, line, c)
    case None => None
    case Some(x) => PhotoAnchorTail(line, c, x)
  }

  /** The rest of the photo-link regex once the path `c..x` is read. */
  function PhotoAnchorTail(line: string, c: nat, x: nat): Option<string>
    requires c <= x <= |line|
  {
    match Lit(line, "\"", x)
    case None => None
    case Some(y) =>
      if FindLast(line, "><img src=", y + 1, LineEnd(line, y) - 1).None? then None
      else Some(line[c..x])
  }

  /** `line =~ /<a href=.../`: the captured show.php path of the leftmost match. */
  function PhotoLink(id: string, book: string, line: string): Option<string> {
    FirstMatch((p: nat) => PhotoLinkAt(id, book, line, p), 0, |line|)
  }

  /** A show.php path; `sep` stands where the regex's unescaped `.` is. */
  function ShowPath(sep: char, id: string, book: string, f: string, pg: string, sp: string): string {
    "show" + [sep] + PhotoQuery(id, book) + f + "&p=" + pg + "&sp=" + sp
  }

  lemma PhotoLinkAtSound(id: string, book: string, line: string, p: nat)
    requires PhotoLinkAt(id, book, line, p).Some?
    ensures var path := PhotoLinkAt(id, book, line, p).value;
      OccursAt(line, PhotoAnchorHead + path + "\"", p) &&
      OccursAt(path, "show", 0) && OccursAt(path, PhotoQuery(id, book), 5)
  {
    var c := p + |PhotoAnchorHead|;
    assert Lit(line, PhotoAnchorHead, p) == Some(c);
    var x := ShowPathEnd(PhotoQuery(id, book), line, c).value;
    var path := line[c..x];
    assert PhotoLinkAt(id, book, line, p) == Some(path);
    OccursConcat(line, PhotoAnchorHead, path, p);
    OccursConcat(line, PhotoAnchorHead + path, "\"", p);
    OccursInSlice(line, "show", c, x, c);
    OccursInSlice(line, PhotoQuery(id, book), c, x, c + 5);
  }

  /** An occurrence inside `s[lo..hi]` is an occurrence in that slice. */
  lemma OccursInSlice(s: string, t: string, lo: nat, hi: nat, e: nat)
    requires lo <= e && e + |t| <= hi <= |s| && OccursAt(s, t, e)
    ensures OccursAt(s[lo..hi], t, e - lo)
  {
    forall i | 0 <= i < |t| ensures s[lo..hi][e - lo + i] == t[i] {
      assert t[i] == s[e..e + |t|][i];
    }
    assert s[lo..hi][e - lo..e - lo + |t|] == t;
  }

  /** Whatever the photo-link regex captures is a show.php path of this
      account and book, and the line holds the anchor around it. */
  lemma PhotoLinkSound(id: string, book: string, line: string)
    requires PhotoLink(id, book, line).Some?
    ensures var path := PhotoLink(id, book, line).value;
      Contains(line, PhotoAnchorHead + path + "\"") &&
      OccursAt(path, "show", 0) && OccursAt(path, PhotoQuery(id, book), 5)
  {
    var q := FirstMatchAt((p: nat) => PhotoLinkAt(id, book, line, p), 0, |line|);
    PhotoLinkAtSound(id, book, line, q);
  }

  /** How a show.php path is laid out: `show`, one character other than a
      newline, the query, then `f&p=pg&sp=sp`. */
  predicate ShowPathShape(path: string, query: string, f: string, pg: string, sp: string) {
    var x3 := 5 + |query|;
    var x4 := x3 + |f|;
    var x6 := x4 + 3 + |pg|;
    && |path| == x6 + 4 + |sp|
    && OccursAt(path, "show", 0) && path[4] != '\n'
    && OccursAt(path, query, 5)
    && OccursAt(path, f, x3)
    && OccursAt(path, "&p=", x4)
    && OccursAt(path, pg, x4 + 3)
    && OccursAt(path, "&sp=", x6)
    && OccursAt(path, sp, x6 + 4)
  }

  /** Where each piece of a show.php path sits. */
  lemma ShowPathPieces(sep: char, id: string, book: string, f: string, pg: string, sp: string)
    requires sep != '\n'
    ensures ShowPathShape(ShowPath(sep, id, book, f, pg, sp), PhotoQuery(id, book), f, pg, sp)
  {
  }

  /** Where each piece of a rendered photo-link line sits. */
  lemma PhotoLinePieces(path: string, attrs: string, rest: string)
    ensures var line := PhotoAnchorHead + path + "\"" + attrs + "><img src=" + rest;
      var y := |PhotoAnchorHead| + |path| + 1;
      && |line| == y + |attrs| + 10 + |rest|
      && OccursAt(line, PhotoAnchorHead, 0)
      && OccursAt(line, path, |PhotoAnchorHead|)
      && line[|PhotoAnchorHead|..y - 1] == path
      && OccursAt(line, "\"", y - 1)
      && OccursAt(line, attrs, y)
      && OccursAt(line, "><img src=", y + |attrs|)
  {
  }

  /** A line holding a photo anchor whose attributes stay on the line yields
      exactly the anchor's show.php path, whatever stands at the `.`. */
  lemma PhotoLinkRoundTrip(sep: char, id: string, book: string, f: string, pg: string, sp: string,
                           attrs: string, rest: string)
    requires sep != '\n'
    requires |f| >= 1 && AllDigits(f) && |pg| >= 1 && AllDigits(pg) && |sp| >= 1 && AllDigits(sp)
    requires |attrs| >= 1 && NoNewline(attrs)
    ensures var path := ShowPath(sep, id, book, f, pg, sp);
      PhotoLink(id, book, PhotoAnchorHead + path + "\"" + attrs + "><img src=" + rest) == Some(path)
  {
    var path := ShowPath(sep, id, book, f, pg, sp);
    var line := PhotoAnchorHead + path + "\"" + attrs + "><img src=" + rest;
    var c := |PhotoAnchorHead|;
    var y := c + |path| + 1;
    PhotoLinePieces(path, attrs, rest);
    ShowPathInLine(sep, id, book, f, pg, sp, line, c);
    AttrsStayOnLine(line, y, attrs);
    PhotoLinkAtStart(id, book, line, path, y - 1, y + |attrs|);
  }

  /** A show.php path laid out at `c` is matched by the path regex. */
  lemma ShowPathInLine(sep: char, id: string, book: string, f: string, pg: string, sp: string, line: string, c: nat)
    requires sep != '\n'
    requires |f| >= 1 && AllDigits(f) && |pg| >= 1 && AllDigits(pg) && |sp| >= 1 && AllDigits(sp)
    requires var path := ShowPath(sep, id, book, f, pg, sp);
      OccursAt(line, path, c) && OccursAt(line, "\"", c + |path|)
    ensures ShowPathEnd(PhotoQuery(id, book), line, c) == Some(c + |ShowPath(sep, id, book, f, pg, sp)|)
  {
    ShowPathPieces(sep, id, book, f, pg, sp);
    ShowPathLayout(ShowPath(sep, id, book, f, pg, sp), PhotoQuery(id, book), f, pg, sp, line, c);
  }

  /** A path made of `show`, one character, the query and the page
      parameters, laid out at `c` and followed by a quote, is matched by the
      path regex up to its end. */
  lemma ShowPathLayout(path: string, query: string, f: string, pg: string, sp: string, line: string, c: nat)
    requires |f| >= 1 && AllDigits(f) && |pg| >= 1 && AllDigits(pg) && |sp| >= 1 && AllDigits(sp)
    requires ShowPathShape(path, query, f, pg, sp)
    requires OccursAt(line, path, c) && OccursAt(line, "\"", c + |path|)
    ensures ShowPathEnd(query, line, c) == Some(c + |path|)
  {
    PathHeadInLine(path, query, f, pg, sp, line, c);
    PathParamsInLine(path, query, f, pg, sp, line, c);
    QuoteNotDigit(line, c + |path|);
    PageParamsEndExact(line, c + 5 + |query|, f, pg, sp, c + |path|);
    ShowPathEndExact(query, line, c, c + |path|);
  }

  /** `show`, the character after it and the query, carried over to the line. */
  lemma PathHeadInLine(path: string, query: string, f: string, pg: string, sp: string, line: string, c: nat)
    requires ShowPathShape(path, query, f, pg, sp) && OccursAt(line, path, c)
    ensures OccursAt(line, "show", c) && c + 4 < |line| && line[c + 4] != '\n'
    ensures OccursAt(line, query, c + 5)
  {
    OccursWithin(line, path, "show", c, 0);
    OccursWithin(line, path, query, c, 5);
    assert line[c + 4] == path[4] by {
      assert line[c..c + |path|][4] == path[4];
    }
  }

  /** The page parameters, carried over to the line; the path ends right after them. */
  lemma PathParamsInLine(path: string, query: string, f: string, pg: string, sp: string, line: string, c: nat)
    requires ShowPathShape(path, query, f, pg, sp) && OccursAt(line, path, c)
    ensures PageParamsExact(line, c + 5 + |query|, f, pg, sp)
    ensures |path| == 5 + |query| + |f| + 3 + |pg| + 4 + |sp|
  {
    var x3 := 5 + |query|;
    var x4 := x3 + |f|;
    var x6 := x4 + 3 + |pg|;
    OccursWithin(line, path, f, c, x3);
    OccursWithin(line, path, "&p=", c, x4);
    OccursWithin(line, path, pg, c, x4 + 3);
    OccursWithin(line, path, "&sp=", c, x6);
    OccursWithin(line, path, sp, c, x6 + 4);
  }

  /** A quote is not a digit. */
  lemma QuoteNotDigit(line: string, k: nat)
    requires OccursAt(line, "\"", k)
    ensures k < |line| && !IsDigit(line[k])
  {
    assert line[k] == line[k..k + 1][0];
  }

  /** Newline-free attributes and the `><img src=` after them end before the line does. */
  lemma AttrsStayOnLine(line: string, y: nat, attrs: string)
    requires NoNewline(attrs)
    requires OccursAt(line, attrs, y) && OccursAt(line, "><img src=", y + |attrs|)
    ensures LineEnd(line, y) >= y + |attrs| + 10
  {
    forall j | y <= j < y + |attrs| + 10 ensures line[j] != '\n' {
      if j < y + |attrs| {
        assert line[j] == line[y..y + |attrs|][j - y];
      } else {
        assert line[j] == line[y + |attrs|..y + |attrs| + 10][j - y - |attrs|];
      }
    }
    LineEndAtLeast(line, y, |attrs| + 10);
  }

  /** The photo-link regex at index 0 of a line laid out as a photo anchor. */
  lemma PhotoLinkAtStart(id: string, book: string, line: string, path: string, x: nat, e: nat)
    requires OccursAt(line, PhotoAnchorHead, 0)
    requires ShowPathEnd(PhotoQuery(id, book), line, |PhotoAnchorHead|) == Some(x)
    requires OccursAt(line, "\"", x) && line[|PhotoAnchorHead|..x] == path
    requires x + 2 <= e < LineEnd(line, x + 1) && OccursAt(line, "><img src=", e)
    ensures PhotoLink(id, book, line) == Some(path)
  {
    PhotoLinkAtZero(id, book, line, path, x, e);
    FirstMatchFirst((p: nat) => PhotoLinkAt(id, book, line, p), 0, |line|);
  }

  lemma PhotoLinkAtZero(id: string, book: string, line: string, path: string, x: nat, e: nat)
    requires OccursAt(line, PhotoAnchorHead, 0)
    requires ShowPathEnd(PhotoQuery(id, book), line, |PhotoAnchorHead|) == Some(x)
    requires OccursAt(line, "\"", x) && line[|PhotoAnchorHead|..x] == path
    requires x + 2 <= e < LineEnd(line, x + 1) && OccursAt(line, "><img src=", e)
    ensures PhotoLinkAt(id, book, line, 0) == Some(path)
  {
    PhotoAnchorTailIs(line, |PhotoAnchorHead|, x, e);
    PhotoPathAtIs(PhotoQuery(id, book), line, |PhotoAnchorHead|, x);
    assert Lit(line, PhotoAnchorHead, 0) == Some(|PhotoAnchorHead|);
  }

  /** The tail of the photo-link regex after the path `c..x`: the closing
      quote at `x` and a later `><img src=` on the line. */
  lemma PhotoAnchorTailIs(line: string, c: nat, x: nat, e: nat)
    requires c <= x && OccursAt(line, "\"", x)
    requires x + 2 <= e < LineEnd(line, x + 1) && OccursAt(line, "><img src=", e)
    ensures PhotoAnchorTail(line, c, x) == Some(line[c..x])
  {
    assert Lit(line, "\"", x) == Some(x + 1);
    FindLastFinds(line, "><img src=", x + 2, LineEnd(line, x + 1) - 1, e);
  }

  /** After the head, the path up to `x` and then the tail. */
  lemma PhotoPathAtIs(query: string, line: string, c: nat, x: nat)
    requires ShowPathEnd(query, line, c) == Some(x)
    ensures PhotoPathAt(query, line, c) == PhotoAnchorTail(line, c, x)
  {
  }

  /** The path regex at `c` once the page parameters after the query are known to match. */
  lemma ShowPathEndExact(query: string, line: string, c: nat, e: nat)
    requires OccursAt(line, "show", c) && c + 4 < |line| && line[c + 4] != '\n'
    requires OccursAt(line, query, c + 5)
    requires PageParamsEnd(line, c + 5 + |query|) == Some(e)
    ensures ShowPathEnd(query, line, c) == Some(e)
  {
    assert Lit(line, "show", c) == Some(c + 4);
    assert AnyChar(line, c + 4) == Some(c + 5);
    assert Lit(line, query, c + 5) == Some(c + 5 + |query|);
  }

  /** `f&p=pg&sp=sp` laid out at `x`. */
  predicate PageParamsExact(line: string, x: nat, f: string, pg: string, sp: string) {
    var x4 := x + |f|;
    var x6 := x4 + 3 + |pg|;
    && OccursAt(line, f, x)
    && OccursAt(line, "&p=", x4)
    && OccursAt(line, pg, x4 + 3)
    && OccursAt(line, "&sp=", x6)
    && OccursAt(line, sp, x6 + 4)
  }

  lemma PageParamsEndExact(line: string, x: nat, f: string, pg: string, sp: string, e: nat)
    requires |f| >= 1 && AllDigits(f) && |pg| >= 1 && AllDigits(pg) && |sp| >= 1 && AllDigits(sp)
    requires PageParamsExact(line, x, f, pg, sp)
    requires e == x + |f| + 3 + |pg| + 4 + |sp| && e <= |line| && (e == |line| || !IsDigit(line[e]))
    ensures PageParamsEnd(line, x) == Some(e)
  {
    var x4 := x + |f|;
    var x6 := x4 + 3 + |pg|;
    DigitsExact(line, x, f);
    ParamEndExact(line, "&p=", x4, pg);
    ParamEndExact(line, "&sp=", x6, sp);
  }

  // ---------------------------------------------------------------------
  // get_file_url: /<img id='DisplayImage' src='([^']+)' / and
  //               /<img class='displayimg' src='([^']+)' /

  const DisplayImageHead := "<img id='DisplayImage' src='"
  const DisplayImgHead := "<img class='displayimg' src='"

  /** `HEAD([^']+)' ` tried at index `p`; the captured `src`. */
  function ImgSrcAt(head: string, line: string, p: nat): Option<string> {
    match Lit(line, head, p)
    case None => None
    case Some(q) =>
      var n := Span(line, q, NotQuote);
      if n == 0 || Lit(line, "' ", q + n).None? then None
      else Some(line[q..q + n])
  }

  /** The `src` captured by the leftmost match of `HEAD([^']+)' `. */
  function ImgSrc(head: string, line: string): Option<string> {
    FirstMatch((p: nat) => ImgSrcAt(head, line, p), 0, |line|)
  }

  /** One line of get_file_url's scan: the `DisplayImage` pattern is tried
      first, `displayimg` only when it fails. */
  function LineImage(line: string): Option<string> {
    match ImgSrc(DisplayImageHead, line)
    case Some(src) => Some(src)
    case None => ImgSrc(DisplayImgHead, line)
  }

  /** What one line of get_file_url's scan reads: a non-empty quote-free
      source standing in an image tag of the line, the `DisplayImage` one
      unless the line has none. */
  lemma LineImageSound(line: string)
    requires LineImage(line).Some?
    ensures var src := LineImage(line).value;
      |src| >= 1 && NoQuote(src) &&
      (Contains(line, DisplayImageHead + src + "' ") ||
       (ImgSrc(DisplayImageHead, line).None? && Contains(line, DisplayImgHead + src + "' ")))
  {
    if ImgSrc(DisplayImageHead, line).Some? {
      ImgSrcSound(DisplayImageHead, line);
    } else {
      ImgSrcSound(DisplayImgHead, line);
    }
  }

  lemma ImgSrcAtSound(head: string, line: string, p: nat)
    requires ImgSrcAt(head, line, p).Some?
    ensures var src := ImgSrcAt(head, line, p).value;
      |src| >= 1 && NoQuote(src) && OccursAt(line, head + src + "' ", p)
  {
    var q := p + |head|;
    assert Lit(line, head, p) == Some(q);
    var n := Span(line, q, NotQuote);
    assert n >= 1 && OccursAt(line, "' ", q + n);
    var src := line[q..q + n];
    assert ImgSrcAt(head, line, p).value == src;
    SpanSound(line, q, NotQuote);
    forall j | 0 <= j < |src| ensures src[j] != '\'' {
      assert src[j] == line[q + j];
    }
    OccursConcat(line, head, src, p);
    OccursConcat(line, head + src, "' ", p);
  }

  /** A captured `src` is non-empty, has no quote, and the line holds the
      tag text around it. */
  lemma ImgSrcSound(head: string, line: string)
    requires ImgSrc(head, line).Some?
    ensures var src := ImgSrc(head, line).value;
      |src| >= 1 && NoQuote(src) && Contains(line, head + src + "' ")
  {
    var q := FirstMatchAt((p: nat) => ImgSrcAt(head, line, p), 0, |line|);
    ImgSrcAtSound(head, line, q);
  }

  /** A line starting with an image tag yields exactly the tag's `src`. */
  lemma ImgSrcRoundTrip(head: string, src: string, rest: string)
    requires |src| >= 1 && NoQuote(src)
    ensures ImgSrc(head, head + src + "' " + rest) == Some(src)
  {
    var line := head + src + "' " + rest;
    var q := |head|;
    assert OccursAt(line, head, 0);
    assert line[q..q + |src|] == src;
    assert OccursAt(line, "' ", q + |src|);
    forall j | q <= j < q + |src| ensures NotQuote(line[j]) {
      assert line[j] == src[j - q];
    }
    SpanExact(line, q, |src|, NotQuote);
    assert ImgSrcAt(head, line, 0) == Some(src);
  }

  // ---------------------------------------------------------------------
  // download_file: group 1 of `http://.+/(.+\.jpg)?.+`

  /** The file-name regex tried at index `p`: None when it does not match
      there, Some(group 1) when it does (the group itself may be absent). */
  function FileNameAt(url: string, p: nat): Option<Option<string>> {
    match Lit(url, "http://", p)
    case None => None
    case Some(a) => FileNameFrom(url, a, LineEnd(url, a))
  }

  /** The rest of the file-name regex once `http://` ends at `a` on a line
      ending at `lim`: the last slash leaving room for a `.+` on each side,
      then the optional group. */
  function FileNameFrom(url: string, a: nat, lim: int): Option<Option<string>> {
    match FindLast(url, "/", a + 1, lim - 2)
    case None => None
    case Some(s) => Some(JpgGroup(url, s, lim))
  }

  /** The optional group `(.+\.jpg)?` after the slash at `s`: up to the last
      `.jpg` leaving room for the final `.+`, or absent. */
  function JpgGroup(url: string, s: nat, lim: int): Option<string> {
    match FindLast(url, ".jpg", s + 2, lim - 5)
    case None => None
    case Some(j) => Some(url[s + 1..j + 4])
  }

  /** The leftmost match of the file-name regex. */
  function FileNameMatch(url: string): Option<Option<string>> {
    FirstMatch((p: nat) => FileNameAt(url, p), 0, |url|)
  }

  /** `$1` after the match: None when the regex fails or group 1 is skipped. */
  function FileNameOf(url: string): Option<string> {
    match FileNameMatch(url)
    case None => None
    case Some(group) => group
  }

  lemma FileNameAtSound(url: string, p: nat)
    requires FileNameAt(url, p).Some? && FileNameAt(url, p).value.Some?
    ensures var name := FileNameAt(url, p).value.value;
      |name| >= 5 && OccursAt(name, ".jpg", |name| - 4) &&
      (forall k :: 0 <= k < |name| ==> name[k] != '/') && Contains(url, "/" + name)
  {
    var a := p + 7;
    assert Lit(url, "http://", p) == Some(a);
    FileNameFromSound(url, a, LineEnd(url, a));
  }

  lemma FileNameFromSound(url: string, a: nat, lim: int)
    requires FileNameFrom(url, a, lim).Some? && FileNameFrom(url, a, lim).value.Some?
    ensures var name := FileNameFrom(url, a, lim).value.value;
      |name| >= 5 && OccursAt(name, ".jpg", |name| - 4) &&
      (forall k :: 0 <= k < |name| ==> name[k] != '/') && Contains(url, "/" + name)
  {
    var s := FindLast(url, "/", a + 1, lim - 2).value;
    FindLastSound(url, "/", a + 1, lim - 2);
    JpgGroupSound(url, a, s, lim);
  }

  lemma JpgGroupSound(url: string, a: nat, s: nat, lim: int)
    requires a + 1 <= s && OccursAt(url, "/", s)
    requires forall e :: s < e <= lim - 2 ==> !OccursAt(url, "/", e)
    requires JpgGroup(url, s, lim).Some?
    ensures var name := JpgGroup(url, s, lim).value;
      |name| >= 5 && OccursAt(name, ".jpg", |name| - 4) &&
      (forall k :: 0 <= k < |name| ==> name[k] != '/') && Contains(url, "/" + name)
  {
    var j := FindLast(url, ".jpg", s + 2, lim - 5).value;
    NoSlashAfterLast(url, a, s, j, lim);
    FileNameLayout(url, s, j);
  }

  /** The segment from after a slash at `s` to the end of a `.jpg` at `j`. */
  lemma FileNameLayout(url: string, s: nat, j: nat)
    requires s + 2 <= j && OccursAt(url, "/", s) && OccursAt(url, ".jpg", j)
    requires forall k :: s + 1 <= k < j + 4 ==> url[k] != '/'
    ensures var name := url[s + 1..j + 4];
      |name| >= 5 && OccursAt(name, ".jpg", |name| - 4) &&
      (forall k :: 0 <= k < |name| ==> name[k] != '/') && Contains(url, "/" + name)
  {
    var name := url[s + 1..j + 4];
    OccursInSlice(url, ".jpg", s + 1, j + 4, j);
    forall k | 0 <= k < |name| ensures name[k] != '/' {
      assert name[k] == url[s + 1 + k];
    }
    OccursConcat(url, "/", name, s);
    OccursContains(url, "/" + name, s);
  }

  /** Between the last usable slash and the end of the `.jpg` after it there is no slash. */
  lemma NoSlashAfterLast(url: string, a: nat, s: nat, j: nat, lim: int)
    requires a + 1 <= s && s + 2 <= j && j + 5 <= lim
    requires forall e :: s < e <= lim - 2 ==> !OccursAt(url, "/", e)
    requires OccursAt(url, ".jpg", j)
    ensures forall k :: s + 1 <= k < j + 4 ==> url[k] != '/'
  {
    forall k | s + 1 <= k < j + 4 ensures url[k] != '/' {
      if k < j {
        assert !OccursAt(url, "/", k);
        assert url[k..k + 1] == [url[k]];
      } else {
        assert url[k] == url[j..j + 4][k - j];
      }
    }
  }

  /** A file name taken from a URL is a `/`-free stretch right after a `/`,
      ending in `.jpg`, with at least one character before it. */
  lemma FileNameSound(url: string)
    requires FileNameOf(url).Some?
    ensures var name := FileNameOf(url).value;
      |name| >= 5 && OccursAt(name, ".jpg", |name| - 4) &&
      (forall k :: 0 <= k < |name| ==> name[k] != '/') && Contains(url, "/" + name)
  {
    var q := FirstMatchAt((p: nat) => FileNameAt(url, p), 0, |url|);
    FileNameAtSound(url, q);
  }

  /** A one-line `http://` URL whose last segment is `base.jpg` followed by a
      non-empty tail, with `.jpg` nowhere else in that segment, is saved as `base.jpg`. */
  lemma FileNameOfJpg(dir: string, base: string, tail: string)
    requires |dir| > 7 && OccursAt(dir, "http://", 0)
    requires |base| >= 1 && |tail| >= 1
    requires NoNewline(dir + "/" + base + ".jpg" + tail)
    requires forall k :: 0 <= k < |base + ".jpg" + tail| ==> (base + ".jpg" + tail)[k] != '/'
    requires forall k :: OccursAt(base + ".jpg" + tail, ".jpg", k) ==> k == |base|
    ensures FileNameOf(dir + "/" + base + ".jpg" + tail) == Some(base + ".jpg")
  {
    var seg := base + ".jpg" + tail;
    var url := dir + "/" + base + ".jpg" + tail;
    var s := |dir|;
    var j := s + 1 + |base|;
    JpgUrlPieces(dir, base, tail);
    NoSlashInSegment(dir + "/", seg, s);
    NoJpgAfter(dir + "/", seg, j);
    assert url == (dir + "/") + seg;
    SpanExact(url, 7, |url| - 7, NotNewline);
    FileNameAtStart(url, s, j);
  }

  /** Where each piece of a `dir/base.jpg tail` URL sits. */
  lemma JpgUrlPieces(dir: string, base: string, tail: string)
    requires |dir| > 7 && OccursAt(dir, "http://", 0)
    ensures var url := dir + "/" + base + ".jpg" + tail;
      var s := |dir|;
      var j := s + 1 + |base|;
      && OccursAt(url, "http://", 0)
      && OccursAt(url, "/", s)
      && OccursAt(url, ".jpg", j)
      && url[s + 1..j + 4] == base + ".jpg"
      && url == (dir + "/") + (base + ".jpg" + tail)
  {
    var url := dir + "/" + base + ".jpg" + tail;
    assert url[..7] == dir[..7];
  }

  /** A `/`-free segment after position `s` holds no slash. */
  lemma NoSlashInSegment(a: string, seg: string, s: nat)
    requires |a| == s + 1
    requires forall k :: 0 <= k < |seg| ==> seg[k] != '/'
    ensures forall e :: s < e < |a + seg| ==> !OccursAt(a + seg, "/", e)
  {
    forall e | s < e < |a + seg| ensures !OccursAt(a + seg, "/", e) {
      assert (a + seg)[e] == seg[e - s - 1];
    }
  }

  /** A `.jpg` only at `j` in the segment means none after `j` in the whole URL. */
  lemma NoJpgAfter(a: string, seg: string, j: nat)
    requires j >= |a|
    requires forall k :: OccursAt(seg, ".jpg", k) ==> k == j - |a|
    ensures forall e :: j < e <= |a + seg| - 5 ==> !OccursAt(a + seg, ".jpg", e)
  {
    forall e | j < e <= |a + seg| - 5 ensures !OccursAt(a + seg, ".jpg", e) {
      if OccursAt(a + seg, ".jpg", e) {
        OccursInSuffix(a, seg, ".jpg", e);
      }
    }
  }

  /** The file-name regex at index 0 of a one-line URL whose last usable
      slash is at `s` and last usable `.jpg` at `j`. */
  lemma FileNameAtStart(url: string, s: nat, j: nat)
    requires OccursAt(url, "http://", 0) && LineEnd(url, 7) == |url|
    requires 8 <= s && s + 2 <= j && j + 5 <= |url|
    requires OccursAt(url, "/", s) && forall e :: s < e < |url| ==> !OccursAt(url, "/", e)
    requires OccursAt(url, ".jpg", j) && forall e :: j < e <= |url| - 5 ==> !OccursAt(url, ".jpg", e)
    ensures FileNameOf(url) == Some(url[s + 1..j + 4])
  {
    FileNameAtZero(url, s, j);
    FirstMatchFirst((p: nat) => FileNameAt(url, p), 0, |url|);
  }

  lemma FileNameAtZero(url: string, s: nat, j: nat)
    requires OccursAt(url, "http://", 0) && LineEnd(url, 7) == |url|
    requires 8 <= s && s + 2 <= j && j + 5 <= |url|
    requires OccursAt(url, "/", s) && forall e :: s < e < |url| ==> !OccursAt(url, "/", e)
    requires OccursAt(url, ".jpg", j) && forall e :: j < e <= |url| - 5 ==> !OccursAt(url, ".jpg", e)
    ensures FileNameAt(url, 0) == Some(Some(url[s + 1..j + 4]))
  {
    assert Lit(url, "http://", 0) == Some(7);
    FindLastIs(url, "/", 8, |url| - 2, s);
    JpgGroupIs(url, s, j);
  }

  lemma JpgGroupIs(url: string, s: nat, j: nat)
    requires s + 2 <= j && j + 5 <= |url| && OccursAt(url, ".jpg", j)
    requires forall e :: j < e <= |url| - 5 ==> !OccursAt(url, ".jpg", e)
    ensures JpgGroup(url, s, |url|) == Some(url[s + 1..j + 4])
  {
    FindLastIs(url, ".jpg", s + 2, |url| - 5, j);
  }
}
