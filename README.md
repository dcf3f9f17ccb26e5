# WretchDL Lite, modelled in Dafny

WretchDL Lite is a Ruby command-line tool that downloads the photos of an
album book on the Wretch photo site. This project models its scraping and
download core, `WretchDL_Lite.rb`:

- `BookInfo`;
- the album scraper `WretchAlbumsInfo`:
  - `books_list` builds the album-list URL and reads one book per anchor line;
  - `get_photo_url_list` reads the `show.php` photo links of a book page;
  - `book_photos_urls` follows a book's pages while each page refers to the next;
  - `get_file_url` reads the image file URL of a photo page, where the last line that shows one wins;
- the download loop of `main_code` (lines 253-260) and `download_file`, with its file-name regex and the `@count_files` counter.

A fetched page is the sequence of lines `each_line` yields. The network is a
parameter `site: string -> seq<string>`, from URL to page. The shell is a
parameter `system: string -> bool`, which says whether a command line
succeeds. Every regular expression is modelled literally on one line:

- the match is tried at every start index, leftmost first (`FirstMatch`);
- greedy `\d+` and `[^']+` are maximal runs (`Span`);
- a greedy `.+` followed by a literal is the last occurrence of that literal before the line's newline (`FindLast`, `LineEnd`);
- the account id and the book number are matched as literal text.

Files:

| file | module | content |
|---|---|---|
| `wrappers.dfy` | `Wrappers` | `Option` |
| `text.dfy` | `Text` | string searches, and Ruby's decimal interpolation `NatStr` |
| `matchers.dfy` | `Matchers` | one function per regex, with soundness and round-trip lemmas |
| `lines.dfy` | `Lines` | the two `each_line` scans ("collect every match", "keep the last match"), for any per-line matcher |
| `paging.dfy` | `Paging` | a walk over numbered pages, for any pages |
| `wretch_albums.dfy` | `WretchAlbums` | `BookInfo`, the URLs, the page-level specification functions, and the class `WretchAlbumsInfo` |
| `wretch_dl.dfy` | `WretchDL` | the curl command, the download count, and the class `WretchDLAppController` |

The methods of the two classes keep the source's loops. Each method is proved
against a specification function: `BooksOf`, `PhotoLinksOf`, `FileUrlOf`,
`CrawlFrom`, `RefersTo`, `FileNameOf` or `DownloadCount`. The lemmas state what the source promises
about those functions.

## Model

| member | source | states |
|---|---|---|
| Text.SpanSound | WretchDL_Lite.rb:93 | The run a greedy `\d+` consumes is all in the class and cannot be extended. |
| Text.LineEndSound | WretchDL_Lite.rb:93 | Ruby's `.` reaches up to the first newline or the end of the text and never crosses a newline. |
| Text.FindLastSound | WretchDL_Lite.rb:93 | A greedy `.+` followed by a literal backtracks to the last occurrence of the literal in reach. It finds none only when there is none. |
| Text.FindLastIs | WretchDL_Lite.rb:93 | The last occurrence in reach is the one found, whatever lies before it. |
| Text.FirstMatchSound | WretchDL_Lite.rb:93 | An unanchored `=~` takes the match at the leftmost start index where the pattern matches. It fails exactly when the pattern matches at no index. |
| Text.FirstMatchAt | WretchDL_Lite.rb:171 | Returns the start index of the match `=~` reports: its attempt yields the reported captures, and every earlier index fails. |
| Text.NatStrDigits | WretchDL_Lite.rb:83 | `#{page_num}` of a non-negative number is a non-empty string of digits. |
| Text.ParseNatStr | WretchDL_Lite.rb:83 | The interpolated numeral reads back as the number. |
| Text.NatStrInjective | WretchDL_Lite.rb:123 | Two numbers give the same numeral exactly when they are equal. |
| Text.NatStrNoLeadingZero | WretchDL_Lite.rb:83 | `#{page_num}` starts with `0` only for 0, so the numeral is the canonical one. |
| Matchers.DigitsSound | WretchDL_Lite.rb:93 | What `\d+` consumes is digits. |
| Matchers.BookAnchorSound | WretchDL_Lite.rb:93-94 | The two captures of the album regex are a non-empty digit string and a non-empty name without a newline, and the line holds the anchor they form. |
| Matchers.BookAnchorRoundTrip | WretchDL_Lite.rb:93-94 | A line made of one album anchor (and its newline) yields exactly that anchor's number and name. |
| Matchers.PhotoLinkSound | WretchDL_Lite.rb:171 | The captured path starts with `show`, one character, then `php?i=ID&b=BOOK&f=`, and the line holds `<a href="./` + path + `"`. |
| Matchers.PhotoLinkRoundTrip | WretchDL_Lite.rb:171 | A photo-anchor line with one-line attributes yields exactly its `show.php` path, whatever character stands at the unescaped `.`. |
| Matchers.ImgSrcSound | WretchDL_Lite.rb:148-151 | A captured `src` is non-empty and quote-free, and the line holds the tag head, the `src` and `' `. |
| Matchers.ImgSrcRoundTrip | WretchDL_Lite.rb:148-151 | A line starting with an image tag yields exactly the tag's `src`. |
| Matchers.LineImageSound | WretchDL_Lite.rb:148-151 | A line's image source comes from the `DisplayImage` tag, or from the `displayimg` tag only when the first pattern fails on that line. |
| Matchers.FileNameSound | WretchDL_Lite.rb:309-310 | A derived file name is a `/`-free stretch of the URL that starts right after a `/`, ends in `.jpg` and has at least one character before the `.jpg`. It need not reach the end of its segment, since the final `.+` takes what follows. |
| Matchers.FileNameOfJpg | WretchDL_Lite.rb:309-310 | Take a one-line `http://` URL whose last segment is `N` + `.jpg` + `R`, with `N` and `R` non-empty and `.jpg` nowhere else in that segment. Its file name is `N.jpg`. |
| Lines.CollectAppend | WretchDL_Lite.rb:92-96 | Scanning two pieces of a page one after the other gives the values of the first piece followed by those of the second. |
| Lines.CollectCount | WretchDL_Lite.rb:92-96 | A scan yields exactly one value per matching line, so never more values than lines. |
| Lines.CollectEmpty | WretchDL_Lite.rb:92-96 | A scan yields nothing exactly when no line matches. |
| Lines.CollectAt | WretchDL_Lite.rb:92-96 | The value of matching line `k` comes right after the values of the lines before it, in line order. |
| Lines.CollectFrom | WretchDL_Lite.rb:92-96 | Every value collected is the value of some line of the page. |
| Lines.LastMatchIs | WretchDL_Lite.rb:147-153 | The last matching line decides the result, whatever the lines before it hold. The scan does not stop at the first match. |
| Lines.LastMatchNone | WretchDL_Lite.rb:146-154 | There is no result exactly when no line matches. |
| Lines.LastMatchFrom | WretchDL_Lite.rb:146-154 | A result is the value of a matching line after which no line matches. |
| Paging.FollowPages | WretchDL_Lite.rb:111-130 | The walk fetches at least one page and at most the bound, the j-th being page `i + j`. |
| Paging.FollowStops | WretchDL_Lite.rb:119-129 | Every fetched page but the last refers to its successor. The walk stops before the bound only at a page that does not. |
| Paging.FollowLinks | WretchDL_Lite.rb:118 | The links are those of the fetched pages, in fetch order. |
| Paging.FollowContinues | WretchDL_Lite.rb:119-129 | A second page is fetched exactly when the first refers to it. |
| WretchAlbums.AlbumListUrl | WretchDL_Lite.rb:81-84 | The URL starts with `http://www.wretch.cc/album/` + id. It is longer than that exactly when the page number is at least 2. |
| WretchAlbums.AlbumListUrlPage | WretchDL_Lite.rb:82-84 | From page 2 on, the URL goes on with `&page=` and digits that read back as the page number, with no leading zero. |
| WretchAlbums.AlbumListUrlInjective | WretchDL_Lite.rb:81-84 | Two page numbers give the same URL exactly when they are equal or both at most 1. |
| WretchAlbums.PageUrlInjective | WretchDL_Lite.rb:110-124 | Distinct pages of a book have distinct URLs. |
| WretchAlbums.PageRefExtends | WretchDL_Lite.rb:123 | The reference to page `10n + d` starts with the reference to page `n`. |
| WretchAlbums.PageRefFoundInLonger | WretchDL_Lite.rb:123 | A line referring to page `10n + d` passes the substring test for page `n`, so `page=2` is found inside `page=23`. |
| WretchAlbums.BooksOfAppend | WretchDL_Lite.rb:90-97 | The books of a page split anywhere are the books of the first part followed by those of the second. |
| WretchAlbums.BooksOfLines | WretchDL_Lite.rb:90-97 | Exactly one book per matching line, in line order, so at most one per line. |
| WretchAlbums.BooksOfEmpty | WretchDL_Lite.rb:90-97 | A page without a book anchor yields the empty list, not an error, and only such a page does. |
| WretchAlbums.BooksOfSound | WretchDL_Lite.rb:93-94 | Every book's number is non-empty digits and its name is non-empty and newline-free. Some line holds its anchor. |
| WretchAlbums.BooksOfListPage | WretchDL_Lite.rb:90-97 | Reading a page that lists well-formed books one anchor per line gives back exactly those books. |
| WretchAlbums.PhotoLinksOfLines | WretchDL_Lite.rb:168-177 | One photo URL per line with a photo anchor, in line order, so at most one per line. |
| WretchAlbums.PhotoLinksOfShape | WretchDL_Lite.rb:171-172 | Every photo URL is `http://www.wretch.cc/album/` + `show`, then one character, then `php?i=ID&b=BOOK&f=`. |
| WretchAlbums.PhotoLinksOfBookPage | WretchDL_Lite.rb:168-177 | Reading a book page that lists the given photo entries one per line gives those entries' photo URLs, in order. |
| WretchAlbums.FileUrlOfLast | WretchDL_Lite.rb:146-154 | The last line that shows an image decides the file URL. |
| WretchAlbums.FileUrlOfSound | WretchDL_Lite.rb:146-154 | The file URL is `""` exactly when no line shows an image. Otherwise it is the image source of a line after which no line shows one. |
| WretchAlbums.CrawlStep | WretchDL_Lite.rb:114-129 | Fetching page `i` adds its links and URL. The walk goes on from page `i + 1` only when page `i` contains the reference to it. |
| WretchAlbums.CrawlAdvance | WretchDL_Lite.rb:114-129 | One round of the `while n` loop: what is done plus what is still to come is kept equal to the whole walk. |
| WretchAlbums.CrawlPages | WretchDL_Lite.rb:110-128 | The j-th page fetched is page `i + j`. The first is the plain book URL and later ones end in `&page=N`. |
| WretchAlbums.CrawlRefersOnward | WretchDL_Lite.rb:120-129 | Every fetched page but the last contains the reference to the next page. |
| WretchAlbums.CrawlStopsEarly | WretchDL_Lite.rb:120-129 | When the walk stops before the bound, its last page lacks the reference to the next page. |
| WretchAlbums.CrawlLinks | WretchDL_Lite.rb:113-118 | The photo URLs are the per-page link lists concatenated in fetch order. |
| WretchAlbums.CrawlContinues | WretchDL_Lite.rb:119-129 | A next page is fetched exactly when the current page refers to it, even when the page shows no photo. |
| WretchAlbums.CrawlStartsAtBookUrl | WretchDL_Lite.rb:110-118 | The walk starts at the book URL without `&page`. Its photo URLs begin with those of that page. |
| WretchAlbums.WretchAlbumsInfo.constructor | WretchDL_Lite.rb:67-69 | Records the account id. |
| WretchAlbums.WretchAlbumsInfo.BooksList | WretchDL_Lite.rb:79-98 | The loop returns exactly `BooksOf` of the page fetched from `AlbumListUrl`. |
| WretchAlbums.WretchAlbumsInfo.GetPhotoUrlList | WretchDL_Lite.rb:168-177 | The loop returns exactly `PhotoLinksOf` of the page. |
| WretchAlbums.WretchAlbumsInfo.GetFileUrl | WretchDL_Lite.rb:142-155 | The loop, which overwrites on every matching line, returns exactly `FileUrlOf` of the photo page. |
| WretchAlbums.WretchAlbumsInfo.BookPhotosUrls | WretchDL_Lite.rb:108-132 | The `while n` loop returns exactly the photo URLs of `CrawlFrom` from page 1, in fetch order. A ghost result records the pages it fetched, which are those of `CrawlFrom` too. |
| WretchAlbums.WretchAlbumsInfo.RefersToPage | WretchDL_Lite.rb:120-129 | The `each_line` search with `break` is true exactly when some line contains the reference to page `i`. |
| WretchDL.DownloadCount | WretchDL_Lite.rb:253-260 | The number of photos counted is never more than the number of photo URLs. |
| WretchDL.DownloadCountAppend | WretchDL_Lite.rb:254-260 | The count over two runs of photos is the sum of their counts. |
| WretchDL.DownloadCountSkips | WretchDL_Lite.rb:255-258 | A photo without a file URL, or whose transfer fails, is skipped: removing it from the list changes nothing, and the loop goes on. |
| WretchDL.DownloadCountAll | WretchDL_Lite.rb:253-260 | The count equals the number of photos exactly when every photo has a file URL and a successful transfer. |
| WretchDL.DownloadCountNone | WretchDL_Lite.rb:253-260 | The count is 0 exactly when no photo is downloaded. |
| WretchDL.WretchDLAppController.constructor | WretchDL_Lite.rb:186-189 | Starts with a count of 0. |
| WretchDL.WretchDLAppController.DownloadFile | WretchDL_Lite.rb:308-319 | The file name is the regex's group 1. The counter grows by exactly 1 when the curl command line succeeds, and is unchanged otherwise. |
| WretchDL.WretchDLAppController.DownloadBook | WretchDL_Lite.rb:253-260 | After the reset to 0, the counter ends as the number of the book's photos with a non-empty file URL and a successful transfer. That is never more than the number of photo URLs. |

## Left out

- The interactive menu and read-eval-print loop (`start`, `main_code` command dispatch, `show_books_list`, `show_help`, lines 192-276 and 333-351). This includes the `1..20` book index check and the `BookInfo` lookup by index. It is console I/O. `DownloadBook` takes the book number directly.
- Directory creation and `chdir` (`make_and_change_dir`, lines 280-305), and `open_dl_dir` (lines 322-331). This is file-system and OS I/O.
- Network fetches with `open(...)` (lines 87, 116, 143). The `site` parameter gives each URL's page. Fetch errors and their exceptions are not modelled.
- The retry on `HTTPError` / `InvalidURIError` (lines 203-215). It is exception handling around console input.
- `sleep 1` (line 259), which is timing only; the `puts` progress output; and the `@version` string.
- The `curl` process (line 314). Only the command line is modelled. Its success is the `system` parameter applied to that line.
- Character encoding. A page line is modelled as a sequence of decoded characters. Ruby's `=~` raises an error on a line holding bytes that are invalid in its encoding, and the model has no such error path.
- Regex metacharacters in an account id or book number. Both are matched as literal text, although the source interpolates them into the patterns unescaped.
- WretchAlbums.WretchAlbumsInfo.BookPhotosUrls: bounded by `maxPages` (at least 1) pages, because the source loop has no bound and may not terminate. Within the bound each call is exact. The walk ends early when a page lacks the reference to the next page.
- WretchAlbums.WretchAlbumsInfo.RefersToPage: the loop body's next-page search is a method of its own. The source writes it inline in `book_photos_urls`.
- WretchAlbums.WretchAlbumsInfo.constructor: the `attr_accessor` writer for `wretch_id` is not modelled. The account id is a constant field, because nothing in the core reassigns it.
- WretchDL.WretchDLAppController.constructor: sets `countFiles` to 0, where Ruby leaves `@count_files` nil until the first download run resets it. The counter is never read before that reset.
- `download_file`'s file name is group 1 of the regex on line 309, which takes the segment after the last usable `/`, up to its last usable `.jpg`. A URL with no such `.jpg` leaves group 1 nil, and the curl command then ends in `-o` with nothing after it.
