/**
 * The download side of WretchDL_Lite.rb: for every photo URL of a book the
 * controller resolves the image file URL, builds a `curl` command for it
 * and counts the transfers that report success. `system` stands for the
 * shell: it tells whether a command line succeeds.
 */
module WretchDL {
  import opened Wrappers
  import opened Matchers
  import opened Paging
  import opened WretchAlbums

  /** The Referer header curl sends. */
  const Referer: string := "http://www.wretch.cc/album/"

  /** The command line download_file runs; a URL from which no file name
      is derived leaves `-o` with nothing after it, as Ruby interpolates nil
      as the empty string. */
  function CurlCommand(fileUrl: string, fileName: Option<string>): string {
    "curl -# --referer " + Referer + " '" + fileUrl + "' -o " +
    match fileName
    case Some(name) => name
    case None => ""
  }

  /** The photo at `photoUrl` is counted: its page shows an image file URL
      and the transfer of that file reports success. */
  predicate Downloaded(site: string -> seq<string>, system: string -> bool, photoUrl: string) {
    var fileUrl := FileUrlOf(site(photoUrl));
    fileUrl != "" && system(CurlCommand(fileUrl, FileNameOf(fileUrl)))
  }

  /** The number of photos among `photoUrls` that are counted; never more
      than there are photos. */
  function DownloadCount(site: string -> seq<string>, system: string -> bool, photoUrls: seq<string>): (n: nat)
    ensures n <= |photoUrls|
    decreases |photoUrls|
  {
    if photoUrls == [] then 0
    else
      DownloadCount(site, system, photoUrls[..|photoUrls| - 1]) +
      if Downloaded(site, system, photoUrls[|photoUrls| - 1]) then 1 else 0
  }

  /** The count of a list is the count of its front plus that of its back:
      a photo that is not counted does not end the run. */
  lemma {:induction false} DownloadCountAppend(site: string -> seq<string>, system: string -> bool, a: seq<string>, b: seq<string>)
    ensures DownloadCount(site, system, a + b) == DownloadCount(site, system, a) + DownloadCount(site, system, b)
    decreases |b|
  {
    if b == [] {
      assert a + b == a;
    } else {
      var b' := b[..|b| - 1];
      assert (a + b)[..|a + b| - 1] == a + b';
      assert (a + b)[|a + b| - 1] == b[|b| - 1];
      DownloadCountAppend(site, system, a, b');
    }
  }

  /** A photo that is not downloaded can be dropped from the list without
      changing the count of the photos around it. */
  lemma DownloadCountSkips(site: string -> seq<string>, system: string -> bool, a: seq<string>, u: string, b: seq<string>)
    requires !Downloaded(site, system, u)
    ensures DownloadCount(site, system, a + [u] + b) == DownloadCount(site, system, a + b)
  {
    DownloadCountAppend(site, system, a + [u], b);
    DownloadCountAppend(site, system, a, [u]);
    DownloadCountAppend(site, system, a, b);
    assert [u][..0] == [];
  }

  /** Every photo is counted exactly when the count is the number of photos. */
  lemma {:induction false} DownloadCountAll(site: string -> seq<string>, system: string -> bool, photoUrls: seq<string>)
    ensures DownloadCount(site, system, photoUrls) == |photoUrls| <==>
      forall k :: 0 <= k < |photoUrls| ==> Downloaded(site, system, photoUrls[k])
    decreases |photoUrls|
  {
    if photoUrls != [] {
      var init := photoUrls[..|photoUrls| - 1];
      DownloadCountAll(site, system, init);
      assert forall k :: 0 <= k < |init| ==> init[k] == photoUrls[k];
    }
  }

  /** No photo is counted exactly when the count is zero. */
  lemma {:induction false} DownloadCountNone(site: string -> seq<string>, system: string -> bool, photoUrls: seq<string>)
    ensures DownloadCount(site, system, photoUrls) == 0 <==>
      forall k :: 0 <= k < |photoUrls| ==> !Downloaded(site, system, photoUrls[k])
    decreases |photoUrls|
  {
    if photoUrls != [] {
      var init := photoUrls[..|photoUrls| - 1];
      DownloadCountNone(site, system, init);
      assert forall k :: 0 <= k < |init| ==> init[k] == photoUrls[k];
    }
  }

  class WretchDLAppController {
    /** How many files of the current book were downloaded. */
    var countFiles: nat

    constructor ()
      ensures countFiles == 0
    {
      countFiles := 0;
    }

    /** download_file: derives the file name from the URL, runs curl and
        counts the file when curl reports success. */
    method DownloadFile(fileUrl: string, system: string -> bool) returns (fileName: Option<string>)
      modifies this
      ensures fileName == FileNameOf(fileUrl)
      ensures countFiles == old(countFiles) + if system(CurlCommand(fileUrl, fileName)) then 1 else 0
    {
      fileName := FileNameOf(fileUrl);
      if system(CurlCommand(fileUrl, fileName)) {
        countFiles := countFiles + 1;
      }
    }

    /** The download run for one book: the counter restarts at zero, then
        every photo URL of the book is resolved to its file URL and that file
        is downloaded when the URL is not empty. The final count is the number
        of photos downloaded, so at most the number of photo URLs. */
    method DownloadBook(album: WretchAlbumsInfo, bookNumber: string, site: string -> seq<string>,
                        system: string -> bool, maxPages: nat)
      requires maxPages >= 1
      modifies this
      ensures countFiles == DownloadCount(site, system, CrawlFrom(site, album.wretchId, bookNumber, 1, maxPages).urls)
      ensures countFiles <= |CrawlFrom(site, album.wretchId, bookNumber, 1, maxPages).urls|
    {
      countFiles := 0;
      var photosUrls;
      ghost var fetched;
      photosUrls, fetched := album.BookPhotosUrls(bookNumber, site, maxPages);
      var k := 0;
      while k < |photosUrls|
        invariant k <= |photosUrls|
        invariant countFiles == DownloadCount(site, system, photosUrls[..k])
      {
        var photoUrl := photosUrls[k];
        var fileUrl := album.GetFileUrl(photoUrl, site);
        ghost var before := countFiles;
        if fileUrl != "" {
          var fileName := DownloadFile(fileUrl, system);
        }
        assert countFiles == before + if Downloaded(site, system, photoUrl) then 1 else 0;
        assert photosUrls[..k + 1][..k] == photosUrls[..k];
        k := k + 1;
      }
      assert photosUrls[..k] == photosUrls;
    }
  }
}
