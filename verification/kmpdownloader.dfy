/**
 * File-naming rules of the first downloader version (KMPDownloader.py):
 * attachment names taken from URLs, numbered image names, directory names
 * made from page titles, and the offset that pages through an artist's
 * listing. Fetching, parsing and writing files are not modelled; the methods
 * return the requests and file names that the source hands to them.
 */
module KMPDownloader {
  import opened Text
  import opened Paging

  const DataPrefix := "https://data10.kemono.party"
  const ContainerPrefix := "https://kemono.party"
  /** The query that selects a window of the listing. */
  const OffsetSuffix := "?o="
  /** Posts per listing window. */
  const WindowStep := 25

  /** `trim_fname`: drop the query (from the first '?'), then keep the last '/' segment. */
  function TrimFname(fname: string): (r: string)
    ensures '?' !in r && '/' !in r
    ensures IsSuffix(r, BeforeFirst(fname, '?'))
  {
    AfterLast(BeforeFirst(fname, '?'), '/')
  }

  /** A name with neither '?' nor '/' is already trimmed. */
  lemma TrimPlainName(fname: string)
    requires '?' !in fname && '/' !in fname
    ensures TrimFname(fname) == fname
  {
    BeforeFirstWithout(fname, '?');
    AfterLastWithout(fname, '/');
  }

  lemma TrimIdempotent(fname: string)
    ensures TrimFname(TrimFname(fname)) == TrimFname(fname)
  {
    TrimPlainName(TrimFname(fname));
  }

  /**
   * A character the title pattern `[^\w\-_\. ]` leaves alone. `\w` is taken as
   * the ASCII letters, the digits and '_'.
   */
  predicate KeptChar(c: char) {
    ('a' <= c <= 'z') || ('A' <= c <= 'Z') || ('0' <= c <= '9') || c == '_' || c == '-' || c == '.' || c == ' '
  }

  /** `re.sub(r'[^\w\-_\. ]', '_', s)`: every other character becomes '_'. */
  function Sanitize(s: string): (r: string)
    ensures |r| == |s|
    decreases |s|
  {
    if s == [] then [] else [if KeptChar(s[0]) then s[0] else '_'] + Sanitize(s[1..])
  }

  lemma {:induction false} SanitizeAt(s: string)
    ensures |Sanitize(s)| == |s|
    ensures forall i :: 0 <= i < |s| ==> Sanitize(s)[i] == (if KeptChar(s[i]) then s[i] else '_')
    decreases |s|
  {
    if s != [] {
      SanitizeAt(s[1..]);
    }
  }

  /** The result uses only kept characters. */
  lemma SanitizedIsClean(s: string)
    ensures forall i :: 0 <= i < |Sanitize(s)| ==> KeptChar(Sanitize(s)[i])
  {
    SanitizeAt(s);
  }

  /** A title made only of kept characters is not changed; in particular sanitising twice changes nothing. */
  lemma SanitizeClean(s: string)
    requires forall i :: 0 <= i < |s| ==> KeptChar(s[i])
    ensures Sanitize(s) == s
  {
    SanitizeAt(s);
  }

  lemma SanitizeIdempotent(s: string)
    ensures Sanitize(Sanitize(s)) == Sanitize(s)
  {
    SanitizedIsClean(s);
    SanitizeClean(Sanitize(s));
  }

  /** The directory a post or an artist is saved in (lines 60 and 91): `root + sanitised + "/"`. */
  function TitleDir(root: string, title: string): (dir: string)
    ensures |dir| == |root| + |title| + 1 && dir[|dir| - 1] == '/'
    ensures dir[..|root|] == root
    ensures '/' !in dir[|root|..|dir| - 1]
  {
    SanitizeAt(title);
    SanitizedIsClean(title);
    root + Sanitize(title) + "/"
  }

  /** The file name of the k-th image link: `dir + str(k) + "." + <text after the href's last '.'>`. */
  function AttachmentName(dir: string, k: nat, href: string): (r: string)
    ensures |r| > |dir| && r[..|dir|] == dir
  {
    dir + NatToString(k) + "." + AfterLast(href, '.')
  }

  /**
   * `download_all_files`: the k-th link is downloaded from `DataPrefix + href`
   * into `AttachmentName(dir, k, href)`. Returns the (source, target) pairs in
   * the order the downloads are started.
   */
  method DownloadAllFiles(hrefs: seq<string>, dir: string) returns (downloads: seq<(string, string)>)
    ensures |downloads| == |hrefs|
    ensures forall k :: 0 <= k < |hrefs| ==>
      downloads[k] == (DataPrefix + hrefs[k], AttachmentName(dir, k, hrefs[k]))
  {
    var counter := 0;
    downloads := [];
    for i := 0 to |hrefs|
      invariant counter == i == |downloads|
      invariant forall k :: 0 <= k < i ==>
        downloads[k] == (DataPrefix + hrefs[k], AttachmentName(dir, k, hrefs[k]))
    {
      var download := hrefs[i];
      var extension := AfterLast(download, '.');
      var fname := dir + NatToString(counter) + "." + extension;
      assert fname == AttachmentName(dir, i, hrefs[i]);
      ghost var done := downloads;
      downloads := downloads + [(DataPrefix + download, fname)];
      assert downloads[..i] == done;
      counter := counter + 1;
    }
  }

  /** The saved file keeps the link's extension. */
  lemma AttachmentKeepsExtension(dir: string, k: nat, href: string)
    ensures AfterLast(AttachmentName(dir, k, href), '.') == AfterLast(href, '.')
  {
    var ext := AfterLast(href, '.');
    assert AttachmentName(dir, k, href) == (dir + NatToString(k) + ".") + ext;
    AfterLastOfPrefixed(dir + NatToString(k) + ".", ext, '.');
    AfterLastWithout(ext, '.');
  }

  /** Two links of one post never share a file name. */
  lemma AttachmentNamesDistinct(dir: string, j: nat, k: nat, a: string, b: string)
    requires AttachmentName(dir, j, a) == AttachmentName(dir, k, b)
    ensures j == k
  {
    AttachmentNumber(dir, j, a);
    AttachmentNumber(dir, k, b);
    NatToStringInjective(j, k);
  }

  /** The number of an attachment name is the text between `dir` and the first '.' after it. */
  lemma AttachmentNumber(dir: string, k: nat, href: string)
    ensures |dir| <= |AttachmentName(dir, k, href)|
    ensures BeforeFirst(AttachmentName(dir, k, href)[|dir|..], '.') == NatToString(k)
  {
    var sk := NatToString(k);
    var ext := AfterLast(href, '.');
    var rest := sk + ['.'] + ext;
    assert AttachmentName(dir, k, href) == dir + rest;
    assert (dir + rest)[|dir|..] == rest;
    NatToStringNoDot(k);
    BeforeFirstOfJoined(sk, '.', ext);
  }

  /** The request for listing window k: the listing URL itself first, then `url + "?o=" + str(25 * k)`. */
  function WindowUrl(url: string, k: nat): (r: string)
    ensures |r| >= |url| && r[..|url|] == url
    ensures k > 0 <==> |r| > |url|
  {
    if k == 0 then url else url + OffsetSuffix + NatToString(WindowStep * k)
  }

  /**
   * The paging loop of `process_window`: every container link of the current
   * window is processed, the offset advances by 25, and the next window is
   * fetched, until a window has no links. `pages[k]` are the links that request
   * k returns. Returns the container URLs processed, in order, the requests made,
   * and the final offset.
   */
  method ProcessWindow(url: string, pages: seq<seq<string>>)
    returns (containers: seq<string>, requested: seq<string>, counter: nat)
    ensures counter == WindowStep * FirstEmpty(pages)
    ensures requested == WindowUrls(url, FirstEmpty(pages) + 1)
    ensures containers == ContainerUrls(Flatten(pages[..FirstEmpty(pages)]))
  {
    var page := 0;
    requested := [url];
    var contLinks := PageAt(pages, 0);
    counter := 0;
    containers := [];
    while contLinks != []
      invariant page <= FirstEmpty(pages)
      invariant counter == WindowStep * page
      invariant contLinks == PageAt(pages, page)
      invariant requested == WindowUrls(url, page + 1)
      invariant containers == ContainerUrls(Flatten(pages[..page]))
      decreases |pages| - page
    {
      var processed := ProcessLinks(contLinks);
      WindowStepFacts(url, pages, page);
      containers := containers + processed;
      counter := counter + WindowStep;
      page := page + 1;
      requested := requested + [url + OffsetSuffix + NatToString(counter)];
      contLinks := PageAt(pages, page);
    }
  }

  /** One window of `process_window`: its containers follow the earlier ones, and the next request follows. */
  lemma WindowStepFacts(url: string, pages: seq<seq<string>>, page: nat)
    requires page <= FirstEmpty(pages) && PageAt(pages, page) != []
    ensures page < |pages| && page + 1 <= FirstEmpty(pages)
    ensures ContainerUrls(Flatten(pages[..page + 1]))
      == ContainerUrls(Flatten(pages[..page])) + ContainerUrls(PageAt(pages, page))
    ensures WindowUrls(url, page + 2)
      == WindowUrls(url, page + 1) + [url + OffsetSuffix + NatToString(WindowStep * (page + 1))]
  {
    assert page < |pages| && page != FirstEmpty(pages);
    FlattenStep(pages, page);
    ContainerUrlsConcat(Flatten(pages[..page]), pages[page]);
  }

  /** The inner loop of `process_window`: one container URL per link of the window, in order. */
  method ProcessLinks(contLinks: seq<string>) returns (processed: seq<string>)
    ensures processed == ContainerUrls(contLinks)
  {
    processed := [];
    for j := 0 to |contLinks|
      invariant processed == ContainerUrls(contLinks[..j])
    {
      assert ContainerUrls(contLinks[..j + 1]) == ContainerUrls(contLinks[..j]) + [ContainerPrefix + contLinks[j]];
      processed := processed + [ContainerPrefix + contLinks[j]];
    }
    assert contLinks[..|contLinks|] == contLinks;
  }

  /** The first `n` listing requests, in order. */
  function WindowUrls(url: string, n: nat): (urls: seq<string>)
    ensures |urls| == n
  {
    if n == 0 then [] else WindowUrls(url, n - 1) + [WindowUrl(url, n - 1)]
  }

  /** Request k is the listing itself for k = 0, else the listing at offset 25k. */
  lemma {:induction false} WindowUrlsAt(url: string, n: nat, k: nat)
    requires k < n
    ensures WindowUrls(url, n)[k] == WindowUrl(url, k)
    ensures WindowUrls(url, n)[k] == if k == 0 then url else url + OffsetSuffix + NatToString(WindowStep * k)
  {
    if k < n - 1 {
      WindowUrlsAt(url, n - 1, k);
    }
  }

  /** The container URLs of a list of links, in order: `ContainerPrefix + link`. */
  function ContainerUrls(links: seq<string>): (urls: seq<string>)
    ensures |urls| == |links|
    ensures forall i :: 0 <= i < |links| ==> urls[i] == ContainerPrefix + links[i]
  {
    seq(|links|, i requires 0 <= i < |links| => ContainerPrefix + links[i])
  }

  lemma ContainerUrlsConcat(a: seq<string>, b: seq<string>)
    ensures ContainerUrls(a + b) == ContainerUrls(a) + ContainerUrls(b)
  {
  }
}
