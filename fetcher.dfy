/** The page list and the cache of the archive generator: which archive pages
    are fetched, the file name a page is cached under, and how long a cached
    page stays fresh. */
module Fetcher {
  import opened PyText
  import opened PyInt

  // ----- the pages to fetch ----------------------------------------------

  /** The page of the current year's episodes. */
  const CurrentUrl: string := "https://www.grc.com/securitynow.htm"

  const PastPrefix: string := "https://www.grc.com/sn/past/"

  /** `'https://www.grc.com/sn/past/{}.htm'.format(year)`. */
  function PastUrl(year: int): string {
    PastPrefix + IntToStr(year) + ".htm"
  }

  /** `range(thisyear - 1, backto - 1, -1)`: the years before `thisyear`, down to
      and including `backto`, newest first. */
  function PastYears(thisyear: int, backto: int): seq<int> {
    var n := if thisyear - backto > 0 then thisyear - backto else 0;
    seq(n, k requires 0 <= k < n => thisyear - 1 - k)
  }

  /** Lines 35-37: the current page, followed by one page per past year unless
      `backto` is 0 (falsy). The year of the run is a parameter. */
  function ArchiveUrls(thisyear: int, backto: int): seq<string> {
    var years := if backto != 0 then PastYears(thisyear, backto) else [];
    [CurrentUrl] + seq(|years|, k requires 0 <= k < |years| => PastUrl(years[k]))
  }

  // ----- the cache file name ---------------------------------------------

  /** The directory of the cache, `Cache.path`. */
  const CacheDir: string := ".cache"

  /** The characters `_fname` replaces. */
  const Unsafe: string := ":\\/&?="

  /** Each unsafe character of `url` replaced by `_`, every other one kept. */
  function Sanitized(url: string): string {
    seq(|url|, k requires 0 <= k < |url| => if url[k] in Unsafe then '_' else url[k])
  }

  /** `posixpath.join(a, b)`: `b` itself when it is absolute, otherwise `b`
      appended to `a` with one `/` between them unless `a` is empty or already
      ends with one. */
  function JoinPath(a: string, b: string): string {
    if StartsWith(b, "/") then b
    else if a == [] || a[|a| - 1] == '/' then a + b
    else a + "/" + b
  }

  /** `Cache._fname`: the six characters are replaced one after the other, and
      the result is placed in the cache directory. */
  method CacheFileName(url: string) returns (fname: string)
    ensures fname == JoinPath(CacheDir, Sanitized(url))
  {
    var u := url;
    for i := 0 to |Unsafe|
      invariant |u| == |url|
      invariant forall k :: 0 <= k < |url| ==> u[k] == if url[k] in Unsafe[..i] then '_' else url[k]
    {
      assert Unsafe[..i + 1] == Unsafe[..i] + [Unsafe[i]];
      assert '_' != Unsafe[i];
      u := ReplaceChar(u, Unsafe[i], '_');
    }
    assert Unsafe[..|Unsafe|] == Unsafe;
    assert u == Sanitized(url);
    fname := JoinPath(CacheDir, u);
  }

  // ----- expiry ------------------------------------------------------------

  /** Line 94: only the first page of the list, the current one, is refetched
      after a day; every other page is cached for good. */
  function ExpirationDays(url: string, urls: seq<string>): int
    requires urls != []
  {
    if url != urls[0] then 0 else 1
  }

  const SecondsPerDay: int := 86400

  /** `Cache._is_expired`, with the file's modification time and the start of
      the run given in seconds: an expiry of 0 days means never; otherwise the
      file is stale once it is older than that many days. */
  function IsExpired(days: int, mtime: int, now: int): bool {
    if days == 0 then false
    else mtime < now - days * SecondsPerDay
  }
}

/** What is proved about the page list and the cache. */
module FetcherProperties {
  import opened PyText
  import opened PyInt
  import opened Sequences
  import opened Fetcher

  // ----- the pages to fetch ----------------------------------------------

  /** The list starts with the current page; then come the past years from the
      year before `thisyear` down to `backto`, one page each, newest first. With
      `backto` 0 only the current page is fetched. */
  lemma ArchiveUrlsShape(thisyear: int, backto: int)
    ensures var urls := ArchiveUrls(thisyear, backto);
      && urls[0] == CurrentUrl
      && |urls| == 1 + (if backto != 0 && thisyear > backto then thisyear - backto else 0)
      && forall k :: 1 <= k < |urls| ==> urls[k] == PastUrl(thisyear - k) && backto <= thisyear - k < thisyear
  {
  }

  /** Two archive pages of different years have different addresses, and none
      of them is the current page. */
  lemma PastUrlInjective(x: int, y: int)
    requires x != y
    ensures PastUrl(x) != PastUrl(y)
  {
    IntToStrInjective(x, y);
    if PastUrl(x) == PastUrl(y) {
      MiddleCancel(PastPrefix, IntToStr(x), IntToStr(y), ".htm");
    }
  }

  lemma PastUrlIsNotCurrent(year: int)
    ensures PastUrl(year) != CurrentUrl
    ensures Sanitized(PastUrl(year)) != Sanitized(CurrentUrl)
  {
    var p := PastUrl(year);
    assert p[..|PastPrefix|] == PastPrefix;
    assert p[21] == 'n' && CurrentUrl[21] == 'e';
    assert Sanitized(p)[21] == 'n' && Sanitized(CurrentUrl)[21] == 'e';
  }

  /** No page is fetched twice. */
  lemma ArchiveUrlsDistinct(thisyear: int, backto: int)
    ensures var urls := ArchiveUrls(thisyear, backto);
      forall j, k :: 0 <= j < k < |urls| ==> urls[j] != urls[k]
  {
    var urls := ArchiveUrls(thisyear, backto);
    forall j, k | 0 <= j < k < |urls| ensures urls[j] != urls[k] {
      ArchiveUrlsDiffer(thisyear, backto, j, k);
    }
  }

  lemma ArchiveUrlsDiffer(thisyear: int, backto: int, j: nat, k: nat)
    requires j < k < |ArchiveUrls(thisyear, backto)|
    ensures ArchiveUrls(thisyear, backto)[j] != ArchiveUrls(thisyear, backto)[k]
  {
    ArchiveUrlsShape(thisyear, backto);
    if j == 0 {
      PastUrlIsNotCurrent(thisyear - k);
    } else {
      PastUrlInjective(thisyear - j, thisyear - k);
    }
  }

  // ----- the cache file name ---------------------------------------------

  /** Sanitising keeps the length and every safe character in place, turns
      every unsafe one into `_`, and leaves no unsafe character behind. */
  lemma SanitizedChars(url: string)
    ensures |Sanitized(url)| == |url|
    ensures forall k :: 0 <= k < |url| && url[k] !in Unsafe ==> Sanitized(url)[k] == url[k]
    ensures forall k :: 0 <= k < |url| && url[k] in Unsafe ==> Sanitized(url)[k] == '_'
    ensures forall c :: c in Unsafe ==> c !in Sanitized(url)
  {
    assert '_' !in Unsafe;
  }

  /** Sanitising twice is sanitising once. */
  lemma SanitizedIdempotent(url: string)
    ensures Sanitized(Sanitized(url)) == Sanitized(url)
  {
    SanitizedChars(url);
  }

  /** A string without unsafe characters is its own sanitised form. */
  lemma SanitizedSafe(url: string)
    requires forall c :: c in Unsafe ==> c !in url
    ensures Sanitized(url) == url
  {
  }

  /** Different addresses can share a cache file: `"a?b"` and `"a=b"` both
      become `"a_b"`. */
  lemma SanitizedCollision()
    ensures "a?b" != "a=b" && Sanitized("a?b") == Sanitized("a=b") == "a_b"
  {
    assert Sanitized("a?b")[1] == '_';
    assert Sanitized("a=b")[1] == '_';
  }

  /** A cache file is `.cache/` followed by the sanitised address: the address
      contains no `/` any more, so the join never discards the directory. */
  lemma CacheFileNameForm(url: string)
    ensures JoinPath(CacheDir, Sanitized(url)) == CacheDir + "/" + Sanitized(url)
  {
    var s := Sanitized(url);
    SanitizedChars(url);
    assert '/' in Unsafe;
    if s != [] {
      assert s[..1][0] == s[0] != '/';
    }
  }

  /** Sanitising works character by character, so it distributes over
      concatenation. */
  lemma SanitizedConcat(a: string, b: string)
    ensures Sanitized(a + b) == Sanitized(a) + Sanitized(b)
  {
  }

  /** The pages of two different years are cached in different files. */
  lemma PastFilesDistinct(x: int, y: int)
    requires x != y
    ensures Sanitized(PastUrl(x)) != Sanitized(PastUrl(y))
  {
    SanitizedPastUrl(x);
    SanitizedPastUrl(y);
    IntToStrInjective(x, y);
    if Sanitized(PastUrl(x)) == Sanitized(PastUrl(y)) {
      MiddleCancel(Sanitized(PastPrefix), IntToStr(x), IntToStr(y), ".htm");
    }
  }

  /** Only the fixed part of a past page's address changes in its file name. */
  lemma SanitizedPastUrl(year: int)
    ensures Sanitized(PastUrl(year)) == Sanitized(PastPrefix) + IntToStr(year) + ".htm"
  {
    IntToStrChars(year);
    SanitizedConcat(PastPrefix + IntToStr(year), ".htm");
    SanitizedConcat(PastPrefix, IntToStr(year));
    SanitizedSafe(IntToStr(year));
    SanitizedSafe(".htm");
  }

  // ----- expiry ------------------------------------------------------------

  /** In the page list only the current page gets a one-day expiry; every past
      page gets 0, and so never expires, whatever the times. */
  lemma ExpiryOfArchive(thisyear: int, backto: int, k: nat, mtime: int, now: int)
    requires k < |ArchiveUrls(thisyear, backto)|
    ensures var urls := ArchiveUrls(thisyear, backto);
      && (ExpirationDays(urls[k], urls) == 1 <==> k == 0)
      && (ExpirationDays(urls[k], urls) == 0 <==> k > 0)
      && (k > 0 ==> !IsExpired(ExpirationDays(urls[k], urls), mtime, now))
      && (k == 0 ==> (IsExpired(ExpirationDays(urls[k], urls), mtime, now) <==> mtime < now - SecondsPerDay))
  {
    ArchiveUrlsDistinct(thisyear, backto);
  }
}
