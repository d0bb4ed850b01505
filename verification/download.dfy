/** The local file name a downloaded recording is saved under, and the download helpers of
    the command-line tool (main.py) and the web app (app.py). */
module Download {
  import opened Wrappers
  import opened Text

  /** The name used when the URL ends without a file name. */
  const FallbackName: string := "downloaded_audio.mp3"

  lemma FallbackNameIsPlain()
    ensures FallbackName != [] && '/' !in FallbackName && '?' !in FallbackName
  {
  }

  /** The last `/`-separated segment of the URL, cut at its first `?`, or the fallback name
      when that leaves nothing. */
  function LocalFilename(url: string): (r: string)
    ensures r != [] && '/' !in r && '?' !in r
  {
    var last := AfterLast(url, '/');
    var name := if '?' in last then BeforeFirst(last, '?') else last;
    FallbackNameIsPlain();
    if name == [] then FallbackName else name
  }

  /** A URL whose last segment is a name, optionally followed by a query without slashes,
      is saved under that name. */
  lemma LocalFilenameOfSegment(head: string, name: string, query: string)
    requires name != [] && '/' !in name && '?' !in name && '/' !in query
    ensures LocalFilename(head + "/" + name) == name
    ensures LocalFilename(head + "/" + name + "?" + query) == name
  {
    AfterLastAppend(head, '/', name);
    var tail := name + "?" + query;
    assert '/' !in tail;
    assert head + "/" + name + "?" + query == head + ['/'] + tail;
    AfterLastAppend(head, '/', tail);
    assert '?' in tail by {
      assert tail[|name|] == '?';
    }
    assert name + "?" + query == name + ['?'] + query;
    BeforeFirstAppend(name, '?', query);
  }

  /** A URL that ends in `/`, or whose last segment starts with `?`, gets the fallback name. */
  lemma LocalFilenameFallback(head: string, query: string)
    requires '/' !in query
    ensures LocalFilename(head + "/") == FallbackName
    ensures LocalFilename(head + "/?" + query) == FallbackName
  {
    assert head + "/" == head + ['/'] + [];
    AfterLastAppend(head, '/', []);
    var tail := "?" + query;
    assert '/' !in tail;
    assert head + "/?" + query == head + ['/'] + tail;
    AfterLastAppend(head, '/', tail);
    assert tail == [] + ['?'] + query;
    BeforeFirstAppend([], '?', query);
  }

  /** The example of a signed URL: the query string is dropped. */
  lemma SignedUrlExample()
    ensures LocalFilename("https://host/path/file.mp3?token=abc") == "file.mp3"
  {
    var head, name, query := "https://host/path", "file.mp3", "token=abc";
    assert name != [] && '/' !in name && '?' !in name && '/' !in query by {
      assert name == ['f', 'i', 'l', 'e', '.', 'm', 'p', '3'];
      assert query == ['t', 'o', 'k', 'e', 'n', '=', 'a', 'b', 'c'];
    }
    LocalFilenameOfSegment(head, name, query);
    SignedUrlPieces();
  }

  lemma SignedUrlPieces()
    ensures "https://host/path" + "/" + "file.mp3" + "?" + "token=abc" == "https://host/path/file.mp3?token=abc"
  {
  }

  /** `download_file` of the command-line tool: the local name when the transfer succeeds
      (`fetched`), nothing when it fails. The transfer itself is not modelled. */
  function DownloadFile(url: string, fetched: bool): (r: Option<string>)
    ensures r.Some? <==> fetched
    ensures r.Some? ==> r.value == LocalFilename(url)
  {
    if fetched then Some(LocalFilename(url)) else None
  }

  /** `download_file` of the web app as written: both paths end without returning the name. */
  function AppDownloadFileAsWritten(url: string, fetched: bool): (r: Option<string>)
    ensures r.None?
  {
    None
  }

  /** The web app's download never hands back the file it saved, where the command-line
      tool's does. */
  lemma AppDownloadLosesFile(url: string)
    ensures AppDownloadFileAsWritten(url, true).None?
    ensures DownloadFile(url, true) == Some(LocalFilename(url))
  {
  }
}
