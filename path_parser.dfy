/** The scheme dispatch of `get_bytes_from_uri`: decide whether a URI names
    a resource to fetch over HTTP or a local file, and which path to read. */
module PathParser {
  import opened Text

  /** Where the bytes come from: a URL to fetch, or a local path to read. */
  datatype Source = FetchUrl(url: string) | ReadFile(path: string)

  predicate IsHttp(uri: string) {
    StartsWith(uri, "http://") || StartsWith(uri, "https://")
  }

  /** The branch `get_bytes_from_uri` takes for `uri`. */
  function ClassifyUri(uri: string): (src: Source)
    ensures src.FetchUrl? <==> IsHttp(uri)
    ensures src.FetchUrl? ==> src.url == uri
    ensures !IsHttp(uri) && StartsWith(uri, "file://") ==> src == ReadFile(uri[7..])
    ensures !IsHttp(uri) && !StartsWith(uri, "file://") ==> src == ReadFile(uri)
  {
    if IsHttp(uri) then FetchUrl(uri)
    else if StartsWith(uri, "file://") then ReadFile(uri[|"file://"|..])
    else ReadFile(uri)
  }

  /** `"file://" + p` reads the local path `p`. */
  lemma FileUriRoundTrip(p: string)
    ensures ClassifyUri("file://" + p) == ReadFile(p)
  {
    var uri := "file://" + p;
    assert uri[..7] == "file://";
    assert !StartsWith(uri, "http://") by {
      assert uri[0] == 'f';
    }
    assert !StartsWith(uri, "https://") by {
      assert uri[0] == 'f';
    }
    assert uri[7..] == p;
  }

  /** An HTTP(S) URI never reaches the file branch: it is fetched as it is,
      even when it also looks like a file path. */
  lemma HttpComesFirst(uri: string)
    requires IsHttp(uri)
    ensures ClassifyUri(uri) == FetchUrl(uri)
    ensures !StartsWith(uri, "file://")
  {
    assert uri[0] == 'h';
  }

  /** The local path is never longer than the URI it came from, and it is a
      suffix of it. */
  lemma LocalPathIsSuffix(uri: string)
    requires ClassifyUri(uri).ReadFile?
    ensures var p := ClassifyUri(uri).path; |p| <= |uri| && uri[|uri| - |p|..] == p
  {
  }
}
