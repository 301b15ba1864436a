/** `getPdfURl` of frontend/learn-with-ai/src/pages/Documents/DocumentDetailPage.jsx:
    the address the document page opens a stored PDF at. Absolute http(s) paths are
    used as they are; any other path is put under the API's base URL with exactly
    one `/` between the two. The configured base URL, `REACT_APP_API_URL`, is a
    parameter. */
module PdfUrl {
  import opened Results
  import opened JsText

  /** The base used when no API URL is configured. */
  const DefaultBaseUrl := "http://localhost:8000"

  /** `process.env.REACT_APP_API_URL || "http://localhost:8000"`: an unset or empty
      setting falls back to the default. */
  function BaseUrl(configured: Option<string>): string {
    if configured.Some? && configured.value != [] then configured.value else DefaultBaseUrl
  }

  predicate IsAbsolute(path: string) {
    StartsWith(path, "http://") || StartsWith(path, "https://")
  }

  /** The PDF's address; `None` (the source's `null`) when the document, its data or
      its file path is missing or the path is empty. */
  function PdfUrl(filePath: Option<string>, configured: Option<string>): Option<string> {
    if filePath.None? || filePath.value == [] then None
    else
      var path := filePath.value;
      if IsAbsolute(path) then Some(path)
      else Some(BaseUrl(configured) + (if StartsWith(path, "/") then "" else "/") + path)
  }

  /** A path without its leading `/`, if it has one. */
  function WithoutLeadingSlash(path: string): (r: string)
    ensures |r| <= |path|
  {
    if StartsWith(path, "/") then path[1..] else path
  }

  /** There is an address exactly when there is a non-empty path. */
  lemma NoPathNoUrl(filePath: Option<string>, configured: Option<string>)
    ensures PdfUrl(filePath, configured).None? <==> filePath.None? || filePath.value == []
  {
  }

  /** The default base is used exactly when no non-empty base is configured. */
  lemma BaseUrlFallback(configured: Option<string>)
    ensures BaseUrl(configured) == DefaultBaseUrl <==> configured.None? || configured.value == [] || configured.value == DefaultBaseUrl
    ensures BaseUrl(configured) != []
  {
  }

  /** An absolute http or https path is returned unchanged, whatever the base. */
  lemma AbsolutePathUnchanged(path: string, configured: Option<string>)
    requires IsAbsolute(path)
    ensures PdfUrl(Some(path), configured) == Some(path)
  {
  }

  /** A relative path lands under the base after a `/`: the path's leading `/`, if
      it has one, is that separator, and otherwise one is added. A path that starts
      with several slashes keeps all but the first after that separator. */
  lemma RelativePathUnderBase(path: string, configured: Option<string>)
    requires path != [] && !IsAbsolute(path)
    ensures var url, base := PdfUrl(Some(path), configured), BaseUrl(configured);
      url == Some(base + "/" + WithoutLeadingSlash(path))
      && StartsWith(url.value, base) && EndsWith(url.value, path)
      && (StartsWith(path, "/") ==> url.value == base + path)
      && (!StartsWith(path, "/") ==> url.value == base + "/" + path)
  {
    var base := BaseUrl(configured);
    var url := PdfUrl(Some(path), configured).value;
    if StartsWith(path, "/") {
      assert path == "/" + path[1..];
      assert url == base + path;
      assert base + "/" + path[1..] == base + path;
    } else {
      assert url == base + "/" + path;
    }
    assert url == base + ("/" + WithoutLeadingSlash(path));
    assert url[..|base|] == base;
    assert url[|url| - |path|..] == path;
  }

  /** A relative path gives the same address with or without its leading `/`. */
  lemma LeadingSlashIrrelevant(path: string, configured: Option<string>)
    requires path != [] && !IsAbsolute(path) && !StartsWith(path, "/")
    ensures PdfUrl(Some("/" + path), configured) == PdfUrl(Some(path), configured)
  {
    var slashed := "/" + path;
    assert StartsWith(slashed, "/");
    assert !IsAbsolute(slashed) by {
      assert slashed[0] == '/';
    }
    var base := BaseUrl(configured);
    assert PdfUrl(Some(slashed), configured).value == base + "" + slashed;
    assert base + "" + slashed == base + "/" + path;
  }

  /** With an http or https base, the address is itself absolute, so resolving it
      again changes nothing. */
  lemma ResolveIdempotent(filePath: Option<string>, configured: Option<string>)
    requires IsAbsolute(BaseUrl(configured))
    ensures PdfUrl(PdfUrl(filePath, configured), configured) == PdfUrl(filePath, configured)
  {
    var url := PdfUrl(filePath, configured);
    if url.Some? && !IsAbsolute(filePath.value) {
      var base := BaseUrl(configured);
      var rest := (if StartsWith(filePath.value, "/") then "" else "/") + filePath.value;
      assert url.value == base + rest;
      if StartsWith(base, "http://") {
        assert url.value[..7] == base[..7];
      } else {
        assert url.value[..8] == base[..8];
      }
    }
  }

  /** The default base is an http address, so without a configured base addresses
      resolve once and for all. */
  lemma DefaultBaseIsAbsolute()
    ensures IsAbsolute(DefaultBaseUrl) && IsAbsolute(BaseUrl(None))
  {
  }
}
