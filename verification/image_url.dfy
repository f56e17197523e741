/**
 How the storefront turns a stored image path into an `src`: a path that
 starts with '/' is served by the backend, so it is prefixed with the backend
 origin, which is the API base URL with '/api' taken out.
 */
module ImageUrl {
  import opened Wrappers
  import opened Strings

  const DefaultApiUrl: string := "http://localhost:5000/api"
  const ApiSuffix: string := "/api"

  /** `process.env.NEXT_PUBLIC_API_URL || 'http://localhost:5000/api'`: unset or empty falls back to the default. */
  function ApiUrl(env: Option<string>): (u: string)
    ensures env.Some? && env.value != "" ==> u == env.value
    ensures env.None? || env.value == "" ==> u == DefaultApiUrl
  {
    if env.Some? && env.value != "" then env.value else DefaultApiUrl
  }

  /** The origin as the code computes it: `apiUrl.replace('/api', '')`, which drops the FIRST '/api' anywhere in the URL. */
  function OriginAsWritten(apiUrl: string): string {
    RemoveFirst(apiUrl, ApiSuffix)
  }

  /** The origin as intended: only a trailing '/api' path is dropped. */
  function Origin(apiUrl: string): (o: string)
    ensures apiUrl == o + ApiSuffix || (o == apiUrl && !(|apiUrl| >= 4 && apiUrl[|apiUrl| - 4..] == ApiSuffix))
  {
    if |apiUrl| >= 4 && apiUrl[|apiUrl| - 4..] == ApiSuffix then apiUrl[..|apiUrl| - 4] else apiUrl
  }

  /** The two agree whenever the only '/api' in the URL is its trailing path, as for the default URL. */
  lemma OriginAgreesWhenSuffixIsFirst(o: string)
    requires forall i :: !OccursAt(o + ApiSuffix, ApiSuffix, i) || i == |o|
    ensures OriginAsWritten(o + ApiSuffix) == Origin(o + ApiSuffix) == o
  {
    var u := o + ApiSuffix;
    assert u[|o|..|o| + 4] == ApiSuffix;
    RemoveFirstAt(u, ApiSuffix, |o|);
    assert u[..|o|] == o;
  }

  /** With the default configuration the origin is `http://localhost:5000`, both as written and as intended. */
  lemma DefaultOrigin()
    ensures OriginAsWritten(ApiUrl(None)) == Origin(ApiUrl(None)) == "http://localhost:5000"
  {
    var o := "http://localhost:5000";
    assert ApiUrl(None) == o + ApiSuffix;
    forall i | OccursAt(o + ApiSuffix, ApiSuffix, i)
      ensures i == |o|
    {
      var u := o + ApiSuffix;
      assert u[i] == u[i..i + 4][0] == '/';
      assert u[i + 1] == u[i..i + 4][1] == 'a';
      DefaultSlashA(i);
    }
    OriginAgreesWhenSuffixIsFirst(o);
  }

  /** The only "/a" in the default API URL is the one of its "/api" suffix. */
  lemma DefaultSlashA(i: nat)
    requires i + 1 < |DefaultApiUrl| && DefaultApiUrl[i] == '/' && DefaultApiUrl[i + 1] == 'a'
    ensures i == |DefaultApiUrl| - 4
  {
  }

  /**
   A backend on an `api.` host: the first '/api' is the one inside "//api.",
   so the code cuts the host apart, e.g. "https://api.shop.com/api" becomes
   "https:/.shop.com/api"; the intended origin is "https://api.shop.com".
   */
  lemma OriginAsWrittenCorruptsApiHost(rest: string)
    ensures OriginAsWritten("https://api" + rest) == "https:/" + rest
    ensures Origin("https://api.shop.com/api") == "https://api.shop.com"
  {
    var u := "https://api" + rest;
    assert OccursAt(u, ApiSuffix, 7) by {
      assert u[7..11] == "/api";
    }
    assert NoOccurrenceBefore(u, ApiSuffix, 7) by {
      forall j | 0 <= j < 7
        ensures !OccursAt(u, ApiSuffix, j)
      {
        NotOccurs(u, j);
      }
    }
    RemoveFirstAt(u, ApiSuffix, 7);
    assert u[..7] == "https:/";
    assert u[11..] == rest;
  }

  lemma NotOccurs(u: string, j: nat)
    requires j + 4 <= |u|
    requires u[j] != '/' || u[j + 1] != 'a'
    ensures !OccursAt(u, ApiSuffix, j)
  {
  }

  /**
   The `src` for a stored image path, as the components compute it:
   backend-relative paths get the code's origin in front, others pass through.
   */
  function ResolveImage(image: string, env: Option<string>): (src: string)
    ensures StartsWith(image, "/") ==> src == RemoveFirst(ApiUrl(env), ApiSuffix) + image
    ensures !StartsWith(image, "/") ==> src == image
  {
    if StartsWith(image, "/") then OriginAsWritten(ApiUrl(env)) + image else image
  }

  /** The same resolution with the corrected origin. */
  function ResolveImageCorrected(image: string, env: Option<string>): (src: string)
    ensures StartsWith(image, "/") ==> src == Origin(ApiUrl(env)) + image
    ensures !StartsWith(image, "/") ==> src == image
  {
    if StartsWith(image, "/") then Origin(ApiUrl(env)) + image else image
  }

  /** When the configured URL's only '/api' is its trailing path, both resolutions put the URL minus '/api' in front. */
  lemma ResolveImageAgrees(image: string, env: Option<string>, o: string)
    requires ApiUrl(env) == o + ApiSuffix
    requires forall i :: !OccursAt(o + ApiSuffix, ApiSuffix, i) || i == |o|
    ensures ResolveImage(image, env) == ResolveImageCorrected(image, env)
    ensures StartsWith(image, "/") ==> ResolveImage(image, env) == o + image
  {
    OriginAgreesWhenSuffixIsFirst(o);
  }

  /** Without configuration a '/'-path is served from http://localhost:5000, by the code and by the correction alike. */
  lemma ResolveImageByDefault(image: string)
    ensures ResolveImage(image, None) == ResolveImageCorrected(image, None)
    ensures StartsWith(image, "/") ==> ResolveImage(image, None) == "http://localhost:5000" + image
  {
    DefaultOrigin();
  }

  /**
   On an `api.` host the code's `src` loses the "//api" of the host, e.g.
   "https://api.shop.com/api" serves "/x.png" from "https:/.shop.com/api/x.png",
   while the corrected one is "https://api.shop.com/x.png".
   */
  lemma ResolveImageOnApiHost(path: string, host: string)
    requires StartsWith(path, "/")
    ensures ResolveImage(path, Some("https://api" + host + ApiSuffix)) == "https:/" + host + ApiSuffix + path
    ensures ResolveImageCorrected(path, Some("https://api" + host + ApiSuffix)) == "https://api" + host + path
  {
    var u := "https://api" + host + ApiSuffix;
    assert u[0] == 'h';
    assert u == "https://api" + (host + ApiSuffix);
    OriginAsWrittenCorruptsApiHost(host + ApiSuffix);
    assert "https:/" + (host + ApiSuffix) == "https:/" + host + ApiSuffix;
    TrailingOrigin("https://api" + host);
  }

  /** A URL ending in '/api' has the rest of it as corrected origin. */
  lemma TrailingOrigin(o: string)
    ensures Origin(o + ApiSuffix) == o
  {
    var u := o + ApiSuffix;
    assert u[|u| - 4..] == ApiSuffix;
    assert u[..|u| - 4] == o;
  }
}
