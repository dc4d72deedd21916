/**
 * Classification of an archive response: `isStartOf`, `isFetchResText` and
 * `isFetchResTs404`.
 */
module Classifier {
  import opened Results
  import opened Upstream

  /** `${str || ''}`: a missing or empty text reads as the empty string. */
  function OrEmpty(str: Option<string>): string {
    if Truthy(str) then str.value else ""
  }

  /**
   * `isStartOf`: the first `|substr|` characters of the text equal `substr`;
   * `slice` stops at the end of a shorter text.
   */
  function IsStartOf(substr: string, str: Option<string>): (b: bool)
    ensures b <==> (substr == "" || (str.Some? && substr <= str.value))
    ensures str.None? ==> (b <==> substr == "")
  {
    var s := OrEmpty(str);
    s[..if |substr| < |s| then |substr| else |s|] == substr
  }

  const TextTypes: seq<string> := ["text/html", "text/plain"]

  /**
   * `isFetchResText`: the upstream content-type starts, with case counting,
   * with `text/html` or `text/plain`; a missing content-type is not text.
   */
  function IsFetchResText(up: FetchResponse): (b: bool)
    ensures b <==> exists t :: t in TextTypes && IsStartOf(t, Get(up.headers, "content-type"))
    ensures b <==> (var ct := Get(up.headers, "content-type");
      ct.Some? && ("text/html" <= ct.value || "text/plain" <= ct.value))
  {
    var ct := Get(up.headers, "content-type");
    IsStartOf(TextTypes[0], ct) || IsStartOf(TextTypes[1], ct)
  }

  /** `isFetchResTs404`: the archive's `x-ts` header reads exactly `404`. */
  function IsFetchResTs404(up: FetchResponse): (b: bool)
    ensures b <==> Values(up.headers, "x-ts") == ["404"]
  {
    GetWithoutComma(up.headers, "x-ts", "404");
    Get(up.headers, "x-ts") == Some("404")
  }

  /** Without an `x-ts` header the response is never treated as missing. */
  lemma NoTimestampHeaderIsFound(up: FetchResponse)
    requires forall k :: 0 <= k < |up.headers| ==> up.headers[k].name != "x-ts"
    ensures !IsFetchResTs404(up)
  {
  }

  /** Two `x-ts: 404` headers combine to `404, 404`, which does not read as missing. */
  lemma RepeatedTimestampHeader(up: FetchResponse)
    requires up.headers == [Header("x-ts", "404"), Header("x-ts", "404")]
    ensures !IsFetchResTs404(up)
  {
    assert Values(up.headers, "x-ts") == ["404", "404"] by {
      assert up.headers[..1] == [Header("x-ts", "404")];
      assert up.headers[..1][..0] == [];
    }
  }
}
