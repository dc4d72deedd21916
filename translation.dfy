/**
 * Header translation (`setHeaders` and `setContentType`): which upstream
 * headers are copied onto the client response and under which names, then
 * the proxy's three diagnostic headers, then the content type.
 */
module Translation {
  import opened Results
  import opened Upstream
  import opened Http
  import opened Dates

  const ProxyName := "timeprox"
  const ArchiveUrlHeader := "x-" + ProxyName + "-archive-url"
  const RequestTimeHeader := "x-" + ProxyName + "-request-time"
  const RequestUrlHeader := "x-" + ProxyName + "-request-url"

  /** Headers that describe the archive's transfer, not the archived page. */
  const DroppedNames: seq<string> := ["content-encoding", "link", "transfer-encoding"]

  const ArchivePrefix := "x-archive-"
  const OrigPrefix := "x-archive-orig-"

  /** `^x-archive-(?!orig)`: a header the archive adds about itself. */
  predicate IsArchiveOwn(name: string) {
    ArchivePrefix <= name && !("orig" <= name[|ArchivePrefix|..])
  }

  /** A header `setHeaders` does not copy. */
  predicate Skipped(name: string) {
    name in DroppedNames || IsArchiveOwn(name)
  }

  /** `name.replace(/^x-archive-orig-/, '')`: the archived page's own header name. */
  function Unwrap(name: string): (r: string)
    ensures OrigPrefix <= name ==> OrigPrefix + r == name
    ensures !(OrigPrefix <= name) ==> r == name
  {
    if OrigPrefix <= name then name[|OrigPrefix|..] else name
  }

  /** The name a header is copied under, or `None` when it is not copied. */
  function Rename(name: string): (r: Option<string>)
    ensures r.None? <==> Skipped(name)
  {
    if Skipped(name) then None else Some(Unwrap(name))
  }

  /**
   * The header map after copying `entries` in order onto `base`; a later
   * header overwrites an earlier one that was copied under the same name.
   */
  function Copied(base: HeaderMap, entries: seq<Header>): (m: HeaderMap)
    ensures forall n :: n in m <==>
      (n in base || exists k :: 0 <= k < |entries| && Rename(entries[k].name) == Some(n))
  {
    if entries == [] then base
    else
      var front := entries[..|entries| - 1];
      var last := entries[|entries| - 1];
      var m := Copied(base, front);
      assert forall k :: 0 <= k < |front| ==> front[k] == entries[k];
      match Rename(last.name)
      case None => m
      case Some(n) => m[n := Some(last.value)]
  }

  /** One more header copied onto the map. */
  lemma CopiedStep(base: HeaderMap, entries: seq<Header>, i: nat)
    requires i < |entries|
    ensures var m := Copied(base, entries[..i]);
      var n := Rename(entries[i].name);
      Copied(base, entries[..i + 1]) == if n.None? then m else m[n.value := Some(entries[i].value)]
  {
    assert entries[..i + 1][..i] == entries[..i];
  }

  /** Copying a single header. */
  lemma CopiedSingle(base: HeaderMap, h: Header)
    ensures var n := Rename(h.name);
      Copied(base, [h]) == if n.None? then base else base[n.value := Some(h.value)]
  {
    assert [h][..0] == [];
  }

  /** A copied name carries the value of the last header copied under it. */
  lemma {:induction false} CopiedLastWriter(base: HeaderMap, entries: seq<Header>, n: string, k: nat)
    requires k < |entries| && Rename(entries[k].name) == Some(n)
    requires forall j :: k < j < |entries| ==> Rename(entries[j].name) != Some(n)
    ensures n in Copied(base, entries) && Copied(base, entries)[n] == Some(entries[k].value)
    decreases |entries|
  {
    var front := entries[..|entries| - 1];
    if k < |entries| - 1 {
      assert Rename(entries[|entries| - 1].name) != Some(n);
      CopiedLastWriter(base, front, n, k);
    }
  }

  /** A name no header is copied under keeps whatever `base` had. */
  lemma {:induction false} CopiedUntouched(base: HeaderMap, entries: seq<Header>, n: string)
    requires forall k :: 0 <= k < |entries| ==> Rename(entries[k].name) != Some(n)
    requires n in base
    ensures n in Copied(base, entries) && Copied(base, entries)[n] == base[n]
    decreases |entries|
  {
    if entries != [] {
      CopiedUntouched(base, entries[..|entries| - 1], n);
    }
  }

  /**
   * A skipped name reaches the copied map only by unwrapping: some upstream
   * header was called `x-archive-orig-` followed by it.
   */
  lemma CopiedSkippedOnlyUnwrapped(entries: seq<Header>, n: string)
    requires n in Copied(map[], entries) && Skipped(n)
    ensures exists k :: 0 <= k < |entries| && entries[k].name == OrigPrefix + n
  {
    var k :| 0 <= k < |entries| && Rename(entries[k].name) == Some(n);
    RenamedToSkipped(entries[k].name, n);
  }

  /** A name that would be skipped is produced only by removing `x-archive-orig-`. */
  lemma RenamedToSkipped(name: string, n: string)
    requires Rename(name) == Some(n) && Skipped(n)
    ensures name == OrigPrefix + n
  {
    assert Unwrap(name) == n;
  }

  /** Unwrapping does produce a name that would have been skipped if sent directly. */
  lemma UnwrapCanEmitSkipped()
    ensures Rename(OrigPrefix + "transfer-encoding") == Some("transfer-encoding")
    ensures Skipped("transfer-encoding")
  {
    var rest := "orig-" + "transfer-encoding";
    var name := OrigPrefix + "transfer-encoding";
    assert name == ArchivePrefix + rest;
    assert name[..|ArchivePrefix|] == ArchivePrefix && name[|ArchivePrefix|..] == rest;
    assert rest[..4] == "orig";
    assert name[..|OrigPrefix|] == OrigPrefix;
    assert name[|OrigPrefix|..] == "transfer-encoding";
  }

  predicate IsWrittenLast(n: string) {
    n == ArchiveUrlHeader || n == RequestTimeHeader || n == RequestUrlHeader || n == "content-type"
  }

  /**
   * What `setHeaders` leaves in the response's header map, starting from
   * `base`. The diagnostics and the content type win over any copied header
   * of the same name, and the content type is the upstream one even when
   * that is missing; every other name is as copying left it.
   */
  function Translated(base: HeaderMap, up: FetchResponse, requestUrl: string, requestTime: string): (t: HeaderMap)
    ensures ArchiveUrlHeader in t && t[ArchiveUrlHeader] == Some(up.url)
    ensures RequestTimeHeader in t && t[RequestTimeHeader] == Some(requestTime)
    ensures RequestUrlHeader in t && t[RequestUrlHeader] == Some(requestUrl)
    ensures "content-type" in t && t["content-type"] == Get(up.headers, "content-type")
    ensures var c := Copied(base, up.headers);
      forall n :: !IsWrittenLast(n) ==> (n in t <==> n in c) && (n in c ==> t[n] == c[n])
  {
    assert ArchiveUrlHeader[11] == 'a' && RequestTimeHeader[11] == 'r' && RequestUrlHeader[11] == 'r';
    assert RequestTimeHeader[19] == 't' && RequestUrlHeader[19] == 'u';
    assert ArchiveUrlHeader[0] == 'x' && RequestTimeHeader[0] == 'x' && RequestUrlHeader[0] == 'x';
    Copied(base, up.headers)
      [ArchiveUrlHeader := Some(up.url)]
      [RequestTimeHeader := Some(requestTime)]
      [RequestUrlHeader := Some(requestUrl)]
      ["content-type" := Get(up.headers, "content-type")]
  }

  /**
   * `setHeaders` as the source writes it: the copying loop runs over
   * `Object.keys` of an iterator, which has no own keys, so it copies from
   * no header at all before the diagnostics and the content type are set.
   */
  function TranslatedAsWritten(base: HeaderMap, up: FetchResponse, requestUrl: string, requestTime: string): (t: HeaderMap)
    ensures ArchiveUrlHeader in t && t[ArchiveUrlHeader] == Some(up.url)
    ensures RequestTimeHeader in t && t[RequestTimeHeader] == Some(requestTime)
    ensures RequestUrlHeader in t && t[RequestUrlHeader] == Some(requestUrl)
    ensures "content-type" in t && t["content-type"] == Get(up.headers, "content-type")
    ensures forall n :: !IsWrittenLast(n) ==> (n in t <==> n in base) && (n in base ==> t[n] == base[n])
  {
    assert ArchiveUrlHeader[11] == 'a' && RequestTimeHeader[11] == 'r' && RequestUrlHeader[11] == 'r';
    assert RequestTimeHeader[19] == 't' && RequestUrlHeader[19] == 'u';
    assert ArchiveUrlHeader[0] == 'x' && RequestTimeHeader[0] == 'x' && RequestUrlHeader[0] == 'x';
    Copied(base, [])
      [ArchiveUrlHeader := Some(up.url)]
      [RequestTimeHeader := Some(requestTime)]
      [RequestUrlHeader := Some(requestUrl)]
      ["content-type" := Get(up.headers, "content-type")]
  }

  /** As written, a fresh response ends up with exactly the four names `setHeaders` writes last. */
  lemma AsWrittenCopiesNothing(up: FetchResponse, requestUrl: string, requestTime: string)
    ensures forall n :: n in TranslatedAsWritten(map[], up, requestUrl, requestTime) <==> IsWrittenLast(n)
  {
  }

  /**
   * The discrepancy on one input: an upstream `etag` header reaches the
   * client under the per-name rule the loop is meant to apply, and is lost
   * as the source is written.
   */
  lemma AsWrittenLosesUpstreamHeader(url: string, requestUrl: string, requestTime: string)
    ensures var up := FetchResponse(url, 200, [Header("etag", "\"v1\"")], Ok([]));
      "etag" in Translated(map[], up, requestUrl, requestTime)
      && "etag" !in TranslatedAsWritten(map[], up, requestUrl, requestTime)
  {
    var up := FetchResponse(url, 200, [Header("etag", "\"v1\"")], Ok([]));
    assert !IsWrittenLast("etag") by {
      assert "etag"[0] == 'e' && ArchiveUrlHeader[0] == 'x' && RequestTimeHeader[0] == 'x' && RequestUrlHeader[0] == 'x';
    }
    assert !IsArchiveOwn("etag");
    CopiedSingle(map[], up.headers[0]);
    assert Rename("etag") == Some("etag");
  }

  /**
   * `setContentType`: when the upstream content type is missing or empty and
   * the archive guessed both a type and a charset, the guess is written
   * first; the upstream value is then written over it in every case.
   */
  method SetContentType(up: FetchResponse, res: Response)
    requires res.Open()
    modifies res
    ensures res.headers == old(res.headers)["content-type" := Get(up.headers, "content-type")]
    ensures res.statusCode == old(res.statusCode) && res.Open()
  {
    var contentType := Get(up.headers, "content-type");
    if !Truthy(contentType) {
      var guessedContentType := Get(up.headers, "x-archive-guessed-content-type");
      var guessedCharset := Get(up.headers, "x-archive-guessed-charset");
      var mimeCharset := if Truthy(guessedCharset) then "; charset=" + guessedCharset.value else "";
      if Truthy(guessedContentType) && Truthy(guessedCharset) {
        res.SetHeader("content-type", Some(guessedContentType.value + mimeCharset));
      }
    }
    res.SetHeader("content-type", contentType);
  }

  /** The callback of the `forEach` in `setHeaders`: copies one header under its new name, or skips it. */
  method CopyHeader(h: Header, res: Response)
    requires res.Open()
    modifies res
    ensures res.headers == Copied(old(res.headers), [h])
    ensures res.statusCode == old(res.statusCode) && res.Open()
  {
    assert [h][..0] == [];
    if h.name in DroppedNames {
      return;
    }
    if IsArchiveOwn(h.name) {
      return;
    }
    res.SetHeader(Unwrap(h.name), Some(h.value));
  }

  /**
   * The `forEach` of `setHeaders`. The source iterates over `Object.keys` of
   * the iterator that `headers.entries()` returns, which has no own keys, so
   * as written it copies nothing; the loop here runs over the upstream header
   * list, which is what the per-name rule is evidently meant for.
   */
  method CopyHeaders(entries: seq<Header>, res: Response)
    requires res.Open()
    modifies res
    ensures res.headers == Copied(old(res.headers), entries)
    ensures res.statusCode == old(res.statusCode) && res.Open()
  {
    ghost var base := res.headers;
    var i := 0;
    while i < |entries|
      invariant i <= |entries|
      invariant res.Open() && res.statusCode == old(res.statusCode)
      invariant res.headers == Copied(base, entries[..i])
    {
      ghost var before := res.headers;
      CopyHeader(entries[i], res);
      CopiedStep(base, entries, i);
      CopiedSingle(before, entries[i]);
      i := i + 1;
    }
    assert entries[..i] == entries;
  }

  /** `setHeaders`; `now` stands for the clock reading that `formatDate()` takes. */
  method SetHeaders(up: FetchResponse, requestUrl: string, now: DateFields, res: Response)
    requires res.Open()
    modifies res
    ensures res.headers == Translated(old(res.headers), up, requestUrl, FormatDate(now))
    ensures res.statusCode == old(res.statusCode) && res.Open()
  {
    CopyHeaders(up.headers, res);
    res.SetHeader(ArchiveUrlHeader, Some(up.url));
    res.SetHeader(RequestTimeHeader, Some(FormatDate(now)));
    res.SetHeader(RequestUrlHeader, Some(requestUrl));
    SetContentType(up, res);
  }
}
