/**
 * What `fetch` resolves with for an archive URL: the final URL after
 * redirects, the status, the header list in arrival order and the body,
 * whose reading (`arrayBuffer()`) can fail. Header names are lower case,
 * as the Fetch API's `Headers` stores them.
 */
module Upstream {
  import opened Results

  newtype byte = x: int | 0 <= x < 256

  datatype Header = Header(name: string, value: string)

  datatype FetchResponse = FetchResponse(
    url: string,
    status: int,
    headers: seq<Header>,
    body: Result<seq<byte>>)

  /** The values of the headers called `name`, in arrival order. */
  function Values(headers: seq<Header>, name: string): (vs: seq<string>)
    ensures |vs| <= |headers|
    ensures vs == [] <==> forall k :: 0 <= k < |headers| ==> headers[k].name != name
  {
    if headers == [] then []
    else
      var rest := Values(headers[..|headers| - 1], name);
      var last := headers[|headers| - 1];
      if last.name == name then rest + [last.value] else rest
  }

  /** Several values of one header are combined with a comma and a space. */
  function Combine(vs: seq<string>): string
    requires vs != []
  {
    if |vs| == 1 then vs[0] else Combine(vs[..|vs| - 1]) + ", " + vs[|vs| - 1]
  }

  /** `Headers.prototype.get`: `null` (here `None`) when no header has that name. */
  function Get(headers: seq<Header>, name: string): (r: Option<string>)
    ensures r.None? <==> forall k :: 0 <= k < |headers| ==> headers[k].name != name
  {
    var vs := Values(headers, name);
    if vs == [] then None else Some(Combine(vs))
  }

  /** A JavaScript truthiness test on what `get` returns: not `null` and not empty. */
  predicate Truthy(o: Option<string>) {
    o.Some? && o.value != ""
  }

  /** A combination of two or more values contains a comma. */
  lemma {:induction false} CombineComma(vs: seq<string>)
    requires 2 <= |vs|
    ensures exists k :: 0 <= k < |Combine(vs)| && Combine(vs)[k] == ','
  {
    var front := Combine(vs[..|vs| - 1]);
    assert Combine(vs)[|front|] == ',';
  }

  /** When exactly one header has the name, `get` returns its value unchanged. */
  lemma GetSingle(headers: seq<Header>, name: string, i: nat)
    requires i < |headers| && headers[i].name == name
    requires forall k :: 0 <= k < |headers| && k != i ==> headers[k].name != name
    ensures Get(headers, name) == Some(headers[i].value)
  {
    ValuesSingle(headers, name, i);
  }

  lemma {:induction false} ValuesSingle(headers: seq<Header>, name: string, i: nat)
    requires i < |headers| && headers[i].name == name
    requires forall k :: 0 <= k < |headers| && k != i ==> headers[k].name != name
    ensures Values(headers, name) == [headers[i].value]
    decreases |headers|
  {
    var front := headers[..|headers| - 1];
    if i < |headers| - 1 {
      ValuesSingle(front, name, i);
    } else {
      assert Values(front, name) == [];
    }
  }

  /** `get` yields a text without a comma exactly when one header of that name has such a value. */
  lemma GetWithoutComma(headers: seq<Header>, name: string, v: string)
    requires forall k :: 0 <= k < |v| ==> v[k] != ','
    ensures Get(headers, name) == Some(v) <==> Values(headers, name) == [v]
  {
    var vs := Values(headers, name);
    if Get(headers, name) == Some(v) && 2 <= |vs| {
      CombineComma(vs);
    }
  }
}
