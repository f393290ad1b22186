/**
 A model of the two sequential algorithms of the `Coda` client (coda.py):
 the page-token pagination of `_page_enumerable`, and the way
 `get_workspaces` numbers distinct workspace ids and yields the results in
 that order whatever order its worker tasks finish in.

 The HTTP server is a finite list of responses, answered in request order;
 the browser lookup of a workspace's name is left out, so a result carries
 only the workspace id.
 */
module Coda {
  import opened Options

  // ---------------------------------------------------------------------------
  // Pagination (`_page_enumerable`)
  // ---------------------------------------------------------------------------

  /** The fields of a list response the loop reads: `items` and the optional
      `nextPageToken`. */
  datatype Response<T> = Response(items: seq<T>, nextPageToken: Option<string>)

  /** `res.get("nextPageToken", None)`, with a missing token read as "". */
  function Token<T>(r: Response<T>): string
  {
    match r.nextPageToken
    case Some(t) => t
    case None => ""
  }

  /** Python's `if token:` — a missing token and the empty string both stop. */
  predicate HasToken<T>(r: Response<T>)
  {
    Token(r) != ""
  }

  /** The default page size of `_page_enumerable`. */
  const DefaultLimit: int := 25

  function DigitChar(d: nat): char
    requires d < 10
  {
    "0123456789"[d]
  }

  function Decimal(n: nat): string
    decreases n
  {
    if n < 10 then [DigitChar(n)] else Decimal(n / 10) + [DigitChar(n % 10)]
  }

  /** How an f-string renders an `int`. */
  function FormatInt(i: int): string
  {
    if i < 0 then "-" + Decimal(-i) else Decimal(i)
  }

  /** The first request: `{base_uri}?limit={limit}`. */
  function FirstUri(base: string, limit: int): string
  {
    base + "?limit=" + FormatInt(limit)
  }

  /** With the default page size, the first request is `{base_uri}?limit=25`. */
  lemma DefaultFirstUri(base: string)
    ensures FirstUri(base, DefaultLimit) == base + "?limit=25"
  {
  }

  /** A follow-up request: `{base_uri}?limit={limit}&pageToken={token}`. */
  function TokenUri(base: string, limit: int, token: string): string
  {
    base + "?limit=" + FormatInt(limit) + "&pageToken=" + token
  }

  /** The `i`-th request of a walk over `responses`: the first URI, or the one
      built from the token of the response to request `i - 1`. */
  function RequestUri<T>(base: string, limit: int, responses: seq<Response<T>>, i: nat): string
    requires i <= |responses|
  {
    if i == 0 then FirstUri(base, limit) else TokenUri(base, limit, Token(responses[i - 1]))
  }

  /** The value of `uri` after `i` responses: the next request to make, or
      `None` once the `i`-th response came back without a token. */
  function NextRequest<T>(base: string, limit: int, responses: seq<Response<T>>, i: nat): Option<string>
    requires i <= |responses|
  {
    if i == 0 || HasToken(responses[i - 1]) then Some(RequestUri(base, limit, responses, i)) else None
  }

  /** The first `n` requests of the walk, in order. */
  function RequestsUpTo<T>(base: string, limit: int, responses: seq<Response<T>>, n: nat): (r: seq<string>)
    requires n <= |responses|
    ensures |r| == n
    ensures forall k :: 0 <= k < n ==> r[k] == RequestUri(base, limit, responses, k)
  {
    if n == 0 then [] else RequestsUpTo(base, limit, responses, n - 1) + [RequestUri(base, limit, responses, n - 1)]
  }

  /** How many responses the walk consumes: up to and including the first one
      without a token, or all of them when every one carries a token. */
  function PagesRead<T>(responses: seq<Response<T>>): (n: nat)
    ensures n <= |responses|
    ensures responses != [] ==> n > 0
    ensures forall j :: 0 <= j < n - 1 ==> HasToken(responses[j])
    ensures n < |responses| ==> !HasToken(responses[n - 1])
  {
    if responses == [] then 0
    else if !HasToken(responses[0]) then 1
    else 1 + PagesRead(responses[1..])
  }

  /** The walk ends at the first response without a token. */
  lemma PagesReadStopsAt<T>(responses: seq<Response<T>>, i: nat)
    requires 0 < i <= |responses|
    requires forall k :: 0 <= k < i - 1 ==> HasToken(responses[k])
    requires !HasToken(responses[i - 1])
    ensures PagesRead(responses) == i
  {
  }

  /** When every response carries a token, all of them are consumed. */
  lemma PagesReadAllTokens<T>(responses: seq<Response<T>>)
    requires forall k :: 0 <= k < |responses| ==> HasToken(responses[k])
    ensures PagesRead(responses) == |responses|
  {
  }

  /** The items of the responses, page after page. */
  function Flatten<T>(responses: seq<Response<T>>): seq<T>
  {
    if responses == [] then []
    else Flatten(responses[..|responses| - 1]) + responses[|responses| - 1].items
  }

  /** The state of the `while uri:` loop after `i` responses: every consumed
      response but the last carried a token, the requests made so far, the
      items yielded so far, and the current value of `uri`. */
  ghost predicate WalkState<T>(base: string, limit: int, responses: seq<Response<T>>, i: nat,
                         requests: seq<string>, items: seq<T>, uri: Option<string>)
  {
    && i <= |responses|
    && (forall k :: 0 <= k < i - 1 ==> HasToken(responses[k]))
    && requests == RequestsUpTo(base, limit, responses, i)
    && items == Flatten(responses[..i])
    && uri == NextRequest(base, limit, responses, i)
  }

  /** One iteration of the loop: request `uri`, yield the page, and set `uri`
      from the page's token. */
  lemma WalkStep<T>(base: string, limit: int, responses: seq<Response<T>>, i: nat,
                    requests: seq<string>, items: seq<T>, uri: Option<string>)
    requires WalkState(base, limit, responses, i, requests, items, uri)
    requires uri.Some? && i < |responses|
    ensures WalkState(base, limit, responses, i + 1, requests + [uri.value], items + responses[i].items,
                      if Token(responses[i]) != "" then Some(TokenUri(base, limit, Token(responses[i]))) else None)
  {
    FlattenStep(responses, i);
    assert RequestUri(base, limit, responses, i) == uri.value;
    assert i == 0 || HasToken(responses[i - 1]);
  }

  lemma FlattenStep<T>(responses: seq<Response<T>>, i: nat)
    requires i < |responses|
    ensures Flatten(responses[..i + 1]) == Flatten(responses[..i]) + responses[i].items
  {
    assert responses[..i + 1][..i] == responses[..i];
  }

  /** The `while uri:` loop of `_page_enumerable` (lines 97-104), run until
      `uri` is falsy or the server has no more responses; `i` counts the
      responses consumed. */
  method Walk<T>(base: string, limit: int, responses: seq<Response<T>>)
    returns (requests: seq<string>, items: seq<T>, uri: Option<string>, i: nat)
    ensures uri.None? || i == |responses|
    ensures WalkState(base, limit, responses, i, requests, items, uri)
  {
    uri := Some(FirstUri(base, limit));
    i := 0;
    requests := [];
    items := [];
    while uri.Some? && i < |responses|
      invariant WalkState(base, limit, responses, i, requests, items, uri)
    {
      var res := responses[i];
      WalkStep(base, limit, responses, i, requests, items, uri);
      requests := requests + [uri.value];
      items := items + res.items;
      var token := Token(res);
      uri := None;
      if token != "" {
        uri := Some(TokenUri(base, limit, token));
      }
      i := i + 1;
    }
  }

  /** `_page_enumerable(base_uri, limit)` run against a server that answers the
      k-th request with `responses[k]`. `requests` are the URIs that got an
      answer and `items` everything yielded; `pending` is the URI still to be
      fetched when `responses` ran out, or `None` once a response came back
      without a token and the loop ended. */
  method PageEnumerable<T>(base: string, limit: int, responses: seq<Response<T>>)
    returns (requests: seq<string>, items: seq<T>, pending: Option<string>)
    ensures |requests| == PagesRead(responses)
    ensures requests == RequestsUpTo(base, limit, responses, |requests|)
    ensures items == Flatten(responses[..|requests|])
    ensures pending == NextRequest(base, limit, responses, |requests|)
    ensures pending.Some? ==> |requests| == |responses|
  {
    var i;
    requests, items, pending, i := Walk(base, limit, responses);
    WalkEnds(base, limit, responses, i, requests, items, pending);
  }

  /** A finished walk has read exactly the pages `PagesRead` counts. */
  lemma WalkEnds<T>(base: string, limit: int, responses: seq<Response<T>>, i: nat,
                    requests: seq<string>, items: seq<T>, uri: Option<string>)
    requires WalkState(base, limit, responses, i, requests, items, uri)
    requires uri.None? || i == |responses|
    ensures i == |requests| == PagesRead(responses)
    ensures requests == RequestsUpTo(base, limit, responses, |requests|)
    ensures items == Flatten(responses[..|requests|])
    ensures uri == NextRequest(base, limit, responses, |requests|)
    ensures uri.Some? ==> |requests| == |responses|
  {
  }

  /** The request/stop protocol of `_page_enumerable`: the first request is
      `{base_uri}?limit={limit}`, each later one carries the token of the
      previous response, and the walk ends exactly when some response has no
      token — right after the first such response. */
  lemma PaginationProtocol<T>(base: string, limit: int, responses: seq<Response<T>>)
    ensures var n := PagesRead(responses);
      && (n > 0 ==> RequestsUpTo(base, limit, responses, n)[0] == base + "?limit=" + FormatInt(limit))
      && (forall k :: 0 < k < n ==>
            HasToken(responses[k - 1])
            && RequestsUpTo(base, limit, responses, n)[k]
               == base + "?limit=" + FormatInt(limit) + "&pageToken=" + Token(responses[k - 1]))
      && (NextRequest(base, limit, responses, n).None? <==>
            exists j :: 0 <= j < |responses| && !HasToken(responses[j]))
  {
    var n := PagesRead(responses);
    if n < |responses| {
      assert !HasToken(responses[n - 1]);
    } else if n > 0 && !HasToken(responses[n - 1]) {
    } else {
      assert forall j :: 0 <= j < |responses| ==> HasToken(responses[j]) by {
        forall j | 0 <= j < |responses|
          ensures HasToken(responses[j])
        {
          assert j < n - 1 || j == n - 1;
        }
      }
    }
  }

  // ---------------------------------------------------------------------------
  // Workspaces (`get_workspaces`)
  // ---------------------------------------------------------------------------

  /** The id of a Coda workspace, as listed on each document. The algorithm
      only compares ids for equality. */
  type WorkspaceId(==, !new)

  predicate NoDuplicates(s: seq<WorkspaceId>)
  {
    forall i, j :: 0 <= i < j < |s| ==> s[i] != s[j]
  }

  /** Position of the first occurrence of `x` in `s`. */
  function FirstIndex(s: seq<WorkspaceId>, x: WorkspaceId): (k: nat)
    requires x in s
    ensures k < |s| && s[k] == x && x !in s[..k]
  {
    if s[0] == x then 0
    else
      var k := 1 + FirstIndex(s[1..], x);
      assert s[..k] == [s[0]] + s[1..][..k - 1];
      k
  }

  /** The distinct elements of `ids` in order of first occurrence. */
  function FirstOccurrences(ids: seq<WorkspaceId>): (d: seq<WorkspaceId>)
    ensures NoDuplicates(d)
    ensures forall i :: 0 <= i < |d| ==> d[i] in ids
    ensures forall i :: 0 <= i < |ids| ==> ids[i] in d
  {
    if ids == [] then []
    else
      var prefix := ids[..|ids| - 1];
      var last := ids[|ids| - 1];
      assert ids == prefix + [last];
      var d := FirstOccurrences(prefix);
      if last in d then d else d + [last]
  }

  /** Membership is what `FirstOccurrences` keeps. */
  lemma InFirstOccurrences(ids: seq<WorkspaceId>, x: WorkspaceId)
    ensures x in FirstOccurrences(ids) <==> x in ids
  {
  }

  /** One more id either repeats an earlier one and changes nothing, or is new
      and goes at the end. */
  lemma FirstOccurrencesStep(ids: seq<WorkspaceId>, i: nat)
    requires i < |ids|
    ensures FirstOccurrences(ids[..i + 1]) ==
      if ids[i] in FirstOccurrences(ids[..i]) then FirstOccurrences(ids[..i])
      else FirstOccurrences(ids[..i]) + [ids[i]]
  {
    assert ids[..i + 1][..i] == ids[..i];
  }

  lemma FirstIndexOfPrefix(ids: seq<WorkspaceId>, n: nat, x: WorkspaceId)
    requires n <= |ids| && x in ids[..n]
    ensures FirstIndex(ids[..n], x) == FirstIndex(ids, x)
  {
  }

  /** The distinct ids come out strictly ordered by where each first appears. */
  lemma {:induction false} FirstOccurrenceOrder(ids: seq<WorkspaceId>)
    ensures var d := FirstOccurrences(ids);
      forall i, j :: 0 <= i < j < |d| ==> FirstIndex(ids, d[i]) < FirstIndex(ids, d[j])
    decreases |ids|
  {
    if ids != [] {
      var n := |ids| - 1;
      var prefix := ids[..n];
      var last := ids[n];
      var d := FirstOccurrences(prefix);
      FirstOccurrenceOrder(prefix);
      forall i | 0 <= i < |d|
        ensures FirstIndex(ids, d[i]) == FirstIndex(prefix, d[i]) < n
      {
        FirstIndexOfPrefix(ids, n, d[i]);
      }
      FirstOccurrencesStep(ids, n);
      assert ids[..n + 1] == ids;
      if last !in d {
        InFirstOccurrences(prefix, last);
        var m := FirstIndex(ids, last);
      }
    }
  }

  /** `used` holds exactly the ids of `order`, and `index` maps each id of
      `order` to its position. */
  ghost predicate Bookkept(used: set<WorkspaceId>, order: seq<WorkspaceId>, index: map<WorkspaceId, nat>)
  {
    && |order| == |used|
    && (forall x :: x in used <==> x in order)
    && index.Keys == used
    && (forall k :: 0 <= k < |order| ==> order[k] in index && index[order[k]] == k)
    && (forall x :: x in index ==> index[x] < |order| && order[index[x]] == x)
  }

  /** The state of the producer loop of `get_workspaces` after the first `i`
      documents: `order` lists the ids that got a task, in index order, and
      `idxNxt` is the next index to hand out. */
  ghost predicate Indexed(ids: seq<WorkspaceId>, i: nat, used: set<WorkspaceId>, order: seq<WorkspaceId>, index: map<WorkspaceId, nat>, idxNxt: nat)
  {
    && i <= |ids|
    && order == FirstOccurrences(ids[..i])
    && idxNxt == |order|
    && Bookkept(used, order, index)
  }

  /** One iteration of the producer loop: a repeated id is skipped, a new one
      gets index `idxNxt`. */
  lemma IndexStep(ids: seq<WorkspaceId>, i: nat, used: set<WorkspaceId>, order: seq<WorkspaceId>, index: map<WorkspaceId, nat>, idxNxt: nat)
    requires Indexed(ids, i, used, order, index, idxNxt) && i < |ids|
    ensures ids[i] in used ==> Indexed(ids, i + 1, used, order, index, idxNxt)
    ensures ids[i] !in used ==>
      Indexed(ids, i + 1, used + {ids[i]}, order + [ids[i]], index[ids[i] := idxNxt], idxNxt + 1)
  {
    FirstOccurrencesStep(ids, i);
    if ids[i] !in used {
      IndexNew(used, order, index, ids[i]);
    }
  }

  /** The bookkeeping for an id seen for the first time. */
  lemma IndexNew(used: set<WorkspaceId>, order: seq<WorkspaceId>, index: map<WorkspaceId, nat>, id: WorkspaceId)
    requires Bookkept(used, order, index) && id !in used
    ensures Bookkept(used + {id}, order + [id], index[id := |order|])
  {
  }

  /** The producer loop of `get_workspaces` (lines 139-146) over the workspace
      ids of the listed documents: each id not yet in `used` gets the next index
      and one task. `order[k]` is the workspace id of the task submitted with
      index `k`; `index` maps each id back to its task's index. */
  method AssignIndices(ids: seq<WorkspaceId>) returns (order: seq<WorkspaceId>, index: map<WorkspaceId, nat>, idxNxt: nat)
    ensures order == FirstOccurrences(ids)
    ensures idxNxt == |order| == |set x | x in ids|
    ensures index.Keys == set x | x in ids
    ensures forall k :: 0 <= k < |order| ==> order[k] in index && index[order[k]] == k
    ensures forall x :: x in index ==> index[x] < idxNxt && order[index[x]] == x
  {
    var used: set<WorkspaceId> := {};
    idxNxt := 0;
    order := [];
    index := map[];
    for i := 0 to |ids|
      invariant Indexed(ids, i, used, order, index, idxNxt)
    {
      var id := ids[i];
      IndexStep(ids, i, used, order, index, idxNxt);
      if id in used {
        continue;
      }
      used := used + {id};
      index := index[id := idxNxt];
      order := order + [id];
      idxNxt := idxNxt + 1;
    }
    AllIndexed(ids, used, order, index, idxNxt);
  }

  /** Once every document is seen, `used` is exactly the set of ids. */
  lemma AllIndexed(ids: seq<WorkspaceId>, used: set<WorkspaceId>, order: seq<WorkspaceId>, index: map<WorkspaceId, nat>, idxNxt: nat)
    requires Indexed(ids, |ids|, used, order, index, idxNxt)
    ensures order == FirstOccurrences(ids)
    ensures used == set x | x in ids
  {
    assert ids[..|ids|] == ids;
    forall x
      ensures x in used <==> x in ids
    {
      InFirstOccurrences(ids, x);
    }
  }

  /** The results map after the tasks that got as far as line 137 stored their
      results, in the order `stored`: task `k` stores the workspace whose id is
      `order[k]` under key `k`. A task whose name lookup raised never stores
      anything, so its index is absent from `stored`. */
  function Completed(order: seq<WorkspaceId>, stored: seq<nat>): (results: map<nat, WorkspaceId>)
    requires forall j :: 0 <= j < |stored| ==> stored[j] < |order|
    ensures forall k :: k in results <==> k in stored
    ensures forall k :: k in results ==> k < |order| && results[k] == order[k]
  {
    if stored == [] then map[]
    else
      var k := stored[|stored| - 1];
      Completed(order, stored[..|stored| - 1])[k := order[k]]
  }

  /** The consumer loop of `get_workspaces` (lines 148-151): yield `results[i]`
      for `i` from 0 up to `n`, blocking at the first index whose task has not
      stored its result yet (the model stops there). */
  method YieldInOrder(results: map<nat, WorkspaceId>, n: nat) returns (out: seq<WorkspaceId>)
    ensures |out| <= n
    ensures forall k :: 0 <= k < |out| ==> k in results && out[k] == results[k]
    ensures |out| < n ==> |out| !in results
  {
    out := [];
    var i := 0;
    while i < n && i in results
      invariant i <= n && |out| == i
      invariant forall k :: 0 <= k < i ==> k in results && out[k] == results[k]
    {
      out := out + [results[i]];
      i := i + 1;
    }
  }

  /** `get_workspaces` over the workspace ids of the listed documents, where
      the tasks in `stored` (any subset, in any order) have stored their
      results. What it yields is a prefix of the distinct ids in
      first-occurrence order, each of them a stored result, and all of them
      once every task has stored its result. */
  method GetWorkspaces(ids: seq<WorkspaceId>, stored: seq<nat>) returns (out: seq<WorkspaceId>)
    requires forall j :: 0 <= j < |stored| ==> stored[j] < |FirstOccurrences(ids)|
    ensures out <= FirstOccurrences(ids)
    ensures forall k :: 0 <= k < |out| ==> k in stored
    ensures |out| < |FirstOccurrences(ids)| ==> |out| !in stored
    ensures (forall k :: 0 <= k < |FirstOccurrences(ids)| ==> k in stored) ==>
      out == FirstOccurrences(ids)
  {
    var order, index, idxNxt := AssignIndices(ids);
    var results := Completed(order, stored);
    out := YieldInOrder(results, idxNxt);
  }
}
