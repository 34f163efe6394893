/** Reading the whole customer roster page by page: the GraphQL query that
    `fetchCustomers` sends for a cursor (server.js:93-110) and the loop of
    `getAllCustomers` that follows the cursors (server.js:112-124). The remote
    store is a function from the query text to the page it answers with, or to
    the error that `gql` throws (server.js:88). */
module Pagination {
  import opened Wrappers
  import opened Customers

  /** Why a page request throws: the response carried GraphQL `errors`, the
      transport or JSON decoding failed, or the page lacked its `customers` data. */
  datatype FetchError = GraphQLError | TransportError | MalformedPage

  /** The remote store, as seen for the duration of one roster read. */
  type Source = string -> Result<Page, FetchError>

  /** The number of customers each request asks for. */
  const PageSize: nat := 100

  /** `limit` when `getAllCustomers` is called without one, as the `/customers` route does. */
  const DefaultLimit: int := 1000

  // ---------------------------------------------------------------------------
  // The query text of `fetchCustomers`

  const FirstArgument: string := "first: 100"
  const AfterPrefix: string := ", after: \""

  const QueryHead: string := "\n    query {\n      customers("
  const QueryTail: string :=
    ") {\n        pageInfo { hasNextPage endCursor }\n        nodes {\n          email\n"
    + "          displayName\n          note\n          defaultAddress { company }\n"
    + "          metafields(first: 10, namespace: \"custom\") {\n            nodes { key value }\n"
    + "          }\n        }\n      }\n    }\n  "

  /** The arguments of `customers(...)`: always `first: 100`, then
      `, after: "<cursor>"` when the cursor is truthy. The cursor is inserted
      as it is, without escaping. */
  function CustomersArguments(after: Option<string>): (r: string)
    ensures |FirstArgument| <= |r| && r[..|FirstArgument|] == FirstArgument
    ensures |r| == |FirstArgument| <==> !Truthy(after)
  {
    FirstArgument + (if Truthy(after) then AfterPrefix + after.value + "\"" else "")
  }

  /** The query `fetchCustomers(after)` posts. */
  function CustomersQuery(after: Option<string>): (r: string)
  {
    QueryHead + CustomersArguments(after) + QueryTail
  }

  /** The cursor as the query sees it: a falsy cursor (`null` or `""`) is no cursor. */
  function EffectiveCursor(after: Option<string>): (r: Option<string>)
    ensures Truthy(after) ==> r == after
    ensures !Truthy(after) ==> r.None?
  {
    if Truthy(after) then after else None
  }

  /** Reads the cursor back out of the arguments of `customers(...)`. */
  function AfterArgument(args: string): Option<string> {
    var n := |FirstArgument| + |AfterPrefix|;
    if |args| > n && args[..n] == FirstArgument + AfterPrefix && args[|args| - 1] == '"'
    then Some(args[n..|args| - 1])
    else None
  }

  /** The arguments always begin with `first: 100`, and the cursor can be read
      back from them exactly when it is truthy. */
  lemma ArgumentsRoundTrip(after: Option<string>)
    ensures CustomersArguments(after)[..|FirstArgument|] == FirstArgument
    ensures AfterArgument(CustomersArguments(after)) == EffectiveCursor(after)
  {
    var args := CustomersArguments(after);
    var n := |FirstArgument| + |AfterPrefix|;
    if Truthy(after) {
      assert args == (FirstArgument + AfterPrefix) + after.value + "\"";
      assert args[..n] == FirstArgument + AfterPrefix;
      assert args[n..|args| - 1] == after.value;
    }
  }

  /** Two cursors produce the same request exactly when they agree once a falsy
      cursor is read as no cursor: `null` and `""` both start from the beginning. */
  lemma QueryDeterminesCursor(a: Option<string>, b: Option<string>)
    ensures CustomersQuery(a) == CustomersQuery(b) <==> EffectiveCursor(a) == EffectiveCursor(b)
  {
    var qa, qb := CustomersQuery(a), CustomersQuery(b);
    ArgumentsRoundTrip(a);
    ArgumentsRoundTrip(b);
    if qa == qb {
      assert CustomersArguments(a) == qa[|QueryHead|..|qa| - |QueryTail|];
      assert CustomersArguments(b) == qb[|QueryHead|..|qb| - |QueryTail|];
    }
  }

  // ---------------------------------------------------------------------------
  // The loop of `getAllCustomers`, as a function of the pages read so far

  /** The last page read. */
  function LastPage(ps: seq<Page>): Page
    requires ps != []
  {
    ps[|ps| - 1]
  }

  /** What `all` holds after the pages `ps`: their nodes, in page order. */
  function Flatten(ps: seq<Page>): (r: seq<Customer>)
    decreases |ps|
  {
    if ps == [] then [] else Flatten(ps[..|ps| - 1]) + LastPage(ps).nodes
  }

  /** What `after` holds after the pages `ps`: `null` at first, then the last page's `endCursor`. */
  function NextCursor(ps: seq<Page>): (r: Option<string>)
    ensures ps == [] ==> r.None?
  {
    if ps == [] then None else LastPage(ps).endCursor
  }

  /** The loop guard `hasNext && all.length < limit` after the pages `ps`. */
  predicate MoreRequested(ps: seq<Page>, limit: int)
  {
    (ps == [] || LastPage(ps).hasNextPage) && |Flatten(ps)| < limit
  }

  /** The outcome of the first `k` turns of the loop: the pages read, or the
      error that ended it. A loop that has left its guard stays where it is. */
  function Fetched(src: Source, limit: int, k: nat): (r: Result<seq<Page>, FetchError>)
    ensures k == 0 ==> r == Success([])
    ensures r.Success? ==> |r.value| <= k
    decreases k
  {
    if k == 0 then Success([])
    else
      match Fetched(src, limit, k - 1)
      case Failure(e) => Failure(e)
      case Success(ps) =>
        if !MoreRequested(ps, limit) then Success(ps)
        else
          match src(CustomersQuery(NextCursor(ps)))
          case Failure(e) => Failure(e)
          case Success(p) => Success(ps + [p])
  }

  /** After `k` turns the loop has stopped: a request failed or the guard is false. */
  predicate Halts(src: Source, limit: int, k: nat) {
    match Fetched(src, limit, k)
    case Failure(_) => true
    case Success(ps) => !MoreRequested(ps, limit)
  }

  /** What `getAllCustomers` resolves to: the nodes of the pages read, or the
      rejection, with no partial list. */
  function Roster(r: Result<seq<Page>, FetchError>): (all: Result<seq<Customer>, FetchError>)
    ensures all.Failure? <==> r.Failure?
    ensures r.Failure? ==> all.error == r.error
  {
    match r
    case Failure(e) => Failure(e)
    case Success(ps) => Success(Flatten(ps))
  }

  /** `getAllCustomers(limit)`. The remote store need not ever report the last
      page, so the loop's termination is the caller's assumption: `bound` is a
      number of turns after which it has stopped. */
  method GetAllCustomers(src: Source, limit: int, ghost bound: nat) returns (r: Result<seq<Customer>, FetchError>)
    requires Halts(src, limit, bound)
    ensures r == Roster(Fetched(src, limit, bound))
  {
    var all: seq<Customer> := [];
    var after: Option<string> := None;
    var hasNext := true;
    ghost var pages: seq<Page> := [];
    ghost var k: nat := 0;
    while hasNext && |all| < limit
      invariant Fetched(src, limit, k) == Success(pages)
      invariant all == Flatten(pages) && after == NextCursor(pages)
      invariant hasNext == (pages == [] || LastPage(pages).hasNextPage)
      invariant k <= bound
      decreases bound - k
    {
      assert MoreRequested(pages, limit);
      TurnsOn(src, limit, k, pages);
      var data := src(CustomersQuery(after));
      if data.Failure? {
        FailedTurnResult(src, limit, k, pages, bound);
        return Failure(data.error);
      }
      FetchedStep(src, limit, k, pages, data.value);
      PageAppended(pages, data.value);
      all := all + data.value.nodes;
      hasNext := data.value.hasNextPage;
      after := data.value.endCursor;
      pages := pages + [data.value];
      k := k + 1;
    }
    StoppedResult(src, limit, k, pages, bound);
    r := Success(all);
  }

  /** Appending a page: it becomes the last one, its nodes follow the earlier
      ones and its cursor is the next one. */
  lemma PageAppended(ps: seq<Page>, p: Page)
    ensures LastPage(ps + [p]) == p && NextCursor(ps + [p]) == p.endCursor
    ensures Flatten(ps + [p]) == Flatten(ps) + p.nodes
  {
    assert (ps + [p])[..|ps|] == ps;
  }

  /** While the guard holds, the loop has not stopped. */
  lemma TurnsOn(src: Source, limit: int, k: nat, ps: seq<Page>)
    requires Fetched(src, limit, k) == Success(ps) && MoreRequested(ps, limit)
    ensures !Halts(src, limit, k)
  {
  }

  /** One more turn of the loop, when the guard holds and the request succeeds. */
  lemma FetchedStep(src: Source, limit: int, k: nat, ps: seq<Page>, p: Page)
    requires Fetched(src, limit, k) == Success(ps) && MoreRequested(ps, limit)
    requires src(CustomersQuery(NextCursor(ps))) == Success(p)
    ensures Fetched(src, limit, k + 1) == Success(ps + [p])
  {
  }

  /** A failing request ends the loop on the next turn, with its error. */
  lemma FailedTurn(src: Source, limit: int, k: nat, ps: seq<Page>)
    requires Fetched(src, limit, k) == Success(ps) && MoreRequested(ps, limit)
    requires src(CustomersQuery(NextCursor(ps))).Failure?
    ensures Fetched(src, limit, k + 1) == Failure(src(CustomersQuery(NextCursor(ps))).error)
    ensures Halts(src, limit, k + 1)
  {
  }

  /** A failing request at turn `k` is what the loop resolves to. */
  lemma FailedTurnResult(src: Source, limit: int, k: nat, ps: seq<Page>, bound: nat)
    requires Fetched(src, limit, k) == Success(ps) && MoreRequested(ps, limit)
    requires src(CustomersQuery(NextCursor(ps))).Failure? && k < bound
    ensures Roster(Fetched(src, limit, bound)) == Failure(src(CustomersQuery(NextCursor(ps))).error)
  {
    FailedTurn(src, limit, k, ps);
    FetchedStable(src, limit, k + 1, bound);
  }

  /** Pages on which the guard fails at turn `k` are what the loop resolves to. */
  lemma StoppedResult(src: Source, limit: int, k: nat, ps: seq<Page>, bound: nat)
    requires Fetched(src, limit, k) == Success(ps) && !MoreRequested(ps, limit) && k <= bound
    ensures Roster(Fetched(src, limit, bound)) == Success(Flatten(ps))
  {
    FetchedStable(src, limit, k, bound);
  }

  /** Once the loop has stopped, further turns change nothing. */
  lemma {:induction false} FetchedStable(src: Source, limit: int, k: nat, k': nat)
    requires Halts(src, limit, k) && k <= k'
    ensures Fetched(src, limit, k') == Fetched(src, limit, k)
    ensures Halts(src, limit, k')
    decreases k'
  {
    if k' > k {
      FetchedStable(src, limit, k, k' - 1);
    }
  }

  // ---------------------------------------------------------------------------
  // What the loop reads

  /** `ps` is a run of pages the loop reads from `src`: before each request the
      guard held, and each page is the answer to the query built from the cursor
      of the page before it (`null` for the first). */
  ghost predicate IsChain(src: Source, limit: int, ps: seq<Page>)
    decreases |ps|
  {
    ps == [] ||
    (var before := ps[..|ps| - 1];
     IsChain(src, limit, before) && MoreRequested(before, limit)
     && src(CustomersQuery(NextCursor(before))) == Success(LastPage(ps)))
  }

  lemma ChainExtend(src: Source, limit: int, ps: seq<Page>, p: Page)
    requires IsChain(src, limit, ps)
    requires MoreRequested(ps, limit) && src(CustomersQuery(NextCursor(ps))) == Success(p)
    ensures IsChain(src, limit, ps + [p])
  {
    assert (ps + [p])[..|ps|] == ps;
  }

  lemma PrefixExtend(ps: seq<Page>, m: nat)
    requires m < |ps|
    ensures ps[..m] + [ps[m]] == ps[..m + 1]
  {
  }

  /** A chain, read page by page: before page `i` the guard held, and page `i`
      answers the query built from the pages before it. */
  lemma {:induction false} ChainAt(src: Source, limit: int, ps: seq<Page>, i: nat)
    requires IsChain(src, limit, ps) && i < |ps|
    ensures MoreRequested(ps[..i], limit) && src(CustomersQuery(NextCursor(ps[..i]))) == Success(ps[i])
    decreases |ps|
  {
    var before := ps[..|ps| - 1];
    if i < |before| {
      ChainAt(src, limit, before, i);
      assert before[..i] == ps[..i];
    }
  }

  /** The pages every turn of the loop has read form a chain. */
  lemma {:induction false} FetchedPagesChain(src: Source, limit: int, k: nat)
    ensures Fetched(src, limit, k).Success? ==> IsChain(src, limit, Fetched(src, limit, k).value)
    decreases k
  {
    if k > 0 {
      FetchedPagesChain(src, limit, k - 1);
      match Fetched(src, limit, k - 1)
      case Failure(_) =>
      case Success(ps) =>
        if MoreRequested(ps, limit) {
          match src(CustomersQuery(NextCursor(ps)))
          case Failure(_) =>
          case Success(p) => ChainExtend(src, limit, ps, p);
        }
    }
  }

  /** A failure the loop ends with is the answer to the request a chain called
      for next; the lemma returns that chain. */
  lemma {:induction false} FailedAfter(src: Source, limit: int, k: nat) returns (ps: seq<Page>)
    requires Fetched(src, limit, k).Failure?
    ensures IsChain(src, limit, ps) && MoreRequested(ps, limit)
    ensures src(CustomersQuery(NextCursor(ps))) == Failure(Fetched(src, limit, k).error)
    decreases k
  {
    if Fetched(src, limit, k - 1).Failure? {
      ps := FailedAfter(src, limit, k - 1);
    } else {
      ps := Fetched(src, limit, k - 1).value;
      FetchedPagesChain(src, limit, k - 1);
    }
  }

  /** Every turn of the loop follows the chain: the pages read so far form one,
      and a failure is the answer to the request the chain called for next. */
  lemma FetchedIsChain(src: Source, limit: int, k: nat)
    ensures match Fetched(src, limit, k)
            case Success(ps) => IsChain(src, limit, ps) && |ps| <= k
            case Failure(e) => exists ps :: IsChain(src, limit, ps) && MoreRequested(ps, limit)
                                            && src(CustomersQuery(NextCursor(ps))) == Failure(e)
  {
    FetchedPagesChain(src, limit, k);
    if Fetched(src, limit, k).Failure? {
      var ps := FailedAfter(src, limit, k);
    }
  }

  /** `getAllCustomers` resolves to the nodes, in page order and untruncated, of a
      chain that ends where the guard fails (the last page says there is no next
      one, or `limit` customers have been read); it rejects, without a partial
      list, exactly with the error of the request that failed. */
  lemma RosterIsChain(src: Source, limit: int, k: nat)
    requires Halts(src, limit, k)
    ensures match Roster(Fetched(src, limit, k))
            case Success(all) => exists ps :: IsChain(src, limit, ps) && all == Flatten(ps)
                                              && !MoreRequested(ps, limit)
            case Failure(e) => exists ps :: IsChain(src, limit, ps) && MoreRequested(ps, limit)
                                            && src(CustomersQuery(NextCursor(ps))) == Failure(e)
  {
    FetchedIsChain(src, limit, k);
  }

  /** Two chains agree on their first `n` pages. */
  lemma {:induction false} ChainsAgreeUpTo(src: Source, limit: int, ps: seq<Page>, qs: seq<Page>, n: nat)
    requires IsChain(src, limit, ps) && IsChain(src, limit, qs) && n <= |ps| && n <= |qs|
    ensures ps[..n] == qs[..n]
    decreases n
  {
    if n > 0 {
      var m := n - 1;
      ChainsAgreeUpTo(src, limit, ps, qs, m);
      ChainAt(src, limit, ps, m);
      ChainAt(src, limit, qs, m);
      PrefixExtend(ps, m);
      PrefixExtend(qs, m);
    }
  }

  /** The remote store answers each query one way, so two chains agree as far as
      the shorter one goes. */
  lemma ChainsAgree(src: Source, limit: int, ps: seq<Page>, qs: seq<Page>)
    requires IsChain(src, limit, ps) && IsChain(src, limit, qs) && |ps| <= |qs|
    ensures ps == qs[..|ps|]
  {
    ChainsAgreeUpTo(src, limit, ps, qs, |ps|);
    assert ps[..|ps|] == ps;
  }

  /** A chain that has stopped is the only one: the roster described by
      `RosterIsChain` is fully determined by the store and the limit. */
  lemma StoppedChainUnique(src: Source, limit: int, ps: seq<Page>, qs: seq<Page>)
    requires IsChain(src, limit, ps) && !MoreRequested(ps, limit)
    requires IsChain(src, limit, qs) && !MoreRequested(qs, limit)
    ensures ps == qs
  {
    if |ps| < |qs| {
      ChainNextAnswered(src, limit, qs, ps);
      assert false;
    } else if |qs| < |ps| {
      ChainNextAnswered(src, limit, ps, qs);
      assert false;
    } else {
      ChainsAgree(src, limit, ps, qs);
    }
  }

  /** A chain shorter than another is its prefix, the guard held after it, and
      its next request was answered with the next page of the longer chain. */
  lemma ChainNextAnswered(src: Source, limit: int, ps: seq<Page>, qs: seq<Page>)
    requires IsChain(src, limit, ps) && IsChain(src, limit, qs) && |qs| < |ps|
    ensures qs == ps[..|qs|] && MoreRequested(qs, limit)
    ensures src(CustomersQuery(NextCursor(qs))) == Success(ps[|qs|])
  {
    ChainsAgree(src, limit, qs, ps);
    ChainAt(src, limit, ps, |qs|);
  }

  /** A chain on which the loop still asks for more lies strictly inside a
      stopped chain, so its next request succeeds: once the loop has reached its
      end on some chain, no request on the way there can have failed. */
  lemma StoppedExcludesFailing(src: Source, limit: int, ps: seq<Page>, qs: seq<Page>)
    requires IsChain(src, limit, ps) && !MoreRequested(ps, limit)
    requires IsChain(src, limit, qs) && MoreRequested(qs, limit)
    ensures |qs| < |ps| && qs == ps[..|qs|]
    ensures src(CustomersQuery(NextCursor(qs))) == Success(ps[|qs|])
  {
    if |qs| == |ps| {
      assert qs[..|ps|] == qs;
      ChainsAgree(src, limit, ps, qs);
      assert false;
    } else if |ps| < |qs| {
      ChainNextAnswered(src, limit, qs, ps);
      assert false;
    }
    ChainNextAnswered(src, limit, ps, qs);
  }

  /** Two chains whose next requests both fail are the same chain. */
  lemma FailingChainUnique(src: Source, limit: int, ps: seq<Page>, qs: seq<Page>)
    requires IsChain(src, limit, ps) && MoreRequested(ps, limit) && src(CustomersQuery(NextCursor(ps))).Failure?
    requires IsChain(src, limit, qs) && MoreRequested(qs, limit) && src(CustomersQuery(NextCursor(qs))).Failure?
    ensures ps == qs
  {
    if |ps| < |qs| {
      ChainNextAnswered(src, limit, qs, ps);
      assert false;
    } else if |qs| < |ps| {
      ChainNextAnswered(src, limit, ps, qs);
      assert false;
    } else {
      ChainsAgree(src, limit, ps, qs);
    }
  }

  /** The converse of `RosterIsChain` for success: a stopped chain of the store
      is what `getAllCustomers` resolves to. */
  lemma StoppedChainSucceeds(src: Source, limit: int, k: nat, ps: seq<Page>)
    requires Halts(src, limit, k)
    requires IsChain(src, limit, ps) && !MoreRequested(ps, limit)
    ensures Roster(Fetched(src, limit, k)) == Success(Flatten(ps))
  {
    FetchedPagesChain(src, limit, k);
    match Fetched(src, limit, k)
    case Success(qs) =>
      StoppedChainUnique(src, limit, ps, qs);
    case Failure(e) =>
      var qs := FailedAfter(src, limit, k);
      StoppedExcludesFailing(src, limit, ps, qs);
      assert false;
  }

  /** The converse of `RosterIsChain` for failure: if a request the loop makes
      on its chain fails, `getAllCustomers` rejects with that request's error. */
  lemma FailingRequestFails(src: Source, limit: int, k: nat, qs: seq<Page>)
    requires Halts(src, limit, k)
    requires IsChain(src, limit, qs) && MoreRequested(qs, limit)
    requires src(CustomersQuery(NextCursor(qs))).Failure?
    ensures Roster(Fetched(src, limit, k)) == Failure(src(CustomersQuery(NextCursor(qs))).error)
  {
    FetchedPagesChain(src, limit, k);
    match Fetched(src, limit, k)
    case Success(ps) =>
      StoppedExcludesFailing(src, limit, ps, qs);
      assert false;
    case Failure(e) =>
      var rs := FailedAfter(src, limit, k);
      FailingChainUnique(src, limit, qs, rs);
  }

  /** From a chain to the store's halting: the loop reads every chain one page
      per turn, so a stopped chain or a failing request bounds its turns. */
  lemma {:induction false} ChainFetched(src: Source, limit: int, ps: seq<Page>, n: nat)
    requires IsChain(src, limit, ps) && n <= |ps|
    ensures Fetched(src, limit, n) == Success(ps[..n])
    decreases n
  {
    if n > 0 {
      var m := n - 1;
      ChainFetched(src, limit, ps, m);
      ChainAt(src, limit, ps, m);
      FetchedStep(src, limit, m, ps[..m], ps[m]);
      PrefixExtend(ps, m);
    }
  }

  /** A stopped chain is what the loop has read after as many turns as it has
      pages, and the loop has halted there. */
  lemma StoppedChainHalts(src: Source, limit: int, ps: seq<Page>)
    requires IsChain(src, limit, ps) && !MoreRequested(ps, limit)
    ensures Fetched(src, limit, |ps|) == Success(ps) && Halts(src, limit, |ps|)
  {
    ChainFetched(src, limit, ps, |ps|);
    assert ps[..|ps|] == ps;
  }

  /** A request that fails on a chain ends the loop one turn after the chain. */
  lemma FailingChainHalts(src: Source, limit: int, qs: seq<Page>)
    requires IsChain(src, limit, qs) && MoreRequested(qs, limit)
    requires src(CustomersQuery(NextCursor(qs))).Failure?
    ensures Halts(src, limit, |qs| + 1)
    ensures Fetched(src, limit, |qs| + 1) == Failure(src(CustomersQuery(NextCursor(qs))).error)
  {
    ChainFetched(src, limit, qs, |qs|);
    assert qs[..|qs|] == qs;
  }

  lemma FlattenLength(ps: seq<Page>)
    requires 0 < |ps|
    ensures |Flatten(ps)| == |Flatten(ps[..|ps| - 1])| + |LastPage(ps).nodes|
  {
  }

  /** The limit is checked only before a request and nothing is cut off, so the
      roster can pass `limit` by less than the size of the last page read. When
      `limit` is positive at least one page is read, the first with the `null`
      cursor; when it is not, nothing is requested. */
  lemma RosterSize(src: Source, limit: int, k: nat)
    requires Halts(src, limit, k) && Fetched(src, limit, k).Success?
    ensures var ps := Fetched(src, limit, k).value;
            (limit <= 0 <==> ps == []) &&
            (ps != [] ==> |Flatten(ps)| < limit + |LastPage(ps).nodes|
                          && src(CustomersQuery(None)) == Success(ps[0]))
  {
    var ps := Fetched(src, limit, k).value;
    FetchedIsChain(src, limit, k);
    if ps != [] {
      var n := |ps| - 1;
      ChainAt(src, limit, ps, n);
      ChainAt(src, limit, ps, 0);
      assert ps[..0] == [];
    }
  }

  /** With pages of at most `PageSize` customers, as the query asks for, the
      roster holds fewer than `limit + 100` customers. */
  lemma RosterBelowLimitPlusPage(src: Source, limit: int, k: nat)
    requires Halts(src, limit, k) && Fetched(src, limit, k).Success?
    requires forall i :: 0 <= i < |Fetched(src, limit, k).value| ==> |Fetched(src, limit, k).value[i].nodes| <= PageSize
    ensures |Flatten(Fetched(src, limit, k).value)| < if limit <= 0 then 1 else limit + PageSize
  {
    var ps := Fetched(src, limit, k).value;
    RosterSize(src, limit, k);
    if ps != [] {
      FlattenLength(ps);
      assert |LastPage(ps).nodes| <= PageSize;
    }
  }

  // ---------------------------------------------------------------------------
  // A three-page roster of 100, 100 and 37 customers

  const Blank: Customer := Customer(None, None, None, None, None)

  function Blanks(n: nat): (r: seq<Customer>)
    ensures |r| == n
  {
    seq(n, _ => Blank)
  }

  const FirstPage: Page := Page(Blanks(100), true, Some("c1"))
  const SecondPage: Page := Page(Blanks(100), true, Some("c2"))
  const ThirdPage: Page := Page(Blanks(37), false, None)

  /** A store holding the three pages behind cursors "c1" and "c2"; with
      `failSecond` its answer to the second request carries GraphQL errors. */
  function ThreePages(failSecond: bool): Source {
    q => if q == CustomersQuery(None) then Success(FirstPage)
         else if q == CustomersQuery(Some("c1")) then (if failSecond then Failure(GraphQLError) else Success(SecondPage))
         else if q == CustomersQuery(Some("c2")) then Success(ThirdPage)
         else Failure(TransportError)
  }

  lemma ThreePagesAnswers(failSecond: bool)
    ensures ThreePages(failSecond)(CustomersQuery(None)) == Success(FirstPage)
    ensures ThreePages(failSecond)(CustomersQuery(Some("c1")))
            == if failSecond then Failure(GraphQLError) else Success(SecondPage)
    ensures ThreePages(failSecond)(CustomersQuery(Some("c2"))) == Success(ThirdPage)
  {
    QueryDeterminesCursor(None, Some("c1"));
    QueryDeterminesCursor(None, Some("c2"));
    QueryDeterminesCursor(Some("c1"), Some("c2"));
  }

  lemma FlattenOne(p: Page)
    ensures Flatten([p]) == p.nodes
  {
    assert [p][..0] == [];
  }

  lemma FlattenTwo(p: Page, q: Page)
    ensures Flatten([p, q]) == p.nodes + q.nodes
  {
    assert [p, q][..1] == [p];
    FlattenOne(p);
  }

  lemma FlattenThree(p: Page, q: Page, r: Page)
    ensures Flatten([p, q, r]) == p.nodes + q.nodes + r.nodes
  {
    assert [p, q, r][..2] == [p, q];
    FlattenTwo(p, q);
  }

  /** The first two turns against the three-page store, for any limit above 100. */
  lemma ThreePagesFirstTurns(failSecond: bool, limit: int)
    requires limit > 100
    ensures Fetched(ThreePages(failSecond), limit, 1) == Success([FirstPage])
    ensures Fetched(ThreePages(failSecond), limit, 2)
            == if failSecond then Failure(GraphQLError) else Success([FirstPage, SecondPage])
  {
    var src := ThreePages(failSecond);
    ThreePagesAnswers(failSecond);
    var none: seq<Page> := [];
    assert none + [FirstPage] == [FirstPage];
    assert MoreRequested(none, limit) && NextCursor(none) == None;
    FetchedStep(src, limit, 0, none, FirstPage);
    FlattenOne(FirstPage);
    assert MoreRequested([FirstPage], limit) && NextCursor([FirstPage]) == Some("c1");
    if !failSecond {
      assert [FirstPage] + [SecondPage] == [FirstPage, SecondPage];
      FetchedStep(src, limit, 1, [FirstPage], SecondPage);
    }
  }

  /** With the default `limit` of 1000 all three pages are read: 237 customers, in order. */
  lemma ThreePagesUnderLimit()
    ensures Fetched(ThreePages(false), DefaultLimit, 3) == Success([FirstPage, SecondPage, ThirdPage])
    ensures Halts(ThreePages(false), DefaultLimit, 3)
    ensures Roster(Fetched(ThreePages(false), DefaultLimit, 3))
            == Success(FirstPage.nodes + SecondPage.nodes + ThirdPage.nodes)
    ensures |Flatten(Fetched(ThreePages(false), DefaultLimit, 3).value)| == 237
  {
    var src := ThreePages(false);
    ThreePagesAnswers(false);
    ThreePagesFirstTurns(false, DefaultLimit);
    FlattenTwo(FirstPage, SecondPage);
    assert MoreRequested([FirstPage, SecondPage], DefaultLimit) && NextCursor([FirstPage, SecondPage]) == Some("c2");
    assert [FirstPage, SecondPage] + [ThirdPage] == [FirstPage, SecondPage, ThirdPage];
    FetchedStep(src, DefaultLimit, 2, [FirstPage, SecondPage], ThirdPage);
    FlattenThree(FirstPage, SecondPage, ThirdPage);
  }

  /** With `limit` 150 the loop stops after the second page, before asking for
      the third, and returns all 200 customers it has read: the limit does not
      truncate. */
  lemma ThreePagesOverLimit()
    ensures Fetched(ThreePages(false), 150, 2) == Success([FirstPage, SecondPage])
    ensures Halts(ThreePages(false), 150, 2)
    ensures |Flatten(Fetched(ThreePages(false), 150, 2).value)| == 200
  {
    ThreePagesFirstTurns(false, 150);
    FlattenTwo(FirstPage, SecondPage);
  }

  /** An error on the second of three pages rejects the whole read; the 100
      customers of the first page are not returned. */
  lemma ThreePagesSecondFails()
    ensures Fetched(ThreePages(true), DefaultLimit, 2) == Failure(GraphQLError)
    ensures Halts(ThreePages(true), DefaultLimit, 2)
    ensures Roster(Fetched(ThreePages(true), DefaultLimit, 2)) == Failure(GraphQLError)
  {
    ThreePagesFirstTurns(true, DefaultLimit);
  }

  // ---------------------------------------------------------------------------
  // A store that never reports the last page

  const EmptyPage: Page := Page([], true, None)

  /** A store that answers every query with an empty page saying more follow. */
  function EndlessEmpty(query: string): Result<Page, FetchError> {
    Success(EmptyPage)
  }

  /** `n` such pages. */
  function EmptyPages(n: nat): (r: seq<Page>)
    ensures |r| == n
  {
    seq(n, _ => EmptyPage)
  }

  lemma {:induction false} FlattenEmptyPages(n: nat)
    ensures Flatten(EmptyPages(n)) == []
    decreases n
  {
    if n > 0 {
      FlattenEmptyPages(n - 1);
      assert EmptyPages(n)[..n - 1] == EmptyPages(n - 1);
    }
  }

  /** Against that store the loop reads one more empty page every turn. */
  lemma {:induction false} EmptyPagesFetched(limit: int, k: nat)
    requires limit > 0
    ensures Fetched(EndlessEmpty, limit, k) == Success(EmptyPages(k))
    decreases k
  {
    if k > 0 {
      EmptyPagesFetched(limit, k - 1);
      FlattenEmptyPages(k - 1);
      assert MoreRequested(EmptyPages(k - 1), limit);
      assert EmptyPages(k - 1) + [EmptyPage] == EmptyPages(k);
    }
  }

  /** With a positive limit, a store that keeps sending empty pages with
      `hasNextPage` set keeps the loop running: no number of turns ends it. */
  lemma EmptyPagesNeverHalt(limit: int, k: nat)
    requires limit > 0
    ensures !Halts(EndlessEmpty, limit, k)
  {
    EmptyPagesFetched(limit, k);
    FlattenEmptyPages(k);
  }
}
