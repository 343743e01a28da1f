/**
 The infinite-scroll hook of the content library (`useInfiniteLibrary` in ContentLibraryPage.tsx): requests
 answer in any order, and a request counter drops the answers that have been superseded.
 */
module InfiniteLibrary {
  import opened Prelude

  type Item = string

  /** One answer of the server; an empty cursor counts as none. */
  datatype Page = Page(items: seq<Item>, cursor: Option<string>)

  /** The server: the page of an endpoint at a cursor. The empty cursor asks for the first page. */
  type Server = (string, string) -> Page

  datatype Request = Request(endpoint: string, cursor: string, append: bool)

  datatype State = State(
    endpoint: Option<string>, items: seq<Item>, cursor: Option<string>, hasMore: bool,
    loadingInitial: bool, loadingMore: bool, error: Option<string>,
    reqId: nat, inFlight: map<nat, Request>)

  datatype Action =
    | ChangeEndpoint(to: Option<string>)
    | LoadMore
    | Succeed(id: nat)
    | Fail(id: nat, message: string)

  function OrEmpty(c: Option<string>): string {
    if c.Some? then c.value else ""
  }

  const INITIAL := State(None, [], None, false, false, false, None, 0, map[])

  function Send(s: State, r: Request): State {
    s.(reqId := s.reqId + 1, inFlight := s.inFlight[s.reqId + 1 := r])
  }

  /** What the page shows after an answer that is not superseded. */
  function Applied(s: State, r: Request, page: Page): State {
    s.(items := if r.append then s.items + page.items else page.items,
       cursor := page.cursor, hasMore := OrEmpty(page.cursor) != "", error := None,
       loadingInitial := false, loadingMore := false)
  }

  function Step(server: Server, s: State, a: Action): State {
    match a
    case ChangeEndpoint(to) =>
      if to == s.endpoint then s
      else if to.None? then INITIAL.(reqId := s.reqId + 1, inFlight := s.inFlight)
      else
        Send(s.(endpoint := to, loadingInitial := true, error := None, cursor := None, hasMore := false),
             Request(to.value, "", false))
    case LoadMore =>
      if !s.hasMore || s.loadingMore || s.loadingInitial || s.endpoint.None? then s
      else Send(s.(loadingMore := true), Request(s.endpoint.value, OrEmpty(s.cursor), true))
    case Succeed(id) =>
      if id !in s.inFlight then s
      else
        var answered := s.(inFlight := s.inFlight - {id});
        var r := s.inFlight[id];
        if id != s.reqId then answered else Applied(answered, r, server(r.endpoint, r.cursor))
    case Fail(id, message) =>
      if id !in s.inFlight then s
      else
        var answered := s.(inFlight := s.inFlight - {id});
        if id != s.reqId then answered
        else answered.(error := Some(message), loadingInitial := false, loadingMore := false)
  }

  function Run(server: Server, s: State, actions: seq<Action>): State {
    if actions == [] then s else Step(server, Run(server, s, actions[..|actions| - 1]), actions[|actions| - 1])
  }

  /** The hook with its state variables and its request counter. */
  class Library {
    const server: Server
    var endpoint: Option<string>
    var items: seq<Item>
    var cursor: Option<string>
    var hasMore: bool
    var loadingInitial: bool
    var loadingMore: bool
    var error: Option<string>
    var reqId: nat
    var inFlight: map<nat, Request>

    ghost function View(): State
      reads this
    {
      State(endpoint, items, cursor, hasMore, loadingInitial, loadingMore, error, reqId, inFlight)
    }

    constructor (server: Server)
      ensures this.server == server && View() == INITIAL
    {
      this.server := server;
      endpoint, items, cursor, hasMore := None, [], None, false;
      loadingInitial, loadingMore, error := false, false, None;
      reqId, inFlight := 0, map[];
    }

    method FetchPage(r: Request)
      modifies this`reqId, this`inFlight
      ensures View() == Send(old(View()), r)
    {
      reqId := reqId + 1;
      inFlight := inFlight[reqId := r];
    }

    method SetEndpoint(to: Option<string>)
      modifies this
      ensures View() == Step(server, old(View()), ChangeEndpoint(to))
    {
      if to == endpoint {
        return;
      }
      endpoint := to;
      if to.None? {
        reqId := reqId + 1;
        items, cursor, hasMore := [], None, false;
        loadingInitial, loadingMore, error := false, false, None;
        return;
      }
      loadingInitial, error, cursor, hasMore := true, None, None, false;
      FetchPage(Request(to.value, "", false));
    }

    method RequestMore()
      modifies this
      ensures View() == Step(server, old(View()), LoadMore)
    {
      if !hasMore || loadingMore || loadingInitial || endpoint.None? {
        return;
      }
      loadingMore := true;
      FetchPage(Request(endpoint.value, OrEmpty(cursor), true));
    }

    method OnAnswer(id: nat)
      modifies this
      ensures View() == Step(server, old(View()), Succeed(id))
    {
      if id !in inFlight {
        return;
      }
      var r := inFlight[id];
      inFlight := inFlight - {id};
      if id != reqId {
        return;
      }
      var page := server(r.endpoint, r.cursor);
      items := if r.append then items + page.items else page.items;
      cursor, hasMore, error := page.cursor, OrEmpty(page.cursor) != "", None;
      loadingInitial, loadingMore := false, false;
    }

    method OnFailure(id: nat, message: string)
      modifies this
      ensures View() == Step(server, old(View()), Fail(id, message))
    {
      if id !in inFlight {
        return;
      }
      inFlight := inFlight - {id};
      if id != reqId {
        return;
      }
      error := Some(message);
      loadingInitial, loadingMore := false, false;
    }
  }

  // ---------- The reference: the endpoint's pages ----------

  /** The cursor after `k` pages; empty at the start and at the end. */
  function CursorAfter(server: Server, e: string, k: nat): string {
    if k == 0 then "" else OrEmpty(server(e, CursorAfter(server, e, k - 1)).cursor)
  }

  /** The first `k` pages one after the other. */
  function FirstPages(server: Server, e: string, k: nat): seq<Item> {
    if k == 0 then [] else FirstPages(server, e, k - 1) + server(e, CursorAfter(server, e, k - 1)).items
  }

  /** Page `k` exists: no earlier page was the last. */
  ghost predicate HasPage(server: Server, e: string, k: nat) {
    k >= 1 && forall j | 1 <= j < k :: CursorAfter(server, e, j) != ""
  }

  /** The items are exactly the first `k` pages and the cursor is the one after them. */
  ghost predicate ShowsPages(server: Server, s: State, k: nat) {
    s.endpoint.Some?
    && HasPage(server, s.endpoint.value, k)
    && s.items == FirstPages(server, s.endpoint.value, k)
    && OrEmpty(s.cursor) == CursorAfter(server, s.endpoint.value, k)
    && s.hasMore == (OrEmpty(s.cursor) != "")
  }

  ghost predicate ShowsSome(server: Server, s: State) {
    exists k: nat :: ShowsPages(server, s, k)
  }

  // ---------- What every reachable state satisfies ----------

  /** A loading flag is set exactly while the latest request is under way, and says which request it is. */
  ghost predicate FlagsExact(s: State) {
    (forall id | id in s.inFlight :: id <= s.reqId)
    && (s.loadingInitial || s.loadingMore <==> s.reqId in s.inFlight)
    && (s.loadingInitial ==> s.endpoint.Some? && !s.hasMore && s.inFlight[s.reqId] == Request(s.endpoint.value, "", false))
    && (s.loadingMore && !s.loadingInitial ==>
          s.endpoint.Some? && s.hasMore && s.inFlight[s.reqId] == Request(s.endpoint.value, OrEmpty(s.cursor), true))
    && (s.endpoint.None? ==> s.items == [] && s.error.None? && !s.loadingMore && !s.hasMore)
  }

  ghost predicate Invariant(server: Server, s: State) {
    FlagsExact(s)
    && (s.endpoint.Some? && !s.loadingInitial && (s.error.None? || s.hasMore) ==> ShowsSome(server, s))
  }

  lemma StepKeepsFlags(server: Server, s: State, a: Action)
    requires FlagsExact(s)
    ensures FlagsExact(Step(server, s, a))
  {
  }

  lemma FirstPageShows(server: Server, s: State, e: string)
    requires s.endpoint == Some(e)
    ensures ShowsPages(server, Applied(s, Request(e, "", false), server(e, "")), 1)
  {
    assert FirstPages(server, e, 0) + server(e, "").items == server(e, "").items;
    assert CursorAfter(server, e, 0) == "";
  }

  lemma NextPageShows(server: Server, s: State, k: nat)
    requires ShowsPages(server, s, k) && s.hasMore
    ensures var r := Request(s.endpoint.value, OrEmpty(s.cursor), true);
            ShowsPages(server, Applied(s, r, server(r.endpoint, r.cursor)), k + 1)
  {
  }

  lemma StepKeepsInvariant(server: Server, s: State, a: Action)
    requires Invariant(server, s)
    ensures Invariant(server, Step(server, s, a))
  {
    var t := Step(server, s, a);
    StepKeepsFlags(server, s, a);
    if a.Succeed? && a.id in s.inFlight && a.id == s.reqId {
      var answered := s.(inFlight := s.inFlight - {a.id});
      if s.loadingInitial {
        FirstPageShows(server, answered, s.endpoint.value);
        assert ShowsPages(server, t, 1);
      } else {
        var k: nat :| ShowsPages(server, s, k);
        assert ShowsPages(server, answered, k);
        NextPageShows(server, answered, k);
        assert ShowsPages(server, t, k + 1);
      }
    } else if t.endpoint.Some? && !t.loadingInitial && (t.error.None? || t.hasMore) {
      var k: nat :| ShowsPages(server, s, k);
      assert ShowsPages(server, t, k);
    }
  }

  /**
   In every reachable state, for every order of answers and failures: a flag is set exactly while the latest
   request is under way, and unless the first page is pending or failed, the items are the first pages of
   the current endpoint, none lost, repeated or taken from another endpoint.
   */
  lemma {:induction false} EveryRunIsConsistent(server: Server, actions: seq<Action>)
    ensures Invariant(server, Run(server, INITIAL, actions))
  {
    if actions != [] {
      EveryRunIsConsistent(server, actions[..|actions| - 1]);
      StepKeepsInvariant(server, Run(server, INITIAL, actions[..|actions| - 1]), actions[|actions| - 1]);
    }
  }

  /** With nothing under way no spinner shows, and any answer to the latest request clears both. */
  lemma NoSpinnerSticks(server: Server, actions: seq<Action>, message: string)
    ensures var s := Run(server, INITIAL, actions);
            (s.inFlight == map[] ==> !s.loadingInitial && !s.loadingMore)
            && (s.reqId in s.inFlight ==>
                  forall a | a == Succeed(s.reqId) || a == Fail(s.reqId, message) ::
                    !Step(server, s, a).loadingInitial && !Step(server, s, a).loadingMore)
  {
    EveryRunIsConsistent(server, actions);
  }

  predicate Answers(a: Action, id: nat) {
    (a.Succeed? || a.Fail?) && a.id == id
  }

  function Drop(s: State, id: nat): State {
    s.(inFlight := s.inFlight - {id})
  }

  /** A superseded answer changes nothing but the set of requests under way. */
  lemma SupersededChangesNothing(server: Server, s: State, a: Action, id: nat)
    requires Answers(a, id) && id != s.reqId
    ensures Step(server, s, a) == Drop(s, id)
  {
    if id !in s.inFlight {
      assert s.inFlight - {id} == s.inFlight;
    }
  }

  lemma RemovalsCommute<V>(m: map<nat, V>, i: nat, j: nat)
    ensures m - {i} - {j} == m - {j} - {i}
  {
  }

  lemma DropCommutes(server: Server, s: State, i: nat, b: Action, j: nat)
    requires i != j && Answers(b, j)
    ensures Step(server, Drop(s, i), b) == Drop(Step(server, s, b), i)
    ensures Step(server, s, b).reqId == s.reqId
  {
    RemovalsCommute(s.inFlight, i, j);
    RemovalsCommute(s.inFlight, j, i);
  }

  lemma SupersededCommutes(server: Server, s: State, a: Action, b: Action, i: nat, j: nat)
    requires i != j && Answers(a, i) && Answers(b, j) && i != s.reqId
    ensures Step(server, Step(server, s, a), b) == Step(server, Step(server, s, b), a)
  {
    SupersededChangesNothing(server, s, a, i);
    DropCommutes(server, s, i, b, j);
    SupersededChangesNothing(server, Step(server, s, b), a, i);
  }

  /** Answers to different requests can be swapped. */
  lemma AnswersCommute(server: Server, s: State, a: Action, b: Action, i: nat, j: nat)
    requires i != j && Answers(a, i) && Answers(b, j)
    ensures Step(server, Step(server, s, a), b) == Step(server, Step(server, s, b), a)
  {
    if i != s.reqId {
      SupersededCommutes(server, s, a, b, i, j);
    } else {
      SupersededCommutes(server, s, b, a, j, i);
    }
  }

  // ---------- Exhausting a search ----------

  /** The search is over: nothing pending, no error, no further page. */
  predicate Exhausted(s: State) {
    s.endpoint.Some? && !s.loadingInitial && !s.loadingMore && s.error.None? && !s.hasMore
  }

  lemma LastPageUnique(server: Server, e: string, j: nat, k: nat)
    requires HasPage(server, e, j) && CursorAfter(server, e, j) == ""
    requires HasPage(server, e, k) && CursorAfter(server, e, k) == ""
    ensures j == k
  {
  }

  /** Two exhausted searches of one endpoint show the same items, however their requests were interleaved. */
  lemma ExhaustedShowsAllPages(server: Server, run1: seq<Action>, run2: seq<Action>)
    requires var s, t := Run(server, INITIAL, run1), Run(server, INITIAL, run2);
             Exhausted(s) && Exhausted(t) && s.endpoint == t.endpoint
    ensures Run(server, INITIAL, run1).items == Run(server, INITIAL, run2).items
    ensures exists k: nat :: HasPage(server, Run(server, INITIAL, run1).endpoint.value, k)
                             && CursorAfter(server, Run(server, INITIAL, run1).endpoint.value, k) == ""
                             && Run(server, INITIAL, run1).items == FirstPages(server, Run(server, INITIAL, run1).endpoint.value, k)
  {
    var s, t := Run(server, INITIAL, run1), Run(server, INITIAL, run2);
    EveryRunIsConsistent(server, run1);
    EveryRunIsConsistent(server, run2);
    var j: nat :| ShowsPages(server, s, j);
    var k: nat :| ShowsPages(server, t, k);
    LastPageUnique(server, s.endpoint.value, j, k);
  }

  /** While the first page of a new endpoint is pending or has failed, the previous endpoint's items stay on show. */
  lemma StaleItemsUntilFirstPage(server: Server, s: State, e: string, message: string)
    requires FlagsExact(s) && s.endpoint != Some(e)
    ensures var pending := Step(server, s, ChangeEndpoint(Some(e)));
            var failed := Step(server, pending, Fail(pending.reqId, message));
            pending.items == s.items && failed.items == s.items
            && failed.error == Some(message) && !failed.hasMore
            && Step(server, failed, LoadMore) == failed
  {
  }

  // ---------- What each step asks for and shows ----------

  /** A search is on, nothing is pending and pages are on show. */
  ghost predicate Idle(server: Server, s: State, k: nat) {
    ShowsPages(server, s, k) && !s.loadingInitial && !s.loadingMore
  }

  /** Loading more does nothing exactly when there is no further page or a request is pending. */
  lemma LoadMoreIgnoredExactlyWhen(server: Server, s: State)
    ensures Step(server, s, LoadMore) == s <==> !s.hasMore || s.loadingMore || s.loadingInitial || s.endpoint.None?
  {
    assert Step(server, s, LoadMore) != s ==> Step(server, s, LoadMore).reqId == s.reqId + 1;
  }

  /** Otherwise it asks for the page behind the cursor, under a new number, and says so. */
  lemma LoadMoreAsks(server: Server, s: State, k: nat)
    requires Idle(server, s, k) && s.hasMore
    ensures var t := Step(server, s, LoadMore);
            t.loadingMore && !t.loadingInitial && t.reqId == s.reqId + 1 && ShowsPages(server, t, k)
            && t.inFlight.Keys == s.inFlight.Keys + {t.reqId}
            && t.inFlight[t.reqId] == Request(s.endpoint.value, CursorAfter(server, s.endpoint.value, k), true)
  {
  }

  /** The next page loads: one more page is on show and nothing is pending. */
  lemma NextPageLoads(server: Server, s: State, k: nat)
    requires Idle(server, s, k) && s.hasMore
    ensures var t := Run(server, s, [LoadMore, Succeed(s.reqId + 1)]);
            Idle(server, t, k + 1) && t.endpoint == s.endpoint && t.error.None?
  {
    var asked := Step(server, s, LoadMore);
    LoadMoreAsks(server, s, k);
    RunTwo(server, s, LoadMore, Succeed(s.reqId + 1));
    NextPageShows(server, asked.(inFlight := asked.inFlight - {asked.reqId}), k);
  }

  /** A new search shows its first page once that arrives, whatever was on show or pending before. */
  lemma SearchShowsFirstPage(server: Server, s: State, e: string)
    requires s.endpoint != Some(e)
    ensures var asked := Step(server, s, ChangeEndpoint(Some(e)));
            asked.loadingInitial && asked.error.None? && asked.endpoint == Some(e)
            && asked.inFlight.Keys == s.inFlight.Keys + {asked.reqId}
            && Idle(server, Step(server, asked, Succeed(asked.reqId)), 1)
            && Step(server, asked, Succeed(asked.reqId)).error.None?
  {
    var asked := Step(server, s, ChangeEndpoint(Some(e)));
    FirstPageShows(server, asked.(inFlight := asked.inFlight - {asked.reqId}), e);
  }

  /** Setting the endpoint it has already asks for nothing again. */
  lemma SameEndpointAsksNothing(server: Server, s: State)
    ensures Step(server, s, ChangeEndpoint(s.endpoint)) == s
  {
  }

  /** Clearing the search shows nothing, and no request under way changes that when it answers or fails. */
  lemma ClearedStaysEmpty(server: Server, s: State, a: Action, id: nat)
    requires FlagsExact(s) && s.endpoint.Some? && Answers(a, id)
    ensures var t := Step(server, s, ChangeEndpoint(None));
            t.endpoint.None? && t.items == [] && t.error.None? && !t.hasMore && !t.loadingInitial && !t.loadingMore
            && t.inFlight == s.inFlight
            && Step(server, t, a) == Drop(t, id)
  {
    assert id !in s.inFlight ==> s.inFlight - {id} == s.inFlight;
  }

  /** A failed page is reported, leaves the pages on show, and can be asked for again at the same cursor. */
  lemma FailedPageCanBeRetried(server: Server, s: State, k: nat, message: string)
    requires Idle(server, s, k) && s.hasMore
    ensures var asked := Step(server, s, LoadMore);
            var failed := Step(server, asked, Fail(asked.reqId, message));
            var again := Step(server, failed, LoadMore);
            failed.error == Some(message) && Idle(server, failed, k)
            && again.inFlight[again.reqId] == asked.inFlight[asked.reqId] && again.reqId == asked.reqId + 1
            && again.reqId in again.inFlight
  {
    LoadMoreAsks(server, s, k);
    var asked := Step(server, s, LoadMore);
    var failed := Step(server, asked, Fail(asked.reqId, message));
    LoadMoreAsks(server, failed, k);
  }

  lemma RunTwo(server: Server, s: State, a: Action, b: Action)
    ensures Run(server, s, [a, b]) == Step(server, Step(server, s, a), b)
  {
    assert [a, b][..1] == [a] && [a][..0] == [];
    assert Run(server, s, [a]) == Step(server, s, a);
  }

  lemma {:induction false} RunConcat(server: Server, s: State, a: seq<Action>, b: seq<Action>)
    ensures Run(server, s, a + b) == Run(server, Run(server, s, a), b)
  {
    if b == [] {
      assert a + b == a;
    } else {
      assert (a + b)[..|a + b| - 1] == a + b[..|b| - 1];
      RunConcat(server, s, a, b[..|b| - 1]);
    }
  }

  lemma HasEarlierPages(server: Server, e: string, k: nat, n: nat)
    requires HasPage(server, e, n) && 1 <= k < n
    ensures CursorAfter(server, e, k) != "" && HasPage(server, e, k + 1)
  {
  }

  /**
   From every state with the first `k` pages on show and nothing pending, some sequence of loading and answers
   shows any number of pages the endpoint has; if the last of them is the last page, the search is exhausted.
   */
  lemma {:induction false} EveryPageCanBeLoaded(server: Server, s: State, k: nat, n: nat) returns (actions: seq<Action>)
    requires Idle(server, s, k) && k <= n && HasPage(server, s.endpoint.value, n)
    requires s.error.None?
    ensures var t := Run(server, s, actions);
            Idle(server, t, n) && t.endpoint == s.endpoint && t.error.None?
            && (CursorAfter(server, s.endpoint.value, n) == "" ==> Exhausted(t))
    decreases n - k
  {
    if k == n {
      actions := [];
    } else {
      HasEarlierPages(server, s.endpoint.value, k, n);
      var more := [LoadMore, Succeed(s.reqId + 1)];
      NextPageLoads(server, s, k);
      var rest := EveryPageCanBeLoaded(server, Run(server, s, more), k + 1, n);
      RunConcat(server, s, more, rest);
      actions := more + rest;
    }
  }

  /** So from every reachable state a search for another endpoint can be driven to its last page. */
  lemma EverySearchCanBeExhausted(server: Server, history: seq<Action>, e: string, n: nat) returns (actions: seq<Action>)
    requires Run(server, INITIAL, history).endpoint != Some(e)
    requires HasPage(server, e, n) && CursorAfter(server, e, n) == ""
    ensures var t := Run(server, INITIAL, history + actions);
            t.endpoint == Some(e) && Exhausted(t) && t.items == FirstPages(server, e, n)
  {
    var s := Run(server, INITIAL, history);
    var start := [ChangeEndpoint(Some(e)), Succeed(s.reqId + 1)];
    SearchShowsFirstPage(server, s, e);
    RunTwo(server, s, start[0], start[1]);
    var rest := EveryPageCanBeLoaded(server, Run(server, s, start), 1, n);
    RunConcat(server, s, start, rest);
    RunConcat(server, INITIAL, history, start + rest);
    actions := start + rest;
  }
}
