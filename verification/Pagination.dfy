/** The `--all` pagination loop (internal/cli/helpers.go: `paginatedGet`,
    `nextFullPageOffsetCursor`, `nextClientSidePaginationCursor`).

    The server is an arbitrary function of the fetch number and the request parameters, so it may
    answer the same request differently each time.  A response is given by what the code extracts
    from its body. */
module Pagination {
  import opened Wrappers
  import opened Strings

  const MAX_PAGES: nat := 100

  type Params = map<string, string>

  datatype Kind = OpaqueCursor | ByOffset | ByPage

  datatype Config = Config(
    cursorParam: string, kind: Kind, limitParam: string, defaultPageSize: int,
    nextCursorPath: string, hasMoreField: string)
  {
    /** `cursorLookupPath`. */
    function LookupPath(): string {
      if nextCursorPath == "" && kind == OpaqueCursor then cursorParam else nextCursorPath
    }
  }

  datatype Response<+T> =
    | Failed                                                       // transport error
    | List(items: seq<T>)                                          // the body is an array
    | Envelope(found: Option<seq<T>>, token: string, more: Option<bool>)
        // an object: the list found in it, the usable cursor at the lookup path ("" if none), the has-more flag
    | Unusable                                                     // neither

  datatype Reason = PageLimit | MaxPagesHit | CursorRepeated | CursorMissing | SignalMissing

  type Server<!T> = (nat, Params) -> Response<T>

  // ----- request parameters -----

  /** Empty parameters are dropped, and "0" and "false" too unless they are the cursor. */
  function Clean(params: Params, cursorParam: string): Params {
    map k | k in params && params[k] != "" && (k == cursorParam || (params[k] != "0" && params[k] != "false")) ::
      params[k]
  }

  function Get(p: Params, k: string): string {
    if k in p then p[k] else ""
  }

  function PositiveLimit(cfg: Config, clean: Params): Option<int> {
    if cfg.limitParam == "" then None
    else match Atoi(Get(clean, cfg.limitParam)) case None => None case Some(n) => if n > 0 then Some(n) else None
  }

  function PageSize(cfg: Config, clean: Params): int {
    if cfg.kind == OpaqueCursor then 0
    else match PositiveLimit(cfg, clean)
      case Some(n) => n
      case None => if cfg.defaultPageSize <= 0 then 100 else cfg.defaultPageSize
  }

  /** The parameters of the first request. */
  function FirstRequest(cfg: Config, params: Params): Params {
    var clean := Clean(params, cfg.cursorParam);
    if cfg.kind != OpaqueCursor && cfg.limitParam != "" && PositiveLimit(cfg, clean).None?
    then clean[cfg.limitParam := Itoa(PageSize(cfg, clean))]
    else clean
  }

  /** `nextClientSidePaginationCursor`. */
  function NextClientSide(cfg: Config, clean: Params, pageSize: int): Option<string> {
    if cfg.cursorParam == "" then None
    else match cfg.kind
      case ByPage =>
        var current := Get(clean, cfg.cursorParam);
        (match Atoi(if current == "" then "1" else current) case None => None case Some(n) => Some(Itoa(n + 1)))
      case ByOffset =>
        var current := Get(clean, cfg.cursorParam);
        (match Atoi(if current == "" then "0" else current) case None => None
         case Some(n) => if pageSize <= 0 then None else Some(Itoa(n + pageSize)))
      case OpaqueCursor => None
  }

  /** `nextFullPageOffsetCursor`. */
  function NextFullPage(cfg: Config, clean: Params, pageSize: int, count: nat): Option<string> {
    if cfg.kind == OpaqueCursor || count == 0 || pageSize <= 0 || count < pageSize then None
    else NextClientSide(cfg, clean, pageSize)
  }

  // ----- one turn of the loop -----

  /** The loop variables: `page` fetches have been made. */
  datatype Loop<+T> = Loop(clean: Params, items: seq<T>, seen: set<string>, foundCursor: bool, page: nat)

  datatype Turn<+T> =
    | Fail
    | Stop(items: seq<T>, mark: Option<Reason>, foundCursor: bool)
    | Advance(next: Loop<T>, token: Option<string>)

  /** Go on with `cursor`, unless the page cap is reached. */
  function Onward<T>(cfg: Config, l: Loop<T>, items: seq<T>, cursor: string): Turn<T> {
    if l.page + 1 >= MAX_PAGES then Stop(items, Some(MaxPagesHit), l.foundCursor)
    else Advance(l.(clean := l.clean[cfg.cursorParam := cursor], items := items, page := l.page + 1), None)
  }

  function OnwardIf<T>(cfg: Config, l: Loop<T>, items: seq<T>, cursor: Option<string>,
                       otherwise: Option<Reason>): Turn<T>
  {
    match cursor
    case Some(c) => Onward(cfg, l, items, c)
    case None => Stop(items, otherwise, l.foundCursor)
  }

  function TurnOf<T>(cfg: Config, pageSize: int, l: Loop<T>, resp: Response<T>): Turn<T> {
    match resp
    case Failed => Fail
    case Unusable => Stop(l.items, None, l.foundCursor)
    case List(items) =>
      OnwardIf(cfg, l, l.items + items, NextFullPage(cfg, l.clean, pageSize, |items|), None)
    case Envelope(found, token, more) =>
      var all := l.items + found.GetOr([]);
      if cfg.LookupPath() != "" && token != "" then
        if token in l.seen then Stop(all, Some(CursorRepeated), true)
        else if l.page + 1 >= MAX_PAGES then Stop(all, Some(MaxPagesHit), true)
        else Advance(Loop(l.clean[cfg.cursorParam := token], all, l.seen + {token}, true, l.page + 1), Some(token))
      else if cfg.hasMoreField != "" && more == Some(true) then
        OnwardIf(cfg, l, all, NextClientSide(cfg, l.clean, pageSize), Some(CursorMissing))
      else if cfg.hasMoreField == "" && cfg.nextCursorPath == "" then
        OnwardIf(cfg, l, all, NextFullPage(cfg, l.clean, pageSize, |found.GetOr([])|), None)
      else Stop(all, None, l.foundCursor)
  }

  // ----- the whole loop -----

  /** What comes out: the items (`None` after a transport error), the truncation reasons recorded,
      the requests sent, the body cursors followed and the last response. */
  datatype Outcome<+T> = Outcome(
    items: Option<seq<T>>, marks: seq<Reason>, sent: seq<Params>, tokens: seq<string>, last: Response<T>)

  function Marks(cfg: Config, page: nat, mark: Option<Reason>, foundCursor: bool): seq<Reason> {
    (if mark.Some? then [mark.value] else [])
    + (if page == 1 && cfg.nextCursorPath == "" && !foundCursor && cfg.hasMoreField == "" && cfg.kind == OpaqueCursor
       then [SignalMissing] else [])
  }

  function Fetch<T>(cfg: Config, pageSize: int, serve: Server<T>, l: Loop<T>): Outcome<T>
    decreases MAX_PAGES - l.page
  {
    var resp := serve(l.page + 1, l.clean);
    match TurnOf(cfg, pageSize, l, resp)
    case Fail => Outcome(None, [], [l.clean], [], resp)
    case Stop(items, mark, found) => Outcome(Some(items), Marks(cfg, l.page + 1, mark, found), [l.clean], [], resp)
    case Advance(next, token) =>
      var rest := Fetch(cfg, pageSize, serve, next);
      rest.(sent := [l.clean] + rest.sent, tokens := (if token.Some? then [token.value] else []) + rest.tokens)
  }

  function FirstLoop<T>(cfg: Config, params: Params): Loop<T> {
    var clean := FirstRequest(cfg, params);
    var cursor := Get(clean, cfg.cursorParam);
    Loop(clean, [], if cursor != "" then {cursor} else {}, false, 0)
  }

  function FetchAll<T>(cfg: Config, params: Params, serve: Server<T>): Outcome<T> {
    Fetch(cfg, PageSize(cfg, Clean(params, cfg.cursorParam)), serve, FirstLoop(cfg, params))
  }

  /** What follows an object body: the cursor to go on with, or the reason to stop.  `page` fetches have
      been made, `l` is the loop before the last of them. */
  method NextAfterObject<T>(cfg: Config, pageSize: int, ghost l: Loop<T>, ghost found: Option<seq<T>>,
                            clean: Params, seen: set<string>, page: nat, token: string, more: Option<bool>, count: nat)
    returns (next: Option<string>, mark: Option<Reason>, followed: bool)
    requires l.clean == clean && l.seen == seen && l.page + 1 == page <= MAX_PAGES && count == |found.GetOr([])|
    ensures var usable := cfg.LookupPath() != "" && token != ""; var all := l.items + found.GetOr([]);
            && (followed ==> usable)
            && TurnOf(cfg, pageSize, l, Envelope(found, token, more)) ==
               if next.Some? then
                 Advance(Loop(clean[cfg.cursorParam := next.value], all, if followed then seen + {token} else seen,
                              l.foundCursor || usable, page),
                         if followed then Some(token) else None)
               else Stop(all, mark, l.foundCursor || usable)
    ensures next.Some? ==> mark == None && page < MAX_PAGES
    ensures followed ==> next == Some(token)
  {
    hide NextFullPage, NextClientSide, Config.LookupPath;
    next, mark, followed := None, None, false;
    if cfg.LookupPath() != "" && token != "" {
      if token in seen {
        mark := Some(CursorRepeated);
      } else if page < MAX_PAGES {
        next, followed := Some(token), true;
      } else {
        mark := Some(MaxPagesHit);
      }
      return;
    }
    if cfg.hasMoreField != "" && more == Some(true) {
      next := NextClientSide(cfg, clean, pageSize);
      if next.None? {
        mark := Some(CursorMissing);
      }
    } else if cfg.hasMoreField == "" && cfg.nextCursorPath == "" {
      next := NextFullPage(cfg, clean, pageSize, count);
    }
    if next.Some? && page >= MAX_PAGES {
      next, mark := None, Some(MaxPagesHit);
    }
  }

  /** `paginatedGet` with `fetchAll`. */
  method PaginatedGet<T>(cfg: Config, params: Params, serve: Server<T>)
    returns (result: Option<seq<T>>, marks: seq<Reason>, ghost sent: seq<Params>, ghost tokens: seq<string>,
            ghost last: Response<T>)
    ensures result == FetchAll(cfg, params, serve).items && marks == FetchAll(cfg, params, serve).marks
    ensures Outcome(result, marks, sent, tokens, last) == FetchAll(cfg, params, serve)
  {
    hide NextFullPage, NextClientSide, FirstRequest, PageSize, Clean, Config.LookupPath, Fetch, Before;
    var pageSize := PageSize(cfg, Clean(params, cfg.cursorParam));
    var clean := FirstRequest(cfg, params);
    var allItems: seq<T> := [];
    var seen: set<string> := {};
    if Get(clean, cfg.cursorParam) != "" {
      seen := {Get(clean, cfg.cursorParam)};
    }
    var foundCursor, page := false, 0;
    var mark: Option<Reason> := None;
    ghost var all := FetchAll(cfg, params, serve);
    sent, tokens := [], [];
    NothingBefore(all);
    while true
      invariant page < MAX_PAGES && mark == None
      invariant Before(sent, tokens, Fetch(cfg, pageSize, serve, Loop(clean, allItems, seen, foundCursor, page))) == all
      decreases MAX_PAGES - page
    {
      ghost var l := Loop(clean, allItems, seen, foundCursor, page);
      ghost var sent0, tokens0 := sent, tokens;
      page := page + 1;
      var data := serve(page, clean);
      last := data;
      OneFetch(cfg, pageSize, serve, l, sent0, tokens0);
      sent := sent + [clean];
      var next: Option<string> := None;
      match data {
        case Failed =>
          return None, [], sent, tokens, last;
        case Unusable =>
        case List(items) =>
          allItems := allItems + items;
          next := NextFullPage(cfg, clean, pageSize, |items|);
          if next.Some? {
            if page < MAX_PAGES {
              clean := clean[cfg.cursorParam := next.value];
              continue;
            }
            mark := Some(MaxPagesHit);
          }
        case Envelope(found, token, more) =>
          var count := 0;
          assert l.items + found.GetOr([]) == if found.Some? then l.items + found.value else l.items;
          if found.Some? {
            allItems := allItems + found.value;
            count := |found.value|;
          }
          var followed;
          next, mark, followed := NextAfterObject(cfg, pageSize, l, found, clean, seen, page, token, more, count);
          foundCursor := foundCursor || (cfg.LookupPath() != "" && token != "");
          if next.Some? {
            if followed {
              seen := seen + {token};
              tokens := tokens + [token];
            }
            clean := clean[cfg.cursorParam := next.value];
            continue;
          }
      }
      break;
    }
    marks := if mark.Some? then [mark.value] else [];
    if page == 1 && cfg.nextCursorPath == "" && !foundCursor && cfg.hasMoreField == "" && cfg.kind == OpaqueCursor {
      marks := marks + [SignalMissing];
    }
    result := Some(allItems);
  }

  /** An outcome with what was sent before it. */
  function Before<T>(sent: seq<Params>, tokens: seq<string>, o: Outcome<T>): Outcome<T> {
    o.(sent := sent + o.sent, tokens := tokens + o.tokens)
  }

  /** The outcome when one turn ends in `turn`. */
  function Following<T>(cfg: Config, pageSize: int, serve: Server<T>, l: Loop<T>, sent: seq<Params>,
                        tokens: seq<string>, turn: Turn<T>): Outcome<T>
  {
    var resp := serve(l.page + 1, l.clean);
    match turn
    case Fail => Outcome(None, [], sent + [l.clean], tokens, resp)
    case Stop(items, mark, found) =>
      Outcome(Some(items), Marks(cfg, l.page + 1, mark, found), sent + [l.clean], tokens, resp)
    case Advance(onto, token) =>
      Before(sent + [l.clean], if token.Some? then tokens + [token.value] else tokens,
             Fetch(cfg, pageSize, serve, onto))
  }

  lemma OneFetch<T>(cfg: Config, pageSize: int, serve: Server<T>, l: Loop<T>, sent: seq<Params>, tokens: seq<string>)
    ensures Before(sent, tokens, Fetch(cfg, pageSize, serve, l)) ==
            Following(cfg, pageSize, serve, l, sent, tokens, TurnOf(cfg, pageSize, l, serve(l.page + 1, l.clean)))
  {
    hide TurnOf, Marks, Fetch;
    var turn := TurnOf(cfg, pageSize, l, serve(l.page + 1, l.clean));
    FetchStep(cfg, pageSize, serve, l);
    if turn.Advance? {
      var rest := Fetch(cfg, pageSize, serve, turn.next);
      var t := if turn.token.Some? then [turn.token.value] else [];
      assert sent + ([l.clean] + rest.sent) == (sent + [l.clean]) + rest.sent;
      assert tokens + (t + rest.tokens) == (if turn.token.Some? then tokens + [turn.token.value] else tokens)
             + rest.tokens;
    } else {
      assert tokens + [] == tokens;
    }
  }

  lemma FetchStep<T>(cfg: Config, pageSize: int, serve: Server<T>, l: Loop<T>)
    ensures var turn := TurnOf(cfg, pageSize, l, serve(l.page + 1, l.clean));
            var o := Fetch(cfg, pageSize, serve, l);
            && (turn.Fail? ==> o == Outcome(None, [], [l.clean], [], serve(l.page + 1, l.clean)))
            && (turn.Stop? ==>
                  o == Outcome(Some(turn.items), Marks(cfg, l.page + 1, turn.mark, turn.foundCursor), [l.clean], [],
                               serve(l.page + 1, l.clean)))
            && (turn.Advance? ==>
                  var rest := Fetch(cfg, pageSize, serve, turn.next);
                  o == rest.(sent := [l.clean] + rest.sent,
                             tokens := (if turn.token.Some? then [turn.token.value] else []) + rest.tokens))
  {
    hide TurnOf, Marks;
  }

  lemma NothingBefore<T>(o: Outcome<T>)
    ensures Before([], [], o) == o
  {
  }

  // ----- against an arbitrary server -----

  /** At most a hundred requests, and at least one. */
  lemma {:induction false} FetchIsBounded<T>(cfg: Config, pageSize: int, serve: Server<T>, l: Loop<T>)
    requires l.page < MAX_PAGES
    ensures var o := Fetch(cfg, pageSize, serve, l);
            1 <= |o.sent| <= MAX_PAGES - l.page && o.sent[0] == l.clean
    decreases MAX_PAGES - l.page
  {
    FetchStep(cfg, pageSize, serve, l);
    var turn := TurnOf(cfg, pageSize, l, serve(l.page + 1, l.clean));
    AdvanceBelowCap(cfg, pageSize, l, serve(l.page + 1, l.clean));
    hide Fetch, TurnOf;
    if turn.Advance? { FetchIsBounded(cfg, pageSize, serve, turn.next); }
  }

  lemma AdvanceBelowCap<T>(cfg: Config, pageSize: int, l: Loop<T>, resp: Response<T>)
    ensures var turn := TurnOf(cfg, pageSize, l, resp);
            turn.Advance? ==> turn.next.page == l.page + 1 < MAX_PAGES
  {
    hide NextFullPage, NextClientSide, Config.LookupPath;
  }

  /** Following a body cursor. */
  lemma TokenTurn<T>(cfg: Config, pageSize: int, l: Loop<T>, resp: Response<T>)
    ensures var turn := TurnOf(cfg, pageSize, l, resp);
            && (turn.Advance? && turn.token.Some? ==>
                  && turn.token.value != "" && turn.token.value !in l.seen
                  && turn.next.seen == l.seen + {turn.token.value}
                  && Get(turn.next.clean, cfg.cursorParam) == turn.token.value)
            && (turn.Advance? && turn.token.None? ==> turn.next.seen == l.seen && cfg.kind != OpaqueCursor)
  {
    hide Config.LookupPath;
  }

  /** The items a response brings. */
  function ItemsOf<T>(resp: Response<T>): seq<T> {
    match resp
    case List(items) => items
    case Envelope(Some(items), _, _) => items
    case _ => []
  }

  /** The items of the responses to these requests, the first of which is fetch number `n`. */
  function Brought<T>(serve: Server<T>, sent: seq<Params>, n: nat): seq<T> {
    if sent == [] then [] else ItemsOf(serve(n, sent[0])) + Brought(serve, sent[1..], n + 1)
  }

  lemma TurnKeepsItems<T>(cfg: Config, pageSize: int, l: Loop<T>, resp: Response<T>)
    ensures var turn := TurnOf(cfg, pageSize, l, resp);
            && (turn.Stop? ==> turn.items == l.items + ItemsOf(resp))
            && (turn.Advance? ==> turn.next.items == l.items + ItemsOf(resp))
            && (turn.Fail? <==> resp == Failed)
  {
    hide NextFullPage, NextClientSide, Config.LookupPath;
  }

  /** Whatever the server does, every item of every response is returned, once and in order; a failed
      request fails the whole call. */
  lemma {:induction false} NothingIsDropped<T>(cfg: Config, pageSize: int, serve: Server<T>, l: Loop<T>)
    requires l.page < MAX_PAGES
    ensures var o := Fetch(cfg, pageSize, serve, l);
            && (o.last == Failed <==> o.items == None)
            && (o.items.Some? ==> o.items.value == l.items + Brought(serve, o.sent, l.page + 1))
    decreases MAX_PAGES - l.page
  {
    hide Fetch, TurnOf, Brought, ItemsOf;
    var resp := serve(l.page + 1, l.clean);
    var turn := TurnOf(cfg, pageSize, l, resp);
    FetchStep(cfg, pageSize, serve, l);
    AdvanceBelowCap(cfg, pageSize, l, resp);
    TurnKeepsItems(cfg, pageSize, l, resp);
    if turn.Advance? {
      NothingIsDropped(cfg, pageSize, serve, turn.next);
      var rest := Fetch(cfg, pageSize, serve, turn.next).sent;
      BroughtFirst(serve, l.clean, rest, l.page + 1);
      ConcatAssoc(l.items, ItemsOf(resp), Brought(serve, rest, l.page + 2));
    } else {
      BroughtFirst(serve, l.clean, [], l.page + 1);
    }
  }

  lemma BroughtFirst<T>(serve: Server<T>, p: Params, rest: seq<Params>, n: nat)
    ensures Brought(serve, [p] + rest, n) == ItemsOf(serve(n, p)) + Brought(serve, rest, n + 1)
    ensures rest == [] ==> Brought(serve, [p], n) == ItemsOf(serve(n, p))
  {
    hide ItemsOf;
    assert ([p] + rest)[1..] == rest;
    if rest == [] { assert [p] + rest == [p] && Brought(serve, rest, n + 1) == []; }
  }

  /** Two requests agree on every parameter but the cursor. */
  ghost predicate SameButCursor(cfg: Config, p: Params, q: Params) {
    forall k :: k != cfg.cursorParam ==> (k in p <==> k in q) && (k in p ==> p[k] == q[k])
  }

  /** The position of the next page can be counted from the current one: the endpoint counts items or
      pages, and the cursor sent is a number or absent. */
  predicate Countable(cfg: Config, clean: Params, pageSize: int) {
    var cursor := if cfg.cursorParam in clean then clean[cfg.cursorParam] else "";
    && cfg.cursorParam != "" && (cursor == "" || Atoi(cursor).Some?)
    && (cfg.kind == ByPage || (cfg.kind == ByOffset && pageSize > 0))
  }

  lemma CountableExactlyWhen(cfg: Config, clean: Params, pageSize: int)
    ensures NextClientSide(cfg, clean, pageSize).Some? <==> Countable(cfg, clean, pageSize)
  {
    AtoiInvertsItoa(0);
    AtoiInvertsItoa(1);
    assert Itoa(0) == "0" && Itoa(1) == "1";
  }

  /** When another page is fetched: never behind the hundredth.  A cursor in the body is followed if it is
      new.  Otherwise the position is counted on, if it can be, when the response says that there is more
      or, without any signal declared, the page was full. */
  lemma GoesOnExactlyWhen<T>(cfg: Config, pageSize: int, l: Loop<T>, resp: Response<T>)
    requires cfg.kind == OpaqueCursor || pageSize > 0
    ensures TurnOf(cfg, pageSize, l, resp).Advance? <==>
              && l.page + 1 < 100 && (resp.List? || resp.Envelope?)
              && var follows := resp.Envelope? && resp.token != ""
                                && (cfg.nextCursorPath != "" || (cfg.kind == OpaqueCursor && cfg.cursorParam != ""));
                 var full := cfg.kind != OpaqueCursor && |ItemsOf(resp)| >= pageSize;
                 if follows then resp.token !in l.seen
                 else
                   && Countable(cfg, l.clean, pageSize)
                   && (|| (resp.List? && full)
                       || (resp.Envelope? && cfg.hasMoreField != "" && resp.more == Some(true))
                       || (resp.Envelope? && cfg.hasMoreField == "" && cfg.nextCursorPath == "" && full))
  {
    hide NextClientSide, Countable;
    CountableExactlyWhen(cfg, l.clean, pageSize);
  }

  lemma TurnKeepsParams<T>(cfg: Config, pageSize: int, l: Loop<T>, resp: Response<T>)
    ensures var turn := TurnOf(cfg, pageSize, l, resp);
            turn.Advance? ==> SameButCursor(cfg, turn.next.clean, l.clean)
  {
    hide NextFullPage, NextClientSide, Config.LookupPath;
  }

  lemma {:induction false} RequestsAgree<T>(cfg: Config, pageSize: int, serve: Server<T>, l: Loop<T>)
    requires l.page < MAX_PAGES
    ensures forall p :: p in Fetch(cfg, pageSize, serve, l).sent ==> SameButCursor(cfg, p, l.clean)
    decreases MAX_PAGES - l.page
  {
    var resp := serve(l.page + 1, l.clean);
    FetchStep(cfg, pageSize, serve, l);
    AdvanceBelowCap(cfg, pageSize, l, resp);
    TurnKeepsParams(cfg, pageSize, l, resp);
    var turn := TurnOf(cfg, pageSize, l, resp);
    hide Fetch, TurnOf;
    if turn.Advance? { RequestsAgree(cfg, pageSize, serve, turn.next); }
  }

  /** The caller gave the parameter a value that is sent on. */
  predicate Given(cfg: Config, params: Params, k: string) {
    k in params && params[k] != "" && (k == cfg.cursorParam || params[k] !in {"0", "false"})
  }

  /** Every request carries the caller's parameters, the empty, zero and false ones left out, and nothing
      else but the cursor and, for numeric pages, the page size. */
  lemma RequestsCarryTheParameters<T>(cfg: Config, params: Params, serve: Server<T>, p: Params)
    requires p in FetchAll(cfg, params, serve).sent
    ensures forall k :: k != cfg.cursorParam && (cfg.kind == OpaqueCursor || k != cfg.limitParam || k == "") ==>
              (k in p <==> Given(cfg, params, k)) && (k in p ==> p[k] == params[k])
    ensures cfg.kind != OpaqueCursor && cfg.limitParam != "" && cfg.limitParam != cfg.cursorParam ==>
              && cfg.limitParam in p && Atoi(p[cfg.limitParam]).Some?
              && IsPageSize(cfg, params, Atoi(p[cfg.limitParam]).value)
    ensures var first := FetchAll(cfg, params, serve).sent[0];
            && (cfg.cursorParam in first <==> Given(cfg, params, cfg.cursorParam)
                                              || (cfg.kind != OpaqueCursor && cfg.cursorParam == cfg.limitParam != ""))
            && (Given(cfg, params, cfg.cursorParam) && cfg.cursorParam != cfg.limitParam ==>
                  first[cfg.cursorParam] == params[cfg.cursorParam])
  {
    hide Fetch, Atoi, Itoa, IsPageSize;
    var l: Loop<T> := FirstLoop(cfg, params);
    var size := PageSize(cfg, Clean(params, cfg.cursorParam));
    FetchIsBounded(cfg, size, serve, l);
    RequestsAgree(cfg, size, serve, l);
    AtoiInvertsItoa(size);
    NotPositive();
    if cfg.kind != OpaqueCursor { PageSizeIs(cfg, params); }
  }

  /** The reasons recorded are true: the page cap means a hundred requests, a repeated cursor one that was
      followed or started from, a missing cursor a response that said there was more, and a missing signal
      a single page of a cursor endpoint that declares no signal. */
  lemma {:induction false} ReasonsAreTrue<T>(cfg: Config, pageSize: int, serve: Server<T>, l: Loop<T>)
    requires l.page < MAX_PAGES
    ensures var o := Fetch(cfg, pageSize, serve, l);
            && (MaxPagesHit in o.marks ==> l.page + |o.sent| == 100)
            && (CursorRepeated in o.marks ==>
                  o.last.Envelope? && o.last.token != "" && (o.last.token in l.seen || o.last.token in o.tokens))
            && (CursorMissing in o.marks ==>
                  o.last.Envelope? && cfg.hasMoreField != "" && o.last.more == Some(true))
            && (SignalMissing in o.marks ==>
                  && l.page == 0 && |o.sent| == 1
                  && cfg.kind == OpaqueCursor && cfg.nextCursorPath == "" && cfg.hasMoreField == "")
            && PageLimit !in o.marks
    decreases MAX_PAGES - l.page
  {
    var resp := serve(l.page + 1, l.clean);
    FetchStep(cfg, pageSize, serve, l);
    AdvanceBelowCap(cfg, pageSize, l, resp);
    TokenTurn(cfg, pageSize, l, resp);
    StopReason(cfg, pageSize, l, resp);
    var turn := TurnOf(cfg, pageSize, l, resp);
    hide Fetch, TurnOf;
    if turn.Advance? {
      ReasonsAreTrue(cfg, pageSize, serve, turn.next);
    }
  }

  lemma StopReason<T>(cfg: Config, pageSize: int, l: Loop<T>, resp: Response<T>)
    ensures var turn := TurnOf(cfg, pageSize, l, resp);
            turn.Stop? ==>
              && (turn.mark == Some(MaxPagesHit) ==> l.page + 1 >= MAX_PAGES)
              && (turn.mark == Some(CursorRepeated) ==> resp.Envelope? && resp.token != "" && resp.token in l.seen)
              && (turn.mark == Some(CursorMissing) ==>
                    resp.Envelope? && cfg.hasMoreField != "" && resp.more == Some(true))
              && turn.mark != Some(SignalMissing) && turn.mark != Some(PageLimit)
  {
    hide NextClientSide, NextFullPage, Config.LookupPath;
  }

  /** A numeric endpoint that declares no next cursor never follows one. */
  lemma {:induction false} NoTokensUndeclared<T>(cfg: Config, pageSize: int, serve: Server<T>, l: Loop<T>)
    requires l.page < MAX_PAGES && cfg.kind != OpaqueCursor && cfg.nextCursorPath == ""
    ensures Fetch(cfg, pageSize, serve, l).tokens == []
    decreases MAX_PAGES - l.page
  {
    var resp := serve(l.page + 1, l.clean);
    FetchStep(cfg, pageSize, serve, l);
    AdvanceBelowCap(cfg, pageSize, l, resp);
    var turn := TurnOf(cfg, pageSize, l, resp);
    if turn.Advance? {
      assert turn.token == None;
      hide Fetch, TurnOf;
      NoTokensUndeclared(cfg, pageSize, serve, turn.next);
    }
  }

  ghost predicate Distinct(s: seq<string>) {
    forall i, j :: 0 <= i < j < |s| ==> s[i] != s[j]
  }

  /** Body cursors are never followed twice, nor is the one the caller started from. */
  lemma {:induction false} TokensAreDistinct<T>(cfg: Config, pageSize: int, serve: Server<T>, l: Loop<T>)
    requires l.page < MAX_PAGES
    ensures var o := Fetch(cfg, pageSize, serve, l);
            && Distinct(o.tokens)
            && (forall t :: t in o.tokens ==> t != "" && t !in l.seen)
            && (cfg.kind == OpaqueCursor ==>
                  && |o.sent| == |o.tokens| + 1
                  && forall i :: 0 <= i < |o.tokens| ==> Get(o.sent[i + 1], cfg.cursorParam) == o.tokens[i])
    decreases MAX_PAGES - l.page
  {
    var resp := serve(l.page + 1, l.clean);
    FetchStep(cfg, pageSize, serve, l);
    AdvanceBelowCap(cfg, pageSize, l, resp);
    TokenTurn(cfg, pageSize, l, resp);
    var turn := TurnOf(cfg, pageSize, l, resp);
    hide Fetch, TurnOf;
    if turn.Advance? {
      TokensAreDistinct(cfg, pageSize, serve, turn.next);
      FetchIsBounded(cfg, pageSize, serve, turn.next);
      var rest := Fetch(cfg, pageSize, serve, turn.next);
      if turn.token.Some? { assert forall t :: t in rest.tokens ==> t != turn.token.value; }
    }
  }

  /** A cursor-paginated endpoint never receives the same cursor twice, whatever the server does. */
  lemma SentCursorsAreDistinct<T>(cfg: Config, params: Params, serve: Server<T>)
    requires cfg.kind == OpaqueCursor
    ensures var sent := FetchAll(cfg, params, serve).sent;
            && 1 <= |sent| <= MAX_PAGES
            && forall i, j :: 0 <= i < j < |sent| ==> Get(sent[i], cfg.cursorParam) != Get(sent[j], cfg.cursorParam)
  {
    var l: Loop<T> := FirstLoop(cfg, params);
    var pageSize := PageSize(cfg, Clean(params, cfg.cursorParam));
    FetchIsBounded(cfg, pageSize, serve, l);
    TokensAreDistinct(cfg, pageSize, serve, l);
    var o := FetchAll(cfg, params, serve);
    hide Fetch, FetchAll, FirstRequest;
    forall i, j | 0 <= i < j < |o.sent|
      ensures Get(o.sent[i], cfg.cursorParam) != Get(o.sent[j], cfg.cursorParam)
    {
      assert o.tokens[j - 1] in o.tokens;
      if i > 0 { assert o.tokens[i - 1] != o.tokens[j - 1]; }
    }
  }

  /** The response says there is more. */
  predicate AdvertisesMore<T>(cfg: Config, resp: Response<T>) {
    resp.Envelope? &&
    ((cfg.LookupPath() != "" && resp.token != "") || (cfg.hasMoreField != "" && resp.more == Some(true)))
  }

  /** Results are never cut short silently: if the last response advertised more, a truncation
      reason is recorded. */
  lemma {:induction false} TruncationIsRecorded<T>(cfg: Config, pageSize: int, serve: Server<T>, l: Loop<T>)
    requires l.page < MAX_PAGES
    ensures var o := Fetch(cfg, pageSize, serve, l);
            o.items.Some? && AdvertisesMore(cfg, o.last) ==> o.marks != []
    decreases MAX_PAGES - l.page
  {
    var resp := serve(l.page + 1, l.clean);
    FetchStep(cfg, pageSize, serve, l);
    AdvanceBelowCap(cfg, pageSize, l, resp);
    StopIsMarked(cfg, pageSize, l, resp);
    var turn := TurnOf(cfg, pageSize, l, resp);
    hide Fetch, TurnOf;
    if turn.Advance? { TruncationIsRecorded(cfg, pageSize, serve, turn.next); }
  }

  lemma StopIsMarked<T>(cfg: Config, pageSize: int, l: Loop<T>, resp: Response<T>)
    ensures var turn := TurnOf(cfg, pageSize, l, resp);
            turn.Stop? && AdvertisesMore(cfg, resp) ==> turn.mark.Some?
  {
    hide NextClientSide;
  }

  /** `paginatedGet` without `fetchAll`: one request, never silently cut short -- a truncation is
      recorded exactly when the response advertises more. */
  method SinglePage<T>(cfg: Config, params: Params, serve: Server<T>) returns (data: Response<T>, marks: seq<Reason>)
    ensures data == serve(1, Clean(params, cfg.cursorParam))
    ensures marks == if AdvertisesMore(cfg, data) then [PageLimit] else []
  {
    data := serve(1, Clean(params, cfg.cursorParam));
    marks := [];
    if cfg.LookupPath() == "" && cfg.hasMoreField == "" {
      return;
    }
    match data
    case Envelope(_, token, more) =>
      var nextCursor := if cfg.LookupPath() != "" then token else "";
      var hasMore := cfg.hasMoreField != "" && more == Some(true);
      if nextCursor == "" && !hasMore {
        return;
      }
      marks := [PageLimit];
    case _ =>
  }

  // ----- against a faithful offset or page server -----

  /** How the end of the list is signalled: by a short page, or by the has-more flag. */
  datatype EndSignal = ShortPage | HasMoreFlag

  /** Where in the list the request points, given the page size. */
  function Position(cfg: Config, pageSize: int, p: Params): Option<int> {
    var current := Get(p, cfg.cursorParam);
    match cfg.kind
    case ByOffset => Atoi(if current == "" then "0" else current)
    case ByPage =>
      (match Atoi(if current == "" then "1" else current) case None => None case Some(n) => Some((n - 1) * pageSize))
    case OpaqueCursor => None
  }

  function Slice<T>(list: seq<T>, at: nat, size: nat): seq<T> {
    if at >= |list| then [] else if at + size >= |list| then list[at..] else list[at..at + size]
  }

  /** The request asks for pages of `pageSize` items. */
  predicate Asks(cfg: Config, pageSize: int, p: Params) {
    cfg.limitParam == "" || Atoi(Get(p, cfg.limitParam)) == Some(pageSize)
  }

  ghost predicate IsPage<T>(cfg: Config, signal: EndSignal, resp: Response<T>, page: seq<T>, isLast: bool) {
    match signal
    case ShortPage =>
      || resp == List(page)
      || (resp == Envelope(Some(page), "", None) && cfg.nextCursorPath == "" && cfg.hasMoreField == "")
    case HasMoreFlag =>
      resp == Envelope(Some(page), "", Some(!isLast)) && cfg.hasMoreField != ""
  }

  ghost predicate Faithful<T>(cfg: Config, pageSize: int, signal: EndSignal, serve: Server<T>, list: seq<T>) {
    forall n: nat, p: Params {:trigger serve(n, p)} ::
      pageSize > 0 && Asks(cfg, pageSize, p)
      && Position(cfg, pageSize, p).Some? && Position(cfg, pageSize, p).value >= 0 ==>
        var at := Position(cfg, pageSize, p).value;
        IsPage(cfg, signal, serve(n, p), Slice(list, at, pageSize), at + pageSize >= |list|)
  }

  /** A page of `size` items from `at` is the last one. */
  predicate LastPage(signal: EndSignal, length: nat, at: nat, size: nat) {
    match signal case ShortPage => at + size > length case HasMoreFlag => at + size >= length
  }

  /** `pages` fetches from position `at` get to the end of the list: `(length - at) / k + 1 <= pages`
      when a short page is the signal. */
  predicate Reaches(signal: EndSignal, length: nat, at: nat, pages: nat, k: nat) {
    LastPage(signal, length, at, pages * k)
  }

  lemma ReachesStep(signal: EndSignal, length: nat, at: nat, pages: nat, k: nat)
    requires pages > 0
    ensures LastPage(signal, length, at, k) ==> Reaches(signal, length, at, pages, k)
    ensures !LastPage(signal, length, at, k) ==>
              Reaches(signal, length, at, pages, k) == (pages > 1 && Reaches(signal, length, at + k, pages - 1, k))
  {
    assert pages * k == k + (pages - 1) * k && (pages - 1) * k >= 0;
  }

  /** The configuration and request a numeric paginator needs. */
  ghost predicate Numeric(cfg: Config, k: int, p: Params, at: nat) {
    && cfg.kind != OpaqueCursor && cfg.cursorParam != "" && cfg.cursorParam != cfg.limitParam && k > 0
    && Position(cfg, k, p) == Some(at) && Asks(cfg, k, p)
  }

  /** Moving the cursor moves the position by one page. */
  lemma NextPosition(cfg: Config, k: int, p: Params, at: nat)
    requires Numeric(cfg, k, p, at)
    ensures var next := NextClientSide(cfg, p, k);
            next.Some? && Numeric(cfg, k, p[cfg.cursorParam := next.value], at + k)
  {
    hide Atoi, Itoa;
    var current := Get(p, cfg.cursorParam);
    var n := Atoi(if current == "" then (if cfg.kind == ByPage then "1" else "0") else current).value;
    AtoiInvertsItoa(n + 1);
    AtoiInvertsItoa(n + k);
    assert n * k == (n - 1) * k + k;
  }

  /** One turn against a faithful server. */
  lemma FaithfulTurn<T>(cfg: Config, k: nat, signal: EndSignal, serve: Server<T>, list: seq<T>, l: Loop<T>, at: nat)
    requires Faithful(cfg, k, signal, serve, list) && Numeric(cfg, k, l.clean, at) && l.page < MAX_PAGES
    ensures var turn := TurnOf(cfg, k, l, serve(l.page + 1, l.clean));
            var all := l.items + Slice(list, at, k);
            if LastPage(signal, |list|, at, k) then turn == Stop(all, None, l.foundCursor)
            else if l.page + 1 >= MAX_PAGES then turn == Stop(all, Some(MaxPagesHit), l.foundCursor)
            else turn.Advance? && turn.token == None && turn.next.items == all && turn.next.page == l.page + 1
                 && turn.next.foundCursor == l.foundCursor && Numeric(cfg, k, turn.next.clean, at + k)
  {
    NextPosition(cfg, k, l.clean, at);
    hide NextClientSide, Position, Asks;
    var resp := serve(l.page + 1, l.clean);
    assert IsPage(cfg, signal, resp, Slice(list, at, k), at + k >= |list|) by {
      FaithfulAnswer(cfg, k, signal, serve, list, l.page + 1, l.clean, at);
    }
    hide Faithful;
  }

  lemma FaithfulAnswer<T>(cfg: Config, k: nat, signal: EndSignal, serve: Server<T>, list: seq<T>, n: nat, p: Params,
                          at: nat)
    requires Faithful(cfg, k, signal, serve, list) && Numeric(cfg, k, p, at)
    ensures IsPage(cfg, signal, serve(n, p), Slice(list, at, k), at + k >= |list|)
  {
    hide IsPage, Position, Asks;
  }

  /** The part of the list that `pages` pages from `at` on cover. */
  function Covered<T>(list: seq<T>, at: nat, pages: nat, k: nat): seq<T> {
    Slice(list, at, pages * k)
  }

  lemma CoveredStep<T>(list: seq<T>, at: nat, pages: nat, k: nat)
    requires pages > 0
    ensures Covered(list, at, pages, k) == Slice(list, at, k) + Covered(list, at + k, pages - 1, k)
    ensures at + k >= |list| ==> Covered(list, at, pages, k) == Slice(list, at, k)
  {
    assert pages * k == k + (pages - 1) * k;
    assert (pages - 1) * k >= 0;
  }

  lemma {:induction false} FaithfulFetch<T>(cfg: Config, k: nat, signal: EndSignal, serve: Server<T>, list: seq<T>,
                                            l: Loop<T>, at: nat)
    requires Faithful(cfg, k, signal, serve, list) && Numeric(cfg, k, l.clean, at) && l.page < MAX_PAGES
    ensures var o := Fetch(cfg, k, serve, l);
            && o.items == Some(l.items + Covered(list, at, MAX_PAGES - l.page, k))
            && o.marks == (if Reaches(signal, |list|, at, MAX_PAGES - l.page, k) then [] else [MaxPagesHit])
    decreases MAX_PAGES - l.page
  {
    hide Faithful, Fetch, TurnOf, Reaches, Covered, Slice, Position, Asks;
    FetchStep(cfg, k, serve, l);
    FaithfulTurn(cfg, k, signal, serve, list, l, at);
    ReachesStep(signal, |list|, at, MAX_PAGES - l.page, k);
    CoveredStep(list, at, MAX_PAGES - l.page, k);
    var turn := TurnOf(cfg, k, l, serve(l.page + 1, l.clean));
    if turn.Advance? {
      FaithfulFetch(cfg, k, signal, serve, list, turn.next, at + k);
      ConcatAssoc(l.items, Slice(list, at, k), Covered(list, at + k, MAX_PAGES - l.page - 1, k));
    } else if !LastPage(signal, |list|, at, k) {
      NothingCovered(list, at + k, k);
      assert Slice(list, at, k) + [] == Slice(list, at, k);
    }
  }

  lemma ConcatAssoc<T>(x: seq<T>, y: seq<T>, z: seq<T>)
    ensures (x + y) + z == x + (y + z)
  {
  }

  lemma NothingCovered<T>(list: seq<T>, at: nat, k: nat)
    ensures Covered(list, at, 0, k) == []
  {
  }

  /** The first request asks for pages of the size the loop counts with. */
  lemma FirstRequestAsks(cfg: Config, params: Params)
    requires cfg.kind != OpaqueCursor && cfg.cursorParam != cfg.limitParam
    ensures var k := PageSize(cfg, Clean(params, cfg.cursorParam));
            && k > 0 && Asks(cfg, k, FirstRequest(cfg, params))
            && Position(cfg, k, FirstRequest(cfg, params)) == Position(cfg, k, Clean(params, cfg.cursorParam))
  {
    AtoiInvertsItoa(PageSize(cfg, Clean(params, cfg.cursorParam)));
  }

  /** The page size a caller gets: the limit asked for, if it is a positive number, otherwise the
      endpoint's default, otherwise a hundred. */
  predicate IsPageSize(cfg: Config, params: Params, k: int) {
    if cfg.limitParam != "" && cfg.limitParam in params && Atoi(params[cfg.limitParam]).Some?
       && Atoi(params[cfg.limitParam]).value > 0
    then k == Atoi(params[cfg.limitParam]).value
    else k == if cfg.defaultPageSize > 0 then cfg.defaultPageSize else 100
  }

  lemma NotPositive()
    ensures Atoi("0") == Some(0) && Atoi("false") == None && Atoi("") == None
  {
    assert ParseDecimal("false") == None;
  }

  lemma PageSizeIs(cfg: Config, params: Params)
    requires cfg.kind != OpaqueCursor
    ensures IsPageSize(cfg, params, PageSize(cfg, Clean(params, cfg.cursorParam)))
  {
    hide Atoi;
    NotPositive();
  }

  /** The position the caller starts from: items skipped, or pages counted from one. */
  predicate StartsAt(cfg: Config, params: Params, k: int, at: int) {
    var given := if cfg.cursorParam in params then params[cfg.cursorParam] else "";
    match cfg.kind
    case ByOffset => Atoi(if given == "" then "0" else given) == Some(at)
    case ByPage =>
      var page := Atoi(if given == "" then "1" else given);
      page.Some? && at == (page.value - 1) * k
    case OpaqueCursor => false
  }

  /** Against a faithful offset or page server `--all` returns the list from the caller's position, each
      item once and in order, as far as a hundred pages of the caller's size reach; and it is complete,
      with no truncation mark, exactly when a hundred fetches are enough. */
  lemma NumericPagesAreComplete<T>(cfg: Config, params: Params, signal: EndSignal, serve: Server<T>, list: seq<T>,
                                   k: int, at: nat)
    requires cfg.kind != OpaqueCursor && cfg.cursorParam != "" && cfg.cursorParam != cfg.limitParam
    requires IsPageSize(cfg, params, k) && StartsAt(cfg, params, k, at) && Faithful(cfg, k, signal, serve, list)
    ensures var o := FetchAll(cfg, params, serve);
            && k > 0
            && o.items == Some(if at + 100 * k < |list| then list[at..at + 100 * k]
                               else if at <= |list| then list[at..] else [])
            && (o.marks == [] <==> match signal
                                   case ShortPage => |list| < at + 100 * k
                                   case HasMoreFlag => |list| <= at + 100 * k)
  {
    hide Fetch, Faithful, Asks, Clean, FirstRequest, PageSize, IsPageSize, Covered, Position, StartsAt;
    PageSizeIs(cfg, params);
    SamePageSize(cfg, params, k, PageSize(cfg, Clean(params, cfg.cursorParam)));
    FirstRequestAsks(cfg, params);
    StartIsPosition(cfg, params, k, at);
    var l: Loop<T> := FirstLoop(cfg, params);
    FaithfulFetch(cfg, k, signal, serve, list, l, at);
    HundredPages(list, at, k);
    assert [] + Covered(list, at, MAX_PAGES, k) == Covered(list, at, MAX_PAGES, k);
  }

  lemma SamePageSize(cfg: Config, params: Params, k: int, k': int)
    requires IsPageSize(cfg, params, k) && IsPageSize(cfg, params, k')
    ensures k == k'
  {
  }

  lemma StartIsPosition(cfg: Config, params: Params, k: int, at: int)
    requires StartsAt(cfg, params, k, at)
    ensures Position(cfg, k, Clean(params, cfg.cursorParam)) == Some(at)
  {
    hide Atoi;
  }

  lemma HundredPages<T>(list: seq<T>, at: nat, k: nat)
    ensures Covered(list, at, MAX_PAGES, k) ==
            if at + 100 * k < |list| then list[at..at + 100 * k] else if at <= |list| then list[at..] else []
  {
  }

  // ----- against a faithful cursor server -----

  /** A page chain: `tokens[i]` leads from page `i` to page `i + 1`. */
  datatype Chain<+T> = Chain(pages: seq<seq<T>>, tokens: seq<string>) {
    ghost predicate Valid() {
      |pages| == |tokens| + 1 && Distinct(tokens) && forall i :: 0 <= i < |tokens| ==> tokens[i] != ""
    }

    /** The cursor that asks for page `i`. */
    function Cursor(i: nat): string
      requires i <= |tokens|
    {
      if i == 0 then "" else tokens[i - 1]
    }
  }

  ghost predicate ServesPage<T>(chain: Chain<T>, i: nat, resp: Response<T>)
    requires chain.Valid() && i < |chain.pages|
  {
    && resp.Envelope? && resp.found == Some(chain.pages[i])
    && resp.token == (if i < |chain.tokens| then chain.tokens[i] else "")
    && (i == |chain.tokens| ==> resp.more != Some(true))
  }

  ghost predicate ServesChain<T>(cfg: Config, serve: Server<T>, chain: Chain<T>)
    requires chain.Valid()
  {
    forall n: nat, p: Params, i: nat {:trigger serve(n, p), chain.pages[i]} ::
      i < |chain.pages| && Get(p, cfg.cursorParam) == chain.Cursor(i) ==> ServesPage(chain, i, serve(n, p))
  }

  /** The items of pages `i` to `j`. */
  function Flat<T>(pages: seq<seq<T>>, i: nat, j: nat): seq<T>
    requires i <= j <= |pages|
    decreases j - i
  {
    if i == j then [] else pages[i] + Flat(pages, i + 1, j)
  }

  /** The loop is about to ask for page `i`, having followed only earlier cursors. */
  ghost predicate OnChain<T>(cfg: Config, chain: Chain<T>, l: Loop<T>, i: nat)
    requires chain.Valid()
  {
    && cfg.kind == OpaqueCursor && cfg.cursorParam != "" && i < |chain.pages|
    && Get(l.clean, cfg.cursorParam) == chain.Cursor(i)
    && forall t :: t in l.seen ==> t in chain.tokens[..i]
  }

  lemma ChainTurn<T>(cfg: Config, serve: Server<T>, chain: Chain<T>, l: Loop<T>, i: nat)
    requires chain.Valid() && ServesChain(cfg, serve, chain) && OnChain(cfg, chain, l, i)
    ensures var turn := TurnOf(cfg, 0, l, serve(l.page + 1, l.clean));
            var all := l.items + chain.pages[i];
            if i + 1 == |chain.pages| then turn == Stop(all, None, l.foundCursor)
            else if l.page + 1 >= MAX_PAGES then turn == Stop(all, Some(MaxPagesHit), true)
            else turn.Advance? && turn.next.items == all && turn.next.page == l.page + 1
                 && turn.next.foundCursor && OnChain(cfg, chain, turn.next, i + 1)
  {
    var resp := serve(l.page + 1, l.clean);
    assert ServesPage(chain, i, resp) by { assert chain.pages[i] == chain.pages[i]; }
    hide ServesChain;
    if i < |chain.tokens| {
      assert chain.tokens[i] !in chain.tokens[..i];
      assert chain.tokens[..i + 1] == chain.tokens[..i] + [chain.tokens[i]];
    }
  }

  function Least(a: nat, b: nat): nat { if a < b then a else b }

  lemma {:induction false} ChainFetch<T>(cfg: Config, serve: Server<T>, chain: Chain<T>, l: Loop<T>, i: nat)
    requires chain.Valid() && ServesChain(cfg, serve, chain) && OnChain(cfg, chain, l, i)
    requires l.page < MAX_PAGES && (l.page > 0 ==> l.foundCursor)
    ensures var o := Fetch(cfg, 0, serve, l);
            var left := MAX_PAGES - l.page;
            && o.items == Some(l.items + Flat(chain.pages, i, Least(i + left, |chain.pages|)))
            && o.marks ==
               (if i + left < |chain.pages| then [MaxPagesHit] else [])
               + (if l.page == 0 && !l.foundCursor && i + 1 == |chain.pages| && cfg.nextCursorPath == ""
                     && cfg.hasMoreField == ""
                  then [SignalMissing] else [])
    decreases MAX_PAGES - l.page
  {
    hide Fetch, TurnOf, ServesChain, OnChain;
    FetchStep(cfg, 0, serve, l);
    ChainTurn(cfg, serve, chain, l, i);
    OnChainBounds(cfg, chain, l, i);
    var turn := TurnOf(cfg, 0, l, serve(l.page + 1, l.clean));
    var left := MAX_PAGES - l.page;
    if turn.Advance? {
      ChainFetch(cfg, serve, chain, turn.next, i + 1);
      ConcatAssoc(l.items, chain.pages[i], Flat(chain.pages, i + 1, Least(i + left, |chain.pages|)));
    } else {
      assert Least(i + left, |chain.pages|) == i + 1;
      assert Flat(chain.pages, i, i + 1) == chain.pages[i] + Flat(chain.pages, i + 1, i + 1);
      assert chain.pages[i] + [] == chain.pages[i];
    }
  }

  lemma OnChainBounds<T>(cfg: Config, chain: Chain<T>, l: Loop<T>, i: nat)
    requires chain.Valid() && OnChain(cfg, chain, l, i)
    ensures i < |chain.pages| && cfg.kind == OpaqueCursor
  {
  }

  lemma StartsOnChain<T>(cfg: Config, params: Params, chain: Chain<T>, i: nat)
    requires cfg.kind == OpaqueCursor && cfg.cursorParam != "" && chain.Valid() && i < |chain.pages|
    requires Get(Clean(params, cfg.cursorParam), cfg.cursorParam) == chain.Cursor(i)
    ensures OnChain(cfg, chain, FirstLoop(cfg, params), i)
  {
    hide Clean;
    if i > 0 { assert chain.tokens[i - 1] in chain.tokens[..i]; }
  }

  /** Against a faithful cursor server `--all` returns the chain from the starting page, up to a
      hundred pages, and records a truncation exactly when the chain is longer -- or when it is a
      single page of an endpoint that declares neither a next cursor nor a has-more field. */
  lemma CursorPagesAreComplete<T>(cfg: Config, params: Params, serve: Server<T>, chain: Chain<T>, i: nat)
    requires cfg.kind == OpaqueCursor && cfg.cursorParam != "" && chain.Valid() && i < |chain.pages|
    requires ServesChain(cfg, serve, chain)
    requires Get(Clean(params, cfg.cursorParam), cfg.cursorParam) == chain.Cursor(i)
    ensures var o := FetchAll(cfg, params, serve);
            && o.items == Some(Flat(chain.pages, i, Least(i + MAX_PAGES, |chain.pages|)))
            && o.marks ==
               (if i + MAX_PAGES < |chain.pages| then [MaxPagesHit] else [])
               + (if i + 1 == |chain.pages| && cfg.nextCursorPath == "" && cfg.hasMoreField == ""
                  then [SignalMissing] else [])
  {
    hide Fetch, Flat, ServesChain;
    StartsOnChain<T>(cfg, params, chain, i);
    var l: Loop<T> := FirstLoop(cfg, params);
    hide OnChain;
    ChainFetch(cfg, serve, chain, l, i);
    var items := Flat(chain.pages, i, Least(i + MAX_PAGES, |chain.pages|));
    assert [] + items == items;
  }
}
