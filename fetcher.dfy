/**
 * src/fetcher.js: the resumable scan of one message type. Starting from the
 * checkpoint in `sync_status`, it asks the chain's REST API for the
 * transactions at or above a height, hands each page to a processor, stores
 * the page's last height as the new checkpoint, and pages on until a short
 * page, an empty page or too many consecutive errors. The network and the
 * processor are abstracted into a sequence of attempt outcomes.
 */
module Fetcher {
  import opened Base
  import opened Store

  /** The two ways the URL is built: `query_param` unset or 'query', or anything else. */
  datatype Mode = QueryMode | EventsMode

  function ModeOf(queryParam: string): Mode
  {
    if queryParam == "" || queryParam == "query" then QueryMode else EventsMode
  }

  /** A GET request: the endpoint and its query parameters, in order and before percent-encoding. */
  datatype Request = Request(endpoint: string, params: seq<(string, string)>)

  /** The page size each mode asks for. */
  function PageLimit(mode: Mode): nat
  {
    if mode == QueryMode then 100 else 50
  }

  function ActionFilter(actionType: string): string
  {
    "message.action='" + actionType + "'"
  }

  function HeightFilter(h: nat): string
  {
    "tx.height>=" + DecimalString(h)
  }

  /** The request for the transactions of one action type at or above height `h`. */
  function BuildRequest(apiUrl: string, mode: Mode, actionType: string, h: nat): Request
  {
    var endpoint := StripTrailingSlash(apiUrl) + "/cosmos/tx/v1beta1/txs";
    match mode
    case QueryMode =>
      Request(endpoint, [("query", ActionFilter(actionType) + " AND " + HeightFilter(h)),
                         ("pagination.limit", "100"), ("orderBy", "ORDER_BY_ASC")])
    case EventsMode =>
      Request(endpoint, [("events", ActionFilter(actionType)), ("pagination.limit", "50")] +
                        (if h > 0 then [("events", HeightFilter(h))] else []))
  }

  /** The height parameter is never lost: two requests of one scan are equal exactly when they ask from the same height. */
  lemma RequestInjective(apiUrl: string, mode: Mode, actionType: string, h1: nat, h2: nat)
    ensures BuildRequest(apiUrl, mode, actionType, h1) == BuildRequest(apiUrl, mode, actionType, h2) <==> h1 == h2
  {
    var r1, r2 := BuildRequest(apiUrl, mode, actionType, h1), BuildRequest(apiUrl, mode, actionType, h2);
    if r1 == r2 {
      var prefix := ActionFilter(actionType) + " AND " + "tx.height>=";
      match mode
      case QueryMode =>
        assert r1.params[0].1 == r2.params[0].1;
        assert (ActionFilter(actionType) + " AND " + HeightFilter(h1)) == prefix + DecimalString(h1);
        assert (ActionFilter(actionType) + " AND " + HeightFilter(h2)) == prefix + DecimalString(h2);
        assert DecimalString(h1) == (prefix + DecimalString(h1))[|prefix|..];
        assert DecimalString(h2) == (prefix + DecimalString(h2))[|prefix|..];
        DecimalStringInjective(h1, h2);
      case EventsMode =>
        assert |r1.params| == |r2.params|;
        if h1 > 0 {
          assert r1.params[2] == ("events", HeightFilter(h1));
          assert r2.params[2] == ("events", HeightFilter(h2));
          assert DecimalString(h1) == HeightFilter(h1)[|"tx.height>="|..];
          assert DecimalString(h2) == HeightFilter(h2)[|"tx.height>="|..];
          DecimalStringInjective(h1, h2);
        }
    }
  }

  /** What one trip round the loop meets. */
  datatype Attempt =
    | Page(size: nat, lastHeight: nat, processed: bool) // `tx_responses` came back; `processed` is false when the processor threw
    | RateLimited                                      // an HTTP 429
    | Failed                                           // any other error: network, timeout, HTTP status

  /** The loop's variables: `lastMaxHeight`, `consecutiveErrors`, `running`, this action's `sync_status` row, and the heights requested so far. */
  datatype ScanState = ScanState(resume: nat, errors: nat, running: bool, checkpoint: Option<nat>, sent: seq<nat>)

  /** How many consecutive errors end the scan. */
  const ErrorBudget: nat := 5

  /** The size below which a page counts as partial, as the code tests it. */
  const FullPage: nat := 100

  /** The scan resumes at the stored checkpoint, or at 0 when this action has none. */
  function Start(syncStatus: map<string, nat>, actionType: string): (st: ScanState)
    ensures st.running && st.errors == 0 && st.sent == []
    ensures st.resume == (if actionType in syncStatus then syncStatus[actionType] else 0)
    ensures st.checkpoint == (if actionType in syncStatus then Some(syncStatus[actionType]) else None)
  {
    if actionType in syncStatus then ScanState(syncStatus[actionType], 0, true, Some(syncStatus[actionType]), [])
    else ScanState(0, 0, true, None, [])
  }

  /** The catch block for an error other than a 429. */
  function CountError(st: ScanState, errors: nat): ScanState
  {
    st.(errors := errors + 1, running := errors + 1 < ErrorBudget)
  }

  /**
   * One trip round the loop, with the partial-page size and the point at
   * which the error counter is cleared as parameters: the code tests
   * against 100 and clears the counter as soon as the fetch succeeds.
   */
  function StepWith(st: ScanState, a: Attempt, fullAt: nat, clearBeforeProcessing: bool): (r: ScanState)
    ensures r.sent == st.sent + [st.resume]
  {
    var st := st.(sent := st.sent + [st.resume]);
    match a
    case RateLimited => st
    case Failed => CountError(st, st.errors)
    case Page(size, last, processed) =>
      if size == 0 then st.(errors := 0, running := false)
      else if !processed then CountError(st, if clearBeforeProcessing then 0 else st.errors)
      else if size < fullAt then st.(errors := 0, running := false, checkpoint := Some(last))
      else if last > st.resume then st.(errors := 0, resume := last, checkpoint := Some(last))
      else st.(errors := 0, resume := last + 1, checkpoint := Some(last + 1))
  }

  /** One trip round the loop of `fetchAndProcess` as written. */
  function Step(st: ScanState, a: Attempt): ScanState
  {
    StepWith(st, a, FullPage, true)
  }

  /** The loop of `fetchAndProcess` over the attempts it meets, until it stops or the attempts run out. */
  function Scan(st: ScanState, attempts: seq<Attempt>): ScanState
    decreases |attempts|
  {
    if attempts == [] || !st.running then st else Scan(Step(st, attempts[0]), attempts[1..])
  }

  /** The `sync_status` table with this action's checkpoint, if it has one, written over it. */
  function Checkpointed(syncStatus: map<string, nat>, actionType: string, checkpoint: Option<nat>): map<string, nat>
  {
    if checkpoint.Some? then syncStatus[actionType := checkpoint.value] else syncStatus
  }

  /** `fetchAndProcess`; `attempts` stands for what the API and the processor do on each trip, and `requests` are the GETs issued. */
  method FetchAndProcess(db: Database, apiUrl: string, queryParam: string, actionType: string, attempts: seq<Attempt>)
    returns (requests: seq<Request>)
    modifies db`syncStatus
    ensures var final := Scan(Start(old(db.syncStatus), actionType), attempts);
            && db.syncStatus == Checkpointed(old(db.syncStatus), actionType, final.checkpoint)
            && |requests| == |final.sent|
            && forall i :: 0 <= i < |requests| ==> requests[i] == BuildRequest(apiUrl, ModeOf(queryParam), actionType, final.sent[i])
  {
    var running := true;
    var consecutiveErrors := 0;
    var lastMaxHeight := if actionType in db.syncStatus then db.syncStatus[actionType] else 0;
    var mode := ModeOf(queryParam);
    ghost var st := Start(db.syncStatus, actionType);
    ghost var syncBefore := db.syncStatus;
    requests := [];
    var i := 0;
    while running && i < |attempts|
      invariant i <= |attempts|
      invariant lastMaxHeight == st.resume && consecutiveErrors == st.errors && running == st.running
      invariant Scan(st, attempts[i..]) == Scan(Start(syncBefore, actionType), attempts)
      invariant db.syncStatus == Checkpointed(syncBefore, actionType, st.checkpoint)
      invariant |requests| == |st.sent|
      invariant forall j :: 0 <= j < |requests| ==> requests[j] == BuildRequest(apiUrl, mode, actionType, st.sent[j])
    {
      requests := requests + [BuildRequest(apiUrl, mode, actionType, lastMaxHeight)];
      lastMaxHeight, consecutiveErrors, running := FetchOne(db, actionType, attempts[i], lastMaxHeight, consecutiveErrors, st, syncBefore);
      assert attempts[i..][1..] == attempts[i + 1..];
      st := Step(st, attempts[i]);
      i := i + 1;
    }
    assert Scan(st, attempts[i..]) == st;
  }

  /** One trip round the loop, after the GET: what the response, or the error, does to the loop's variables and the checkpoint. */
  method FetchOne(db: Database, actionType: string, a: Attempt, lastMaxHeight: nat, consecutiveErrors: nat,
                  ghost st: ScanState, ghost syncBefore: map<string, nat>)
    returns (lastMaxHeight': nat, consecutiveErrors': nat, running: bool)
    requires st.running && lastMaxHeight == st.resume && consecutiveErrors == st.errors
    requires db.syncStatus == Checkpointed(syncBefore, actionType, st.checkpoint)
    modifies db`syncStatus
    ensures lastMaxHeight' == Step(st, a).resume && consecutiveErrors' == Step(st, a).errors
    ensures running == Step(st, a).running
    ensures db.syncStatus == Checkpointed(syncBefore, actionType, Step(st, a).checkpoint)
  {
    lastMaxHeight', consecutiveErrors', running := lastMaxHeight, consecutiveErrors, true;
    match a {
    case RateLimited =>
      consecutiveErrors' := consecutiveErrors' + 1;
      consecutiveErrors' := consecutiveErrors' - 1;
    case Failed =>
      consecutiveErrors' := consecutiveErrors' + 1;
      if consecutiveErrors' >= ErrorBudget {
        running := false;
      }
    case Page(size, lastTxHeight, processed) =>
      consecutiveErrors' := 0;
      if size == 0 {
        running := false;
      } else if !processed {
        // the processor threw: the catch block
        consecutiveErrors' := consecutiveErrors' + 1;
        if consecutiveErrors' >= ErrorBudget {
          running := false;
        }
      } else {
        db.syncStatus := db.syncStatus[actionType := lastTxHeight];
        if size < FullPage {
          running := false;
        } else if lastTxHeight > lastMaxHeight' {
          lastMaxHeight' := lastTxHeight;
        } else {
          // stuck in one block: force a jump
          lastMaxHeight' := lastTxHeight + 1;
          db.syncStatus := db.syncStatus[actionType := lastMaxHeight'];
        }
      }
    }
  }

  /** The scan's first request asks from the resume height it starts at: the checkpoint, or 0. */
  lemma ScanFirstRequest(st: ScanState, attempts: seq<Attempt>)
    requires st.running && attempts != []
    ensures |Scan(st, attempts).sent| > |st.sent| && Scan(st, attempts).sent[|st.sent|] == st.resume
  {
    ScanKeepsSent(Step(st, attempts[0]), attempts[1..]);
  }

  /** The heights already requested stay in the record. */
  lemma {:induction false} ScanKeepsSent(st: ScanState, attempts: seq<Attempt>)
    ensures st.sent <= Scan(st, attempts).sent
    decreases |attempts|
  {
    if attempts != [] && st.running {
      ScanKeepsSent(Step(st, attempts[0]), attempts[1..]);
    }
  }

  /** The checkpoint moves only once a non-empty page has been processed, and then to at least that page's last height. */
  lemma CheckpointAfterProcessing(st: ScanState, a: Attempt)
    ensures Step(st, a).checkpoint != st.checkpoint ==> a.Page? && a.size > 0 && a.processed
    ensures a.Page? && a.size > 0 && a.processed ==>
              Step(st, a).checkpoint.Some? && a.lastHeight <= Step(st, a).checkpoint.value <= a.lastHeight + 1
  {
  }

  /**
   * A page the processor could not handle changes neither the checkpoint
   * nor the resume height, so the next trip asks for the same page again.
   */
  lemma RetryAfterProcessingFailure(st: ScanState, size: nat, last: nat)
    requires size > 0
    ensures var r := Step(st, Page(size, last, false));
            r.checkpoint == st.checkpoint && r.resume == st.resume && r.running
  {
  }

  /** An empty page ends the scan with the checkpoint as it was. */
  lemma EmptyPageStops(st: ScanState, last: nat, processed: bool)
    ensures var r := Step(st, Page(0, last, processed));
            !r.running && r.checkpoint == st.checkpoint && r.resume == st.resume
  {
  }

  /** A page shorter than 100 that was processed ends the scan, the checkpoint at the page's last height. */
  lemma PartialPageStops(st: ScanState, size: nat, last: nat)
    requires 0 < size < FullPage
    ensures var r := Step(st, Page(size, last, true));
            !r.running && r.checkpoint == Some(last)
  {
  }

  /**
   * A full page moves the scan on: the resume height becomes the page's
   * last height or, when the page did not get past the resume height (one
   * block holds a full page), one above it; the checkpoint follows. When
   * the API keeps to `tx.height>=H`, the resume height strictly rises, so
   * the next request differs from this one.
   */
  lemma FullPageProgress(apiUrl: string, mode: Mode, actionType: string, st: ScanState, size: nat, last: nat)
    requires size >= FullPage && last >= st.resume
    ensures var r := Step(st, Page(size, last, true));
            && r.running == st.running && r.errors == 0
            && r.resume > st.resume && r.checkpoint == Some(r.resume)
            && (last > st.resume ==> r.resume == last)
            && (last == st.resume ==> r.resume == last + 1)
            && BuildRequest(apiUrl, mode, actionType, r.resume) != BuildRequest(apiUrl, mode, actionType, st.resume)
  {
    RequestInjective(apiUrl, mode, actionType, Step(st, Page(size, last, true)).resume, st.resume);
  }

  /** A 429 changes nothing but the record of requests; in particular the error counter keeps its value. */
  lemma RateLimitNeutral(st: ScanState)
    ensures Step(st, RateLimited) == st.(sent := st.sent + [st.resume])
  {
  }

  /** The attempts that count against the error budget: other errors than 429, and pages the processor threw on. */
  predicate IsError(a: Attempt)
  {
    a.Failed? || (a.Page? && a.size > 0 && !a.processed)
  }

  function Failures(k: nat): (r: seq<Attempt>)
    ensures |r| == k && forall i :: 0 <= i < k ==> r[i] == Failed
  {
    if k == 0 then [] else [Failed] + Failures(k - 1)
  }

  /** Five consecutive fetch errors end the scan, and fewer do not. */
  lemma {:induction false} FetchErrorsStop(st: ScanState, k: nat)
    requires st.running && st.errors < ErrorBudget
    ensures Scan(st, Failures(k)).running <==> st.errors + k < ErrorBudget
    ensures Scan(st, Failures(k)).checkpoint == st.checkpoint
    decreases k
  {
    if k > 0 {
      var next := Step(st, Failed);
      assert Failures(k)[1..] == Failures(k - 1);
      if next.running {
        FetchErrorsStop(next, k - 1);
      } else {
        assert Scan(next, Failures(k - 1)) == next by {
          if k - 1 > 0 {
            assert Failures(k - 1) != [];
          }
        }
      }
    }
  }

  /**
   * As written, a page the processor throws on clears the error counter
   * before the catch block counts it, so the counter never passes 1: a
   * page that always makes the processor throw is fetched again and again
   * and the error budget never ends the scan.
   */
  lemma {:induction false} ProcessingFailuresNeverStop(st: ScanState, attempts: seq<Attempt>)
    requires st.running
    requires forall i :: 0 <= i < |attempts| ==> attempts[i].Page? && attempts[i].size > 0 && !attempts[i].processed
    ensures var r := Scan(st, attempts);
            r.running && r.resume == st.resume && r.checkpoint == st.checkpoint
    decreases |attempts|
  {
    if attempts != [] {
      ProcessingFailuresNeverStop(Step(st, attempts[0]), attempts[1..]);
    }
  }

  /**
   * As written, a page counts as partial below 100 transactions whatever
   * the mode asked for. In events mode the API sends at most 50, so a
   * block holding 50 matching transactions ends the scan with the
   * checkpoint at that block, and the next scan sends the same request
   * again: the scan never gets past that block.
   */
  lemma EventsModeStuck(apiUrl: string, actionType: string, syncStatus: map<string, nat>, st: ScanState, h: nat)
    requires st.running && st.resume == h
    ensures var r := Step(st, Page(PageLimit(EventsMode), h, true));
            && !r.running && r.checkpoint == Some(h)
            && var next := Start(syncStatus[actionType := h], actionType);
               BuildRequest(apiUrl, EventsMode, actionType, next.resume) == BuildRequest(apiUrl, EventsMode, actionType, st.resume)
  {
  }

  /**
   * The scan as evidently intended: a page is partial when it is shorter
   * than the limit the mode asked for, and the error counter is cleared
   * only once the processor has handled the page.
   */
  function StepFixed(mode: Mode, st: ScanState, a: Attempt): ScanState
  {
    StepWith(st, a, PageLimit(mode), false)
  }

  function ScanFixed(mode: Mode, st: ScanState, attempts: seq<Attempt>): ScanState
    decreases |attempts|
  {
    if attempts == [] || !st.running then st else ScanFixed(mode, StepFixed(mode, st, attempts[0]), attempts[1..])
  }

  /** In query mode the corrected step differs from the code only on a page the processor threw on. */
  lemma FixedAgreesInQueryMode(st: ScanState, a: Attempt)
    requires !(a.Page? && a.size > 0 && !a.processed)
    ensures StepFixed(QueryMode, st, a) == Step(st, a)
  {
  }

  /** With the correction, a full events-mode page inside one block moves the scan past that block. */
  lemma FixedEventsModeProgress(apiUrl: string, actionType: string, st: ScanState, h: nat)
    requires st.running && st.resume == h
    ensures var r := StepFixed(EventsMode, st, Page(PageLimit(EventsMode), h, true));
            && r.running && r.resume == h + 1 && r.checkpoint == Some(h + 1)
            && BuildRequest(apiUrl, EventsMode, actionType, r.resume) != BuildRequest(apiUrl, EventsMode, actionType, st.resume)
  {
    RequestInjective(apiUrl, EventsMode, actionType, h + 1, h);
  }

  /** With the correction, five consecutive errors of either kind end the scan, whatever they are. */
  lemma {:induction false} FixedErrorsStop(mode: Mode, st: ScanState, attempts: seq<Attempt>)
    requires st.errors < ErrorBudget && |attempts| >= ErrorBudget - st.errors
    requires forall i :: 0 <= i < |attempts| ==> IsError(attempts[i])
    ensures !ScanFixed(mode, st, attempts).running
    decreases |attempts|
  {
    if st.running {
      var next := StepFixed(mode, st, attempts[0]);
      if next.running {
        FixedErrorsStop(mode, next, attempts[1..]);
      } else {
        ScanFixedStopped(mode, next, attempts[1..]);
      }
    } else {
      ScanFixedStopped(mode, st, attempts);
    }
  }

  lemma ScanFixedStopped(mode: Mode, st: ScanState, attempts: seq<Attempt>)
    requires !st.running
    ensures ScanFixed(mode, st, attempts) == st
  {
  }
}
