/** The Marked-for-Later helpers of `user.py`: the 429-aware `request`
    wrapper, loading and downloading the works of the list, and choosing a
    file name for a download. */
module User {
  import opened Wrappers
  import opened Text
  import opened Library
  import Download

  /** Seconds `request` is meant to wait when asked to slow down. */
  const SLEEP_TIME := 300
  /** How many times `request` is meant to wait for one call. */
  const MAX_SLEEPS := 3

  /** A positional argument passed on to the wrapped call. */
  datatype Value = Str(s: string) | Int(n: int)

  /** What one call of the wrapped function does: it returns, raises an
      `HTTPError` with a status, or raises some other exception. */
  datatype Outcome = Completed | HttpError(code: int) | Raises

  /** The wrapped call: `req(n, args)` is the outcome of its `n`-th call
      (counting from 0) with positional arguments `args`. */
  type Req = (nat, seq<Value>) -> Outcome

  /** How a `request` ends: it returns a flag, or an exception escapes. */
  datatype Answer = Returned(ok: bool) | Raised

  /** The answer of a `request`, the argument lists the wrapped function
      was called with, in order, and the number of sleeps. */
  datatype Trace = Trace(answer: Answer, calls: seq<seq<Value>>, sleeps: nat)

  /** Every call but the last was answered with 429. */
  predicate RetriedOnlyOn429(req: Req, attempt: nat, calls: seq<seq<Value>>)
  {
    forall k :: 0 <= k < |calls| - 1 ==> req(attempt + k, calls[k]) == HttpError(429)
  }

  /** `request(req, *args, _sleep_time=sleepTime, _num_sleeps=numSleeps)`
      as written. The recursive call at user.py:91 passes `_sleep_time` and
      `_num_sleeps + 1` positionally, so they are appended to the arguments
      of `req`, the callee's `_num_sleeps` is back at its default 0, and no
      sleep happens. `depth` is the number of further nested calls Python's
      recursion limit allows; beyond it `RecursionError` escapes. */
  function Request(req: Req, args: seq<Value>, sleepTime: int, numSleeps: int, depth: nat, attempt: nat): (t: Trace)
    ensures t.sleeps == 0
    ensures |t.calls| <= depth
    ensures t.calls != [] ==> t.calls[0] == args
    decreases depth
  {
    if depth == 0 then Trace(Raised, [], 0)
    else
      match req(attempt, args)
      case Completed => Trace(Returned(true), [args], 0)
      case Raises => Trace(Raised, [args], 0)
      case HttpError(code) =>
        if code == 429 && numSleeps < MAX_SLEEPS then
          var t := Request(req, args + [Int(sleepTime), Int(numSleeps + 1)], SLEEP_TIME, 0, depth - 1, attempt + 1);
          Trace(t.answer, [args] + t.calls, t.sleeps)
        else Trace(Returned(false), [args], 0)
  }

  /** The outcome of the last call in `calls`, the first of which is call
      number `attempt`. */
  function LastOutcome(req: Req, attempt: nat, calls: seq<seq<Value>>): Outcome
    requires calls != []
  {
    req(attempt + |calls| - 1, calls[|calls| - 1])
  }

  /** `request` as written retries only on 429. */
  lemma {:induction false} RequestRetries(req: Req, args: seq<Value>, sleepTime: int, numSleeps: int, depth: nat, attempt: nat)
    ensures RetriedOnlyOn429(req, attempt, Request(req, args, sleepTime, numSleeps, depth, attempt).calls)
    decreases depth
  {
    if depth > 0 && req(attempt, args) == HttpError(429) && numSleeps < MAX_SLEEPS {
      var next := args + [Int(sleepTime), Int(numSleeps + 1)];
      RequestRetries(req, next, SLEEP_TIME, 0, depth - 1, attempt + 1);
      RetriedShift(req, attempt, args, Request(req, next, SLEEP_TIME, 0, depth - 1, attempt + 1).calls);
    }
  }

  /** `request` as written returns `True` exactly when its last call
      completed, and returns `False` only after an `HTTPError` that is not
      429, or a 429 with the sleep budget already spent. */
  lemma {:induction false} RequestOutcome(req: Req, args: seq<Value>, sleepTime: int, numSleeps: int, depth: nat, attempt: nat)
    ensures var t := Request(req, args, sleepTime, numSleeps, depth, attempt);
      && (t.answer == Returned(true) <==> (t.calls != [] && LastOutcome(req, attempt, t.calls) == Completed))
      && (t.answer == Returned(false) ==>
          (t.calls != [] && LastOutcome(req, attempt, t.calls).HttpError?
           && (LastOutcome(req, attempt, t.calls).code == 429 ==> |t.calls| == 1 && numSleeps >= MAX_SLEEPS)))
    decreases depth
  {
    if depth > 0 && req(attempt, args) == HttpError(429) && numSleeps < MAX_SLEEPS {
      var next := args + [Int(sleepTime), Int(numSleeps + 1)];
      RequestOutcome(req, next, SLEEP_TIME, 0, depth - 1, attempt + 1);
      var s := Request(req, next, SLEEP_TIME, 0, depth - 1, attempt + 1);
      if s.calls != [] {
        LastOutcomeShift(req, attempt, args, s.calls);
      }
    }
  }

  lemma LastOutcomeShift(req: Req, attempt: nat, args: seq<Value>, calls: seq<seq<Value>>)
    requires calls != []
    ensures LastOutcome(req, attempt, [args] + calls) == LastOutcome(req, attempt + 1, calls)
  {
    assert ([args] + calls)[|calls|] == calls[|calls| - 1];
  }

  /** `k` copies of the two arguments the retry appends, `(300, 1)`. */
  function Appended(k: nat): (s: seq<Value>)
    ensures |s| == 2 * k
  {
    if k == 0 then [] else Appended(k - 1) + [Int(SLEEP_TIME), Int(1)]
  }

  /** Called with its defaults, the `k`-th attempt of `request` passes `req`
      the original arguments followed by `k` copies of `(300, 1)`: the retry
      counter never advances past 1. */
  lemma {:induction false} RequestArgumentsGrow(req: Req, args: seq<Value>, depth: nat, attempt: nat, k: nat)
    requires k < |Request(req, args, SLEEP_TIME, 0, depth, attempt).calls|
    ensures Request(req, args, SLEEP_TIME, 0, depth, attempt).calls[k] == args + Appended(k)
    decreases k
  {
    if k > 0 {
      var next := args + [Int(SLEEP_TIME), Int(1)];
      RequestArgumentsGrow(req, next, depth - 1, attempt + 1, k - 1);
      AppendedShift(k - 1);
    }
  }

  lemma {:induction false} AppendedShift(k: nat)
    ensures [Int(SLEEP_TIME), Int(1)] + Appended(k) == Appended(k + 1)
  {
    if k > 0 {
      AppendedShift(k - 1);
    }
  }

  /** When `req` keeps answering 429, `request` as written never returns
      `False`: it retries until the recursion limit and `RecursionError`
      escapes, after calling `req` once per available frame. */
  lemma {:induction false} RequestNeverGivesUp(req: Req, args: seq<Value>, sleepTime: int, depth: nat, attempt: nat)
    requires forall n: nat, a: seq<Value> :: req(n, a) == HttpError(429)
    ensures Request(req, args, sleepTime, 0, depth, attempt).answer == Raised
    ensures |Request(req, args, sleepTime, 0, depth, attempt).calls| == depth
    decreases depth
  {
    if depth > 0 {
      RequestNeverGivesUp(req, args + [Int(sleepTime), Int(1)], SLEEP_TIME, depth - 1, attempt + 1);
    }
  }

  lemma PersistentRateLimitRaises(req: Req, args: seq<Value>, depth: nat)
    ensures (forall n: nat, a: seq<Value> :: req(n, a) == HttpError(429)) ==>
      Request(req, args, SLEEP_TIME, 0, depth, 0).answer == Raised
  {
    if forall n: nat, a: seq<Value> :: req(n, a) == HttpError(429) {
      RequestNeverGivesUp(req, args, SLEEP_TIME, depth, 0);
    }
  }

  /** `request` as its docstring describes it: on 429 it sleeps
      `_sleep_time` and retries with the same arguments while
      `_num_sleeps < MAX_SLEEPS`, passing the counters by keyword. */
  function RequestIntended(req: Req, args: seq<Value>, sleepTime: int, numSleeps: nat, attempt: nat): (t: Trace)
    ensures 1 <= |t.calls| && t.sleeps == |t.calls| - 1
    ensures numSleeps <= MAX_SLEEPS ==> |t.calls| <= MAX_SLEEPS - numSleeps + 1
    decreases MAX_SLEEPS - numSleeps
  {
    match req(attempt, args)
    case Completed => Trace(Returned(true), [args], 0)
    case Raises => Trace(Raised, [args], 0)
    case HttpError(code) =>
      if code == 429 && numSleeps < MAX_SLEEPS then
        var t := RequestIntended(req, args, sleepTime, numSleeps + 1, attempt + 1);
        Trace(t.answer, [args] + t.calls, t.sleeps + 1)
      else Trace(Returned(false), [args], 0)
  }

  /** The intended `request` passes `req` the same arguments every time. */
  lemma {:induction false} RequestIntendedSameArguments(req: Req, args: seq<Value>, sleepTime: int, numSleeps: nat, attempt: nat)
    ensures var t := RequestIntended(req, args, sleepTime, numSleeps, attempt);
      forall k :: 0 <= k < |t.calls| ==> t.calls[k] == args
    decreases MAX_SLEEPS - numSleeps
  {
    var t := RequestIntended(req, args, sleepTime, numSleeps, attempt);
    if req(attempt, args) == HttpError(429) && numSleeps < MAX_SLEEPS {
      RequestIntendedSameArguments(req, args, sleepTime, numSleeps + 1, attempt + 1);
      var s := RequestIntended(req, args, sleepTime, numSleeps + 1, attempt + 1);
      assert t.calls == [args] + s.calls;
    } else {
      assert t.calls == [args];
    }
  }

  /** The intended `request` retries only on 429. */
  lemma {:induction false} RequestIntendedRetries(req: Req, args: seq<Value>, sleepTime: int, numSleeps: nat, attempt: nat)
    ensures RetriedOnlyOn429(req, attempt, RequestIntended(req, args, sleepTime, numSleeps, attempt).calls)
    decreases MAX_SLEEPS - numSleeps
  {
    if req(attempt, args) == HttpError(429) && numSleeps < MAX_SLEEPS {
      RequestIntendedRetries(req, args, sleepTime, numSleeps + 1, attempt + 1);
      RetriedShift(req, attempt, args, RequestIntended(req, args, sleepTime, numSleeps + 1, attempt + 1).calls);
    }
  }

  /** The answer of the intended `request` is decided by its last call:
      `True` when it completed, an exception when it raised one that is not
      an `HTTPError`, `False` otherwise. */
  lemma {:induction false} RequestIntendedOutcome(req: Req, args: seq<Value>, sleepTime: int, numSleeps: nat, attempt: nat)
    ensures var t := RequestIntended(req, args, sleepTime, numSleeps, attempt);
      && (t.answer == Returned(true) <==> LastOutcome(req, attempt, t.calls) == Completed)
      && (t.answer == Raised <==> LastOutcome(req, attempt, t.calls) == Raises)
    decreases MAX_SLEEPS - numSleeps
  {
    var t := RequestIntended(req, args, sleepTime, numSleeps, attempt);
    match req(attempt, args)
    case Completed =>
      assert t == Trace(Returned(true), [args], 0);
    case Raises =>
      assert t == Trace(Raised, [args], 0);
    case HttpError(code) =>
      if code == 429 && numSleeps < MAX_SLEEPS {
        var s := RequestIntended(req, args, sleepTime, numSleeps + 1, attempt + 1);
        RequestIntendedOutcome(req, args, sleepTime, numSleeps + 1, attempt + 1);
        assert t.answer == s.answer && t.calls == [args] + s.calls;
        LastOutcomeShift(req, attempt, args, s.calls);
      } else {
        assert t == Trace(Returned(false), [args], 0);
      }
  }

  /** Prefixing a call answered with 429 keeps a trace retried only on 429. */
  lemma RetriedShift(req: Req, attempt: nat, args: seq<Value>, calls: seq<seq<Value>>)
    requires req(attempt, args) == HttpError(429)
    requires RetriedOnlyOn429(req, attempt + 1, calls)
    ensures RetriedOnlyOn429(req, attempt, [args] + calls)
  {
    var t := [args] + calls;
    forall k | 0 <= k < |t| - 1
      ensures req(attempt + k, t[k]) == HttpError(429)
    {
      if k > 0 {
        assert t[k] == calls[k - 1];
        assert attempt + k == attempt + 1 + (k - 1);
      }
    }
  }

  /** With the counters passed by keyword, a `req` that keeps answering 429
      is called `MAX_SLEEPS + 1` times and `request` returns `False`. */
  lemma RequestIntendedGivesUp(req: Req, args: seq<Value>, attempt: nat)
    requires forall n: nat :: req(n, args) == HttpError(429)
    ensures RequestIntended(req, args, SLEEP_TIME, 0, attempt)
      == Trace(Returned(false), [args, args, args, args], MAX_SLEEPS)
  {
  }

  /** `request` returns `True` exactly when the wrapped call completes, and a
      non-429 `HTTPError` makes it return `False` after that one call. */
  lemma RequestNon429(req: Req, args: seq<Value>, sleepTime: int, numSleeps: int, depth: nat, attempt: nat)
    requires depth > 0 && req(attempt, args).HttpError? && req(attempt, args).code != 429
    ensures Request(req, args, sleepTime, numSleeps, depth, attempt) == Trace(Returned(false), [args], 0)
  {
  }

  // ---------------------------------------------------------------------
  // Works of the Marked-for-Later list
  // ---------------------------------------------------------------------

  /** The part of an `AO3.Work` these helpers use. `downloads` is the
      download menu of the work's page as (link text, href) pairs. */
  class Work {
    const id: int
    const title: string
    const downloads: seq<(string, string)>
    var loaded: bool
    var session: Option<int>

    constructor (id: int, title: string, downloads: seq<(string, string)>, loaded: bool)
      ensures this.id == id && this.title == title && this.downloads == downloads
      ensures this.loaded == loaded && this.session == None
    {
      this.id, this.title, this.downloads := id, title, downloads;
      this.loaded, this.session := loaded, None;
    }
  }

  /** `load_work(work)`: `request(work.reload, load_chapters=False)`, where
      `reload(id)` answers the reload calls of the work with that id, and
      `depth` is the recursion Python still allows. The keyword argument
      is not among the positional ones, so the first call gets none. */
  function LoadWork(reload: int -> Req, id: int, depth: nat): (r: Answer)
    ensures depth > 0 && reload(id)(0, []) == Completed ==> r == Returned(true)
    ensures (forall n: nat, a: seq<Value> :: reload(id)(n, a) == HttpError(429)) ==> r == Raised
  {
    PersistentRateLimitRaises(reload(id), [], depth);
    Request(reload(id), [], SLEEP_TIME, 0, depth, 0).answer
  }

  /** The works are distinct objects, as the session builds one per entry. */
  predicate Distinct(works: seq<Work>)
  {
    forall i, j :: 0 <= i < j < |works| ==> works[i] != works[j]
  }

  /** `get_marked_for_later(session, load)`; `listed` is what
      `session.get_marked_for_later()` gives. `count` is the number of works
      the loop reached; `attempted` the positions where `load_work` ran. */
  method GetMarkedForLater(session: int, listed: seq<Work>, load: bool, reload: int -> Req, depth: nat)
    returns (r: Result<seq<Work>, Answer>, count: nat, attempted: seq<nat>)
    requires Distinct(listed)
    modifies set w | w in listed
    ensures r.Ok? ==> r.value == listed
    ensures !load ==> r.Ok? && count == 0 && attempted == []
    ensures load && r.Ok? ==> count == |listed|
    ensures count <= |listed|
    ensures r.Err? ==> (count > 0 && !old(listed[count - 1].loaded)
                        && LoadWork(reload, listed[count - 1].id, depth) == Raised)
    ensures forall k :: 0 <= k < (if r.Err? then count - 1 else count) ==>
      old(listed[k].loaded) || LoadWork(reload, listed[k].id, depth) != Raised
    ensures forall k :: 0 <= k < count ==> (listed[k].session == Some(session)
      && listed[k].loaded == (old(listed[k].loaded) || LoadWork(reload, listed[k].id, depth) == Returned(true)))
    ensures forall k :: count <= k < |listed| ==>
      (listed[k].session == old(listed[k].session) && listed[k].loaded == old(listed[k].loaded))
    ensures forall k :: k in attempted ==> k < count
    ensures forall k :: 0 <= k < count ==> (k in attempted <==> !old(listed[k].loaded))
    ensures forall a, b :: 0 <= a < b < |attempted| ==> attempted[a] < attempted[b]
  {
    count, attempted := 0, [];
    if !load {
      return Ok(listed), count, attempted;
    }
    while count < |listed|
      invariant count <= |listed|
      invariant forall k :: 0 <= k < count ==> (listed[k].session == Some(session)
        && listed[k].loaded == (old(listed[k].loaded) || LoadWork(reload, listed[k].id, depth) == Returned(true)))
      invariant forall k :: count <= k < |listed| ==>
        (listed[k].session == old(listed[k].session) && listed[k].loaded == old(listed[k].loaded))
      invariant forall k :: 0 <= k < count ==>
        old(listed[k].loaded) || LoadWork(reload, listed[k].id, depth) != Raised
      invariant forall k :: k in attempted ==> k < count
      invariant forall k :: 0 <= k < count ==> (k in attempted <==> !old(listed[k].loaded))
      invariant forall a, b :: 0 <= a < b < |attempted| ==> attempted[a] < attempted[b]
    {
      var tried, raised := LoadAt(listed[count], session, reload, depth);
      if tried {
        assert forall a :: 0 <= a < |attempted| ==> attempted[a] in attempted;
        attempted := attempted + [count];
      }
      count := count + 1;
      if raised {
        return Err(Raised), count, attempted;
      }
    }
    return Ok(listed), count, attempted;
  }

  /** One pass of the loop of `get_marked_for_later`: the work gets the
      session and, when it is not loaded, `load_work` runs (`tried`); a
      `True` answer marks it loaded, and `raised` says an exception escaped. */
  method LoadAt(work: Work, session: int, reload: int -> Req, depth: nat) returns (tried: bool, raised: bool)
    modifies work
    ensures tried == !old(work.loaded)
    ensures raised <==> tried && LoadWork(reload, work.id, depth) == Raised
    ensures work.session == Some(session)
    ensures work.loaded == (old(work.loaded) || LoadWork(reload, work.id, depth) == Returned(true))
  {
    work.session := Some(session);
    tried, raised := !work.loaded, false;
    if !work.loaded {
      var response := LoadWork(reload, work.id, depth);
      if response == Raised {
        return true, true;
      }
      if response == Returned(true) {
        work.loaded := true;
      }
    }
  }

  /** `download_work(work, filename, filetype)`:
      `request(work.download_to_file, filename, filetype=filetype)`, with
      `depth` the recursion Python still allows. */
  function DownloadWork(download: int -> Req, id: int, filename: string, depth: nat): (r: Answer)
    ensures depth > 0 && download(id)(0, [Str(filename)]) == Completed ==> r == Returned(true)
    ensures (forall n: nat, a: seq<Value> :: download(id)(n, a) == HttpError(429)) ==> r == Raised
  {
    PersistentRateLimitRaises(download(id), [Str(filename)], depth);
    Request(download(id), [Str(filename)], SLEEP_TIME, 0, depth, 0).answer
  }

  /** A download of `w` was attempted under the name `filename`: the work
      is loaded and `get_filename` gave that name. */
  predicate DownloadedAs(lib: Lib, w: Work, filetype: string, destinationDir: Option<string>, filename: string)
    reads w
  {
    w.loaded && GetFilename(lib, w.title, w.downloads, filetype, destinationDir) == Ok(filename)
  }

  /** `download_marked_for_later(session, destination_dir, filetype)`:
      load the list, then download every loaded work. `ok` is false when an
      exception escapes. */
  method DownloadMarkedForLater(lib: Lib, session: int, listed: seq<Work>, destinationDir: Option<string>,
                                filetype: string, reload: int -> Req, download: int -> Req, depth: nat)
    returns (ok: bool, tried: seq<(nat, string)>)
    requires Distinct(listed)
    modifies set w | w in listed
    ensures forall k :: 0 <= k < |listed| && !old(LoadRaisedBefore(listed, k, reload, depth)) ==>
      && listed[k].session == Some(session)
      && listed[k].loaded == (old(listed[k].loaded) || LoadWork(reload, listed[k].id, depth) == Returned(true))
    ensures forall k :: 0 <= k < |listed| && old(LoadRaisedBefore(listed, k, reload, depth)) ==>
      listed[k].session == old(listed[k].session) && listed[k].loaded == old(listed[k].loaded)
    ensures ok <==> !old(LoadRaisedBefore(listed, |listed|, reload, depth))
                    && DownloadsClean(lib, listed, filetype, destinationDir, download, depth)
    ensures old(LoadRaisedBefore(listed, |listed|, reload, depth)) ==> tried == []
    ensures AllDownloadedAs(lib, listed, filetype, destinationDir, tried)
    ensures ok ==> Positions(tried) == LoadedBefore(listed, |listed|)
  {
    var loadedList, count, attempted := GetMarkedForLater(session, listed, true, reload, depth);
    if loadedList.Err? {
      return false, [];
    }
    ok, tried := DownloadLoaded(lib, loadedList.value, destinationDir, filetype, download, depth);
  }

  /** Some work before position `k` was not loaded and its `load_work`
      raised: `get_marked_for_later` stops there. It is read in the state
      before the call. */
  ghost predicate LoadRaisedBefore(listed: seq<Work>, k: int, reload: int -> Req, depth: nat)
    reads set w | w in listed
  {
    exists j :: 0 <= j < k && j < |listed| && !listed[j].loaded && LoadWork(reload, listed[j].id, depth) == Raised
  }

  /** The work's pass of the download loop raises: it is loaded, and either
      `get_filename` raises or `download_work` does. */
  predicate DownloadFails(lib: Lib, w: Work, filetype: string, destinationDir: Option<string>,
                          download: int -> Req, depth: nat)
    reads w
  {
    && w.loaded
    && var f := GetFilename(lib, w.title, w.downloads, filetype, destinationDir);
       (f.Err? || DownloadWork(download, w.id, f.value, depth) == Raised)
  }

  /** No pass of the download loop raises. */
  predicate DownloadsClean(lib: Lib, works: seq<Work>, filetype: string, destinationDir: Option<string>,
                           download: int -> Req, depth: nat)
    reads set w | w in works
  {
    CleanBefore(lib, works, |works|, filetype, destinationDir, download, depth)
  }

  /** No pass over the works before position `i` raises. */
  predicate CleanBefore(lib: Lib, works: seq<Work>, i: nat, filetype: string, destinationDir: Option<string>,
                        download: int -> Req, depth: nat)
    reads set w | w in works
  {
    forall k :: 0 <= k < i && k < |works| ==> !DownloadFails(lib, works[k], filetype, destinationDir, download, depth)
  }

  /** The loop of `download_marked_for_later` over the loaded list: for
      each loaded work, in order, choose its file name and download it.
      `tried` lists the positions and file names of the attempts. */
  method DownloadLoaded(lib: Lib, works: seq<Work>, destinationDir: Option<string>,
                        filetype: string, download: int -> Req, depth: nat)
    returns (ok: bool, tried: seq<(nat, string)>)
    ensures AllDownloadedAs(lib, works, filetype, destinationDir, tried)
    ensures ok <==> DownloadsClean(lib, works, filetype, destinationDir, download, depth)
    ensures ok ==> Positions(tried) == LoadedBefore(works, |works|)
    ensures !ok ==> exists i :: (FirstFailure(lib, works, i, filetype, destinationDir, download, depth)
                                 && Positions(tried) == LoadedBefore(works, StopAt(lib, works, i, filetype, destinationDir)))
  {
    tried := [];
    var i := 0;
    while i < |works|
      invariant i <= |works|
      invariant AllDownloadedAs(lib, works, filetype, destinationDir, tried)
      invariant Positions(tried) == LoadedBefore(works, i)
      invariant CleanBefore(lib, works, i, filetype, destinationDir, download, depth)
    {
      var next;
      ok, tried, next := DownloadAt(lib, works, i, destinationDir, filetype, download, depth, tried);
      if !ok {
        assert next == StopAt(lib, works, i, filetype, destinationDir);
        assert FirstFailure(lib, works, i, filetype, destinationDir, download, depth);
        return false, tried;
      }
      CleanBeforeStep(lib, works, i, filetype, destinationDir, download, depth);
      i := next;
    }
    assert DownloadsClean(lib, works, filetype, destinationDir, download, depth);
    return true, tried;
  }

  lemma CleanBeforeStep(lib: Lib, works: seq<Work>, i: nat, filetype: string, destinationDir: Option<string>,
                        download: int -> Req, depth: nat)
    requires i < |works| && CleanBefore(lib, works, i, filetype, destinationDir, download, depth)
    requires !DownloadFails(lib, works[i], filetype, destinationDir, download, depth)
    ensures CleanBefore(lib, works, i + 1, filetype, destinationDir, download, depth)
  {
  }

  /** The pass over the work at `i` is the first that raises. */
  predicate FirstFailure(lib: Lib, works: seq<Work>, i: nat, filetype: string, destinationDir: Option<string>,
                         download: int -> Req, depth: nat)
    reads set w | w in works
  {
    && i < |works|
    && DownloadFails(lib, works[i], filetype, destinationDir, download, depth)
    && CleanBefore(lib, works, i, filetype, destinationDir, download, depth)
  }

  /** How far the attempts reach when the pass over the loaded work at `i`
      raises: past it when the download raised, not when `get_filename` did. */
  function StopAt(lib: Lib, works: seq<Work>, i: nat, filetype: string, destinationDir: Option<string>): (r: nat)
    requires i < |works|
    reads works[i]
    ensures r <= |works|
  {
    if GetFilename(lib, works[i].title, works[i].downloads, filetype, destinationDir).Err? then i else i + 1
  }

  /** One pass of the loop of `download_marked_for_later`: the work at
      position `i`, when loaded, gets its file name and is downloaded. `next`
      is the position the attempts in `tried` cover; it is `i + 1` unless
      choosing the name raised. */
  method DownloadAt(lib: Lib, works: seq<Work>, i: nat, destinationDir: Option<string>,
                    filetype: string, download: int -> Req, depth: nat, tried0: seq<(nat, string)>)
    returns (ok: bool, tried: seq<(nat, string)>, next: nat)
    requires i < |works|
    requires AllDownloadedAs(lib, works, filetype, destinationDir, tried0)
    requires Positions(tried0) == LoadedBefore(works, i)
    ensures AllDownloadedAs(lib, works, filetype, destinationDir, tried)
    ensures (next == i || next == i + 1) && Positions(tried) == LoadedBefore(works, next)
    ensures ok <==> !DownloadFails(lib, works[i], filetype, destinationDir, download, depth)
    ensures next == i <==> works[i].loaded && GetFilename(lib, works[i].title, works[i].downloads, filetype, destinationDir).Err?
    ensures ok ==> next == i + 1
  {
    tried := tried0;
    var work := works[i];
    if !work.loaded {
      assert LoadedBefore(works, i + 1) == LoadedBefore(works, i) + [];
      return true, tried, i + 1;
    }
    var filename := GetFilename(lib, work.title, work.downloads, filetype, destinationDir);
    if filename.Err? {
      return false, tried, i;
    }
    tried := Attempted(lib, works, filetype, destinationDir, tried, i, filename.value);
    var response := DownloadWork(download, work.id, filename.value, depth);
    return response != Raised, tried, i + 1;
  }

  /** Records an attempt to download the loaded work at position `i` under
      the name `get_filename` gave for it. */
  function Attempted(lib: Lib, works: seq<Work>, filetype: string, destinationDir: Option<string>,
                     tried: seq<(nat, string)>, i: nat, filename: string): (r: seq<(nat, string)>)
    requires i < |works| && works[i].loaded
    requires GetFilename(lib, works[i].title, works[i].downloads, filetype, destinationDir) == Ok(filename)
    requires AllDownloadedAs(lib, works, filetype, destinationDir, tried)
    requires Positions(tried) == LoadedBefore(works, i)
    reads set w | w in works
    ensures AllDownloadedAs(lib, works, filetype, destinationDir, r)
    ensures Positions(r) == LoadedBefore(works, i + 1)
  {
    var r := tried + [(i, filename)];
    assert r[..|tried|] == tried;
    PositionsSnoc(tried, (i, filename));
    r
  }

  /** Every attempt in `tried` names a loaded work of `works` and the file
      name `get_filename` gives for it. */
  predicate AllDownloadedAs(lib: Lib, works: seq<Work>, filetype: string, destinationDir: Option<string>,
                            tried: seq<(nat, string)>)
    reads set w | w in works
  {
    tried == [] || (
      && AllDownloadedAs(lib, works, filetype, destinationDir, tried[..|tried| - 1])
      && var t := tried[|tried| - 1];
        t.0 < |works| && DownloadedAs(lib, works[t.0], filetype, destinationDir, t.1))
  }

  lemma PositionsSnoc(tried: seq<(nat, string)>, t: (nat, string))
    ensures Positions(tried + [t]) == Positions(tried) + [t.0]
  {
  }

  /** The positions before `i` of the works that are loaded, in order. */
  function LoadedBefore(works: seq<Work>, i: nat): seq<nat>
    requires i <= |works|
    reads set w | w in works
  {
    if i == 0 then [] else LoadedBefore(works, i - 1) + (if works[i - 1].loaded then [i - 1] else [])
  }

  /** `LoadedBefore` lists exactly the loaded works before `i`, in
      increasing order. */
  lemma {:induction false} LoadedBeforeMembers(works: seq<Work>, i: nat)
    requires i <= |works|
    ensures var r := LoadedBefore(works, i);
      && (forall k: nat :: k in r <==> k < i && works[k].loaded)
      && (forall a :: 0 <= a < |r| ==> r[a] < i)
      && (forall a, b :: 0 <= a < b < |r| ==> r[a] < r[b])
  {
    if i > 0 {
      LoadedBeforeMembers(works, i - 1);
    }
  }

  /** The positions recorded in a list of attempts. */
  function Positions(tried: seq<(nat, string)>): seq<nat>
  {
    seq(|tried|, j requires 0 <= j < |tried| => tried[j].0)
  }

  // ---------------------------------------------------------------------
  // File names
  // ---------------------------------------------------------------------

  const AO3_URL_PREFIX := "https://archiveofourown.org/"

  /** The first download option whose link text is `filetype.upper()`. */
  function FirstOption(downloads: seq<(string, string)>, filetype: string): (r: Option<nat>)
    ensures r.Some? ==> r.value < |downloads| && downloads[r.value].0 == Upper(filetype)
    ensures forall k :: 0 <= k < |downloads| && (r.None? || k < r.value) ==> downloads[k].0 != Upper(filetype)
  {
    if downloads == [] then None
    else if downloads[0].0 == Upper(filetype) then Some(0)
    else match FirstOption(downloads[1..], filetype)
      case None => None
      case Some(k) => Some(k + 1)
  }

  /** What `_get_filename_from_metadata` gives: the file name in the href of
      the first matching option, `None` without one, or the `IndexError` of
      `_get_filename_from_URL`. */
  function FilenameFromMetadata(lib: Lib, downloads: seq<(string, string)>, filetype: string)
    : (r: Result<Option<string>, Download.FilenameError>)
    ensures r == Ok(None) <==> FirstOption(downloads, filetype).None?
    ensures r.Err? ==> FirstOption(downloads, filetype).Some?
  {
    match FirstOption(downloads, filetype)
    case None => Ok(None)
    case Some(k) =>
      match Download.GetFilename(lib, AO3_URL_PREFIX + downloads[k].1)
      case Ok(name) => Ok(Some(name))
      case Err(e) => Err(e)
  }

  /** `_get_filename_from_metadata(work, filetype)`: a search of the
      download menu that returns at the first option labelled with the file
      type. `_get_filename_from_URL` is the same code as `get_filename` of
      `download.py`, modelled by `Download.GetFilename`. */
  method GetFilenameFromMetadata(lib: Lib, downloads: seq<(string, string)>, filetype: string)
    returns (r: Result<Option<string>, Download.FilenameError>)
    ensures r == FilenameFromMetadata(lib, downloads, filetype)
    ensures r == Ok(None) <==> forall k :: 0 <= k < |downloads| ==> downloads[k].0 != Upper(filetype)
  {
    var i := 0;
    while i < |downloads|
      invariant i <= |downloads|
      invariant forall k :: 0 <= k < i ==> downloads[k].0 != Upper(filetype)
    {
      if downloads[i].0 == Upper(filetype) {
        FirstOptionIs(downloads, filetype, i);
        var url := AO3_URL_PREFIX + downloads[i].1;
        var name := Download.GetFilename(lib, url);
        match name {
          case Ok(n) => return Ok(Some(n));
          case Err(e) => return Err(e);
        }
      }
      i := i + 1;
    }
    return Ok(None);
  }

  lemma FirstOptionIs(downloads: seq<(string, string)>, filetype: string, i: nat)
    requires i < |downloads| && downloads[i].0 == Upper(filetype)
    requires forall k :: 0 <= k < i ==> downloads[k].0 != Upper(filetype)
    ensures FirstOption(downloads, filetype) == Some(i)
  {
  }

  /** A character `\w` matches: `_`, an ASCII letter or digit, or a
      character beyond ASCII that Python counts as alphanumeric (Python's
      whitespace characters never are). */
  predicate IsWordChar(lib: Lib, c: char)
  {
    || c == '_' || 'a' <= c <= 'z' || 'A' <= c <= 'Z' || '0' <= c <= '9'
    || (c as int >= 128 && !IsSpace(c) && lib.isAlnum(c))
  }

  /** A character `[-\w.]` matches. */
  predicate IsFilenameChar(lib: Lib, c: char)
  {
    c == '-' || c == '.' || IsWordChar(lib, c)
  }

  /** `name.replace(' ', '_')`. */
  function ReplaceSpaces(name: string): (r: string)
    ensures |r| == |name| && ' ' !in r
    ensures forall k :: 0 <= k < |name| ==> r[k] == if name[k] == ' ' then '_' else name[k]
  {
    seq(|name|, k requires 0 <= k < |name| => if name[k] == ' ' then '_' else name[k])
  }

  /** `re.sub(r'(?u)[^-\w.]', '', name)`: the characters of `name` that
      `[-\w.]` matches, in order. */
  function KeepFilenameChars(lib: Lib, name: string): string
  {
    if name == [] then []
    else if IsFilenameChar(lib, name[0]) then [name[0]] + KeepFilenameChars(lib, name[1..])
    else KeepFilenameChars(lib, name[1..])
  }

  /** The substitution leaves only characters `[-\w.]` matches, in their
      order in `name`. */
  lemma {:induction false} KeepFilenameCharsFilters(lib: Lib, name: string)
    ensures forall c :: c in KeepFilenameChars(lib, name) ==> IsFilenameChar(lib, c)
    ensures IsSubsequence(KeepFilenameChars(lib, name), name)
  {
    if name != [] {
      KeepFilenameCharsFilters(lib, name[1..]);
      var rest := KeepFilenameChars(lib, name[1..]);
      if IsFilenameChar(lib, name[0]) {
        assert ([name[0]] + rest)[1..] == rest;
      }
    }
  }

  /** `_get_valid_filename(name)`. */
  function ValidFilename(lib: Lib, name: string): (r: string)
    ensures forall c :: c in r ==> IsFilenameChar(lib, c)
  {
    KeepFilenameCharsFilters(lib, ReplaceSpaces(Strip(name)));
    KeepFilenameChars(lib, ReplaceSpaces(Strip(name)))
  }

  /** A valid file name has no space and only characters `[-\w.]` matches,
      taken in order from the stripped name with spaces made underscores. */
  lemma ValidFilenameChars(lib: Lib, name: string)
    ensures var r := ValidFilename(lib, name);
      && ' ' !in r
      && (forall c :: c in r ==> IsFilenameChar(lib, c))
      && IsSubsequence(r, ReplaceSpaces(Strip(name)))
  {
    KeepFilenameCharsFilters(lib, ReplaceSpaces(Strip(name)));
  }

  /** A valid file name is its own valid file name. */
  lemma ValidFilenameIdempotent(lib: Lib, name: string)
    ensures ValidFilename(lib, ValidFilename(lib, name)) == ValidFilename(lib, name)
  {
    ValidFilenameChars(lib, name);
    ValidFilenameKeeps(lib, ValidFilename(lib, name));
  }

  /** A name made only of characters `[-\w.]` matches is left as it is. */
  lemma ValidFilenameKeeps(lib: Lib, r: string)
    requires forall c :: c in r ==> IsFilenameChar(lib, c)
    ensures ValidFilename(lib, r) == r
  {
    FilenameCharsStripped(lib, r);
    NoSpacesToReplace(lib, r);
    KeepAll(lib, r);
  }

  lemma FilenameCharsStripped(lib: Lib, r: string)
    requires forall c :: c in r ==> IsFilenameChar(lib, c)
    ensures Strip(r) == r
  {
    if r != [] {
      assert r[0] in r && r[|r| - 1] in r;
      FilenameCharNotSpace(lib, r[0]);
      FilenameCharNotSpace(lib, r[|r| - 1]);
    }
    assert [] + r + [] == r;
    StripUnique([], r, []);
  }

  lemma FilenameCharNotSpace(lib: Lib, c: char)
    requires IsFilenameChar(lib, c)
    ensures !IsSpace(c) && c != ' '
  {
  }

  lemma NoSpacesToReplace(lib: Lib, r: string)
    requires forall c :: c in r ==> IsFilenameChar(lib, c)
    ensures ReplaceSpaces(r) == r
  {
    forall k | 0 <= k < |r|
      ensures r[k] != ' '
    {
      assert r[k] in r;
    }
  }

  lemma {:induction false} KeepAll(lib: Lib, s: string)
    requires forall c :: c in s ==> IsFilenameChar(lib, c)
    ensures KeepFilenameChars(lib, s) == s
  {
    if s != [] {
      assert s[0] in s;
      assert forall c :: c in s[1..] ==> c in s;
      KeepAll(lib, s[1..]);
    }
  }

  /** `get_filename(work, filetype, destination_dir)`: the AO3 file name
      when the menu has one, otherwise the cleaned title with the lower-cased
      file type as extension, placed inside `destination_dir` when given. */
  function GetFilename(lib: Lib, title: string, downloads: seq<(string, string)>, filetype: string,
                       destinationDir: Option<string>): (r: Result<string, Download.FilenameError>)
    ensures r.Err? <==> FilenameFromMetadata(lib, downloads, filetype).Err?
  {
    match FilenameFromMetadata(lib, downloads, filetype)
    case Err(e) => Err(e)
    case Ok(found) =>
      var filename := match found
        case Some(f) => f
        case None => ValidFilename(lib, title) + "." + Lower(filetype);
      match destinationDir
      case None => Ok(filename)
      case Some(d) => Ok(lib.pathJoin(d, filename))
  }

  /** `get_filename(work, filetype, destination_dir)` as the code runs it,
      searching the download menu with `GetFilenameFromMetadata`. */
  method ChooseFilename(lib: Lib, work: Work, filetype: string, destinationDir: Option<string>)
    returns (r: Result<string, Download.FilenameError>)
    ensures r == GetFilename(lib, work.title, work.downloads, filetype, destinationDir)
  {
    var found := GetFilenameFromMetadata(lib, work.downloads, filetype);
    if found.Err? {
      return Err(found.error);
    }
    var filename := match found.value
      case Some(f) => f
      case None => ValidFilename(lib, work.title) + "." + Lower(filetype);
    match destinationDir {
      case None => return Ok(filename);
      case Some(d) => return Ok(lib.pathJoin(d, filename));
    }
  }

  /** When the menu offers the file type, the title plays no part in the
      name. */
  lemma GetFilenameIgnoresTitle(lib: Lib, title1: string, title2: string, downloads: seq<(string, string)>,
                                filetype: string, destinationDir: Option<string>)
    requires FirstOption(downloads, filetype).Some?
    ensures GetFilename(lib, title1, downloads, filetype, destinationDir)
         == GetFilename(lib, title2, downloads, filetype, destinationDir)
  {
  }

  /** Without a matching menu entry or destination directory, the name is
      the title reduced to file-name characters, then `.` and the
      lower-cased file type. */
  lemma GetFilenameFallback(lib: Lib, title: string, downloads: seq<(string, string)>, filetype: string)
    requires FirstOption(downloads, filetype).None?
    ensures var r := GetFilename(lib, title, downloads, filetype, None);
      && r == Ok(ValidFilename(lib, title) + "." + Lower(filetype))
      && |r.value| > |filetype|
      && r.value[|r.value| - |filetype| - 1..] == "." + Lower(filetype)
      && forall c :: c in r.value[..|r.value| - |filetype| - 1] ==> IsFilenameChar(lib, c)
  {
    var stem := ValidFilename(lib, title);
    ValidFilenameChars(lib, title);
    var r := GetFilename(lib, title, downloads, filetype, None);
    assert r.value == stem + "." + Lower(filetype);
    assert r.value[..|stem|] == stem;
  }
}
