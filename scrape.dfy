/**
 * `scrape_loop` (scraper.py:128-203). The browser, the clock and the stop
 * event are outside the model: each iteration is driven by an `Iteration`
 * value saying what the browser returned, which steps of the saves fail and
 * when the stop event becomes visible. Sleeps are recorded as a sequence of
 * delays instead of being waited for.
 */
module Scrape {
  import opened Wrappers
  import opened Extract
  import opened Durable

  const JsonFile: Path := "crypto_data.json"
  const BackupFile: Path := "crypto_data_backup.json"
  /** `MAX_ROWS = None`: no cap on the number of records. */
  const MaxRows: Option<int> := None
  /** `int(POLL_INTERVAL * 10)` with `POLL_INTERVAL = 2.0`: the poll wait's 0.1-second ticks. */
  const PollTicks: nat := 20
  /** The largest back-off sleep, in seconds. */
  const BackoffCap: nat := 30

  /** Whether the loop goes on, has left through the stop event, or has been ended by an escaping exception. */
  datatype Status = Running | Stopped | Crashed

  /** One call of `time.sleep`. */
  datatype Delay =
    | LoadWait               // INITIAL_LOAD_DELAY after a new driver loads the page
    | PollTick               // one 0.1-second tick of the poll wait
    | BackoffWait(seconds: nat)

  /** What the browser does in one iteration. */
  datatype Fetch =
    | FetchFails(afterLoad: bool)  // an exception from the driver; `afterLoad`: a new driver had already slept
    | Page(rows: seq<string>)      // the text of every row the page shows, in document order

  /** The tick of the poll wait at which the stop event is first seen set, if it is during this iteration. */
  datatype Stop = NoStop | StopAt(tick: nat)

  /** Everything outside the loop that decides one iteration. */
  datatype Iteration = Iteration(fetch: Fetch, save: Faults, recoverySave: Faults, stop: Stop)

  /**
   * The loop's variables (`driver` is whether a webdriver is held, `launches`
   * counts `create_driver` calls), the shared `latest_data`, the files and
   * every sleep so far.
   */
  datatype LoopState = LoopState(status: Status, driver: bool, launches: nat, backoff: nat,
                                 latest: seq<Record>, disk: DiskState, delays: seq<Delay>)

  function Min(a: nat, b: nat): nat {
    if a <= b then a else b
  }

  function Pow2(k: nat): nat {
    if k == 0 then 1 else 2 * Pow2(k - 1)
  }

  ghost predicate IsPow2(n: nat) {
    exists k: nat :: Pow2(k) == n
  }

  /** The state when the thread starts: no driver, `backoff = 1.0`, no data yet. */
  function Initial(disk: DiskState): LoopState {
    LoopState(Running, false, 0, 1, [], disk, [])
  }

  /** How many ticks the poll wait sleeps: it breaks as soon as it sees the stop event. */
  function PollLength(stop: Stop): nat {
    if stop.StopAt? && stop.tick < PollTicks then stop.tick else PollTicks
  }

  function Ticks(n: nat): seq<Delay> {
    seq(n, _ => PollTick)
  }

  /** What the loop sees at its head after the iteration. */
  function AfterStopCheck(s: LoopState, stop: Stop): LoopState {
    if stop.StopAt? then s.(status := Stopped) else s
  }

  /** `latest_data` once the page has been parsed: replaced only by a non-empty parse. */
  function LatestAfterParse(latest: seq<Record>, parsed: seq<Record>): seq<Record> {
    if parsed != [] then parsed else latest
  }

  /** The `except` block (scraper.py:175-195). */
  function Recover(s: LoopState, it: Iteration): LoopState {
    var s1 := s.(driver := false);
    var o := Save(s1.disk, JsonFile, s1.latest, Some(BackupFile), it.recoverySave);
    if o.raised then
      s1.(status := Crashed)
    else
      AfterStopCheck(s1.(disk := o.disk, delays := s1.delays + [BackoffWait(Min(s1.backoff, BackoffCap))],
                         backoff := 2 * s1.backoff), it.stop)
  }

  /**
   * What follows a successful parse (scraper.py:149-173): publish a non-empty
   * result, save whatever snapshot there is, reset the back-off after a
   * non-empty one, then wait for the next poll.
   */
  function PageStep(s: LoopState, parsed: seq<Record>, it: Iteration): LoopState {
    var s1 := s.(latest := LatestAfterParse(s.latest, parsed));
    var o := Save(s1.disk, JsonFile, s1.latest, Some(BackupFile), it.save);
    if o.raised then
      Recover(s1, it)
    else
      var s2 := s1.(disk := o.disk, backoff := if parsed != [] then 1 else s1.backoff);
      AfterStopCheck(s2.(delays := s2.delays + Ticks(PollLength(it.stop))), it.stop)
  }

  /**
   * Getting a driver (scraper.py:140-149): without one, `create_driver` is
   * called and, once the page is loaded, the loop sleeps; with one, it is
   * reused.
   */
  function Started(s: LoopState, fetch: Fetch): LoopState {
    if s.driver then s
    else
      var s1 := s.(launches := s.launches + 1);
      match fetch
      case FetchFails(afterLoad) => s1.(delays := s1.delays + if afterLoad then [LoadWait] else [])
      case Page(_) => s1.(driver := true, delays := s1.delays + [LoadWait])
  }

  /** One pass of the loop body (scraper.py:138-195), handing over to `Recover` when the `try` raises. */
  function Step(s: LoopState, it: Iteration): LoopState
    requires s.status == Running
  {
    var s1 := Started(s, it.fetch);
    match it.fetch
    case FetchFails(_) => Recover(s1, it)
    case Page(rows) => PageStep(s1, ParseSpec(rows, MaxRows), it)
  }

  /** The loop run over a script of iterations, until it leaves or the script ends. */
  function RunSpec(s: LoopState, script: seq<Iteration>): LoopState
    decreases |script|
  {
    if s.status != Running || script == [] then s
    else RunSpec(Step(s, script[0]), script[1..])
  }

  /** After the loop: a driver still held is quit (scraper.py:198-202). */
  function Shutdown(s: LoopState): LoopState {
    if s.status == Stopped then s.(driver := false) else s
  }

  /** The thread's state: the loop's variables, the shared `latest_data` and the disk it saves to. */
  class Scraper {
    var status: Status
    var driver: bool
    var launches: nat
    var backoff: nat
    var latest: seq<Record>
    var delays: seq<Delay>
    const disk: Disk

    ghost function State(): LoopState
      reads this, disk
    {
      LoopState(status, driver, launches, backoff, latest, disk.State(), delays)
    }

    constructor (d: Disk)
      ensures disk == d
      ensures State() == Initial(d.State())
    {
      status := Running;
      driver := false;
      launches := 0;
      backoff := 1;
      latest := [];
      delays := [];
      disk := d;
    }

    /** scraper.py:170-173: up to `PollTicks` sleeps of 0.1 s, leaving early once the stop event is set. */
    method PollWait(stop: Stop)
      modifies this`delays
      ensures delays == old(delays) + Ticks(PollLength(stop))
    {
      var tick: nat := 0;
      while tick < PollTicks
        invariant tick <= PollLength(stop)
        invariant delays == old(delays) + Ticks(tick)
      {
        if stop.StopAt? && stop.tick <= tick {
          break;
        }
        delays := delays + [PollTick];
        tick := tick + 1;
      }
    }

    /** scraper.py:175-195. */
    method HandleError(it: Iteration)
      modifies this, disk
      ensures State() == Recover(old(State()), it)
    {
      driver := false;
      var raised := false;
      if latest != [] {
        raised := disk.SaveJsonAtomic(JsonFile, latest, Some(BackupFile), it.recoverySave);
      }
      if raised {
        status := Crashed;
        return;
      }
      delays := delays + [BackoffWait(Min(backoff, BackoffCap))];
      backoff := 2 * backoff;
      if it.stop.StopAt? {
        status := Stopped;
      }
    }

    /** scraper.py:149-173, once the page has been parsed into `parsed`. */
    method ConsumePage(parsed: seq<Record>, it: Iteration)
      modifies this, disk
      ensures State() == PageStep(old(State()), parsed, it)
    {
      var raised := false;
      if parsed != [] {
        latest := parsed;
        raised := disk.SaveJsonAtomic(JsonFile, latest, Some(BackupFile), it.save);
        if !raised {
          backoff := 1;
        }
      } else {
        var toSave := latest;
        if toSave != [] {
          raised := disk.SaveJsonAtomic(JsonFile, toSave, Some(BackupFile), it.save);
        }
      }
      if raised {
        HandleError(it);
      } else {
        PollWait(it.stop);
        if it.stop.StopAt? {
          status := Stopped;
        }
      }
    }

    /** scraper.py:140-149. */
    method Start(fetch: Fetch)
      modifies this`launches, this`driver, this`delays
      ensures State() == Started(old(State()), fetch)
    {
      if !driver {
        launches := launches + 1;
        match fetch
        case FetchFails(afterLoad) =>
          if afterLoad {
            delays := delays + [LoadWait];
          }
        case Page(_) =>
          driver := true;
          delays := delays + [LoadWait];
      }
    }

    /** One pass of the loop's body, scraper.py:138-195. */
    method RunIteration(it: Iteration)
      requires status == Running
      modifies this, disk
      ensures State() == Step(old(State()), it)
    {
      Start(it.fetch);
      match it.fetch
      case FetchFails(_) =>
        HandleError(it);
      case Page(rows) =>
        var parsed := ParseMarketFromHtml(rows, MaxRows);
        ConsumePage(parsed, it);
    }

    /** scraper.py:128-203, for as long as the script lasts. */
    method ScrapeLoop(script: seq<Iteration>)
      modifies this, disk
      ensures State() == Shutdown(RunSpec(old(State()), script))
    {
      var i := 0;
      while i < |script| && status == Running
        invariant 0 <= i <= |script|
        invariant RunSpec(old(State()), script) == RunSpec(State(), script[i..])
      {
        assert script[i..][1..] == script[i + 1..];
        RunIteration(script[i]);
        i := i + 1;
      }
      if status == Stopped && driver {
        driver := false;
      }
    }
  }

  // ---------------------------------------------------------------------
  // Lemmas about the loop

  /** The records one page yields. */
  function PageRecords(it: Iteration): seq<Record>
    requires it.fetch.Page?
  {
    ParseSpec(it.fetch.rows, MaxRows)
  }

  /** `latest_data` at the point where the iteration either finishes its `try` or raises. */
  function LatestAtEnd(s: LoopState, it: Iteration): seq<Record> {
    if it.fetch.Page? then LatestAfterParse(s.latest, PageRecords(it)) else s.latest
  }

  /** The `try` raises: the browser fails, or the save it makes with data raises from `mkstemp`. */
  predicate Raises(s: LoopState, it: Iteration) {
    it.fetch.FetchFails? || (LatestAtEnd(s, it) != [] && it.save.createFails)
  }

  /** The `except` block lets an exception escape: its own save has data and `mkstemp` raises. */
  predicate Crashes(s: LoopState, it: Iteration) {
    Raises(s, it) && LatestAtEnd(s, it) != [] && it.recoverySave.createFails
  }

  /**
   * How one iteration ends. The published data is replaced only by a
   * non-empty parse. The back-off is reset by a non-empty parse that was
   * saved, doubled after an exception and kept otherwise. A driver is
   * created exactly when none was held, and after an exception none is held.
   * The loop stops at the stop event unless an exception escapes.
   */
  lemma StepOutcome(s: LoopState, it: Iteration)
    requires s.status == Running
    ensures var t := Step(s, it);
            && t.latest == LatestAtEnd(s, it)
            && (t.status == Crashed <==> Crashes(s, it))
            && (t.status == Stopped <==> !Crashes(s, it) && it.stop.StopAt?)
            && t.launches == s.launches + (if s.driver then 0 else 1)
            && (t.driver <==> !Raises(s, it))
            && (!Raises(s, it) ==> t.backoff == if PageRecords(it) != [] then 1 else s.backoff)
            && (Raises(s, it) && !Crashes(s, it) ==>
                  t.backoff == 2 * s.backoff &&
                  t.delays == Started(s, it.fetch).delays + [BackoffWait(Min(s.backoff, BackoffCap))])
            && (!Raises(s, it) ==> t.disk == Save(s.disk, JsonFile, t.latest, Some(BackupFile), it.save).disk)
            && (Raises(s, it) && !Crashes(s, it) ==>
                  t.disk == Save(s.disk, JsonFile, t.latest, Some(BackupFile), it.recoverySave).disk)
  {
    var s1 := Started(s, it.fetch);
    assert s1.latest == s.latest && s1.disk == s.disk && s1.backoff == s.backoff;
    SaveSpec(s1.disk, JsonFile, LatestAtEnd(s, it), Some(BackupFile), it.recoverySave);
    if it.fetch.Page? {
      var s2 := s1.(latest := LatestAtEnd(s, it));
      SaveSpec(s2.disk, JsonFile, s2.latest, Some(BackupFile), it.save);
      assert Step(s, it) == PageStep(s1, PageRecords(it), it);
    } else {
      assert Step(s, it) == Recover(s1, it);
    }
  }

  /**
   * A page that yields records, saved without a fault, leaves the primary
   * JSON file holding exactly those records.
   */
  lemma SavedPageIsPrimary(s: LoopState, it: Iteration)
    requires s.status == Running
    requires it.fetch.Page? && PageRecords(it) != [] && it.save == NoFaults
    ensures JsonFile in Step(s, it).disk.files
    ensures Step(s, it).disk.files[JsonFile] == Snapshot(PageRecords(it))
  {
    StepOutcome(s, it);
    SaveSpec(s.disk, JsonFile, PageRecords(it), Some(BackupFile), it.save);
  }

  /** Once there is data, no iteration takes it away. */
  lemma {:induction false} RunNoRegress(s: LoopState, script: seq<Iteration>)
    requires s.latest != []
    ensures RunSpec(s, script).latest != []
    decreases |script|
  {
    if s.status == Running && script != [] {
      StepOutcome(s, script[0]);
      RunNoRegress(Step(s, script[0]), script[1..]);
    }
  }

  /** A driver is created in the next iteration exactly when this one raised. */
  lemma FreshDriverOnlyAfterError(s: LoopState, it: Iteration, next: Iteration)
    requires s.status == Running
    requires Step(s, it).status == Running
    ensures Step(Step(s, it), next).launches == Step(s, it).launches + (if Raises(s, it) then 1 else 0)
  {
    StepOutcome(s, it);
    StepOutcome(Step(s, it), next);
  }

  /** The seconds of every back-off sleep among `ds`, in order. */
  function BackoffWaits(ds: seq<Delay>): seq<nat>
    decreases |ds|
  {
    if ds == [] then []
    else
      var last := ds[|ds| - 1];
      BackoffWaits(ds[..|ds| - 1]) + if last.BackoffWait? then [last.seconds] else []
  }

  /** The back-off sleeps of `k` consecutive failures starting from back-off `b`. */
  function Schedule(b: nat, k: nat): seq<nat>
    decreases k
  {
    if k == 0 then [] else [Min(b, BackoffCap)] + Schedule(2 * b, k - 1)
  }

  /**
   * An iteration whose `try` raises, because the browser fails or because
   * `mkstemp` fails while the page's own records are saved, after which
   * control returns to the loop and the stop event stays clear.
   */
  predicate Failing(it: Iteration) {
    && (it.fetch.FetchFails? || (it.save.createFails && ParseSpec(it.fetch.rows, MaxRows) != []))
    && !it.recoverySave.createFails
    && it.stop == NoStop
  }

  /** One more failure sleeps `min(backoff, 30)` and doubles the back-off. */
  lemma FailureStep(s: LoopState, it: Iteration)
    requires s.status == Running && Failing(it)
    ensures var t := Step(s, it);
            && t.status == Running
            && t.backoff == 2 * s.backoff
            && BackoffWaits(t.delays) == BackoffWaits(s.delays) + [Min(s.backoff, BackoffCap)]
  {
    StepOutcome(s, it);
    var d := Started(s, it.fetch).delays;
    assert d == s.delays || d == s.delays + [LoadWait];
    if d != s.delays {
      assert (s.delays + [LoadWait])[..|s.delays|] == s.delays;
    }
    var w := [BackoffWait(Min(s.backoff, BackoffCap))];
    assert (d + w)[..|d|] == d;
  }

  /**
   * A run of failures from back-off `b` sleeps `Schedule(b, k)`, each
   * `min(b * 2^i, 30)`, and leaves the back-off at `b * 2^k`.
   */
  lemma {:induction false} FailureStreak(s: LoopState, script: seq<Iteration>)
    requires s.status == Running
    requires forall k :: 0 <= k < |script| ==> Failing(script[k])
    ensures var t := RunSpec(s, script);
            && t.status == Running
            && t.backoff == s.backoff * Pow2(|script|)
            && BackoffWaits(t.delays) == BackoffWaits(s.delays) + Schedule(s.backoff, |script|)
    decreases |script|
  {
    if script != [] {
      var n := |script| - 1;
      var t := Step(s, script[0]);
      assert RunSpec(s, script) == RunSpec(t, script[1..]);
      FailureStep(s, script[0]);
      assert forall k :: 0 <= k < n ==> script[1..][k] == script[k + 1];
      FailureStreak(t, script[1..]);
      ScheduleCons(BackoffWaits(s.delays), s.backoff, n);
    }
  }

  /** One failure followed by `n` more from the doubled back-off is `n + 1` failures. */
  lemma ScheduleCons(w: seq<nat>, b: nat, n: nat)
    ensures w + [Min(b, BackoffCap)] + Schedule(2 * b, n) == w + Schedule(b, n + 1)
    ensures (2 * b) * Pow2(n) == b * Pow2(n + 1)
  {
    var p := Pow2(n);
    assert (2 * b) * p == b * (2 * p);
  }

  lemma {:induction false} ScheduleAt(b: nat, k: nat, i: nat)
    requires i < k
    ensures |Schedule(b, k)| == k
    ensures Schedule(b, k)[i] == Min(b * Pow2(i), BackoffCap)
    decreases k
  {
    if i == 0 {
      if k > 1 {
        ScheduleAt(2 * b, k - 1, 0);
      }
    } else {
      ScheduleAt(2 * b, k - 1, i - 1);
      assert 2 * b * Pow2(i - 1) == b * Pow2(i);
    }
  }

  lemma {:induction false} Pow2AtLeast(i: nat)
    requires i >= 5
    ensures Pow2(i) >= 32
    decreases i
  {
    if i > 5 {
      Pow2AtLeast(i - 1);
    } else {
      assert Pow2(1) == 2 && Pow2(2) == 4 && Pow2(3) == 8 && Pow2(4) == 16;
    }
  }

  /**
   * From the initial back-off the sleeps are 1, 2, 4, 8, 16 and then 30 for
   * ever: never more than 30 and never shorter than the one before.
   */
  lemma ScheduleFromOne(k: nat)
    ensures |Schedule(1, k)| == k
    ensures forall i :: 0 <= i < k ==> Schedule(1, k)[i] == if i < 5 then Pow2(i) else BackoffCap
    ensures forall i, j :: 0 <= i <= j < k ==> Schedule(1, k)[i] <= Schedule(1, k)[j] <= BackoffCap
  {
    if k == 0 {
      return;
    }
    ScheduleAt(1, k, 0);
    assert Pow2(1) == 2 && Pow2(2) == 4 && Pow2(3) == 8 && Pow2(4) == 16;
    forall i | 0 <= i < k ensures Schedule(1, k)[i] == if i < 5 then Pow2(i) else BackoffCap {
      ScheduleAt(1, k, i);
      if i >= 5 {
        Pow2AtLeast(i);
      } else {
        Pow2Monotone(i, 4);
      }
    }
    forall i, j | 0 <= i <= j < k ensures Schedule(1, k)[i] <= Schedule(1, k)[j] {
      if j < 5 {
        Pow2Monotone(i, j);
      } else if i < 5 {
        Pow2Monotone(i, 4);
      }
    }
  }

  lemma {:induction false} Pow2Monotone(i: nat, j: nat)
    requires i <= j
    ensures Pow2(i) <= Pow2(j)
    decreases j
  {
    if i < j {
      Pow2Monotone(i, j - 1);
    }
  }

  /** The back-off is always a power of two: it starts at 1, is reset to 1 or doubled. */
  lemma {:induction false} RunKeepsBackoffPow2(s: LoopState, script: seq<Iteration>, k: nat)
    requires s.backoff == Pow2(k)
    ensures IsPow2(RunSpec(s, script).backoff)
    decreases |script|
  {
    if s.status != Running || script == [] {
      assert Pow2(k) == s.backoff;
    } else {
      var t := Step(s, script[0]);
      StepOutcome(s, script[0]);
      if t.backoff == 1 {
        RunKeepsBackoffPow2(t, script[1..], 0);
      } else if t.backoff == s.backoff {
        RunKeepsBackoffPow2(t, script[1..], k);
      } else {
        RunKeepsBackoffPow2(t, script[1..], k + 1);
      }
    }
  }

  /** Every save keeps the primary file a complete, non-empty snapshot, whatever fails. */
  lemma StepKeepsPrimaryValid(s: LoopState, it: Iteration)
    requires s.status == Running
    requires PrimaryValid(s.disk.files, JsonFile)
    ensures PrimaryValid(Step(s, it).disk.files, JsonFile)
  {
    var data := LatestAtEnd(s, it);
    SaveKeepsPrimaryValid(s.disk, JsonFile, data, Some(BackupFile), it.save);
    SaveKeepsPrimaryValid(s.disk, JsonFile, data, Some(BackupFile), it.recoverySave);
    SaveSpec(s.disk, JsonFile, data, Some(BackupFile), it.save);
  }

  lemma {:induction false} RunKeepsPrimaryValid(s: LoopState, script: seq<Iteration>)
    requires PrimaryValid(s.disk.files, JsonFile)
    ensures PrimaryValid(RunSpec(s, script).disk.files, JsonFile)
    decreases |script|
  {
    if s.status == Running && script != [] {
      StepKeepsPrimaryValid(s, script[0]);
      RunKeepsPrimaryValid(Step(s, script[0]), script[1..]);
    }
  }
}
