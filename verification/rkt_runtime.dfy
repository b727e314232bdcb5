/** The `Rkt` container runtime: the lifecycle of one container launched with
    `rkt run`, observed through the identifier file rkt writes and through
    `rkt status`.

    The object's state is the rkt-assigned container identifier (`_rkt_uuid`,
    absent until discovered) and the container pid. Everything the runtime
    asks of the outside world is an oracle in `Host`, and every call it makes
    is recorded, in order, as an `Event`. An operation returns the new state,
    the events it caused and whether it completed or raised; Python keeps the
    state an exception leaves behind, and so does `Transition`. */
module RktRuntime {
  import opened Outcomes
  import opened Text
  import KeyVal
  import Polling

  /** `Rkt.NAME`, the suffix of the identifier file's name. */
  const NAME := "rkt"

  /** `Rkt._PREFIX`, prepended to the identifier to form the runtime name. */
  const PREFIX := "rkt-"

  /** The run configuration the base runtime provides. */
  datatype RunConf = RunConf(imagePath: string, network: string, memorySizeMib: int)

  /** One `Rkt` instance: its own id (`_uuid`), run configuration, the path of
      the identifier file rkt is told to write, the identifier once read, and
      the pid once the container was confirmed running. */
  datatype Rkt = Rkt(
    uuid: string,
    runConf: RunConf,
    uuidPath: string,
    rktUuid: Option<string>,
    pid: Option<int>)

  /** A call into the outside world. */
  datatype Event =
    | RemoveFile(path: string)
    | RunContainer(uuidPath: string, image: string, network: string, memsize: int)
    | ReadFile(path: string)
    | QueryStatus(rktUuid: string)
    | StopContainer(name: string)

  /** The exceptions an operation can end with. */
  datatype Error =
    | OperationFailed(message: string)   // misuse: start while running, stop while stopped
    | CommandFailed(message: string)     // an external command failed
    | NotReady(description: string)      // the retry helper gave up
    | MalformedStatus(line: string)      // `rkt status` printed a line without `=`
    | MissingKey(key: string)            // `rkt status` did not print a needed key
    | InvalidPid(text: string)           // the pid is not an integer

  /** What `rkt status` produced: its decoded standard output, or a failure. */
  datatype StatusReply = Output(text: string) | StatusFailed(message: string)

  /** The outside world as the runtime sees it:
      - `run`: whether the runner could launch `rkt run`;
      - `readUuid(k)`: the identifier file's contents at the `k`-th read, or
        `None` where the read raises `IOError`;
      - `status(u, k)`: the reply of the `k`-th `rkt status u`;
      - `stop`: whether the runner could stop the container.
      Whether removing the identifier file succeeds is not part of it: `stop`
      swallows the `OSError` of `os.remove`, so nothing can depend on it. */
  datatype Host = Host(
    run: Outcome<string>,
    readUuid: nat -> Option<string>,
    status: (string, nat) -> StatusReply,
    stop: Outcome<string>)

  /** The state after an operation, the calls it made, and how it ended. */
  datatype Transition = Transition(rkt: Rkt, events: seq<Event>, outcome: Outcome<Error>)

  function Repeat(e: Event, n: nat): (s: seq<Event>)
    ensures |s| == n && forall i :: 0 <= i < n ==> s[i] == e
  {
    if n == 0 then [] else [e] + Repeat(e, n - 1)
  }

  /** A fresh runtime for instance `uuid`: nothing discovered yet, and the
      identifier file placed in `runDir` under the name `<uuid>.rkt`. */
  function NewRkt(uuid: string, runDir: string, runConf: RunConf): (r: Rkt)
    ensures !Running(r) && RuntimeName(r).None? && r.pid.None?
    ensures r.uuid == uuid && r.runConf == runConf
    ensures !(|uuid| > 0 && uuid[0] == '/') ==>
      && |r.uuidPath| >= |runDir| + |uuid| + 4
      && r.uuidPath[..|runDir|] == runDir && r.uuidPath[|r.uuidPath| - |uuid| - 4..] == uuid + ".rkt"
      && |r.uuidPath| <= |runDir| + |uuid| + 5
      && (|r.uuidPath| == |runDir| + |uuid| + 5 ==> r.uuidPath[|runDir|] == '/')
  {
    Rkt(uuid, runConf, PathJoin(runDir, uuid + "." + NAME), None, None)
  }

  /** `running`: an identifier is known, whether or not rkt has confirmed the
      container as running. */
  predicate Running(r: Rkt) {
    r.rktUuid.Some?
  }

  /** `runtime_name()`: absent exactly when not running, otherwise the
      identifier behind the fixed prefix. */
  function RuntimeName(r: Rkt): (n: Option<string>)
    ensures n.None? <==> !Running(r)
    ensures n.Some? ==> |n.value| == |PREFIX| + |r.rktUuid.value| && n.value[..|PREFIX|] == PREFIX
    ensures n.Some? ==> n.value[|PREFIX|..] == r.rktUuid.value
  {
    if r.rktUuid.None? then None else Some(PREFIX + r.rktUuid.value)
  }

  /** Two runtimes with the same runtime name hold the same identifier, so
      `stop` addresses exactly the container that was discovered. */
  lemma RuntimeNameIdentifies(a: Rkt, b: Rkt)
    requires RuntimeName(a) == RuntimeName(b)
    ensures a.rktUuid == b.rktUuid
  {
    if Running(a) {
      assert RuntimeName(a).value[|PREFIX|..] == a.rktUuid.value;
      assert RuntimeName(b).value[|PREFIX|..] == b.rktUuid.value;
    }
  }

  /** `_read_rkt_uuid` given what `read_file` produced: a failed read signals
      `NotYetReady` (and leaves the state alone); a successful one stores the
      contents without surrounding whitespace, changing nothing else. */
  function ReadRktUuid(r: Rkt, read: Option<string>): (s: Polling.Step<Rkt, Error>)
    ensures s.Ready? <==> read.Some?
    ensures s.NotYetReady? <==> read.None?
    ensures s.Ready? ==> s.value == r.(rktUuid := Some(Strip(read.value)))
    ensures s.Ready? ==> Running(s.value)
  {
    match read
    case None => Polling.NotYetReady("container not running")
    case Some(data) => Polling.Ready(r.(rktUuid := Some(Strip(data))))
  }

  /** The fields of a status reply, when the command succeeded and its output parsed. */
  function StatusFields(reply: StatusReply): Option<map<string, string>> {
    match reply
    case StatusFailed(_) => None
    case Output(text) =>
      match KeyVal.ParseKeyval(text)
      case Failure(_) => None
      case Success(f) => Some(f)
  }

  /** The status reports a state other than `running`. */
  predicate ReportsNotRunning(reply: StatusReply) {
    var f := StatusFields(reply);
    f.Some? && "state" in f.value && f.value["state"] != "running"
  }

  /** The status reports `running` together with an integer pid. */
  predicate ReportsPid(reply: StatusReply, pid: int) {
    var f := StatusFields(reply);
    && f.Some? && "state" in f.value && f.value["state"] == "running"
    && "pid" in f.value && ParseInt(f.value["pid"]) == Some(pid)
  }

  /** `_fetch_rkt_state` given the reply of `rkt status`: a state other than
      `running` signals `NotYetReady` (and leaves the pid alone); `running` with
      an integer pid stores that pid and changes nothing else; a failed
      command, a malformed output, a missing key or a non-integer pid is
      fatal. */
  function FetchRktState(r: Rkt, reply: StatusReply): (s: Polling.Step<Rkt, Error>)
    ensures s.Ready? ==> s.value.pid.Some? && s.value == r.(pid := s.value.pid)
  {
    match reply
    case StatusFailed(m) => Polling.Fatal(CommandFailed(m))
    case Output(text) =>
      match KeyVal.ParseKeyval(text)
      case Failure(e) => Polling.Fatal(MalformedStatus(e.line))
      case Success(data) =>
        if "state" !in data then Polling.Fatal(MissingKey("state"))
        else if data["state"] != "running" then Polling.NotYetReady("container not running")
        else if "pid" !in data then Polling.Fatal(MissingKey("pid"))
        else
          match ParseInt(data["pid"])
          case None => Polling.Fatal(InvalidPid(data["pid"]))
          case Some(p) => Polling.Ready(r.(pid := Some(p)))
  }

  /** Which replies make `_fetch_rkt_state` retry, complete or raise. */
  lemma FetchRktStateSpec(r: Rkt, reply: StatusReply)
    ensures FetchRktState(r, reply).NotYetReady? <==> ReportsNotRunning(reply)
    ensures FetchRktState(r, reply).Ready? <==> exists p :: ReportsPid(reply, p)
    ensures forall p :: ReportsPid(reply, p) ==> FetchRktState(r, reply) == Polling.Ready(r.(pid := Some(p)))
    ensures reply.StatusFailed? ==> FetchRktState(r, reply) == Polling.Fatal(CommandFailed(reply.message))
    ensures reply.Output? && KeyVal.ParseKeyval(reply.text).Failure? ==>
      FetchRktState(r, reply) == Polling.Fatal(MalformedStatus(KeyVal.ParseKeyval(reply.text).error.line))
  {
    var s := FetchRktState(r, reply);
    if s.Ready? {
      assert ReportsPid(reply, s.value.pid.value);
    }
  }

  /** The image `start(target)` launches: `target` when given, else the configured one. */
  function ImageFor(r: Rkt, target: Option<string>): string {
    if target.Some? then target.value else r.runConf.imagePath
  }

  /** The first two calls of a `start` that passed its guard. */
  function LaunchEvents(r: Rkt, target: Option<string>): seq<Event> {
    [RemoveFile(r.uuidPath),
     RunContainer(r.uuidPath, ImageFor(r, target), r.runConf.network, r.runConf.memorySizeMib)]
  }

  /** Every event after the launch is a read of the identifier file or a
      status query; `StartDiscovers` states their order. */
  predicate PollingEvents(r: Rkt, events: seq<Event>) {
    forall i :: 2 <= i < |events| ==> events[i] == ReadFile(r.uuidPath) || events[i].QueryStatus?
  }

  /** The step `_retry` repeats while reading the identifier file. */
  function ReadStep(r: Rkt, h: Host): nat -> Polling.Step<Rkt, Error> {
    (k: nat) => ReadRktUuid(r, h.readUuid(k))
  }

  /** The step `_retry` repeats while waiting for `rkt status u` to report `running`. */
  function StatusStep(r1: Rkt, u: string, h: Host): nat -> Polling.Step<Rkt, Error> {
    (k: nat) => FetchRktState(r1, h.status(u, k))
  }

  /** The second readiness step of `start`: poll `rkt status u` until it
      reports the container running. The identifier stays known whatever
      happens; a completed poll records a pid, a failed one changes nothing;
      every call made is a status query for `u`. */
  function AwaitRunning(r1: Rkt, u: string, h: Host, attempts: nat, prior: seq<Event>): (t: Transition)
    requires Running(r1)
    ensures t.rkt.rktUuid == r1.rktUuid
    ensures t.rkt.uuid == r1.uuid && t.rkt.runConf == r1.runConf && t.rkt.uuidPath == r1.uuidPath
    ensures |t.events| >= |prior| && t.events[..|prior|] == prior
    ensures forall i :: |prior| <= i < |t.events| ==> t.events[i] == QueryStatus(u)
    ensures t.outcome.Pass? ==> t.rkt.pid.Some?
    ensures t.outcome.Fail? ==> t.rkt == r1
  {
    var stateLoop := Polling.Retry(attempts, StatusStep(r1, u, h));
    var events := prior + Repeat(QueryStatus(u), stateLoop.tries);
    match stateLoop
    case Exhausted(_) => Transition(r1, events, Fail(NotReady("fetch rkt state")))
    case Aborted(e, _) => Transition(r1, events, Fail(e))
    case Done(r2, n) =>
      assert FetchRktState(r1, h.status(u, n - 1)) == Polling.Ready(r2);
      Transition(r2, events, Pass)
  }

  /** The first readiness step of `start`: read the identifier file until the
      read succeeds, then await the running state for the identifier read.
      When no read succeeds the instance stays as it was; every call made here
      is a read of the identifier file or a status query. */
  function AwaitIdentifier(r: Rkt, h: Host, attempts: nat, prior: seq<Event>): (t: Transition)
    requires !Running(r)
    ensures t.rkt.uuid == r.uuid && t.rkt.runConf == r.runConf && t.rkt.uuidPath == r.uuidPath
    ensures |t.events| >= |prior| && t.events[..|prior|] == prior
    ensures forall i :: |prior| <= i < |t.events| ==> t.events[i] == ReadFile(r.uuidPath) || t.events[i].QueryStatus?
    ensures t.outcome.Pass? ==> Running(t.rkt) && t.rkt.pid.Some?
    ensures !Running(t.rkt) ==> t.rkt == r
  {
    var readLoop := Polling.Retry(attempts, ReadStep(r, h));
    var afterReads := prior + Repeat(ReadFile(r.uuidPath), readLoop.tries);
    match readLoop
    case Exhausted(_) => Transition(r, afterReads, Fail(NotReady("read rkt UUID")))
    case Aborted(e, _) => Transition(r, afterReads, Fail(e))
    case Done(r1, n) =>
      assert ReadRktUuid(r, h.readUuid(n - 1)) == Polling.Ready(r1);
      var t := AwaitRunning(r1, r1.rktUuid.value, h, attempts, afterReads);
      assert t.events[..|prior|] == afterReads[..|prior|];
      t
  }

  /** Read `j` is the first read of the identifier file that succeeds. */
  ghost predicate FirstRead(h: Host, j: nat) {
    h.readUuid(j).Some? && forall k :: 0 <= k < j ==> h.readUuid(k).None?
  }

  /** Reply `k` of `rkt status u` is the first that does not report a state
      other than `running`, and it reports `running` with `pid`. */
  ghost predicate FirstRunningReply(h: Host, u: string, k: nat, pid: int) {
    ReportsPid(h.status(u, k), pid) && forall i :: 0 <= i < k ==> ReportsNotRunning(h.status(u, i))
  }

  /** A completed wait for the running state stopped at the first reply
      reporting `running`, recorded the pid of that reply, and queried the
      status exactly once per reply up to it. */
  lemma AwaitRunningReports(r1: Rkt, u: string, h: Host, attempts: nat, prior: seq<Event>)
    requires Running(r1)
    ensures var t := AwaitRunning(r1, u, h, attempts, prior);
      t.outcome.Pass? ==>
        exists k: nat :: k < attempts && FirstRunningReply(h, u, k, t.rkt.pid.value)
          && t.events == prior + Repeat(QueryStatus(u), k + 1)
  {
    var step := StatusStep(r1, u, h);
    var loop := Polling.Retry(attempts, step);
    if loop.Done? {
      var k := loop.tries - 1;
      forall i | 0 <= i < k
        ensures ReportsNotRunning(h.status(u, i))
      {
        assert step(i).NotYetReady?;
        FetchRktStateSpec(r1, h.status(u, i));
      }
      FetchRktStateSpec(r1, h.status(u, k));
      var p :| ReportsPid(h.status(u, k), p);
      assert loop.value == r1.(pid := Some(p));
      assert FirstRunningReply(h, u, k, p);
    }
  }

  /** Status output in which some line is non-empty without `=` is fatal at
      once: `_fetch_rkt_state` raises with the first such line. */
  lemma FetchRejectsMalformedStatus(r: Rkt, text: string)
    requires !KeyVal.WellFormed(SplitLines(text))
    ensures exists i :: (KeyVal.FirstMalformed(SplitLines(text), i)
      && FetchRktState(r, Output(text)) == Polling.Fatal(MalformedStatus(SplitLines(text)[i])))
  {
    KeyVal.ParseKeyvalSpec(text);
    FetchRktStateSpec(r, Output(text));
  }

  /** Each of the first `attempts` replies of `rkt status u` reports a state
      other than `running`. */
  ghost predicate NeverRunning(h: Host, u: string, attempts: nat) {
    forall i :: 0 <= i < attempts ==> ReportsNotRunning(h.status(u, i))
  }

  /** Reply `k` of `rkt status u` is the first that does not report a state
      other than `running`, and `_fetch_rkt_state` raises on it. */
  ghost predicate FirstFatalReply(r1: Rkt, h: Host, u: string, k: nat) {
    FetchRktState(r1, h.status(u, k)).Fatal? && forall i :: 0 <= i < k ==> ReportsNotRunning(h.status(u, i))
  }

  /** A reply reporting `running` within the budget, after replies that all
      report another state, completes the wait: exactly one query per reply
      up to it, and that reply's pid recorded. */
  lemma AwaitRunningCompletes(r1: Rkt, u: string, h: Host, attempts: nat, prior: seq<Event>, k: nat, p: int)
    requires Running(r1) && k < attempts && FirstRunningReply(h, u, k, p)
    ensures AwaitRunning(r1, u, h, attempts, prior)
      == Transition(r1.(pid := Some(p)), prior + Repeat(QueryStatus(u), k + 1), Pass)
  {
    var step := StatusStep(r1, u, h);
    forall i | 0 <= i < k
      ensures step(i).NotYetReady?
    {
      FetchRetriesNotRunning(r1, h.status(u, i));
    }
    FetchRecordsReportedPid(r1, h.status(u, k), p);
    assert step(k) == Polling.Ready(r1.(pid := Some(p)));
    Polling.RetryStopsAt(attempts, step, k);
  }

  /** When every reply within the budget reports another state, the wait
      raises not-ready after exactly `attempts` queries and changes nothing. */
  lemma AwaitRunningGivesUp(r1: Rkt, u: string, h: Host, attempts: nat, prior: seq<Event>)
    requires Running(r1) && NeverRunning(h, u, attempts)
    ensures AwaitRunning(r1, u, h, attempts, prior)
      == Transition(r1, prior + Repeat(QueryStatus(u), attempts), Fail(NotReady("fetch rkt state")))
  {
    var step := StatusStep(r1, u, h);
    forall i | 0 <= i < attempts
      ensures step(i).NotYetReady?
    {
      FetchRetriesNotRunning(r1, h.status(u, i));
    }
    assert Polling.Retry(attempts, step).Exhausted?;
  }

  /** A reply on which `_fetch_rkt_state` raises, after replies that all
      report another state, ends the wait at once with that error: it is not
      retried, and nothing changes. */
  lemma AwaitRunningAborts(r1: Rkt, u: string, h: Host, attempts: nat, prior: seq<Event>, k: nat)
    requires Running(r1) && k < attempts && FirstFatalReply(r1, h, u, k)
    ensures AwaitRunning(r1, u, h, attempts, prior)
      == Transition(r1, prior + Repeat(QueryStatus(u), k + 1), Fail(FetchRktState(r1, h.status(u, k)).error))
  {
    var step := StatusStep(r1, u, h);
    forall i | 0 <= i < k
      ensures step(i).NotYetReady?
    {
      FetchRetriesNotRunning(r1, h.status(u, i));
    }
    assert step(k).Fatal?;
    Polling.RetryStopsAt(attempts, step, k);
  }

  /** A failed wait either saw only replies reporting another state and
      raised not-ready after `attempts` queries, or stopped at the first reply
      on which `_fetch_rkt_state` raises, with that reply's error. */
  lemma AwaitRunningFails(r1: Rkt, u: string, h: Host, attempts: nat, prior: seq<Event>)
    requires Running(r1)
    ensures var t := AwaitRunning(r1, u, h, attempts, prior);
      t.outcome.Fail? ==>
        || (NeverRunning(h, u, attempts)
            && t == Transition(r1, prior + Repeat(QueryStatus(u), attempts), Fail(NotReady("fetch rkt state"))))
        || exists k: nat :: k < attempts && FirstFatalReply(r1, h, u, k)
             && t == Transition(r1, prior + Repeat(QueryStatus(u), k + 1), Fail(FetchRktState(r1, h.status(u, k)).error))
  {
    var step := StatusStep(r1, u, h);
    var loop := Polling.Retry(attempts, step);
    if loop.Exhausted? {
      forall i | 0 <= i < attempts
        ensures ReportsNotRunning(h.status(u, i))
      {
        assert step(i).NotYetReady?;
        FetchRktStateSpec(r1, h.status(u, i));
      }
    } else if loop.Aborted? {
      var k := loop.tries - 1;
      forall i | 0 <= i < k
        ensures ReportsNotRunning(h.status(u, i))
      {
        assert step(i).NotYetReady?;
        FetchRktStateSpec(r1, h.status(u, i));
      }
      assert FirstFatalReply(r1, h, u, k);
    }
  }

  /** The identifier the `j`-th read of the identifier file yields. */
  function IdentifierRead(h: Host, j: nat): string
    requires h.readUuid(j).Some?
  {
    Strip(h.readUuid(j).value)
  }

  /** `t` read the identifier file `j + 1` times, up to its first successful
      read, holds the identifier that read produced, and afterwards made only
      status queries for it. */
  ghost predicate ReadsThenQueries(r: Rkt, h: Host, j: nat, prior: seq<Event>, t: Transition) {
    var readEvents := prior + Repeat(ReadFile(r.uuidPath), j + 1);
    && FirstRead(h, j)
    && t.rkt.rktUuid == Some(IdentifierRead(h, j))
    && |t.events| >= |readEvents| && t.events[..|readEvents|] == readEvents
    && forall i :: |readEvents| <= i < |t.events| ==> t.events[i] == QueryStatus(IdentifierRead(h, j))
  }

  /** `t` read the identifier file up to its first successful read `j`, then
      queried the status up to the first reply `k` reporting `running`, and
      holds the pid of that reply. */
  ghost predicate ReadsThenRunning(r: Rkt, h: Host, j: nat, k: nat, prior: seq<Event>, t: Transition) {
    && FirstRead(h, j)
    && t.rkt.pid.Some?
    && FirstRunningReply(h, IdentifierRead(h, j), k, t.rkt.pid.value)
    && t.events == prior + Repeat(ReadFile(r.uuidPath), j + 1) + Repeat(QueryStatus(IdentifierRead(h, j)), k + 1)
  }

  /** When read `j` is the first successful one, the wait for the identifier
      is the wait for the running state with the identifier read there, after
      `j + 1` reads. */
  lemma AwaitIdentifierAfterReads(r: Rkt, h: Host, attempts: nat, prior: seq<Event>, j: nat)
    requires !Running(r) && j < attempts && FirstRead(h, j)
    ensures AwaitIdentifier(r, h, attempts, prior)
      == AwaitRunning(r.(rktUuid := Some(IdentifierRead(h, j))), IdentifierRead(h, j), h, attempts,
                      prior + Repeat(ReadFile(r.uuidPath), j + 1))
  {
    var r1 := r.(rktUuid := Some(IdentifierRead(h, j)));
    var step := ReadStep(r, h);
    forall k | 0 <= k < j
      ensures step(k).NotYetReady?
    {
    }
    assert step(j) == Polling.Ready(r1);
    Polling.RetryStopsAt(attempts, step, j);
  }

  /** The reads of the identifier file: the instance ends up running exactly
      when one of the `attempts` reads succeeds. Then the identifier is the
      stripped contents of the first successful read, the reads up to it come
      first, and every later call is a status query for that identifier; a
      completed wait also stopped at the first status reply reporting
      `running` and recorded its pid. */
  lemma AwaitIdentifierReads(r: Rkt, h: Host, attempts: nat, prior: seq<Event>)
    requires !Running(r)
    ensures var t := AwaitIdentifier(r, h, attempts, prior);
      !Running(t.rkt) <==> forall k :: 0 <= k < attempts ==> h.readUuid(k).None?
    ensures var t := AwaitIdentifier(r, h, attempts, prior);
      !Running(t.rkt) ==> t.events == prior + Repeat(ReadFile(r.uuidPath), attempts)
    ensures var t := AwaitIdentifier(r, h, attempts, prior);
      Running(t.rkt) ==> exists j: nat :: j < attempts && ReadsThenQueries(r, h, j, prior, t)
    ensures var t := AwaitIdentifier(r, h, attempts, prior);
      t.outcome.Pass? ==> exists j: nat, k: nat :: j < attempts && k < attempts && ReadsThenRunning(r, h, j, k, prior, t)
  {
    var step := ReadStep(r, h);
    var readLoop := Polling.Retry(attempts, step);
    var t := AwaitIdentifier(r, h, attempts, prior);
    if readLoop.Done? {
      var j := readLoop.tries - 1;
      forall k | 0 <= k < j
        ensures h.readUuid(k).None?
      {
        assert step(k).NotYetReady?;
      }
      AwaitIdentifierAfterReads(r, h, attempts, prior, j);
      var u := IdentifierRead(h, j);
      var afterReads := prior + Repeat(ReadFile(r.uuidPath), j + 1);
      assert ReadsThenQueries(r, h, j, prior, t);
      AwaitRunningReports(r.(rktUuid := Some(u)), u, h, attempts, afterReads);
      if t.outcome.Pass? {
        var k: nat :| k < attempts && FirstRunningReply(h, u, k, t.rkt.pid.value)
          && t.events == afterReads + Repeat(QueryStatus(u), k + 1);
        assert ReadsThenRunning(r, h, j, k, prior, t);
      }
    } else {
      forall k: nat
        ensures !step(k).Fatal?
      {
        assert step(k) == ReadRktUuid(r, h.readUuid(k));
      }
      forall k | 0 <= k < attempts
        ensures h.readUuid(k).None?
      {
        assert step(k).NotYetReady?;
      }
      assert t == Transition(r, prior + Repeat(ReadFile(r.uuidPath), attempts), Fail(NotReady("read rkt UUID")));
    }
  }

  /** What a `start` that passed its guard did, after launching: the instance
      ends up running exactly when a read of the identifier file succeeds,
      and then with the identifier of the first successful read and the calls
      in the order reads, then queries; a completed start recorded the pid of
      the first status reply reporting `running`, and a failed one that kept
      an identifier saw only other states or stopped at a fatal reply.
      `StartCompletes`, `StartGivesUpWaiting` and `StartStopsAtFatalReply`
      give the exact outcome in each case. */
  lemma StartDiscovers(r: Rkt, h: Host, attempts: nat, target: Option<string>)
    requires !Running(r) && h.run.Pass?
    ensures var t := Start(r, h, attempts, target);
      !Running(t.rkt) <==> forall k :: 0 <= k < attempts ==> h.readUuid(k).None?
    ensures var t := Start(r, h, attempts, target);
      Running(t.rkt) ==> exists j: nat :: j < attempts && ReadsThenQueries(r, h, j, LaunchEvents(r, target), t)
    ensures var t := Start(r, h, attempts, target);
      t.outcome.Pass? ==>
        exists j: nat, k: nat :: j < attempts && k < attempts && ReadsThenRunning(r, h, j, k, LaunchEvents(r, target), t)
    ensures var t := Start(r, h, attempts, target);
      t.outcome.Fail? && Running(t.rkt) ==>
        exists j: nat :: j < attempts && FirstRead(h, j) && StatusPhaseFailed(r, h, attempts, j)
  {
    var launch := LaunchEvents(r, target);
    var t := Start(r, h, attempts, target);
    assert t == AwaitIdentifier(r, h, attempts, launch);
    AwaitIdentifierReads(r, h, attempts, launch);
    if t.outcome.Fail? && Running(t.rkt) {
      var j: nat :| j < attempts && ReadsThenQueries(r, h, j, launch, t);
      var u := IdentifierRead(h, j);
      AwaitIdentifierAfterReads(r, h, attempts, launch, j);
      AwaitRunningFails(r.(rktUuid := Some(u)), u, h, attempts, launch + Repeat(ReadFile(r.uuidPath), j + 1));
      assert StatusPhaseFailed(r, h, attempts, j);
    }
  }

  /** After read `j`, the first successful one, the status replies never
      complete the start: each of the `attempts` replies reports another
      state, or the first reply not doing so is one `_fetch_rkt_state` raises on. */
  ghost predicate StatusPhaseFailed(r: Rkt, h: Host, attempts: nat, j: nat)
    requires FirstRead(h, j)
  {
    var u := IdentifierRead(h, j);
    || NeverRunning(h, u, attempts)
    || exists k: nat :: k < attempts && FirstFatalReply(r.(rktUuid := Some(u)), h, u, k)
  }

  /** The status phase of `start` after read `j`, the first successful one:
      a reply reporting `running` within the budget, after replies that all
      report another state, completes the start with that identifier and pid. */
  lemma StartCompletes(r: Rkt, h: Host, attempts: nat, target: Option<string>, j: nat, k: nat, p: int)
    requires !Running(r) && h.run.Pass? && j < attempts && FirstRead(h, j)
    requires k < attempts && FirstRunningReply(h, IdentifierRead(h, j), k, p)
    ensures Start(r, h, attempts, target) == Transition(
      r.(rktUuid := Some(IdentifierRead(h, j)), pid := Some(p)),
      LaunchEvents(r, target) + Repeat(ReadFile(r.uuidPath), j + 1) + Repeat(QueryStatus(IdentifierRead(h, j)), k + 1),
      Pass)
  {
    var u := IdentifierRead(h, j);
    var launch := LaunchEvents(r, target);
    assert Start(r, h, attempts, target) == AwaitIdentifier(r, h, attempts, launch);
    AwaitIdentifierAfterReads(r, h, attempts, launch, j);
    AwaitRunningCompletes(r.(rktUuid := Some(u)), u, h, attempts, launch + Repeat(ReadFile(r.uuidPath), j + 1), k, p);
  }

  /** The status phase of `start` after read `j`, the first successful one:
      when every reply within the budget reports another state, `start`
      raises not-ready after `attempts` queries and keeps the identifier. */
  lemma StartGivesUpWaiting(r: Rkt, h: Host, attempts: nat, target: Option<string>, j: nat)
    requires !Running(r) && h.run.Pass? && j < attempts && FirstRead(h, j)
    requires NeverRunning(h, IdentifierRead(h, j), attempts)
    ensures Start(r, h, attempts, target) == Transition(
      r.(rktUuid := Some(IdentifierRead(h, j))),
      LaunchEvents(r, target) + Repeat(ReadFile(r.uuidPath), j + 1) + Repeat(QueryStatus(IdentifierRead(h, j)), attempts),
      Fail(NotReady("fetch rkt state")))
  {
    var u := IdentifierRead(h, j);
    var launch := LaunchEvents(r, target);
    assert Start(r, h, attempts, target) == AwaitIdentifier(r, h, attempts, launch);
    AwaitIdentifierAfterReads(r, h, attempts, launch, j);
    AwaitRunningGivesUp(r.(rktUuid := Some(u)), u, h, attempts, launch + Repeat(ReadFile(r.uuidPath), j + 1));
  }

  /** The status phase of `start` after read `j`, the first successful one: a
      reply on which `_fetch_rkt_state` raises (a failed `rkt status`, a
      malformed output, a missing key, a non-integer pid), after replies that
      all report another state, ends `start` at once with that error; the
      identifier is kept. */
  lemma StartStopsAtFatalReply(r: Rkt, h: Host, attempts: nat, target: Option<string>, j: nat, k: nat)
    requires !Running(r) && h.run.Pass? && j < attempts && FirstRead(h, j)
    requires k < attempts && FirstFatalReply(r.(rktUuid := Some(IdentifierRead(h, j))), h, IdentifierRead(h, j), k)
    ensures Start(r, h, attempts, target) == Transition(
      r.(rktUuid := Some(IdentifierRead(h, j))),
      LaunchEvents(r, target) + Repeat(ReadFile(r.uuidPath), j + 1) + Repeat(QueryStatus(IdentifierRead(h, j)), k + 1),
      Fail(FetchRktState(r.(rktUuid := Some(IdentifierRead(h, j))), h.status(IdentifierRead(h, j), k)).error))
  {
    var u := IdentifierRead(h, j);
    var launch := LaunchEvents(r, target);
    assert Start(r, h, attempts, target) == AwaitIdentifier(r, h, attempts, launch);
    AwaitIdentifierAfterReads(r, h, attempts, launch, j);
    AwaitRunningAborts(r.(rktUuid := Some(u)), u, h, attempts, launch + Repeat(ReadFile(r.uuidPath), j + 1), k);
  }

  /** `start(target)` with a retry budget of `attempts` calls per readiness step.
      On a running instance it raises "already running" and calls nothing.
      Otherwise it removes the stale identifier file before launching `rkt
      run` and only then polls; a start that does not end running leaves the
      state exactly as it found it; a completed start ends running with a pid;
      nothing but the identifier and the pid ever changes. */
  function Start(r: Rkt, h: Host, attempts: nat, target: Option<string>): (t: Transition)
    ensures Running(r) ==> t == Transition(r, [], Fail(OperationFailed("already running")))
    ensures !Running(r) && h.run.Fail? ==> t == Transition(r, LaunchEvents(r, target), Fail(CommandFailed(h.run.error)))
    ensures !Running(r) ==> |t.events| >= 2 && t.events[..2] == LaunchEvents(r, target)
    ensures !Running(r) ==> PollingEvents(r, t.events)
    ensures t.outcome.Pass? ==> Running(t.rkt) && t.rkt.pid.Some?
    ensures !Running(t.rkt) ==> t.rkt == r
    ensures t.rkt.uuid == r.uuid && t.rkt.runConf == r.runConf && t.rkt.uuidPath == r.uuidPath
  {
    if Running(r) then
      Transition(r, [], Fail(OperationFailed("already running")))
    else
      var launch := LaunchEvents(r, target);
      if h.run.Fail? then
        Transition(r, launch, Fail(CommandFailed(h.run.error)))
      else
        AwaitIdentifier(r, h, attempts, launch)
  }

  /** `stop()`. On an instance that is not running it raises "not running" and
      calls nothing. Otherwise it first stops the container by the runtime name
      it has before clearing anything; when that succeeds it removes the
      identifier file, ignores whether the removal worked, forgets the
      identifier and completes; when it fails nothing changes. */
  function Stop(r: Rkt, h: Host): (t: Transition)
    ensures !Running(r) ==> t == Transition(r, [], Fail(OperationFailed("not running")))
    ensures Running(r) ==> |t.events| > 0 && t.events[0] == StopContainer(RuntimeName(r).value)
    ensures Running(r) && h.stop.Fail? ==>
      t == Transition(r, [StopContainer(RuntimeName(r).value)], Fail(CommandFailed(h.stop.error)))
    ensures t.outcome.Pass? <==> Running(r) && h.stop.Pass?
    ensures t.outcome.Pass? ==>
      && !Running(t.rkt) && RuntimeName(t.rkt).None?
      && t.rkt == r.(rktUuid := None)
      && t.events == [StopContainer(PREFIX + r.rktUuid.value), RemoveFile(r.uuidPath)]
    ensures t.outcome.Fail? ==> t.rkt == r
  {
    if !Running(r) then
      Transition(r, [], Fail(OperationFailed("not running")))
    else
      var name := RuntimeName(r).value;
      if h.stop.Fail? then
        Transition(r, [StopContainer(name)], Fail(CommandFailed(h.stop.error)))
      else
        // os.remove may fail; the OSError is swallowed either way
        Transition(r.(rktUuid := None), [StopContainer(name), RemoveFile(r.uuidPath)], Pass)
  }

  /** When the identifier file never becomes readable, `start` gives up after
      exactly `attempts` reads, reports not-ready and leaves the instance
      stopped as it was. */
  lemma StartGivesUpWithoutIdentifier(r: Rkt, h: Host, attempts: nat, target: Option<string>)
    requires !Running(r) && h.run.Pass?
    requires forall k :: 0 <= k < attempts ==> h.readUuid(k).None?
    ensures var t := Start(r, h, attempts, target);
      && t.outcome == Fail(NotReady("read rkt UUID"))
      && t.rkt == r
      && t.events == LaunchEvents(r, target) + Repeat(ReadFile(r.uuidPath), attempts)
  {
    var step := ReadStep(r, h);
    assert forall k :: 0 <= k < attempts ==> step(k).NotYetReady?;
    assert Polling.Retry(attempts, step).Exhausted?;
  }

  /** When the identifier is read but rkt never reports the container running,
      `start` fails not-ready yet keeps the identifier: the instance counts as
      running and keeps its old pid. */
  lemma StartKeepsIdentifierWhenNeverRunning(r: Rkt, h: Host, attempts: nat, target: Option<string>, data: string)
    requires !Running(r) && h.run.Pass? && attempts > 0
    requires h.readUuid(0) == Some(data)
    requires forall k :: 0 <= k < attempts ==> ReportsNotRunning(h.status(Strip(data), k))
    ensures var t := Start(r, h, attempts, target);
      && t.outcome == Fail(NotReady("fetch rkt state"))
      && t.rkt == r.(rktUuid := Some(Strip(data)))
      && Running(t.rkt) && t.rkt.pid == r.pid
      && RuntimeName(t.rkt) == Some(PREFIX + Strip(data))
  {
    var readLoop := Polling.Retry(attempts, ReadStep(r, h));
    assert readLoop.tries == 1;
    var r1 := r.(rktUuid := Some(Strip(data)));
    var step := StatusStep(r1, Strip(data), h);
    forall k | 0 <= k < attempts
      ensures step(k).NotYetReady?
    {
      FetchRktStateSpec(r1, h.status(Strip(data), k));
    }
    assert Polling.Retry(attempts, step).Exhausted?;
  }

  /** The straight path: the identifier file is readable at once and rkt
      reports the container running with a pid at once; `start` makes exactly
      four calls and ends running with that identifier and pid. */
  lemma StartFirstTime(r: Rkt, h: Host, attempts: nat, target: Option<string>, data: string, pid: int)
    requires !Running(r) && h.run.Pass? && attempts > 0
    requires h.readUuid(0) == Some(data)
    requires ReportsPid(h.status(Strip(data), 0), pid)
    ensures Start(r, h, attempts, target) == Transition(
      r.(rktUuid := Some(Strip(data)), pid := Some(pid)),
      LaunchEvents(r, target) + [ReadFile(r.uuidPath), QueryStatus(Strip(data))],
      Pass)
  {
    var r1 := r.(rktUuid := Some(Strip(data)));
    var u := Strip(data);
    var launch := LaunchEvents(r, target);
    FetchRecordsReportedPid(r1, h.status(u, 0), pid);
    var afterReads := launch + [ReadFile(r.uuidPath)];
    AwaitRunningAtOnce(r1, u, h, attempts, afterReads, r1.(pid := Some(pid)));
    AwaitIdentifierAtOnce(r, h, attempts, launch, data);
    assert Start(r, h, attempts, target) == AwaitIdentifier(r, h, attempts, launch);
  }

  lemma FetchRetriesNotRunning(r: Rkt, reply: StatusReply)
    requires ReportsNotRunning(reply)
    ensures FetchRktState(r, reply).NotYetReady?
  {
    FetchRktStateSpec(r, reply);
  }

  lemma FetchRecordsReportedPid(r: Rkt, reply: StatusReply, pid: int)
    requires ReportsPid(reply, pid)
    ensures FetchRktState(r, reply) == Polling.Ready(r.(pid := Some(pid)))
  {
    FetchRktStateSpec(r, reply);
  }

  lemma AwaitRunningAtOnce(r1: Rkt, u: string, h: Host, attempts: nat, prior: seq<Event>, r2: Rkt)
    requires Running(r1) && attempts > 0
    requires FetchRktState(r1, h.status(u, 0)) == Polling.Ready(r2)
    ensures AwaitRunning(r1, u, h, attempts, prior) == Transition(r2, prior + [QueryStatus(u)], Pass)
  {
    var fetchStep := StatusStep(r1, u, h);
    assert fetchStep(0) == Polling.Ready(r2);
    assert Polling.Retry(attempts, fetchStep) == Polling.Done(r2, 1);
    assert Repeat(QueryStatus(u), 1) == [QueryStatus(u)];
  }

  lemma AwaitIdentifierAtOnce(r: Rkt, h: Host, attempts: nat, prior: seq<Event>, data: string)
    requires !Running(r) && attempts > 0
    requires h.readUuid(0) == Some(data)
    ensures AwaitIdentifier(r, h, attempts, prior)
      == AwaitRunning(r.(rktUuid := Some(Strip(data))), Strip(data), h, attempts, prior + [ReadFile(r.uuidPath)])
  {
    var readStep := ReadStep(r, h);
    assert readStep(0) == Polling.Ready(r.(rktUuid := Some(Strip(data))));
    assert Polling.Retry(attempts, readStep) == Polling.Done(r.(rktUuid := Some(Strip(data))), 1);
    assert Repeat(ReadFile(r.uuidPath), 1) == [ReadFile(r.uuidPath)];
  }

  /** A completed `start` followed by a completed `stop`: the stop command
      addresses the identifier `start` discovered, and afterwards the instance
      is stopped again, so the next `start` passes its guard. */
  lemma StartThenStop(r: Rkt, h: Host, attempts: nat, target: Option<string>)
    requires Start(r, h, attempts, target).outcome.Pass? && h.stop.Pass?
    ensures var started := Start(r, h, attempts, target).rkt;
      var t := Stop(started, h);
      && t.outcome.Pass?
      && t.events[0] == StopContainer(PREFIX + started.rktUuid.value)
      && !Running(t.rkt)
      && Start(t.rkt, h, attempts, target).events[..2] == LaunchEvents(t.rkt, target)
  {
  }
}
