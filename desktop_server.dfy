/** The desktop wrapper's control of the TTS server process
    (`wrapper/src-tauri/src/server.rs`): a status machine over Stopped,
    Starting, Running, Stopping and Error, the readiness probe that ends a
    start, and the wait that ends a stop. Spawning, signalling and the
    health request are parameters: the child's process id or the spawn
    error, one result per probe attempt, one result per poll of the
    child. */
module DesktopServer {
  import opened Wrappers

  datatype ServerStatus = Stopped | Starting | Running(port: nat) | Stopping | Error(message: string)

  /** What one request to `/health` gives: a success status, another
      status, or a failure to connect with its message. */
  datatype Probe = Healthy | Unhealthy(code: nat) | Unreachable(error: string)

  /** The readiness probe's attempt limit. */
  const MaxAttempts: nat := 100

  /** What one `try_wait` of the child gives. */
  datatype Poll = Exited | StillRunning | PollFailed

  /** How `stop` stopped waiting, and after how many polls. */
  datatype ExitWait = ExitedAfter(polls: nat) | Killed(polls: nat) | WaitFailed(polls: nat)

  /** The pause between two polls, and the time after which `stop` kills
      the child, in milliseconds. */
  const PollMillis: nat := 100
  const TimeoutMillis: nat := 5000

  // ---------------------------------------------------------------------------
  // The readiness probe
  // ---------------------------------------------------------------------------

  /** What `wait_for_server_ready` returns when its attempts from `attempt`
      on give `probe`. */
  function Readiness(probe: nat -> Probe, attempt: nat): Result<(), string>
    decreases MaxAttempts + 1 - attempt
  {
    if attempt > MaxAttempts then Err("Server failed to start within timeout")
    else match probe(attempt)
      case Healthy => Ok(())
      case Unhealthy(_) => Readiness(probe, attempt + 1)
      case Unreachable(e) =>
        if attempt == MaxAttempts then Err("Server failed to start after 100 attempts: " + e)
        else Readiness(probe, attempt + 1)
  }

  /** `wait_for_server_ready`: probes attempts 1 to 100 until one is
      healthy. */
  method WaitForServerReady(probe: nat -> Probe) returns (r: Result<(), string>)
    ensures r == Readiness(probe, 1)
  {
    var attempt := 1;
    while attempt <= MaxAttempts
      invariant 1 <= attempt <= MaxAttempts + 1
      invariant Readiness(probe, 1) == Readiness(probe, attempt)
      decreases MaxAttempts + 1 - attempt
    {
      match probe(attempt) {
        case Healthy =>
          return Ok(());
        case Unhealthy(_) =>
        case Unreachable(e) =>
          if attempt == MaxAttempts {
            return Err("Server failed to start after 100 attempts: " + e);
          }
      }
      attempt := attempt + 1;
    }
    r := Err("Server failed to start within timeout");
  }

  /** The server is ready exactly when one of the attempts 1 to 100 is
      healthy. */
  lemma {:induction false} ReadinessSpec(probe: nat -> Probe, attempt: nat)
    requires 1 <= attempt
    ensures Readiness(probe, attempt).Ok? <==> exists a :: attempt <= a <= MaxAttempts && probe(a).Healthy?
    decreases MaxAttempts + 1 - attempt
  {
    if attempt <= MaxAttempts && !probe(attempt).Healthy? {
      ReadinessSpec(probe, attempt + 1);
      if exists a :: attempt <= a <= MaxAttempts && probe(a).Healthy? {
        var a :| attempt <= a <= MaxAttempts && probe(a).Healthy?;
        assert attempt + 1 <= a;
      }
    }
  }

  /** No attempt after the hundredth is made: probes that agree on
      attempts 1 to 100 give the same result. */
  lemma {:induction false} ReadinessBounded(probe: nat -> Probe, other: nat -> Probe, attempt: nat)
    requires forall a :: 1 <= a <= MaxAttempts ==> probe(a) == other(a)
    requires 1 <= attempt
    ensures Readiness(probe, attempt) == Readiness(other, attempt)
    decreases MaxAttempts + 1 - attempt
  {
    if attempt <= MaxAttempts {
      ReadinessBounded(probe, other, attempt + 1);
    }
  }

  /** Failing, the probe reports the connection error of the last attempt
      when there was one, and the timeout otherwise. */
  lemma ReadinessFailure(probe: nat -> Probe, e: string)
    requires forall a :: 1 <= a < MaxAttempts ==> !probe(a).Healthy?
    ensures probe(MaxAttempts) == Unreachable(e) ==>
      Readiness(probe, 1) == Err("Server failed to start after 100 attempts: " + e)
    ensures probe(MaxAttempts).Unhealthy? ==> Readiness(probe, 1) == Err("Server failed to start within timeout")
  {
    ReadinessFrom(probe, 1);
  }

  lemma {:induction false} ReadinessFrom(probe: nat -> Probe, attempt: nat)
    requires 1 <= attempt <= MaxAttempts
    requires forall a :: attempt <= a < MaxAttempts ==> !probe(a).Healthy?
    ensures Readiness(probe, attempt) == Readiness(probe, MaxAttempts)
    decreases MaxAttempts - attempt
  {
    if attempt < MaxAttempts {
      ReadinessFrom(probe, attempt + 1);
    }
  }

  // ---------------------------------------------------------------------------
  // Waiting for the child to exit
  // ---------------------------------------------------------------------------

  /** How the wait of `stop` ends once `k` polls have been made. */
  function Waited(poll: nat -> Poll, k: nat): ExitWait
    decreases TimeoutMillis / PollMillis + 1 - k
  {
    match poll(k)
    case Exited => ExitedAfter(k)
    case PollFailed => WaitFailed(k)
    case StillRunning =>
      if k * PollMillis > TimeoutMillis then Killed(k) else Waited(poll, k + 1)
  }

  /** The wait loop of `stop`: polls every 100 ms, and kills the child once
      more than five seconds have passed. */
  method WaitForExit(poll: nat -> Poll) returns (how: ExitWait)
    ensures how == Waited(poll, 0)
  {
    var k := 0;
    while true
      invariant k <= TimeoutMillis / PollMillis + 1
      invariant Waited(poll, 0) == Waited(poll, k)
      decreases TimeoutMillis / PollMillis + 1 - k
    {
      match poll(k) {
        case Exited =>
          return ExitedAfter(k);
        case PollFailed =>
          return WaitFailed(k);
        case StillRunning =>
          if k * PollMillis > TimeoutMillis {
            return Killed(k);
          }
      }
      k := k + 1;
    }
  }

  /** The wait makes at most 52 polls; the child is killed only when it
      was still running at every one of them, which takes 51 pauses. */
  lemma {:induction false} WaitBounded(poll: nat -> Poll, k: nat)
    requires k <= TimeoutMillis / PollMillis + 1
    ensures Waited(poll, k).polls <= TimeoutMillis / PollMillis + 1
    ensures Waited(poll, k).Killed? ==>
      Waited(poll, k).polls == TimeoutMillis / PollMillis + 1 &&
      forall j :: k <= j <= Waited(poll, k).polls ==> poll(j) == StillRunning
    decreases TimeoutMillis / PollMillis + 1 - k
  {
    if poll(k) == StillRunning && k * PollMillis <= TimeoutMillis {
      WaitBounded(poll, k + 1);
      if Waited(poll, k).Killed? {
        forall j | k <= j <= Waited(poll, k).polls ensures poll(j) == StillRunning {
          if j > k {
            assert k + 1 <= j;
          }
        }
      }
    }
  }

  // ---------------------------------------------------------------------------
  // The manager
  // ---------------------------------------------------------------------------

  /** `ServerManager`: the child's process id when one was spawned, the
      shared status, and the configured port. `history` records every
      status written, in order, as other tasks reading the shared status
      may see them. */
  class ServerManager {
    var process: Option<nat>
    var status: ServerStatus
    ghost var history: seq<ServerStatus>
    const port: nat

    /** `ServerManager::new`: stopped, with no process. */
    constructor (port: nat)
      ensures process == None && status == Stopped && history == [] && this.port == port
    {
      process := None;
      status := Stopped;
      history := [];
      this.port := port;
    }

    /** Writes the shared status. */
    method SetStatus(s: ServerStatus)
      modifies this
      ensures status == s && history == old(history) + [s] && process == old(process)
    {
      status := s;
      history := history + [s];
    }

    /** `start`: nothing when running or starting; otherwise the status
        becomes Starting and `spawn`, the child's id or the error of
        opening its log file or spawning it, is recorded or returned. A
        failed spawn leaves the status at Starting. */
    method Start(spawn: Result<nat, string>) returns (r: Result<(), string>)
      modifies this
      ensures old(status).Running? || old(status).Starting? ==>
        status == old(status) && process == old(process) && history == old(history) && r == Ok(())
      ensures !(old(status).Running? || old(status).Starting?) ==>
        status == Starting && history == old(history) + [Starting] &&
        (spawn.Ok? ==> process == Some(spawn.value) && r == Ok(())) &&
        (spawn.Err? ==> process == old(process) && r == Err(spawn.error))
    {
      if status.Running? || status.Starting? {
        return Ok(());
      }
      SetStatus(Starting);
      match spawn {
        case Err(e) =>
          return Err(e);
        case Ok(child) =>
          process := Some(child);
          r := Ok(());
      }
    }

    /** `start` with a failed spawn reported in the status as the failed
        readiness probe is: Error("Failed to start: ..."). */
    method StartOrFail(spawn: Result<nat, string>) returns (r: Result<(), string>)
      modifies this
      ensures old(status).Running? || old(status).Starting? ==>
        status == old(status) && process == old(process) && history == old(history) && r == Ok(())
      ensures !(old(status).Running? || old(status).Starting?) ==>
        (spawn.Ok? ==> status == Starting && history == old(history) + [Starting] && process == Some(spawn.value) && r == Ok(())) &&
        (spawn.Err? ==>
           status == Error("Failed to start: " + spawn.error) && history == old(history) + [Starting, status] &&
           process == old(process) && r == Err(spawn.error))
    {
      r := Start(spawn);
      if r.Err? {
        SetStatus(Error("Failed to start: " + r.error));
      }
    }

    /** The task `start` spawns: the status becomes Running on the
        configured port when the server answered, and Error otherwise. */
    method FinishStart(ready: Result<(), string>)
      modifies this
      ensures status == (if ready.Ok? then Running(port) else Error("Failed to start: " + ready.error))
      ensures history == old(history) + [status] && process == old(process)
    {
      match ready {
        case Ok(_) => SetStatus(Running(port));
        case Err(e) => SetStatus(Error("Failed to start: " + e));
      }
    }

    /** `stop`: nothing when stopped or stopping; otherwise the status goes
        to Stopping, the process is taken and waited for, and the status
        ends at Stopped. */
    method Stop(poll: nat -> Poll)
      modifies this
      ensures old(status).Stopped? || old(status).Stopping? ==>
        status == old(status) && process == old(process) && history == old(history)
      ensures !(old(status).Stopped? || old(status).Stopping?) ==>
        status == Stopped && process == None && history == old(history) + [Stopping, Stopped]
    {
      if status.Stopped? || status.Stopping? {
        return;
      }
      SetStatus(Stopping);
      if process.Some? {
        process := None;
        var _ := WaitForExit(poll);
      }
      SetStatus(Stopped);
    }

    /** `get_status`. */
    method GetStatus() returns (s: ServerStatus)
      ensures s == status
    {
      s := status;
    }

    /** `is_running`: exactly in Running. */
    method IsRunning() returns (running: bool)
      ensures running <==> status.Running?
    {
      running := status.Running?;
    }
  }

  /** A spawn that fails leaves `start` at Starting, where the retry is
      ignored and nothing is spawned; reported as Error, the retry spawns
      the child. */
  method RetryAfterFailedSpawn(port: nat, e: string, child: nat) returns (asWritten: Option<nat>, corrected: Option<nat>)
    ensures asWritten == None
    ensures corrected == Some(child)
  {
    var stuck := new ServerManager(port);
    var _ := stuck.Start(Err(e));
    var _ := stuck.Start(Ok(child));
    asWritten := stuck.process;
    var recovered := new ServerManager(port);
    var _ := recovered.StartOrFail(Err(e));
    var _ := recovered.StartOrFail(Ok(child));
    corrected := recovered.process;
  }
}
