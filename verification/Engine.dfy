/**
  The mining engine's mailbox protocol (src/miner/engine.cpp) as a state machine.

  One step is one critical section of the original: what a poster does under the mailbox
  lock, what the worker does between two lock operations, one submission. Steps of the
  poster, of stop() and of the worker interleave freely.
 */
module Engine {
  import opened Numbers
  import opened Origins
  import opened NonceLanes

  datatype Job = Job(id: string, input: string, difficulty: nat)

  datatype Entry = Entry(job: Job, prefix: string, origin: Origin)

  type Solution = seq<nat>

  /** from_hex_strict on the 32-byte block input: exactly 64 lowercase hex digits. */
  predicate WellFormed(job: Job)
  {
    |job.input| == 64 && forall i :: 0 <= i < 64 ==> ('0' <= job.input[i] <= '9' || 'a' <= job.input[i] <= 'f')
  }

  /** This engine's lane of the rig's nonce walk, and the difficulty test. */
  datatype Config = Config(lane: nat, lanes: nat, clears: (Solution, nat) -> bool)
  {
    function Stride(): nat { if lanes == 0 then 1 else lanes }
  }

  /** The worker's program counter; `serial` says which post it is working on. */
  datatype Pc =
    | Waiting                                                    // outer loop, on the condition variable
    | Top(serial: nat, entry: Entry)                             // inner loop, before process_job, unlocked
    | Solving(serial: nat, entry: Entry, nonce: seq<nat>)
    | Solved(serial: nat, entry: Entry, nonce: seq<nat>, found: seq<Solution>)
    | Submitting(serial: nat, entry: Entry, nonce: seq<nat>, left: seq<Solution>)   // past the staleness check
    | AfterCall(serial: nat, entry: Entry, failed: bool)
    | Backoff(serial: nat, entry: Entry)
    | Exited
  {
    predicate Holds() { !Waiting? && !Exited? }
  }

  /** One process_job call: its post, its attempt number and nonce, what had happened when it began. */
  datatype Start = Start(serial: nat, attempt: nat, prefix: string, nonce: seq<nat>, posted: nat, stopped: bool)

  /** One submission with the call it came from. */
  datatype Submission = Submission(id: string, nonce: seq<nat>, solution: Solution, origin: Origin, serial: nat, call: nat)

  datatype State = State(
    latest: Entry, hasJob: bool, stop: bool,     // the mailbox
    abort: bool, owed: set<nat>,                 // the solver's flag; posts whose abort is still to come
    stopping: bool,                              // stop() has asked for its abort
    counter: nat, failures: nat, pc: Pc,         // the worker
    // history
    posts: seq<Entry>, starts: seq<Start>, log: seq<Submission>)

  datatype Event =
    | Post(entry: Entry)                  // on_job, under the lock
    | RequestAbort(post: nat)             // on_job, once its post is made: the abort that post owes
    | StopAbort                           // stop(), before it signals
    | Stop                                // stop(), under the lock
    | Take | Exit                         // the worker wakes
    | PauseTick                           // paused() holds
    | Begin                               // process_job up to and into solve()
    | Finish(found: seq<Solution>)        // solve() returns
    | CutShort                            // solve() sees the flag and returns nothing
    | Throw                               // solve() throws
    | Check                               // superseded_by_newer_job
    | SubmitNext                          // one round of the candidate loop
    | Leave                               // candidate loop done
    | LoopCheck                           // the locked test after a call
    | Wake                                // backoff over or cut short

  function Init(cfg: Config): State
  {
    State(Entry(Job("", "", 0), "", Main), false, false, false, {}, false, cfg.lane % TWO64, 0, Waiting, [], [], [])
  }

  predicate Enabled(s: State, e: Event)
  {
    match e
    case Post(_) => true
    case RequestAbort(k) => k in s.owed
    case StopAbort => !s.stopping
    case Stop => s.stopping
    case Take => s.pc.Waiting? && s.hasJob && !s.stop
    case Exit => s.pc.Waiting? && s.stop
    case PauseTick => s.pc.Top?
    case Begin => s.pc.Top?
    case Finish(_) => s.pc.Solving?
    case CutShort => s.pc.Solving? && s.abort
    case Throw => s.pc.Solving?
    case Check => s.pc.Solved?
    case SubmitNext => s.pc.Submitting? && s.pc.left != []
    case Leave => s.pc.Submitting? && s.pc.left == []
    case LoopCheck => s.pc.AfterCall?
    case Wake => s.pc.Backoff?
  }

  function Next(cfg: Config, s: State, e: Event): State
    requires Enabled(s, e)
  {
    match e
    case Post(entry) => s.(latest := entry, hasJob := true, posts := s.posts + [entry], owed := s.owed + {|s.posts|})
    case RequestAbort(k) => s.(abort := true, owed := s.owed - {k})
    case StopAbort => s.(abort := true, stopping := true)
    case Stop => s.(stop := true)
    case Take =>
      var serial := if s.posts == [] then 0 else |s.posts| - 1;
      // A malformed input can never be mined: straight back to waiting.
      s.(hasJob := false, pc := if WellFormed(s.latest.job) then Top(serial, s.latest) else Waiting)
    case Exit => s.(pc := Exited)
    case PauseTick => if s.stop || s.hasJob then s.(pc := Waiting) else s
    case Begin =>
      var nonce := NonceBytes(s.pc.entry.prefix, s.counter);
      s.(counter := (s.counter + cfg.Stride()) % TWO64,
         abort := false,                              // each solve starts clean
         pc := Solving(s.pc.serial, s.pc.entry, nonce),
         starts := s.starts + [Start(s.pc.serial, |s.starts|, s.pc.entry.prefix, nonce, |s.posts|, s.stop)])
    case Finish(found) => s.(pc := Solved(s.pc.serial, s.pc.entry, s.pc.nonce, found))
    case CutShort => s.(pc := Solved(s.pc.serial, s.pc.entry, s.pc.nonce, []))
    case Throw => s.(failures := s.failures + 1, pc := AfterCall(s.pc.serial, s.pc.entry, true))
    case Check =>
      if s.hasJob && s.latest.job.id != s.pc.entry.job.id then
        s.(failures := 0, pc := AfterCall(s.pc.serial, s.pc.entry, false))
      else
        s.(pc := Submitting(s.pc.serial, s.pc.entry, s.pc.nonce, s.pc.found))
    case SubmitNext =>
      var sol := s.pc.left[0];
      var entry := s.pc.entry;
      s.(pc := s.pc.(left := s.pc.left[1..]),
         log := if cfg.clears(sol, entry.job.difficulty)
                then s.log + [Submission(entry.job.id, s.pc.nonce, sol, entry.origin, s.pc.serial, |s.starts|)]
                else s.log)
    case Leave => s.(failures := 0, pc := AfterCall(s.pc.serial, s.pc.entry, false))
    case LoopCheck =>
      s.(pc := if s.stop || s.hasJob then Waiting
               else if s.pc.failed then Backoff(s.pc.serial, s.pc.entry)
               else Top(s.pc.serial, s.pc.entry))
    case Wake => s.(pc := if s.stop || s.hasJob then Waiting else Top(s.pc.serial, s.pc.entry))
  }

  // ---- runs --------------------------------------------------------------------------------

  ghost predicate CanRun(cfg: Config, s: State, es: seq<Event>)
    decreases |es|
  {
    es == [] || (Enabled(s, es[0]) && CanRun(cfg, Next(cfg, s, es[0]), es[1..]))
  }

  ghost function Run(cfg: Config, s: State, es: seq<Event>): State
    requires CanRun(cfg, s, es)
    decreases |es|
  {
    if es == [] then s else Run(cfg, Next(cfg, s, es[0]), es[1..])
  }

  /** process_job calls begun in a run. */
  function Begins(es: seq<Event>): nat
  {
    if es == [] then 0 else (if es[0].Begin? then 1 else 0) + Begins(es[1..])
  }

  // ---- the invariant ---------------------------------------------------------------------------

  /** The counter of attempt t on this lane, as the wrapping 64-bit walk computes it. */
  function WalkCounter(cfg: Config, t: nat): nat
  {
    if t == 0 then cfg.lane % TWO64 else (WalkCounter(cfg, t - 1) + cfg.Stride()) % TWO64
  }

  /** A call works on the post it names, with that post's prefix and the next counter of the lane. */
  ghost predicate StartOk(cfg: Config, posts: seq<Entry>, c: Start, i: nat)
  {
    && c.attempt == i && c.serial < c.posted <= |posts|
    && c.prefix == posts[c.serial].prefix
    && c.nonce == NonceBytes(c.prefix, WalkCounter(cfg, i))
  }

  /** A submission's id, prefix, nonce, origin and difficulty are those of one single post. */
  ghost predicate FromOnePost(cfg: Config, posts: seq<Entry>, starts: seq<Start>, x: Submission)
  {
    && x.serial < |posts| && 0 < x.call <= |starts|
    && starts[x.call - 1].serial == x.serial
    && starts[x.call - 1].prefix == posts[x.serial].prefix
    && x.nonce == starts[x.call - 1].nonce
    && x.id == posts[x.serial].job.id && x.origin == posts[x.serial].origin
    && cfg.clears(x.solution, posts[x.serial].job.difficulty)
  }

  ghost predicate MailboxOk(s: State)
  {
    && (s.posts != [] ==> s.latest == s.posts[|s.posts| - 1])
    && (s.hasJob ==> s.posts != [])
    && (s.pc.Holds() ==>
          && s.pc.serial < |s.posts| && s.pc.entry == s.posts[s.pc.serial]
          && (s.hasJob <==> s.pc.serial < |s.posts| - 1))
  }

  /** Only posts owe aborts, and a stop is signalled after its own. */
  ghost predicate AbortsOk(s: State) { (forall k :: k in s.owed ==> k < |s.posts|) && (s.stop ==> s.stopping) }

  ghost predicate StartsOk(cfg: Config, s: State)
  {
    && s.counter == WalkCounter(cfg, |s.starts|)
    && (forall i {:trigger s.starts[i]} :: 0 <= i < |s.starts| ==> StartOk(cfg, s.posts, s.starts[i], i))
    && (s.stop || forall i :: 0 <= i < |s.starts| ==> !s.starts[i].stopped)
  }

  /** Calls take up posts in order; only the last call of a post can have begun after news or a stop. */
  ghost predicate OnlyLastLate(s: State)
  {
    forall i, j :: 0 <= i < j < |s.starts| ==>
      && s.starts[i].serial <= s.starts[j].serial
      && (s.starts[i].serial == s.starts[j].serial ==> s.starts[i].posted == s.starts[i].serial + 1)
      && !s.starts[i].stopped
  }

  /** Where the worker is, relative to the calls begun so far. */
  ghost predicate WorkerOk(s: State)
  {
    && (s.pc.Holds() ==> forall i :: 0 <= i < |s.starts| ==> s.starts[i].serial <= s.pc.serial)
    && (s.hasJob && !s.pc.Holds() ==> forall i :: 0 <= i < |s.starts| ==> s.starts[i].serial < |s.posts| - 1)
    && (s.pc.Solving? || s.pc.Solved? || s.pc.Submitting? ==>
          && s.starts != [] && s.starts[|s.starts| - 1].serial == s.pc.serial
          && s.starts[|s.starts| - 1].nonce == s.pc.nonce)
    // Before another call of the same post can begin, a locked test saw neither news nor stop.
    && (s.pc.Top? || s.pc.Backoff? ==>
          forall i :: 0 <= i < |s.starts| ==>
            && !s.starts[i].stopped
            && (s.starts[i].serial == s.pc.serial ==> s.starts[i].posted == s.pc.serial + 1))
    && (s.pc.Solved? || s.pc.Submitting? || s.pc.AfterCall? ==> s.starts != [])
  }

  ghost predicate LogOk(cfg: Config, s: State)
  {
    forall i {:trigger s.log[i]} :: 0 <= i < |s.log| ==> FromOnePost(cfg, s.posts, s.starts, s.log[i])
  }

  ghost predicate Inv(cfg: Config, s: State)
  {
    MailboxOk(s) && AbortsOk(s) && StartsOk(cfg, s) && WorkerOk(s) && OnlyLastLate(s) && LogOk(cfg, s)
  }

  lemma InitInv(cfg: Config)
    ensures Inv(cfg, Init(cfg))
  {
  }

  lemma StepStarts(cfg: Config, s: State, e: Event)
    requires Inv(cfg, s) && Enabled(s, e)
    ensures StartsOk(cfg, Next(cfg, s, e))
  {
    hide NonceBytes, WellFormed;
  }

  lemma StepMailbox(cfg: Config, s: State, e: Event)
    requires Inv(cfg, s) && Enabled(s, e)
    ensures MailboxOk(Next(cfg, s, e)) && AbortsOk(Next(cfg, s, e))
  {
    hide NonceBytes, WellFormed, WalkCounter, LogOk, OnlyLastLate, StartsOk, WorkerOk;
  }

  /** Steps that take up, drop or keep an entry. */
  predicate Between(e: Event) { e.Take? || e.Exit? || e.PauseTick? || e.LoopCheck? || e.Wake? }

  lemma StepBetween(cfg: Config, s: State, e: Event)
    requires Inv(cfg, s) && Enabled(s, e) && Between(e)
    ensures WorkerOk(Next(cfg, s, e))
  {
    hide NonceBytes, WellFormed, WalkCounter, LogOk, OnlyLastLate;
  }

  /** Steps of the poster and of stop(). */
  predicate Outside(e: Event) { e.Post? || e.RequestAbort? || e.StopAbort? || e.Stop? }

  lemma StepOutside(cfg: Config, s: State, e: Event)
    requires Inv(cfg, s) && Enabled(s, e) && Outside(e)
    ensures WorkerOk(Next(cfg, s, e))
  {
    hide NonceBytes, WellFormed, WalkCounter, LogOk, OnlyLastLate;
  }

  /** A call begins. */
  lemma StepBegin(cfg: Config, s: State)
    requires Inv(cfg, s) && Enabled(s, Begin)
    ensures WorkerOk(Next(cfg, s, Begin))
  {
    hide NonceBytes, WellFormed, WalkCounter, LogOk, OnlyLastLate, StartOk;
  }

  /** Steps inside a call. */
  lemma StepCall(cfg: Config, s: State, e: Event)
    requires Inv(cfg, s) && Enabled(s, e) && !Between(e) && !Outside(e) && !e.Begin?
    ensures WorkerOk(Next(cfg, s, e))
  {
    hide NonceBytes, WellFormed, WalkCounter, LogOk, OnlyLastLate, StartsOk;
  }

  lemma SameStarts(s: State, t: State)
    requires OnlyLastLate(s) && t.starts == s.starts
    ensures OnlyLastLate(t)
  {
  }

  lemma StepLate(cfg: Config, s: State, e: Event)
    requires Inv(cfg, s) && Enabled(s, e)
    ensures OnlyLastLate(Next(cfg, s, e))
  {
    hide NonceBytes, WellFormed, WalkCounter, LogOk, StartsOk, MailboxOk;
    var t := Next(cfg, s, e);
    if e.Begin? {
      assert t.starts[|s.starts|].serial == s.pc.serial;
      assert forall i :: 0 <= i < |s.starts| ==> t.starts[i] == s.starts[i];
    } else {
      SameStarts(s, t);
    }
  }

  lemma StepLog(cfg: Config, s: State, e: Event)
    requires Inv(cfg, s) && Enabled(s, e)
    ensures LogOk(cfg, Next(cfg, s, e))
  {
    hide NonceBytes, WellFormed, WalkCounter, OnlyLastLate;
  }

  lemma StepInv(cfg: Config, s: State, e: Event)
    requires Inv(cfg, s) && Enabled(s, e)
    ensures Inv(cfg, Next(cfg, s, e))
  {
    StepStarts(cfg, s, e);
    StepMailbox(cfg, s, e);
    if Between(e) {
      StepBetween(cfg, s, e);
    } else if Outside(e) {
      StepOutside(cfg, s, e);
    } else if e.Begin? {
      StepBegin(cfg, s);
    } else {
      StepCall(cfg, s, e);
    }
    StepLate(cfg, s, e);
    StepLog(cfg, s, e);
  }

  lemma {:induction false} RunInv(cfg: Config, s: State, es: seq<Event>)
    requires Inv(cfg, s) && CanRun(cfg, s, es)
    ensures Inv(cfg, Run(cfg, s, es))
    decreases |es|
  {
    hide Inv;
    if es == [] {
    } else {
      StepInv(cfg, s, es[0]);
      RunInv(cfg, Next(cfg, s, es[0]), es[1..]);
    }
  }
}
