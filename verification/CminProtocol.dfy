/**
 The parallel stage of afl-cmin: a dispatcher fills the job queue, N workers take batches and stop at
 their sentinel. Every step of any process may come next, so a run is any interleaving.
 */
module CminProtocol {
  import opened Words
  import opened CminCorpus
  import opened CminPack

  datatype Job = Batch(files: seq<nat>) | Stop

  /** An entry of the progress queue; the position is a byte offset in the pack of the worker. */
  datatype Message = Kept(idx: nat, worker: nat, pos: nat, count: nat) | Skipped

  /** The locals of Worker.run; `hist` records the handled files in order, `pending` the rest of the batch. */
  datatype Worker = Worker(hist: seq<nat>, pending: seq<nat>, m: seq<nat>, counter: multiset<nat>,
                           crashes: seq<nat>, pack: seq<Octet>, stopped: bool)

  /** `itemSize` is the size of an array item of a trace in bytes. */
  datatype Config = Config(ts: seq<Trace>, limit: nat, sentinel: nat, itemSize: nat, crashDir: bool)

  ghost predicate ValidConfig(cfg: Config) {
    ValidCorpus(cfg.ts, cfg.limit, cfg.sentinel) && cfg.limit <= Power256(cfg.itemSize)
  }

  datatype State = State(unsent: seq<Job>, queue: seq<Job>, workers: seq<Worker>,
                         progress: seq<Message>, results: seq<nat>)

  datatype Step = Send | Take(w: nat) | Process(w: nat)

  // ---------- One file in one worker ----------

  /** The loop over the tuples of a trace: the table and the `used` flag. */
  function UpdateBest(m: seq<nat>, idx: nat, r: Trace): (res: (seq<nat>, bool))
    requires forall k | 0 <= k < |r| :: r[k] < |m|
    ensures |res.0| == |m|
    decreases |r|
  {
    if r == [] then (m, false)
    else
      var last := r[|r| - 1];
      var (m', used) := UpdateBest(m, idx, r[..|r| - 1]);
      if idx < m'[last] then (m'[last := idx], true) else (m', used)
  }

  /** What the loop does, for the whole trace at once. */
  lemma {:induction false} UpdateBestMeaning(m: seq<nat>, idx: nat, r: Trace)
    requires forall k | 0 <= k < |r| :: r[k] < |m|
    ensures var (m', used) := UpdateBest(m, idx, r);
            && (forall t | 0 <= t < |m| :: m'[t] == if t in r && idx < m[t] then idx else m[t])
            && (used <==> exists t :: t in r && idx < m[t])
    decreases |r|
  {
    if r != [] {
      var last := r[|r| - 1];
      UpdateBestMeaning(m, idx, r[..|r| - 1]);
      assert r == r[..|r| - 1] + [last];
      assert forall t :: t in r <==> t in r[..|r| - 1] || t == last;
    }
  }

  /** Whether the tuples of a file enter the table; in batch mode an empty trace is a crash. */
  predicate Counts(cfg: Config, r: Trace) {
    r != [] || !cfg.crashDir
  }

  function HandleFile(cfg: Config, w: nat, wk: Worker): (res: (Worker, Message))
    requires wk.pending != [] && wk.pending[0] < |cfg.ts| && |wk.m| == cfg.limit
    requires ValidConfig(cfg)
  {
    var idx := wk.pending[0];
    var r := cfg.ts[idx];
    var crashes := if r == [] then wk.crashes + [idx] else wk.crashes;
    var (m, used) := if Counts(cfg, r) then UpdateBest(wk.m, idx, r) else (wk.m, false);
    var wk' := wk.(hist := wk.hist + [idx], pending := wk.pending[1..], m := m,
                   counter := wk.counter + multiset(r), crashes := crashes);
    if used
    then (wk'.(pack := wk.pack + Encode(r, cfg.itemSize)), Kept(idx, w, |wk.pack|, |r|))
    else (wk', Skipped)
  }

  // ---------- The machine ----------

  function InitWorker(cfg: Config): Worker {
    Worker([], [], seq(cfg.limit, _ => cfg.sentinel), multiset{}, [], [], false)
  }

  function Init(cfg: Config, n: nat, batches: seq<seq<nat>>): State {
    State(seq(|batches|, i requires 0 <= i < |batches| => Batch(batches[i])) + seq(n, _ => Stop),
          [], seq(n, _ => InitWorker(cfg)), [], [])
  }

  predicate Enabled(cfg: Config, s: State, step: Step) {
    match step
    case Send => s.unsent != []
    case Take(w) => w < |s.workers| && !s.workers[w].stopped && s.workers[w].pending == [] && s.queue != []
    case Process(w) => w < |s.workers| && s.workers[w].pending != []
                       && s.workers[w].pending[0] < |cfg.ts| && |s.workers[w].m| == cfg.limit
  }

  function Apply(cfg: Config, s: State, step: Step): State
    requires Enabled(cfg, s, step) && ValidConfig(cfg)
  {
    match step
    case Send => s.(unsent := s.unsent[1..], queue := s.queue + [s.unsent[0]])
    case Take(w) =>
      var s' := s.(queue := s.queue[1..]);
      if s.queue[0].Stop?
      then s'.(workers := s.workers[w := s.workers[w].(stopped := true)], results := s.results + [w])
      else s'.(workers := s.workers[w := s.workers[w].(pending := s.queue[0].files)])
    case Process(w) =>
      var (wk, msg) := HandleFile(cfg, w, s.workers[w]);
      s.(workers := s.workers[w := wk], progress := s.progress + [msg])
  }

  /** `s` is reached from `s0` by the given interleaving. */
  ghost predicate Reaches(cfg: Config, s0: State, steps: seq<Step>, s: State)
    requires ValidConfig(cfg)
    decreases |steps|
  {
    if steps == [] then s == s0
    else Enabled(cfg, s0, steps[0]) && Reaches(cfg, Apply(cfg, s0, steps[0]), steps[1..], s)
  }

  // ---------- Where the files are ----------

  function Handled(ws: seq<Worker>): multiset<nat> {
    if ws == [] then multiset{} else Handled(ws[..|ws| - 1]) + multiset(ws[|ws| - 1].hist)
  }

  function Pending(ws: seq<Worker>): multiset<nat> {
    if ws == [] then multiset{} else Pending(ws[..|ws| - 1]) + multiset(ws[|ws| - 1].pending)
  }

  function StoppedCount(ws: seq<Worker>): (n: nat)
    ensures n <= |ws|
  {
    if ws == [] then 0 else StoppedCount(ws[..|ws| - 1]) + if ws[|ws| - 1].stopped then 1 else 0
  }

  function JobFiles(jobs: seq<Job>): multiset<nat> {
    if jobs == [] then multiset{}
    else (if jobs[0].Batch? then multiset(jobs[0].files) else multiset{}) + JobFiles(jobs[1..])
  }

  function StopCount(jobs: seq<Job>): (n: nat)
    ensures n <= |jobs|
  {
    if jobs == [] then 0 else (if jobs[0].Stop? then 1 else 0) + StopCount(jobs[1..])
  }

  /** The jobs that no worker has taken yet, in the order in which they will be taken. */
  function Waiting(s: State): seq<Job> {
    s.queue + s.unsent
  }

  /** A common part can be added to both sides, or taken away. */
  lemma Exchange(a: multiset<nat>, b: multiset<nat>, c: multiset<nat>, d: multiset<nat>, common: multiset<nat>)
    requires a + b == c + d
    ensures a + common + b == c + common + d
  {
    assert a + common + b == (a + b) + common;
    assert c + common + d == (c + d) + common;
  }

  lemma Cancel(a: multiset<nat>, b: multiset<nat>, common: multiset<nat>)
    requires a + common == b + common
    ensures a == b
  {
    assert (a + common) - common == a && (b + common) - common == b;
  }

  /** Replacing one worker changes the sums by that worker's part only. */
  lemma {:induction false} HandledUpdate(ws: seq<Worker>, w: nat, wk: Worker)
    requires w < |ws|
    ensures Handled(ws[w := wk]) + multiset(ws[w].hist) == Handled(ws) + multiset(wk.hist)
    decreases |ws|
  {
    var n := |ws| - 1;
    if w == n {
      assert ws[w := wk][..n] == ws[..n];
    } else {
      assert ws[w := wk][..n] == ws[..n][w := wk];
      HandledUpdate(ws[..n], w, wk);
      Exchange(Handled(ws[..n][w := wk]), multiset(ws[w].hist), Handled(ws[..n]), multiset(wk.hist), multiset(ws[n].hist));
    }
  }

  lemma {:induction false} PendingUpdate(ws: seq<Worker>, w: nat, wk: Worker)
    requires w < |ws|
    ensures Pending(ws[w := wk]) + multiset(ws[w].pending) == Pending(ws) + multiset(wk.pending)
    decreases |ws|
  {
    var n := |ws| - 1;
    if w == n {
      assert ws[w := wk][..n] == ws[..n];
    } else {
      assert ws[w := wk][..n] == ws[..n][w := wk];
      PendingUpdate(ws[..n], w, wk);
      Exchange(Pending(ws[..n][w := wk]), multiset(ws[w].pending), Pending(ws[..n]), multiset(wk.pending), multiset(ws[n].pending));
    }
  }

  lemma {:induction false} StoppedUpdate(ws: seq<Worker>, w: nat, wk: Worker)
    requires w < |ws|
    ensures StoppedCount(ws[w := wk]) + (if ws[w].stopped then 1 else 0)
         == StoppedCount(ws) + (if wk.stopped then 1 else 0)
    decreases |ws|
  {
    var n := |ws| - 1;
    if w == n {
      assert ws[w := wk][..n] == ws[..n];
    } else {
      assert ws[w := wk][..n] == ws[..n][w := wk];
      StoppedUpdate(ws[..n], w, wk);
    }
  }

  // ---------- The invariant ----------

  /** A worker's table, counter and pack are determined by the files it handled. */
  ghost predicate WorkerOk(cfg: Config, wk: Worker) {
    && |wk.m| == cfg.limit
    && (forall t | 0 <= t < cfg.limit :: IsBest(cfg.ts, wk.hist, cfg.sentinel, t, wk.m[t]))
    && wk.counter == Tally(cfg.ts, wk.hist)
    && wk.crashes == Crashed(cfg.ts, wk.hist)
    && (wk.stopped ==> wk.pending == [])
    && (forall k | 0 <= k < |wk.hist| :: wk.hist[k] < |cfg.ts|)
    && (forall k | 0 <= k < |wk.pending| :: wk.pending[k] < |cfg.ts|)
  }

  /** A message locates the trace of its file in the worker's pack. */
  ghost predicate Locates(cfg: Config, ws: seq<Worker>, msg: Message) {
    msg.Kept? ==>
      && msg.worker < |ws| && msg.idx < |cfg.ts|
      && TraceAt(ws[msg.worker].pack, msg.pos, msg.count, cfg.itemSize, cfg.ts[msg.idx])
  }

  ghost predicate Reported(progress: seq<Message>, idx: nat) {
    exists k :: 0 <= k < |progress| && progress[k].Kept? && progress[k].idx == idx
  }

  /** Winners in a table were reported. */
  ghost predicate WinnersReported(cfg: Config, wk: Worker, progress: seq<Message>) {
    forall t | 0 <= t < |wk.m| && wk.m[t] != cfg.sentinel :: Reported(progress, wk.m[t])
  }

  /** Batches come before sentinels. */
  ghost predicate StopsLast(jobs: seq<Job>) {
    forall i, j | 0 <= i < j < |jobs| && jobs[i].Stop? :: jobs[j].Stop?
  }

  ghost predicate AllStops(jobs: seq<Job>) {
    forall i | 0 <= i < |jobs| :: jobs[i].Stop?
  }

  /** Every file number is in exactly one place. */
  ghost predicate Ledger(cfg: Config, s: State) {
    Handled(s.workers) + Pending(s.workers) + JobFiles(Waiting(s)) == multiset(AllFiles(|cfg.ts|))
  }

  ghost predicate Sentinels(s: State) {
    && StopsLast(Waiting(s))
    && StopCount(Waiting(s)) + StoppedCount(s.workers) == |s.workers|
    && (StoppedCount(s.workers) > 0 ==> AllStops(Waiting(s)))
    && |s.results| == StoppedCount(s.workers)
    && (forall w | 0 <= w < |s.workers| :: multiset(s.results)[w] == if s.workers[w].stopped then 1 else 0)
  }

  ghost predicate Inv(cfg: Config, s: State) {
    && ValidConfig(cfg)
    && Ledger(cfg, s) && Sentinels(s)
    && |s.progress| == |Handled(s.workers)|
    && (forall w | 0 <= w < |s.workers| :: WorkerOk(cfg, s.workers[w]))
    && (forall w | 0 <= w < |s.workers| :: WinnersReported(cfg, s.workers[w], s.progress))
    && (forall k | 0 <= k < |s.progress| :: Locates(cfg, s.workers, s.progress[k]))
  }

  ghost predicate Finished(s: State) {
    forall w | 0 <= w < |s.workers| :: s.workers[w].stopped
  }
}
