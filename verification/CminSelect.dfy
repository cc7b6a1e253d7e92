/** The selection of afl-cmin: files with a unique tuple first, then a greedy cover of the rest. */
module CminSelect {
  import opened Words
  import opened CminCorpus
  import opened CminPack
  import opened CminProtocol
  import opened CminProof
  import opened CminWorker

  /** counter.most_common(): every counted tuple once with its count, most frequent first; ties in any order. */
  ghost predicate Enumerates(unique: seq<(nat, nat)>, counter: multiset<nat>) {
    && (forall k | 0 <= k < |unique| :: unique[k].1 == counter[unique[k].0] > 0)
    && (forall j, k | 0 <= j < k < |unique| :: unique[j].0 != unique[k].0 && unique[j].1 >= unique[k].1)
    && (forall t | t in counter :: exists k :: 0 <= k < |unique| && unique[k].0 == t)
  }

  /** The trace files of the workers and the size of their items. */
  datatype Packs = Packs(files: seq<seq<Octet>>, itemSize: nat)

  /** seek(pos) and fromfile(count) on the trace file of a worker. */
  function ReadPack(packs: Packs, i: Info): Trace {
    if i.worker < |packs.files| && i.pos + packs.itemSize * i.count <= |packs.files[i.worker]|
    then ReadItems(packs.files[i.worker], i.pos, packs.itemSize, i.count) else []
  }

  /** The lookups for tuple `t` are defined: its winner shows it and has its trace in a pack. */
  ghost predicate Found(ts: seq<Trace>, best: seq<nat>, info: map<nat, Info>, packs: Packs, t: nat) {
    && t < |best| && best[t] in info && Shows(ts, best[t], t)
    && info[best[t]].worker < |packs.files|
    && TraceAt(packs.files[info[best[t]].worker], info[best[t]].pos, info[best[t]].count, packs.itemSize, ts[best[t]])
  }

  lemma FoundShows(ts: seq<Trace>, best: seq<nat>, info: map<nat, Info>, packs: Packs, t: nat)
    requires Found(ts, best, info, packs, t)
    ensures t < |best| && Shows(ts, best[t], t)
  {
  }

  ghost predicate Ready(ts: seq<Trace>, best: seq<nat>, info: map<nat, Info>, packs: Packs,
                        unique: seq<(nat, nat)>)
  {
    && Enumerates(unique, Tally(ts, AllFiles(|ts|)))
    && forall k | 0 <= k < |unique| :: Found(ts, best, info, packs, unique[k].0)
  }

  /** The tuples of the listed files. */
  ghost function Tuples(ts: seq<Trace>, files: seq<nat>): set<nat> {
    if files == [] then {}
    else Tuples(ts, files[..|files| - 1]) + TupleSet(ts, files[|files| - 1])
  }

  ghost function TupleSet(ts: seq<Trace>, i: nat): set<nat> {
    if i < |ts| then set t | t in ts[i] else {}
  }

  lemma {:induction false} InTuples(ts: seq<Trace>, files: seq<nat>, t: nat)
    ensures t in Tuples(ts, files) <==> exists i :: i in files && Shows(ts, i, t)
  {
    if files != [] {
      var last := files[|files| - 1];
      InTuples(ts, files[..|files| - 1], t);
      assert files == files[..|files| - 1] + [last];
      if Shows(ts, last, t) {
        assert last in files;
      }
    }
  }

  lemma TuplesSnoc(ts: seq<Trace>, files: seq<nat>, idx: nat)
    ensures Tuples(ts, files + [idx]) == Tuples(ts, files) + TupleSet(ts, idx)
  {
    assert (files + [idx])[..|files|] == files;
  }

  ghost predicate Distinct(s: seq<nat>) {
    forall i, j | 0 <= i < j < |s| :: s[i] != s[j]
  }

  /** Each listed file is the winner of some counted tuple. */
  ghost predicate Winners(best: seq<nat>, unique: seq<(nat, nat)>, files: seq<nat>) {
    forall i | i in files :: Wins(best, unique, i)
  }

  ghost predicate Wins(best: seq<nat>, unique: seq<(nat, nat)>, i: nat) {
    exists k :: 0 <= k < |unique| && unique[k].0 < |best| && best[unique[k].0] == i
  }

  /** Each listed file alone shows some tuple. */
  ghost predicate Essential(ts: seq<Trace>, files: seq<nat>) {
    forall i | i in files :: ShowsAlone(ts, i)
  }

  ghost predicate ShowsAlone(ts: seq<Trace>, i: nat) {
    exists t :: Shows(ts, i, t) && Tally(ts, AllFiles(|ts|))[t] == 1
  }

  lemma AppendSaved(ts: seq<Trace>, best: seq<nat>, unique: seq<(nat, nat)>, files: seq<nat>, k: nat)
    requires k < |unique| && unique[k].0 < |best| && best[unique[k].0] !in files
    requires Distinct(files) && Winners(best, unique, files)
    ensures Distinct(files + [best[unique[k].0]]) && Winners(best, unique, files + [best[unique[k].0]])
  {
    assert Wins(best, unique, best[unique[k].0]);
  }

  // ---------- The combine workers ----------

  /** What CombineTraceWorker.run collects for the jobs of worker `w`. */
  ghost function JobTuples(packs: Packs, w: nat, js: seq<(nat, nat)>): set<nat> {
    if js == [] then {}
    else var j := js[|js| - 1];
         JobTuples(packs, w, js[..|js| - 1]) + ReadSet(packs, Info(w, j.0, j.1))
  }

  function ReadSet(packs: Packs, i: Info): set<nat> {
    set t | t in ReadPack(packs, i)
  }

  /** The union of the results of the first `n` workers. */
  ghost function AllTuples(packs: Packs, jobs: seq<seq<(nat, nat)>>, n: nat): set<nat>
    requires n <= |jobs|
  {
    if n == 0 then {} else AllTuples(packs, jobs, n - 1) + JobTuples(packs, n - 1, jobs[n - 1])
  }

  /** The job lists after `place` was appended to the list of its worker. */
  function WithJob(jobs: seq<seq<(nat, nat)>>, place: Info): (jobs': seq<seq<(nat, nat)>>)
    requires place.worker < |jobs|
    ensures |jobs'| == |jobs|
  {
    jobs[place.worker := jobs[place.worker] + [(place.pos, place.count)]]
  }

  lemma JobTuplesSnoc(packs: Packs, w: nat, js: seq<(nat, nat)>, j: (nat, nat))
    ensures JobTuples(packs, w, js + [j]) == JobTuples(packs, w, js) + ReadSet(packs, Info(w, j.0, j.1))
  {
    hide ReadSet;
    assert (js + [j])[..|js|] == js;
  }

  lemma {:induction false} AppendJob(packs: Packs, jobs: seq<seq<(nat, nat)>>, n: nat, i: Info)
    requires n <= |jobs| && i.worker < |jobs|
    ensures AllTuples(packs, WithJob(jobs, i), n)
         == AllTuples(packs, jobs, n) + (if i.worker < n then ReadSet(packs, i) else {})
  {
    hide JobTuples, ReadSet;
    if n > 0 {
      AppendJob(packs, jobs, n - 1, i);
      JobTuplesSnoc(packs, i.worker, jobs[i.worker], (i.pos, i.count));
    }
  }

  lemma {:induction false} NoJobs(packs: Packs, jobs: seq<seq<(nat, nat)>>, n: nat)
    requires n <= |jobs| && forall w | 0 <= w < |jobs| :: jobs[w] == []
    ensures AllTuples(packs, jobs, n) == {}
  {
    if n > 0 {
      NoJobs(packs, jobs, n - 1);
    }
  }

  /** All combine workers and the loop that joins their results. */
  method Combine(packs: Packs, jobs: seq<seq<(nat, nat)>>) returns (have: set<nat>)
    ensures have == AllTuples(packs, jobs, |jobs|)
  {
    hide ReadSet;
    have := {};
    for w := 0 to |jobs|
      invariant have == AllTuples(packs, jobs, w)
    {
      var result: set<nat> := {};
      for k := 0 to |jobs[w]|
        invariant result == JobTuples(packs, w, jobs[w][..k])
      {
        assert jobs[w][..k + 1] == jobs[w][..k] + [jobs[w][k]];
        JobTuplesSnoc(packs, w, jobs[w][..k], jobs[w][k]);
        result := result + ReadSet(packs, Info(w, jobs[w][k].0, jobs[w][k].1));
      }
      assert jobs[w][..|jobs[w]|] == jobs[w];
      have := have + result;
    }
  }

  // ---------- The two loops ----------

  /** First loop: the winner of each tuple that is counted once. */
  method SaveUnique(ghost ts: seq<Trace>, best: seq<nat>, info: map<nat, Info>, packs: Packs,
                    unique: seq<(nat, nat)>)
    returns (saved: seq<nat>, jobs: seq<seq<(nat, nat)>>)
    requires Ready(ts, best, info, packs, unique)
    ensures Distinct(saved) && Winners(best, unique, saved) && Essential(ts, saved)
    ensures forall k | 0 <= k < |unique| && unique[k].1 == 1 :: unique[k].0 < |best| && best[unique[k].0] in saved
    ensures AllTuples(packs, jobs, |jobs|) == Tuples(ts, saved)
  {
    hide Distinct, Winners, ShowsAlone, AllTuples, Tuples, Tally;
    saved, jobs := [], seq(|packs.files|, _ => []);
    var seen: set<nat> := {};
    NoJobs(packs, jobs, |jobs|);
    NothingSaved(ts, best, unique);
    for k := 0 to |unique|
      invariant |jobs| == |packs.files| && seen == set i | i in saved
      invariant Distinct(saved) && Winners(best, unique, saved) && Essential(ts, saved)
      invariant forall j | 0 <= j < k && unique[j].1 == 1 :: unique[j].0 < |best| && best[unique[j].0] in saved
      invariant AllTuples(packs, jobs, |jobs|) == Tuples(ts, saved)
    {
      var (t, c) := unique[k];
      if c == 1 {
        assert Found(ts, best, info, packs, unique[k].0);
        var idx := best[t];
        if idx !in seen {
          var place := info[idx];
          AppendSaved(ts, best, unique, saved, k);
          AppendJob(packs, jobs, |jobs|, place);
          TuplesSnoc(ts, saved, idx);
          AloneBy(ts, idx, t);
          saved := saved + [idx];
          seen := seen + {idx};
          jobs := WithJob(jobs, place);
        }
      }
    }
  }

  lemma NothingSaved(ts: seq<Trace>, best: seq<nat>, unique: seq<(nat, nat)>)
    ensures Distinct([]) && Winners(best, unique, []) && Tuples(ts, []) == {}
  {
  }

  lemma AloneBy(ts: seq<Trace>, i: nat, t: nat)
    requires Shows(ts, i, t) && Tally(ts, AllFiles(|ts|))[t] == 1
    ensures ShowsAlone(ts, i)
  {
  }

  /** What saving the winner of an uncovered tuple adds. */
  lemma PickWinner(ts: seq<Trace>, best: seq<nat>, info: map<nat, Info>, packs: Packs,
                   unique: seq<(nat, nat)>, saved: seq<nat>, k: nat)
    requires k < |unique| && Found(ts, best, info, packs, unique[k].0)
    requires Distinct(saved) && Winners(best, unique, saved) && unique[k].0 !in Tuples(ts, saved)
    ensures var more := saved + [best[unique[k].0]];
      && Distinct(more) && Winners(best, unique, more)
      && Tuples(ts, more) == Tuples(ts, saved) + ReadSet(packs, info[best[unique[k].0]])
      && unique[k].0 in Tuples(ts, more)
  {
    hide Distinct, Winners, Tuples;
    var t := unique[k].0;
    InTuples(ts, saved, t);
    AppendSaved(ts, best, unique, saved, k);
    TuplesSnoc(ts, saved, best[t]);
  }

  /** Entry `k` of the list explains why file number `p` was saved: everything behind it was shown already. */
  ghost predicate PickedFor(ts: seq<Trace>, best: seq<nat>, unique: seq<(nat, nat)>, saved: seq<nat>, p: nat, k: nat) {
    && p < |saved| && k < |unique| && unique[k].0 < |best| && saved[p] == best[unique[k].0]
    && unique[k].0 !in Tuples(ts, saved[..p])
    && forall j | k < j < |unique| :: unique[j].0 in Tuples(ts, saved[..p])
  }

  ghost predicate PickedAt(ts: seq<Trace>, best: seq<nat>, unique: seq<(nat, nat)>, saved: seq<nat>, p: nat) {
    exists k: nat :: PickedFor(ts, best, unique, saved, p, k)
  }

  lemma NewPick(ts: seq<Trace>, best: seq<nat>, unique: seq<(nat, nat)>, saved: seq<nat>, k: nat)
    requires k < |unique| && unique[k].0 < |best| && unique[k].0 !in Tuples(ts, saved)
    requires forall j | k < j < |unique| :: unique[j].0 in Tuples(ts, saved)
    ensures PickedAt(ts, best, unique, saved + [best[unique[k].0]], |saved|)
  {
    hide Tuples;
    var more := saved + [best[unique[k].0]];
    assert more[..|saved|] == saved;
    assert PickedFor(ts, best, unique, more, |saved|, k);
  }

  lemma PickStays(ts: seq<Trace>, best: seq<nat>, unique: seq<(nat, nat)>, saved: seq<nat>, idx: nat, p: nat)
    requires PickedAt(ts, best, unique, saved, p)
    ensures PickedAt(ts, best, unique, saved + [idx], p)
  {
    hide Tuples;
    var k: nat :| PickedFor(ts, best, unique, saved, p, k);
    assert (saved + [idx])[..p] == saved[..p];
    assert PickedFor(ts, best, unique, saved + [idx], p, k);
  }

  /** Second loop: the remaining tuples, rarest first. */
  method SaveRest(ghost ts: seq<Trace>, best: seq<nat>, info: map<nat, Info>, packs: Packs,
                  unique: seq<(nat, nat)>, first: seq<nat>, have0: set<nat>)
    returns (saved: seq<nat>)
    requires Ready(ts, best, info, packs, unique) && Distinct(first) && Winners(best, unique, first)
    requires have0 == Tuples(ts, first)
    ensures first <= saved && Distinct(saved) && Winners(best, unique, saved)
    ensures forall k | 0 <= k < |unique| :: unique[k].0 in Tuples(ts, saved)
    ensures forall p | |first| <= p < |saved| :: PickedAt(ts, best, unique, saved, p)
  {
    hide Distinct, Winners, Tuples, Tally, Enumerates, ReadSet, ReadPack, PickedAt;
    saved := first;
    var have := have0;
    var k := |unique|;
    while k > 0
      invariant 0 <= k <= |unique|
      invariant first <= saved && Distinct(saved) && Winners(best, unique, saved)
      invariant have == Tuples(ts, saved)
      invariant forall j | k <= j < |unique| :: unique[j].0 in have
      invariant forall p | |first| <= p < |saved| :: PickedAt(ts, best, unique, saved, p)
    {
      k := k - 1;
      var t := unique[k].0;
      if t !in have {
        assert Found(ts, best, info, packs, unique[k].0);
        var idx := best[t];
        PickWinner(ts, best, info, packs, unique, saved, k);
        NewPick(ts, best, unique, saved, k);
        forall p | |first| <= p < |saved|
          ensures PickedAt(ts, best, unique, saved + [idx], p)
        {
          PickStays(ts, best, unique, saved, idx, p);
        }
        saved := saved + [idx];
        have := have + ReadSet(packs, info[idx]);
      }
    }
  }

  // ---------- The result ----------

  /** `files` shows every tuple that the corpus shows. */
  ghost predicate Covers(ts: seq<Trace>, files: set<nat>) {
    forall i, t | Shows(ts, i, t) :: exists j :: j in files && Shows(ts, j, t)
  }

  /** A file that alone shows a tuple is in every cover. */
  lemma EssentialInCover(ts: seq<Trace>, i: nat, cover: set<nat>)
    requires ShowsAlone(ts, i) && Covers(ts, cover)
    ensures i in cover
  {
    hide Tally;
    var t :| Shows(ts, i, t) && Tally(ts, AllFiles(|ts|))[t] == 1;
    var j :| j in cover && Shows(ts, j, t);
    if i < j {
      CountedOnce(ts, t, i, j);
    } else if j < i {
      CountedOnce(ts, t, j, i);
    }
  }

  function Elements(s: seq<nat>): set<nat> {
    set x | x in s
  }

  lemma {:induction false} ElementsBound(s: seq<nat>)
    ensures |Elements(s)| <= |s|
    ensures Distinct(s) ==> |Elements(s)| == |s|
  {
    if s != [] {
      var last := s[|s| - 1];
      var front := s[..|s| - 1];
      ElementsBound(front);
      assert s == front + [last];
      assert Elements(s) == Elements(front) + {last};
      if Distinct(s) {
        assert last !in Elements(front);
      }
    }
  }

  /** Winners are at most as many as the listed tuples. */
  lemma WinnersBound(best: seq<nat>, unique: seq<(nat, nat)>, files: seq<nat>)
    requires Distinct(files) && Winners(best, unique, files)
    ensures |files| <= |unique|
  {
    var ws := seq(|unique|, k requires 0 <= k < |unique| => if unique[k].0 < |best| then best[unique[k].0] else 0);
    ElementsBound(files);
    ElementsBound(ws);
    forall i | i in Elements(files)
      ensures i in Elements(ws)
    {
      assert Wins(best, unique, i);
      var k :| 0 <= k < |unique| && unique[k].0 < |best| && best[unique[k].0] == i;
      assert ws[k] == i;
    }
    SubsetSize(Elements(files), Elements(ws));
  }

  lemma {:induction false} SubsetSize(a: set<nat>, b: set<nat>)
    requires a <= b
    ensures |a| <= |b|
  {
    if a != {} {
      var x :| x in a;
      SubsetSize(a - {x}, b - {x});
    }
  }

  /**
   The whole selection: the saved files cover exactly the tuples of the corpus, none is saved twice,
   there are at most as many as tuples, and those of the first loop are in every cover.
   */
  method Select(ghost ts: seq<Trace>, best: seq<nat>, info: map<nat, Info>, packs: Packs,
                unique: seq<(nat, nat)>)
    returns (first: seq<nat>, saved: seq<nat>)
    requires Ready(ts, best, info, packs, unique)
    ensures first <= saved && Distinct(saved) && |saved| <= |unique|
    ensures Winners(best, unique, saved) && forall i | i in saved :: i < |ts|
    ensures Covers(ts, Elements(saved))
    ensures forall i, cover | i in first && Covers(ts, cover) :: i in cover
    ensures forall i: nat :: i in first <==> ShowsAlone(ts, i)
    ensures forall p | |first| <= p < |saved| :: PickedAt(ts, best, unique, saved, p)
  {
    hide Distinct, Winners, AllTuples, Tuples, Tally, ShowsAlone, Covers, PickedAt, Enumerates, Found;
    var jobs;
    first, jobs := SaveUnique(ts, best, info, packs, unique);
    var have := Combine(packs, jobs);
    saved := SaveRest(ts, best, info, packs, unique, first, have);
    WinnersBound(best, unique, saved);
    WinnersAreFiles(ts, best, info, packs, unique, saved);
    AllCovered(ts, unique, saved);
    forall i, cover | i in first && Covers(ts, cover)
      ensures i in cover
    {
      EssentialInCover(ts, i, cover);
    }
    forall i: nat | ShowsAlone(ts, i)
      ensures i in first
    {
      AloneIsFirst(ts, best, info, packs, unique, first, i);
    }
  }

  /** The one file that shows a tuple is its winner, so the first loop saves it. */
  lemma AloneIsFirst(ts: seq<Trace>, best: seq<nat>, info: map<nat, Info>, packs: Packs,
                     unique: seq<(nat, nat)>, first: seq<nat>, i: nat)
    requires Ready(ts, best, info, packs, unique) && ShowsAlone(ts, i)
    requires forall k | 0 <= k < |unique| && unique[k].1 == 1 :: unique[k].0 < |best| && best[unique[k].0] in first
    ensures i in first
  {
    hide Tally, Found;
    var t: nat :| Shows(ts, i, t) && Tally(ts, AllFiles(|ts|))[t] == 1;
    assert t in Tally(ts, AllFiles(|ts|));
    var k :| 0 <= k < |unique| && unique[k].0 == t;
    assert Found(ts, best, info, packs, unique[k].0);
    FoundShows(ts, best, info, packs, t);
    var w := best[t];
    if i < w {
      CountedOnce(ts, t, i, w);
    } else if w < i {
      CountedOnce(ts, t, w, i);
    }
  }

  lemma WinnersAreFiles(ts: seq<Trace>, best: seq<nat>, info: map<nat, Info>, packs: Packs,
                        unique: seq<(nat, nat)>, files: seq<nat>)
    requires Ready(ts, best, info, packs, unique) && Winners(best, unique, files)
    ensures forall i | i in files :: i < |ts|
  {
    hide Tally;
    forall i | i in files
      ensures i < |ts|
    {
      assert Wins(best, unique, i);
      var k :| 0 <= k < |unique| && unique[k].0 < |best| && best[unique[k].0] == i;
      assert Found(ts, best, info, packs, unique[k].0);
    }
  }

  lemma AllCovered(ts: seq<Trace>, unique: seq<(nat, nat)>, files: seq<nat>)
    requires Enumerates(unique, Tally(ts, AllFiles(|ts|)))
    requires forall k | 0 <= k < |unique| :: unique[k].0 in Tuples(ts, files)
    ensures Covers(ts, Elements(files))
  {
    hide Tally, Tuples;
    forall i, t | Shows(ts, i, t)
      ensures exists j :: j in Elements(files) && Shows(ts, j, t)
    {
      InAllFiles(|ts|, i);
      CountedIffShown(ts, AllFiles(|ts|), t);
      var k :| 0 <= k < |unique| && unique[k].0 == t;
      InTuples(ts, files, t);
      var j :| j in files && Shows(ts, j, t);
      assert j in Elements(files);
    }
  }

  // ---------- From the queues to the output ----------

  /** The packs that the workers wrote. */
  function Written(ws: seq<Worker>, itemSize: nat): Packs {
    Packs(seq(|ws|, w requires 0 <= w < |ws| => ws[w].pack), itemSize)
  }

  /** The winner of a shown tuple was reported by its worker with a message that locates its trace. */
  lemma WinnerFound(cfg: Config, s: State, best: seq<nat>, info: map<nat, Info>, t: nat)
    requires Inv(cfg, s) && s.workers != [] && Indexes(info, s.progress)
    requires |best| == cfg.limit && t < cfg.limit
    requires forall w | 0 <= w < |s.workers| :: t < |s.workers[w].m|
    requires best[t] == MergedBest(s.workers, t)
    requires IsBest(cfg.ts, AllFiles(|cfg.ts|), cfg.sentinel, t, best[t])
    requires exists i: nat :: Shows(cfg.ts, i, t)
    ensures Found(cfg.ts, best, info, Written(s.workers, cfg.itemSize), t)
  {
    hide Handled, Pending, JobFiles, StopCount, StoppedCount, Tally, Ledger, Sentinels, MergedBest, WorkerOk,
         Reported;
    var i: nat :| Shows(cfg.ts, i, t);
    InAllFiles(|cfg.ts|, i);
    InAllFiles(|cfg.ts|, best[t]);
    assert best[t] <= i < |cfg.ts| <= cfg.sentinel;
    var w := MinOf(s.workers, t);
    assert WinnersReported(cfg, s.workers[w], s.progress);
    var n := EntryFor(info, s.progress, best[t]);
    assert Locates(cfg, s.workers, s.progress[n]);
  }

  /** A reported file has an entry, and the entry is one of the messages. */
  lemma EntryFor(info: map<nat, Info>, progress: seq<Message>, idx: nat) returns (n: nat)
    requires Indexes(info, progress) && Reported(progress, idx)
    ensures idx in info && n < |progress| && progress[n] == AsMessage(idx, info[idx])
  {
    var k :| 0 <= k < |progress| && progress[k].Kept? && progress[k].idx == idx;
    n :| 0 <= n < |progress| && progress[n] == AsMessage(idx, info[idx]);
  }

  /** The merged minimum is one of the workers' entries. */
  lemma {:induction false} MinOf(ws: seq<Worker>, t: nat) returns (w: nat)
    requires ws != [] && forall w | 0 <= w < |ws| :: t < |ws[w].m|
    ensures w < |ws| && ws[w].m[t] == MergedBest(ws, t)
  {
    var n := |ws| - 1;
    w := n;
    if n > 0 && MergedBest(ws[..n], t) <= ws[n].m[t] {
      w := MinOf(ws[..n], t);
    }
  }

  /** File `i` is the winner of a tuple that it shows. */
  ghost predicate Winner(cfg: Config, i: nat) {
    exists t :: Shows(cfg.ts, i, t) && IsBest(cfg.ts, AllFiles(|cfg.ts|), cfg.sentinel, t, i)
  }

  /**
   After the first loop, file number `p` was saved for a tuple that it wins and no earlier file shows,
   when every rarer tuple of the corpus was shown already.
   */
  ghost predicate RarestFirst(cfg: Config, saved: seq<nat>, p: nat) {
    exists t :: NextRarest(cfg, saved, p, t)
  }

  ghost predicate NextRarest(cfg: Config, saved: seq<nat>, p: nat, t: nat) {
    && p < |saved| && Shows(cfg.ts, saved[p], t)
    && IsBest(cfg.ts, AllFiles(|cfg.ts|), cfg.sentinel, t, saved[p])
    && t !in Tuples(cfg.ts, saved[..p])
    && forall i: nat, u | Shows(cfg.ts, i, u) && Count(cfg.ts, u) < Count(cfg.ts, t) :: u in Tuples(cfg.ts, saved[..p])
  }

  /** How often a tuple occurs in the corpus. */
  ghost function Count(ts: seq<Trace>, t: nat): nat {
    Tally(ts, AllFiles(|ts|))[t]
  }

  /** The list is ordered by count, so what stands behind an entry includes all that is rarer. */
  lemma PickIsRarest(cfg: Config, best: seq<nat>, unique: seq<(nat, nat)>, saved: seq<nat>, p: nat)
    requires Enumerates(unique, Tally(cfg.ts, AllFiles(|cfg.ts|))) && PickedAt(cfg.ts, best, unique, saved, p)
    requires forall k | 0 <= k < |unique| :: IsWinnerOf(cfg, best, unique[k].0)
    ensures RarestFirst(cfg, saved, p)
  {
    hide Tally, Tuples, IsBest;
    var k: nat :| PickedFor(cfg.ts, best, unique, saved, p, k);
    var t := unique[k].0;
    assert IsWinnerOf(cfg, best, unique[k].0);
    forall i: nat, u | Shows(cfg.ts, i, u) && Count(cfg.ts, u) < Count(cfg.ts, t)
      ensures u in Tuples(cfg.ts, saved[..p])
    {
      InAllFiles(|cfg.ts|, i);
      CountedIffShown(cfg.ts, AllFiles(|cfg.ts|), u);
      var j :| 0 <= j < |unique| && unique[j].0 == u;
    }
    assert NextRarest(cfg, saved, p, t);
  }

  /** The table's entry for `t` is the winner of `t`. */
  ghost predicate IsWinnerOf(cfg: Config, best: seq<nat>, t: nat) {
    t < |best| && Shows(cfg.ts, best[t], t) && IsBest(cfg.ts, AllFiles(|cfg.ts|), cfg.sentinel, t, best[t])
  }

  /**
   afl-cmin after its parallel stage. For every corpus, every batching, every interleaving of the
   workers and every order of equally frequent tuples, all lookups are defined and the output is a
   duplicate-free cover of winners, no larger than the number of tuples.
   */
  method MinimiseRun(cfg: Config, n: nat, ghost batches: seq<seq<nat>>, ghost steps: seq<Step>, s: State,
                     unique: seq<(nat, nat)>)
    returns (first: seq<nat>, saved: seq<nat>, crashes: seq<nat>)
    requires ValidConfig(cfg) && Partition(|cfg.ts|, batches) && n > 0
    requires Reaches(cfg, Init(cfg, n, batches), steps, s) && Finished(s)
    requires Enumerates(unique, MergedCounter(s.workers))
    ensures first <= saved && Distinct(saved) && |saved| <= |unique|
    ensures forall i | i in saved :: i < |cfg.ts| && Winner(cfg, i)
    ensures Covers(cfg.ts, Elements(saved))
    ensures forall i, cover | i in first && Covers(cfg.ts, cover) :: i in cover
    ensures forall i: nat :: i in first <==> ShowsAlone(cfg.ts, i)
    ensures forall p | |first| <= p < |saved| :: RarestFirst(cfg, saved, p)
    ensures forall i: nat :: multiset(crashes)[i] == if i < |cfg.ts| && cfg.ts[i] == [] then 1 else 0
  {
    hide Reaches, Init, Inv, Tally, IsBest, MergedBest, MergedCounter, Found, Covers, Partition, Distinct, Winner,
         ShowsAlone, Enumerates, PickedAt, RarestFirst, IsWinnerOf, MergedCrashes;
    Sizes(cfg, n, batches, steps, s);
    var best := MergeTables(s.workers, cfg.limit);
    var info := Collect(s.progress);
    crashes := MergeCrashes(s.workers);
    forall i: nat
      ensures multiset(crashes)[i] == if i < |cfg.ts| && cfg.ts[i] == [] then 1 else 0
    {
      CrashesReported(cfg, s, i);
    }
    forall k | 0 <= k < |unique|
      ensures Found(cfg.ts, best, info, Written(s.workers, cfg.itemSize), unique[k].0)
      ensures unique[k].0 < |best| && Winner(cfg, best[unique[k].0]) && IsWinnerOf(cfg, best, unique[k].0)
    {
      CountedFound(cfg, n, batches, steps, s, best, info, unique, k);
    }
    CounterIs(cfg, n, batches, steps, s);
    first, saved := Select(cfg.ts, best, info, Written(s.workers, cfg.itemSize), unique);
    forall i | i in saved
      ensures Winner(cfg, i)
    {
      assert Wins(best, unique, i);
    }
    forall p | |first| <= p < |saved|
      ensures RarestFirst(cfg, saved, p)
    {
      PickIsRarest(cfg, best, unique, saved, p);
    }
  }

  lemma Sizes(cfg: Config, n: nat, batches: seq<seq<nat>>, steps: seq<Step>, s: State)
    requires ValidConfig(cfg) && Partition(|cfg.ts|, batches) && n > 0
    requires Reaches(cfg, Init(cfg, n, batches), steps, s)
    ensures Inv(cfg, s) && s.workers != [] && forall w | 0 <= w < |s.workers| :: |s.workers[w].m| == cfg.limit
  {
    hide Handled, Pending, JobFiles, StopCount, StoppedCount, Tally, IsBest, Reaches, Init, BatchBag;
    InitHolds(cfg, n, batches);
    InitSize(cfg, n, batches);
    RunKeepsWorkers(cfg, Init(cfg, n, batches), steps, s);
    RunKeeps(cfg, Init(cfg, n, batches), steps, s);
    forall w | 0 <= w < |s.workers|
      ensures |s.workers[w].m| == cfg.limit
    {
      assert WorkerOk(cfg, s.workers[w]);
    }
  }

  lemma CounterIs(cfg: Config, n: nat, batches: seq<seq<nat>>, steps: seq<Step>, s: State)
    requires ValidConfig(cfg) && Partition(|cfg.ts|, batches) && n > 0
    requires Reaches(cfg, Init(cfg, n, batches), steps, s) && Finished(s)
    ensures MergedCounter(s.workers) == Tally(cfg.ts, AllFiles(|cfg.ts|))
  {
    hide Handled, Pending, JobFiles, StopCount, StoppedCount, Tally, IsBest, Reaches, Init, BatchBag, Inv;
    Sizes(cfg, n, batches, steps, s);
    Complete(cfg, s);
    HistoriesBag(s.workers);
    MergedCounterIs(cfg, s.workers);
    TallyOrder(cfg.ts, Histories(s.workers), AllFiles(|cfg.ts|));
  }

  lemma Complete(cfg: Config, s: State)
    requires Inv(cfg, s) && s.workers != [] && Finished(s)
    ensures Handled(s.workers) == multiset(AllFiles(|cfg.ts|))
    ensures forall w | 0 <= w < |s.workers| :: WorkerOk(cfg, s.workers[w])
  {
    FinishedState(cfg, s);
  }

  lemma CountedFound(cfg: Config, n: nat, batches: seq<seq<nat>>, steps: seq<Step>, s: State,
                     best: seq<nat>, info: map<nat, Info>, unique: seq<(nat, nat)>, k: nat)
    requires ValidConfig(cfg) && Partition(|cfg.ts|, batches) && n > 0
    requires Reaches(cfg, Init(cfg, n, batches), steps, s) && Finished(s)
    requires s.workers != [] && forall w | 0 <= w < |s.workers| :: |s.workers[w].m| == cfg.limit
    requires |best| == cfg.limit && forall t | 0 <= t < cfg.limit :: best[t] == MergedBest(s.workers, t)
    requires Indexes(info, s.progress) && Enumerates(unique, MergedCounter(s.workers)) && k < |unique|
    ensures Found(cfg.ts, best, info, Written(s.workers, cfg.itemSize), unique[k].0)
    ensures unique[k].0 < |best| && Winner(cfg, best[unique[k].0]) && IsWinnerOf(cfg, best, unique[k].0)
  {
    hide Reaches, Init, Tally, IsBest, MergedBest, MergedCounter, Partition, Handled, Pending, JobFiles,
         StopCount, StoppedCount, Indexes, Found, Inv;
    var t := unique[k].0;
    CounterIs(cfg, n, batches, steps, s);
    CountedIffShown(cfg.ts, AllFiles(|cfg.ts|), t);
    assert t in MergedCounter(s.workers);
    var i :| i in AllFiles(|cfg.ts|) && Shows(cfg.ts, i, t);
    var p :| 0 <= p < |cfg.ts[i]| && cfg.ts[i][p] == t;
    assert t < cfg.limit;
    ScheduleIndependent(cfg, n, batches, steps, s, t);
    WinnerFound(cfg, s, best, info, t);
    FoundShows(cfg.ts, best, info, Written(s.workers, cfg.itemSize), t);
  }
}
