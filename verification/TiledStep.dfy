// The tiled step as a transaction: what the commit makes of the private cells,
// the one-worker loop, and the proof that both do the same on every schedule.
module TiledStep {
  import opened Tiles
  import opened WorkerPool

  datatype Outcome = Ok | WorkerFailed | Cancelled

  // ---- running the tiles in order -----------------------------------------

  function ApplyWrites<V>(cells: seq<V>, ws: seq<(int, V)>): (r: seq<V>)
    ensures |r| == |cells|
  {
    if ws == [] then cells
    else
      var before := ApplyWrites(cells, ws[..|ws| - 1]);
      var (i, v) := ws[|ws| - 1];
      if 0 <= i < |cells| then before[i := v] else before
  }

  // The cells after the first n tiles ran one after the other.
  function InOrder<V>(job: Job<V>, n: nat): (r: seq<V>)
    requires job.Valid()
    ensures |r| == job.length
  {
    if n == 0 then job.shadow0 else ApplyWrites(InOrder(job, n - 1), job.Writes(n - 1))
  }

  lemma {:induction false} ApplyCell<V>(cells: seq<V>, ws: seq<(int, V)>, i: nat)
    requires i < |cells|
    ensures ApplyWrites(cells, ws)[i] == After(cells[i], ws, i)
  {
    if ws != [] { ApplyCell(cells, ws[..|ws| - 1], i); }
  }

  ghost predicate KernelLegal<V>(job: Job<V>)
    requires job.Valid()
  {
    forall p: nat | p < job.Count() :: AllLegal(job, p, |job.Writes(p)|)
  }

  // Writes of one tile leave the cells of the others alone.
  lemma {:induction false} ForeignCell<V>(job: Job<V>, c: V, p: nat, n: nat, i: nat)
    requires job.Valid() && n <= |job.Writes(p)| && AllLegal(job, p, n)
    requires i < job.length && !job.Legal(p, i)
    ensures After(c, job.Writes(p)[..n], i) == c && !Touched(job.Writes(p)[..n], i)
  {
    if n > 0 {
      assert job.Writes(p)[..n][..n - 1] == job.Writes(p)[..n - 1];
      ForeignCell(job, c, p, n - 1, i);
    }
  }

  // After the first n tiles a cell is as its own tile left it, or untouched.
  lemma {:induction false} InOrderCell<V>(job: Job<V>, n: nat, i: nat, q: nat)
    requires job.Valid() && n <= job.Count() && i < job.length && job.Legal(q, i)
    requires forall p: nat | p < n :: AllLegal(job, p, |job.Writes(p)|)
    ensures InOrder(job, n)[i] == if q < n then After(job.shadow0[i], job.Writes(q), i) else job.shadow0[i]
  {
    hide TileLo, TileHi, PartitionCount;
    if n > 0 {
      var p := n - 1;
      InOrderCell(job, p, i, q);
      ApplyCell(InOrder(job, p), job.Writes(p), i);
      if p != q {
        if job.Legal(p, i) { OneTile(job, i, p, q); }
        ForeignCell(job, InOrder(job, p)[i], p, |job.Writes(p)|, i);
        assert job.Writes(p)[..|job.Writes(p)|] == job.Writes(p);
      }
    }
  }

  // ---- the meaning of a step ----------------------------------------------

  // Every cell is written by the kernel of its own tile.
  ghost predicate Covered<V>(job: Job<V>, i: nat)
    requires job.Valid()
  {
    Touched(job.Writes(i / job.width), i)
  }

  // The least partition with a cell its kernel does not write.
  ghost predicate LeastUncovered<V>(job: Job<V>, failing: int)
    requires job.Valid()
  {
    && (exists i: nat :: i < job.length && failing == i / job.width && !Covered(job, i))
    && (forall i: nat | i < job.length && !Covered(job, i) :: failing <= i / job.width)
  }

  // What a step is for, in terms of the job alone: a failing or incomplete job
  // leaves `next` as it was and names its least failing partition, and any other
  // job has kept to its tiles and makes `next` what running them in order makes
  // of the cells.
  ghost predicate StepMeans<V>(job: Job<V>, next: seq<V>, outcome: Outcome, failing: int, next': seq<V>)
    requires job.Valid()
  {
    if failing >= 0 && LeastFailure(job, failing) then outcome == WorkerFailed && next' == next
    else if LeastFailure(job, -1) && failing >= 0 then outcome == WorkerFailed && next' == next
      && LeastUncovered(job, failing)
    else
      && LeastFailure(job, -1) && failing == -1 && KernelLegal(job)
      && (forall i: nat | i < job.length :: Covered(job, i))
      && outcome == Ok && next' == InOrder(job, job.Count())
  }

  // A step never leaves `next` half written.
  lemma StepTransactional<V>(job: Job<V>, next: seq<V>, outcome: Outcome, failing: int, next': seq<V>)
    requires job.Valid() && StepMeans(job, next, outcome, failing, next')
    ensures next' == next || next' == InOrder(job, job.Count())
    ensures outcome == WorkerFailed ==> next' == next
    ensures outcome == Ok <==> failing == -1
  {}

  // ---- the commit ---------------------------------------------------------

  // The first cell without a mark, or the length.
  function FirstUnmarked(coverage: seq<bool>): (i: nat)
    ensures i <= |coverage| && (i < |coverage| ==> !coverage[i])
    ensures forall j | 0 <= j < i :: coverage[j]
  {
    if coverage == [] || !coverage[0] then 0 else 1 + FirstUnmarked(coverage[1..])
  }

  function CommitOutcome(lowest: int, coverage: seq<bool>): Outcome {
    if lowest < 0 && FirstUnmarked(coverage) == |coverage| then Ok else WorkerFailed
  }

  function CommitFailing(lowest: int, coverage: seq<bool>, width: nat): int
    requires width > 0
  {
    if lowest >= 0 then lowest
    else if FirstUnmarked(coverage) == |coverage| then -1
    else FirstUnmarked(coverage) / width
  }

  function CommitNext<V>(lowest: int, coverage: seq<bool>, shadow: seq<V>, next: seq<V>): seq<V> {
    if CommitOutcome(lowest, coverage).Ok? then shadow else next
  }

  lemma DivMono(i: nat, j: nat, width: nat)
    requires width > 0 && i <= j
    ensures i / width <= j / width
  {
    DivBounds(i, width);
    DivBounds(j, width);
    var q := i / width;
    QuotientBound(q, width, j);
  }

  // The first cell nobody covers is in the least tile that leaves one out.
  lemma FirstIsLeast<V>(job: Job<V>, i: nat)
    requires job.Valid() && i < job.length && !Covered(job, i) && forall j: nat | j < i :: Covered(job, j)
    ensures LeastUncovered(job, i / job.width)
  {
    hide Covered;
    forall j: nat | j < job.length && !Covered(job, j)
      ensures i / job.width <= j / job.width
    {
      DivMono(i, j, job.width);
    }
  }

  // ---- scratch contents ---------------------------------------------------

  // A cell that is written at all forgets what it held before.
  lemma {:induction false} TouchedForgets<V>(ws: seq<(int, V)>, i: nat, c: V, d: V)
    requires Touched(ws, i)
    ensures After(c, ws, i) == After(d, ws, i)
  {
    if ws[|ws| - 1].0 != i { TouchedForgets(ws[..|ws| - 1], i, c, d); }
  }

  // The same job over other private cells.
  ghost predicate SameButScratch<V>(job: Job<V>, other: Job<V>) {
    job.Valid() && other.Valid() && other == job.(shadow0 := other.shadow0)
  }

  lemma SameWrites<V>(job: Job<V>, other: Job<V>)
    requires SameButScratch(job, other)
    ensures other.length == job.length && other.width == job.width && other.Count() == job.Count()
    ensures forall p: nat :: other.Writes(p) == job.Writes(p) && other.exec(p) == job.exec(p)
    ensures forall i: nat | i < job.length :: Covered(other, i) == Covered(job, i)
    ensures KernelLegal(other) == KernelLegal(job)
  {
    forall p: nat
      ensures AllLegal(other, p, |other.Writes(p)|) == AllLegal(job, p, |job.Writes(p)|)
    {
      assert other.Writes(p) == job.Writes(p);
    }
  }

  lemma CellForgets<V>(job: Job<V>, other: Job<V>, i: nat)
    requires SameButScratch(job, other) && KernelLegal(job) && i < job.length && Covered(job, i)
    ensures InOrder(job, job.Count())[i] == InOrder(other, other.Count())[i]
  {
    SameWrites(job, other);
    var q := i / job.width;
    TileOfCell(job, i);
    TilesPartition(job.length, job.width, i, q);
    InOrderCell(job, job.Count(), i, q);
    InOrderCell(other, other.Count(), i, q);
    TouchedForgets(job.Writes(q), i, job.shadow0[i], other.shadow0[i]);
  }

  // Where every cell is covered nothing of the scratch contents is left.
  lemma ScratchForgotten<V>(job: Job<V>, other: Job<V>)
    requires SameButScratch(job, other) && KernelLegal(job)
    requires forall i: nat | i < job.length :: Covered(job, i)
    ensures InOrder(job, job.Count()) == InOrder(other, other.Count())
  {
    hide Covered, KernelLegal;
    forall i: nat | i < job.length
      ensures InOrder(job, job.Count())[i] == InOrder(other, other.Count())[i]
    {
      CellForgets(job, other, i);
    }
  }

  lemma SameFailures<V>(job: Job<V>, other: Job<V>, f: int)
    requires SameButScratch(job, other)
    ensures LeastFailure(other, f) == LeastFailure(job, f) && LeastUncovered(other, f) == LeastUncovered(job, f)
  {
    SameWrites(job, other);
    hide Covered, KernelLegal;
  }

  // The meaning leaves no choice, and does not look at the scratch contents.
  lemma StepMeansUnique<V>(job: Job<V>, other: Job<V>, next: seq<V>, o: Outcome, f: int, n: seq<V>, o': Outcome,
        f': int, n': seq<V>)
    requires SameButScratch(job, other)
    requires StepMeans(job, next, o, f, n) && StepMeans(other, next, o', f', n')
    ensures o == o' && f == f' && n == n'
  {
    SameWrites(job, other);
    SameFailures(job, other, f);
    SameFailures(job, other, f');
    SameFailures(job, other, -1);
    hide Covered, KernelLegal, InOrder, LeastFailure, LeastUncovered;
    if o.Ok? && o'.Ok? { ScratchForgotten(job, other); }
    OnlyOne(job, f, f');
  }

  // At most one partition fails least, and a job with one has no other outcome.
  lemma OnlyOne<V>(job: Job<V>, f: int, f': int)
    requires job.Valid()
    ensures LeastFailure(job, f) && LeastFailure(job, f') ==> f == f'
    ensures LeastFailure(job, f) && LeastFailure(job, -1) ==> f == -1
    ensures LeastFailure(job, f') && LeastFailure(job, -1) ==> f' == -1
    ensures LeastUncovered(job, f) && LeastUncovered(job, f') ==> f == f'
    ensures LeastUncovered(job, f) || LeastUncovered(job, f') ==> exists i: nat :: i < job.length && !Covered(job, i)
  {
    hide Covered;
  }

  // ---- committing ---------------------------------------------------------

  // Committing exact cells and marks is what a step means.
  lemma CommitMeans<V>(job: Job<V>, next: seq<V>, lowest: int, coverage: seq<bool>, shadow: seq<V>)
    requires job.Valid() && LeastFailure(job, lowest) && |coverage| == job.length
    requires lowest < 0 ==> shadow == InOrder(job, job.Count()) && KernelLegal(job)
    requires lowest < 0 ==> forall i: nat | i < job.length :: coverage[i] == Covered(job, i)
    ensures StepMeans(job, next, CommitOutcome(lowest, coverage), CommitFailing(lowest, coverage, job.width),
                      CommitNext(lowest, coverage, shadow, next))
  {
    hide Covered, InOrder, LeastUncovered, FirstUnmarked, KernelLegal;
    var i := FirstUnmarked(coverage);
    if lowest < 0 && i < job.length {
      FirstIsLeast(job, i);
      LeastIsNat(i, job.width);
      OneLeast(job, lowest, i / job.width);
    }
  }

  lemma LeastIsNat(i: nat, width: nat)
    requires width > 0
    ensures i / width >= 0
  {
    DivBounds(i, width);
  }

  // A job without a failing tile has none that fails least.
  lemma OneLeast<V>(job: Job<V>, lowest: int, p: nat)
    requires job.Valid() && LeastFailure(job, lowest) && lowest < 0
    ensures lowest == -1 && !LeastFailure(job, p)
  {}

  // Whatever the workers and the schedule, the step a done pool commits is the
  // one its job means.
  lemma PoolStepMeans<V>(s: State<V>, next: seq<V>)
    requires Inv(s) && s.caller.Woken? && s.JobDone()
    ensures StepMeans(s.job, next, CommitOutcome(s.lowest, s.coverage),
      CommitFailing(s.lowest, s.coverage, s.job.width),
                      CommitNext(s.lowest, s.coverage, s.shadow, next))
  {
    ReportIsExact(s);
    if s.lowest < 0 {
      forall i: nat | i < s.job.length
        ensures s.shadow[i] == InOrder(s.job, s.job.Count())[i] && s.coverage[i] == Covered(s.job, i)
      {
        var p := i / s.job.width;
        TilesPartition(s.job.length, s.job.width, i, 0);
        TilesPartition(s.job.length, s.job.width, i, p);
        assert CellAt(s, i, p, |s.job.Writes(p)|);
        assert s.job.Writes(p)[..|s.job.Writes(p)|] == s.job.Writes(p);
        InOrderCell(s.job, s.job.Count(), i, p);
      }
      assert s.shadow == InOrder(s.job, s.job.Count());
    }
    CommitMeans(s.job, next, s.lowest, s.coverage, s.shadow);
  }

  // Two pools of any sizes on any schedules end a job the same way, whatever
  // their private cells held before.
  lemma SchedulesAgree<V>(s: State<V>, t: State<V>, next: seq<V>)
    requires Inv(s) && s.caller.Woken? && s.JobDone()
    requires Inv(t) && t.caller.Woken? && t.JobDone() && t.job == s.job.(shadow0 := t.job.shadow0)
    ensures CommitOutcome(s.lowest, s.coverage) == CommitOutcome(t.lowest, t.coverage)
    ensures CommitFailing(s.lowest, s.coverage, s.job.width) == CommitFailing(t.lowest, t.coverage, t.job.width)
    ensures CommitNext(s.lowest, s.coverage, s.shadow, next) == CommitNext(t.lowest, t.coverage, t.shadow, next)
  {
    hide StepMeans, CommitOutcome, CommitFailing, CommitNext;
    PoolStepMeans(s, next);
    PoolStepMeans(t, next);
    StepMeansUnique(s.job, t.job, next, CommitOutcome(s.lowest, s.coverage),
      CommitFailing(s.lowest, s.coverage, s.job.width),
                    CommitNext(s.lowest, s.coverage, s.shadow, next), CommitOutcome(t.lowest, t.coverage),
                    CommitFailing(t.lowest, t.coverage, t.job.width), CommitNext(t.lowest, t.coverage, t.shadow, next));
  }

  // ---- whole calls --------------------------------------------------------

  // What a caller is given when its call has returned: outcome, failing
  // partition, and `next`, which a cancelled call leaves alone.
  function Answer<V>(s: State<V>, next: seq<V>): (Outcome, int, seq<V>)
    requires s.job.Valid()
  {
    if s.report.Finished? then
      (CommitOutcome(s.lowest, s.coverage), CommitFailing(s.lowest, s.coverage, s.job.width),
       CommitNext(s.lowest, s.coverage, s.shadow, next))
    else (Outcome.Cancelled, -1, next)
  }

  // The answer a call of this job should get.
  ghost predicate Answered<V>(s: State<V>, job: Job<V>, next: seq<V>, cancelled: bool)
    requires s.job.Valid() && job.Valid()
  {
    var (o, f, n) := Answer(s, next);
    if cancelled then o == Outcome.Cancelled && f == -1 && n == next else StepMeans(job, next, o, f, n)
  }

  // A returned call's answer stays until the next call.
  lemma AnswerStays<V>(s: State<V>, a: Action<V>, next: seq<V>)
    requires Inv(s) && Enabled(s, a) && s.caller.Free? && !a.Call?
    ensures var s' := Step(s, a);
      s'.caller.Free? && s'.job == s.job && Answer(s', next) == Answer(s, next)
  {
    hide Answer, CommitOutcome, CommitFailing, CommitNext;
    NobodyRuns(s);
    KeepsAnswer(s, Step(s, a), next);
  }

  lemma KeepsAnswer<V>(s: State<V>, s': State<V>, next: seq<V>)
    requires s.job.Valid() && s'.job == s.job && s'.report == s.report && s'.lowest == s.lowest
    requires s'.coverage == s.coverage && s'.shadow == s.shadow
    ensures Answer(s', next) == Answer(s, next)
  {}

  // The return of a done job answers its call.
  lemma ReturnAnswers<V>(s: State<V>, next: seq<V>)
    requires Inv(s) && s.caller.Woken? && s.JobDone()
    ensures Answered(CallerTurn(s), s.job, next, false)
  {
    hide Inv, StepMeans, CommitOutcome, CommitFailing, CommitNext;
    PoolStepMeans(s, next);
  }

  // A call still waiting does not return before its job is done.
  lemma WaitGoesOn<V>(s: State<V>, a: Action<V>)
    requires Inv(s) && Enabled(s, a) && !s.caller.Free? && !a.Call?
    ensures Step(s, a).caller.Free? ==> a.Return? && s.JobDone() && Step(s, a) == CallerTurn(s)
  {
    InvJob(s);
    hide Inv, ClaimOrRest, Recorded;
    match a
    case Wake(w) =>
      if s.generation != s.workers[w].observed {
        ClaimSameCall(s.(workers := s.workers[w := Worker(s.generation, Ready)]), w);
      }
    case Complete(w) =>
      RecordedSameCall(s, w);
      ClaimSameCall(Recorded(s, w), w);
    case _ =>
  }

  lemma {:induction false} AnswerComes<V>(s: State<V>, actions: seq<Action<V>>, t: State<V>, job: Job<V>,
        next: seq<V>, cancelled: bool)
    requires Inv(s) && job.Valid() && Reaches(s, actions, t) && t.generation == s.generation
    requires s.caller.Free? ==> Answered(s, job, next, cancelled)
    requires !s.caller.Free? ==> s.job == job && !cancelled
    requires !t.trapped && t.caller.Free?
    ensures t.job.Valid() && Answered(t, job, next, cancelled)
    decreases |actions|
  {
    hide Inv, Answered, Answer, Enabled, Step;
    InvJob(s);
    if actions != [] {
      var a, s' := actions[0], Step(s, actions[0]);
      OneGeneration(s, a);
      GenerationsGrow(s', actions[1..], t);
      StepKeeps(s, a);
      if s'.trapped {
        TrapStays(s', actions[1..], t);
      } else {
        InvJob(s');
        if s.caller.Free? {
          AnswerStays(s, a, next);
          SameAnswered(s, s', job, next, cancelled);
        } else {
          WaitGoesOn(s, a);
          if s'.caller.Free? { ReturnOfCall(s, a, next); }
        }
        AnswerComes(s', actions[1..], t, job, next, cancelled);
      }
    }
  }

  lemma SameAnswered<V>(s: State<V>, s': State<V>, job: Job<V>, next: seq<V>, cancelled: bool)
    requires s.job.Valid() && s'.job.Valid() && job.Valid() && Answered(s, job, next, cancelled)
    requires Answer(s', next) == Answer(s, next)
    ensures Answered(s', job, next, cancelled)
  {}

  lemma ReturnOfCall<V>(s: State<V>, a: Action<V>, next: seq<V>)
    requires Inv(s) && Enabled(s, a) && a.Return? && s.JobDone() && Step(s, a) == CallerTurn(s)
    ensures Answered(CallerTurn(s), s.job, next, false)
  {
    hide Inv, Answered;
    ReturnAnswers(s, next);
  }

  // What a call without partitions, or a cancelled one, is told at once.
  lemma CallAnswers<V>(s: State<V>, job: Job<V>, next: seq<V>)
    requires Inv(s) && Enabled(s, Call(job)) && |next| == job.length
    ensures var s' := Dispatch(s, job);
      && s'.job.Valid()
      && (if s'.caller.Free? then Answered(s', job, next, s.cancelNext) else s'.job == job && !s.cancelNext)
  {
    var s' := Dispatch(s, job);
    if !s.cancelNext && job.Count() == 0 {
      assert next == [] && s'.coverage == [] && s'.shadow == [];
      assert StepMeans(job, next, Ok, -1, []);
    }
  }

  // A whole call, on any schedule and any number of workers: once it has
  // returned, a cancelled call has changed nothing and any other call has done
  // what its job means, whatever else happened before and since.
  lemma CallMeans<V>(s: State<V>, job: Job<V>, actions: seq<Action<V>>, t: State<V>, next: seq<V>)
    requires Inv(s) && Enabled(s, Call(job)) && |next| == job.length
    requires Reaches(Step(s, Call(job)), actions, t) && t.generation == s.generation + 1 && !t.trapped && t.caller.Free?
    ensures t.job.Valid() && Answered(t, job, next, s.cancelNext)
  {
    hide Answered, Dispatch;
    var s' := Step(s, Call(job));
    OneGeneration(s, Call(job));
    StepKeeps(s, Call(job));
    NotTrapped(s, job);
    CallAnswers(s, job, next);
    hide Inv, Step, Enabled;
    AnswerComes(s', actions, t, job, next, s.cancelNext);
  }

  // Two calls of one job, made on any two pools at any time and run on any
  // schedules, give one answer, whatever scratch contents each pool had left.
  lemma CallsAgree<V>(s: State<V>, job: Job<V>, actions: seq<Action<V>>, t: State<V>,
      s': State<V>, job': Job<V>, actions': seq<Action<V>>, t': State<V>, next: seq<V>)
    requires SameButScratch(job, job') && |next| == job.length
    requires Inv(s) && Enabled(s, Call(job)) && !s.cancelNext
    requires Reaches(Step(s, Call(job)), actions, t) && t.generation == s.generation + 1 && !t.trapped && t.caller.Free?
    requires Inv(s') && Enabled(s', Call(job')) && !s'.cancelNext
    requires Reaches(Step(s', Call(job')), actions', t') && t'.generation == s'.generation + 1 && !t'.trapped
    requires t'.caller.Free?
    ensures t.job.Valid() && t'.job.Valid() && Answer(t, next) == Answer(t', next)
  {
    CallMeans(s, job, actions, t, next);
    CallMeans(s', job', actions', t', next);
    hide Inv, Enabled, Step, Reaches;
    AnswersAgree(job, t, job', t', next);
  }

  lemma AnswersAgree<V>(job: Job<V>, t: State<V>, job': Job<V>, t': State<V>, next: seq<V>)
    requires SameButScratch(job, job') && t.job.Valid() && t'.job.Valid()
    requires Answered(t, job, next, false) && Answered(t', job', next, false)
    ensures Answer(t, next) == Answer(t', next)
  {
    hide Answer, StepMeans;
    var (o, f, n) := Answer(t, next);
    var (o', f', n') := Answer(t', next);
    StepMeansUnique(job, job', next, o, f, n, o', f', n');
  }

  lemma NotTrapped<V>(s: State<V>, job: Job<V>)
    requires Inv(s) && Enabled(s, Call(job))
    ensures !Step(s, Call(job)).trapped
  {}

  // ---- one worker ---------------------------------------------------------

  // The writes of one tile, made in place, up to one that traps.
  method RunTile<V>(job: Job<V>, p: nat, shadow: array<V>, coverage: array<bool>) returns (trapped: bool)
    requires job.Valid() && shadow.Length == coverage.Length == job.length && shadow as object != coverage
    modifies shadow, coverage
    ensures trapped <==> !AllLegal(job, p, |job.Writes(p)|)
    ensures !trapped ==> shadow[..] == ApplyWrites(old(shadow[..]), job.Writes(p))
    ensures !trapped ==> forall i: nat | i < job.length ::
      coverage[i] == (old(coverage[i]) || Touched(job.Writes(p), i))
  {
    var ws := job.Writes(p);
    for j := 0 to |ws|
      invariant AllLegal(job, p, j)
      invariant shadow[..] == ApplyWrites(old(shadow[..]), ws[..j])
      invariant forall i: nat | i < job.length :: coverage[i] == (old(coverage[i]) || Touched(ws[..j], i))
    {
      var (i, v) := ws[j];
      if i < 0 || i >= job.length || !job.Legal(p, i) {
        return true;
      }
      ghost var before := shadow[..];
      shadow[i] := v;
      coverage[i] := true;
      assert ws[..j + 1][..j] == ws[..j];
      assert shadow[..] == before[i := v];
    }
    assert ws[..|ws|] == ws;
    trapped := false;
  }

  lemma {:induction false} ForeignMark<V>(job: Job<V>, p: nat, i: nat)
    requires job.Valid() && AllLegal(job, p, |job.Writes(p)|) && p < job.Count() && i < job.length && i / job.width != p
    ensures !Touched(job.Writes(p), i)
  {
    TilesPartition(job.length, job.width, i, p);
    ForeignCell(job, job.shadow0[i], p, |job.Writes(p)|, i);
    assert job.Writes(p)[..|job.Writes(p)|] == job.Writes(p);
  }

  // A tile reached before any failure writes outside its range.
  ghost predicate TrapsAlone<V>(job: Job<V>)
    requires job.Valid()
  {
    exists p: nat :: p < job.Count() && !AllLegal(job, p, |job.Writes(p)|) && NoFailureBelow(job, p)
  }

  ghost predicate NoFailureBelow<V>(job: Job<V>, p: nat) {
    forall q: nat | q < p :: job.exec(q).status == 0
  }

  // The loop of a runtime with one worker: tiles in order up to the first
  // failure, or up to a write that traps.
  method RunAlone<V>(job: Job<V>, shadow: array<V>, coverage: array<bool>)
        returns (lowest: int, completed: nat, trapped: bool)
    requires job.Valid() && shadow.Length == coverage.Length == job.length
    requires shadow[..] == job.shadow0 && (forall i: nat | i < job.length :: !coverage[i])
      && shadow as object != coverage
    modifies shadow, coverage
    ensures trapped <==> TrapsAlone(job)
    ensures !trapped ==> LeastFailure(job, lowest)
    ensures !trapped ==> completed == if lowest < 0 then job.Count() else lowest + 1
    ensures !trapped ==> shadow[..] == InOrder(job, completed)
    ensures !trapped ==> forall i: nat | i < job.length :: coverage[i] == (i / job.width < completed && Covered(job, i))
    ensures !trapped && lowest < 0 ==> KernelLegal(job)
  {
    lowest, completed, trapped := -1, 0, false;
    while completed < job.Count() && lowest < 0
      invariant completed <= job.Count() && -1 <= lowest
      invariant NoFailureBelow(job, if lowest < 0 then completed else lowest)
      invariant lowest >= 0 ==> completed == lowest + 1 && job.exec(lowest).status != 0
      invariant forall p: nat | p < completed :: AllLegal(job, p, |job.Writes(p)|)
      invariant shadow[..] == InOrder(job, completed)
      invariant forall i: nat | i < job.length :: coverage[i] == (i / job.width < completed && Covered(job, i))
      decreases job.Count() - completed
    {
      var p := completed;
      trapped := RunTile(job, p, shadow, coverage);
      if trapped {
        return;
      }
      forall i: nat | i < job.length && i / job.width != p
        ensures !Touched(job.Writes(p), i)
      {
        ForeignMark(job, p, i);
      }
      completed := completed + 1;
      if job.exec(p).status != 0 { lowest := p; }
    }
  }

  // The coverage check and the copy at the end of a step.
  method Commit<V>(lowest: int, width: nat, coverage: array<bool>, shadow: array<V>, next: array<V>)
        returns (outcome: Outcome, failing: int)
    requires width > 0 && coverage.Length == shadow.Length == next.Length && next != shadow
      && next as object != coverage
    modifies next
    ensures outcome == CommitOutcome(lowest, coverage[..]) && failing == CommitFailing(lowest, coverage[..], width)
    ensures next[..] == CommitNext(lowest, coverage[..], shadow[..], old(next[..]))
  {
    if lowest >= 0 {
      return WorkerFailed, lowest;
    }
    var index := 0;
    while index < coverage.Length && coverage[index]
      invariant index <= coverage.Length && forall j | 0 <= j < index :: coverage[j]
    {
      index := index + 1;
    }
    assert FirstUnmarked(coverage[..]) == index;
    if index < coverage.Length {
      return WorkerFailed, index / width;
    }
    for i := 0 to next.Length
      invariant next[..i] == shadow[..i]
    {
      next[i] := shadow[i];
    }
    assert next[..] == shadow[..];
    return Ok, -1;
  }

  lemma TileOfCell<V>(job: Job<V>, i: nat)
    requires job.Valid() && i < job.length
    ensures i / job.width < job.Count()
  {
    TilesPartition(job.length, job.width, i, 0);
  }

  // A step on one worker is the step its job means, unless a write traps, and
  // then it leaves `next` as it was.
  method StepAlone<V>(job: Job<V>, shadow: array<V>, coverage: array<bool>, next: array<V>)
    returns (outcome: Outcome, failing: int, trapped: bool)
    requires job.Valid() && shadow.Length == coverage.Length == next.Length == job.length && next != shadow
    requires next as object != coverage && shadow as object != coverage
    requires shadow[..] == job.shadow0 && forall i: nat | i < job.length :: !coverage[i]
    modifies shadow, coverage, next
    ensures trapped <==> TrapsAlone(job)
    ensures trapped ==> next[..] == old(next[..])
    ensures !trapped ==> StepMeans(job, old(next[..]), outcome, failing, next[..])
  {
    hide TileLo, TileHi, PartitionCount, StepMeans, LeastFailure, Covered, InOrder, CommitOutcome, CommitFailing,
      CommitNext;
    hide KernelLegal, TrapsAlone;
    ghost var before := next[..];
    outcome, failing := WorkerFailed, -1;
    var lowest, completed;
    lowest, completed, trapped := RunAlone(job, shadow, coverage);
    if trapped {
      return;
    }
    outcome, failing := Commit(lowest, job.width, coverage, shadow, next);
    forall i: nat | lowest < 0 && i < job.length
      ensures coverage[..][i] == Covered(job, i)
    {
      TileOfCell(job, i);
    }
    CommitMeans(job, before, lowest, coverage[..], shadow[..]);
  }

  // What recording a status does to the counters, and to the dispatcher.
  lemma RecordedFields<V>(s: State<V>, w: nat)
    requires s.job.Valid() && w < |s.workers| && s.workers[w].pc.Running?
    ensures var r := Recorded(s, w);
      var p := s.workers[w].pc.p;
      var failed := s.job.exec(p).status != 0;
      && r.generation == s.generation && r.active == s.active && r.cancelNext == s.cancelNext && r.job == s.job
      && r.next == s.next && r.claimed == s.claimed && r.completed == s.completed + 1
      && r.stop == (s.stop || failed) && r.lowest == (if failed && (s.lowest < 0 || p < s.lowest) then p else s.lowest)
      && r.caller == if r.JobDone() && s.caller.Blocked? then Woken else s.caller
  {
    hide PartitionCount;
  }

  // ---- the runtime object -------------------------------------------------

  // The counters workers and dispatcher share under the lock.
  class Runtime {
    var generation: nat
    var active: bool
    var cancelNext: bool
    var stopClaims: bool
    var partitionCount: nat
    var nextPartition: nat
    var claimed: nat
    var completed: nat
    var lowestFailure: int

    ghost predicate Mirrors<V>(s: State<V>)
      requires s.job.Valid()
      reads this
    {
      && generation == s.generation && active == s.active && cancelNext == s.cancelNext && stopClaims == s.stop
      && partitionCount == s.job.Count() && nextPartition == s.next && claimed == s.claimed
      && completed == s.completed && lowestFailure == s.lowest
    }

    constructor ()
      ensures generation == 0 && !active && !cancelNext && !stopClaims && partitionCount == 0
      ensures nextPartition == 0 && claimed == 0 && completed == 0 && lowestFailure == -1
    {
      generation, active, cancelNext, stopClaims, partitionCount := 0, false, false, false, 0;
      nextPartition, claimed, completed, lowestFailure := 0, 0, 0, -1;
    }

    // The start of a call. A cancelled call and one without partitions are told
    // their report at once; any other is set up for the workers to be woken.
    method Begin<V>(ghost s: State<V>, job: Job<V>) returns (report: Report)
      requires Inv(s) && Mirrors(s) && s.caller.Free? && job.Valid()
      modifies this
      ensures Mirrors(Dispatch(s, job))
      ensures report == if Dispatch(s, job).caller.Free? then Dispatch(s, job).report else NoReport
    {
      hide PartitionCount, Inv;
      FreeIsIdle(s);
      generation := generation + 1;
      if cancelNext {
        cancelNext := false;
        return Report.Cancelled(generation);
      }
      active := true;
      stopClaims := false;
      partitionCount := job.Count();
      nextPartition, claimed, completed, lowestFailure := 0, 0, 0, -1;
      if partitionCount == 0 {
        active := false;
        return Finished(generation, 0, -1);
      }
      report := NoReport;
    }

    // The head of the claim loop: a partition, or -1 to leave the loop.
    method Claim<V>(ghost s: State<V>, ghost w: nat) returns (partition: int)
      requires s.job.Valid() && Mirrors(s) && w < |s.workers|
      modifies this
      ensures Mirrors(ClaimOrRest(s, w))
      ensures partition >= 0 <==> ClaimOrRest(s, w).workers[w].pc.Running?
      ensures partition >= 0 ==> ClaimOrRest(s, w).workers[w].pc == Running(partition, 0)
    {
      if stopClaims || nextPartition >= partitionCount {
        return -1;
      }
      partition := nextPartition;
      nextPartition := nextPartition + 1;
      claimed := claimed + 1;
    }

    // Recording a status; the result says whether the done condition is signalled.
    method Record<V>(ghost s: State<V>, ghost w: nat, partition: nat, status: int) returns (signal: bool)
      requires s.job.Valid() && Mirrors(s) && w < |s.workers| && s.workers[w].pc.Running?
      requires s.workers[w].pc.p == partition && s.job.exec(partition).status == status
      modifies this
      ensures Mirrors(Recorded(s, w))
      ensures signal && s.caller.Blocked? <==> s.caller.Blocked? && Recorded(s, w).caller.Woken?
    {
      RecordedFields(s, w);
      hide Recorded, PartitionCount;
      completed := completed + 1;
      if status != 0 {
        stopClaims := true;
        if lowestFailure < 0 || partition < lowestFailure {
          lowestFailure := partition;
        }
      }
      signal := if stopClaims then completed == claimed else completed == partitionCount;
    }
  }
}
