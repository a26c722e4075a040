// The worker pool: dispatcher and workers as a state machine whose steps are the
// sections run under the pool's lock, with partition execution between them.
module WorkerPool {
  import opened Seqs
  import opened Tiles

  // ---- jobs ---------------------------------------------------------------

  // Running one partition: the checked writes its kernel makes, in order, and
  // the status it returns.
  datatype Exec<V> = Exec(writes: seq<(int, V)>, status: int)

  // A job over `length` private cells cut into tiles of `width`.
  datatype Job<!V> = Job(length: nat, width: nat, exec: nat -> Exec<V>, shadow0: seq<V>) {
    predicate Valid() { width > 0 && |shadow0| == length }

    function Count(): nat requires Valid() { PartitionCount(length, width) }

    function Writes(p: nat): seq<(int, V)> { exec(p).writes }

    // A checked write reaches only the tile's own range.
    predicate Legal(p: nat, i: int) { TileLo(p, width) <= i < TileHi(p, width, length) }
  }

  // ---- states -------------------------------------------------------------

  // Asleep waits on the start condition; Ready is about to take the lock.
  datatype Pc = Asleep | Ready | Running(p: nat, done: nat) | Exited

  datatype Worker = Worker(observed: nat, pc: Pc)

  // Blocked waits on the done condition; Woken is about to take the lock.
  datatype Caller = Free | Blocked | Woken

  datatype Report = NoReport | Cancelled(generation: nat) | Finished(generation: nat, completed: nat, lowest: int)

  // `finished` records which partitions completed; it is read by no step.
  datatype State<!V> = State(
    workers: seq<Worker>, generation: nat, active: bool, stop: bool, shutdown: bool, cancelNext: bool,
    next: nat, claimed: nat, completed: nat, lowest: int, job: Job<V>,
    shadow: seq<V>, coverage: seq<bool>, finished: set<nat>, trapped: bool, caller: Caller, report: Report)
  {
    predicate JobDone() requires job.Valid() {
      if stop then completed == claimed else completed == job.Count()
    }
  }

  function SetPc<V>(s: State<V>, w: nat, pc: Pc): State<V>
    requires w < |s.workers|
  {
    s.(workers := s.workers[w := s.workers[w].(pc := pc)])
  }

  // Signals the done condition when the job is done.
  function SignalDone<V>(s: State<V>): State<V>
    requires s.job.Valid()
  {
    if s.JobDone() && s.caller.Blocked? then s.(caller := Woken) else s
  }

  // The claim loop's head: claim the next partition, or leave the loop, signal,
  // and go back to waiting for a start.
  function ClaimOrRest<V>(s: State<V>, w: nat): State<V>
    requires s.job.Valid() && w < |s.workers|
  {
    if s.stop || s.next >= s.job.Count() then
      SetPc(SignalDone(s), w, if s.shutdown then Exited else Asleep)
    else
      SetPc(s.(next := s.next + 1, claimed := s.claimed + 1), w, Running(s.next, 0))
  }

  // A worker that has the lock outside a job: exit, sleep, or join the job.
  function WakeTurn<V>(s: State<V>, w: nat): State<V>
    requires s.job.Valid() && w < |s.workers| && s.workers[w].pc.Ready?
  {
    if s.shutdown then SetPc(s, w, Exited)
    else if !s.active || s.generation == s.workers[w].observed then SetPc(s, w, Asleep)
    else ClaimOrRest(s.(workers := s.workers[w := Worker(s.generation, Ready)]), w)
  }

  // One checked write of a running kernel, outside the lock.
  function WriteTurn<V>(s: State<V>, w: nat): State<V>
    requires s.job.Valid() && w < |s.workers| && s.workers[w].pc.Running?
    requires s.workers[w].pc.done < |s.job.Writes(s.workers[w].pc.p)|
    requires |s.shadow| == |s.coverage| == s.job.length
  {
    var p, n := s.workers[w].pc.p, s.workers[w].pc.done;
    var (i, v) := s.job.Writes(p)[n];
    if 0 <= i < s.job.length && s.job.Legal(p, i) then
      SetPc(s.(shadow := s.shadow[i := v], coverage := s.coverage[i := true]), w, Running(p, n + 1))
    else s.(trapped := true)
  }

  // A kernel returned: record its status under the lock and signal.
  function Recorded<V>(s: State<V>, w: nat): State<V>
    requires s.job.Valid() && w < |s.workers| && s.workers[w].pc.Running?
  {
    var p := s.workers[w].pc.p;
    var failed := s.job.exec(p).status != 0;
    var lowest := if failed && (s.lowest < 0 || p < s.lowest) then p else s.lowest;
    var r := s.(completed := s.completed + 1, finished := s.finished + {p}, stop := s.stop || failed, lowest := lowest);
    SignalDone(SetPc(r, w, Ready))
  }

  // Then, still under the lock, the head of the claim loop again.
  function CompleteTurn<V>(s: State<V>, w: nat): State<V>
    requires s.job.Valid() && w < |s.workers| && s.workers[w].pc.Running?
  {
    ClaimOrRest(Recorded(s, w), w)
  }

  // The dispatcher back from its wait: report, or wait again.
  function CallerTurn<V>(s: State<V>): State<V>
    requires s.job.Valid() && s.caller.Woken?
  {
    if s.JobDone() then
      s.(caller := Free, active := false, report := Finished(s.generation, s.completed, s.lowest))
    else s.(caller := Blocked)
  }

  // Every worker waiting on the start condition wakes.
  function Broadcast(ws: seq<Worker>): (r: seq<Worker>)
    ensures |r| == |ws|
    ensures forall w | 0 <= w < |ws| :: r[w] == if ws[w].pc.Asleep? then ws[w].(pc := Ready) else ws[w]
  {
    seq(|ws|, w requires 0 <= w < |ws| => if ws[w].pc.Asleep? then ws[w].(pc := Ready) else ws[w])
  }

  // The dispatcher's lock section up to its first wait.
  function Dispatch<V>(s: State<V>, job: Job<V>): State<V>
    requires s.caller.Free? && job.Valid()
  {
    var g := s.generation + 1;
    if s.cancelNext then s.(generation := g, cancelNext := false, report := Cancelled(g))
    else if job.Count() == 0 then
      s.(generation := g, stop := false, next := 0, claimed := 0, completed := 0, lowest := -1, job := job,
         shadow := job.shadow0, coverage := seq(job.length, _ => false), finished := {}, report := Finished(g, 0, -1))
    else
      s.(generation := g, active := true, stop := false, next := 0, claimed := 0, completed := 0, lowest := -1,
        job := job,
         shadow := job.shadow0, coverage := seq(job.length, _ => false), finished := {},
         workers := Broadcast(s.workers), caller := Blocked)
  }

  // ---- steps --------------------------------------------------------------

  datatype Action<!V> =
    | Wake(w: nat) | Write(w: nat) | Complete(w: nat)          // workers
    | Spurious(w: nat) | SpuriousCaller                        // condition waits may return early
    | Call(job: Job<V>) | Return | Cancel | Shutdown           // the dispatching thread

  predicate Enabled<V>(s: State<V>, a: Action<V>)
    requires s.job.Valid()
  {
    && !s.trapped
    && match a
       case Wake(w) => w < |s.workers| && s.workers[w].pc.Ready?
       case Write(w) =>
         && w < |s.workers| && s.workers[w].pc.Running? && s.workers[w].pc.done < |s.job.Writes(s.workers[w].pc.p)|
         && |s.shadow| == |s.coverage| == s.job.length
       case Complete(w) =>
         w < |s.workers| && s.workers[w].pc.Running? && s.workers[w].pc.done == |s.job.Writes(s.workers[w].pc.p)|
       case Spurious(w) => w < |s.workers| && s.workers[w].pc.Asleep?
       case SpuriousCaller => s.caller.Blocked?
       case Call(job) => s.caller.Free? && job.Valid() && !s.shutdown
       case Return => s.caller.Woken?
       case Cancel => true
       case Shutdown => s.caller.Free?
  }

  function Step<V>(s: State<V>, a: Action<V>): State<V>
    requires s.job.Valid() && Enabled(s, a)
  {
    match a
    case Wake(w) => WakeTurn(s, w)
    case Write(w) => WriteTurn(s, w)
    case Complete(w) => CompleteTurn(s, w)
    case Spurious(w) => SetPc(s, w, Ready)
    case SpuriousCaller => s.(caller := Woken)
    case Call(job) => Dispatch(s, job)
    case Return => CallerTurn(s)
    case Cancel => s.(cancelNext := true)
    case Shutdown => s.(shutdown := true, workers := Broadcast(s.workers))
  }

  // ---- what the cells hold ------------------------------------------------

  // The value and the coverage mark of cell i after some writes.
  function After<V>(c: V, ws: seq<(int, V)>, i: int): V {
    if ws == [] then c
    else if ws[|ws| - 1].0 == i then ws[|ws| - 1].1
    else After(c, ws[..|ws| - 1], i)
  }

  predicate Touched<V>(ws: seq<(int, V)>, i: int) {
    ws != [] && (ws[|ws| - 1].0 == i || Touched(ws[..|ws| - 1], i))
  }

  // Cell i reflects the first n writes of partition p.
  ghost predicate CellAt<V>(s: State<V>, i: nat, p: nat, n: nat)
    requires s.job.Valid() && |s.shadow| == |s.coverage| == s.job.length && i < s.job.length
    requires n <= |s.job.Writes(p)|
  {
    && s.shadow[i] == After(s.job.shadow0[i], s.job.Writes(p)[..n], i)
    && s.coverage[i] == Touched(s.job.Writes(p)[..n], i)
  }

  // ---- the invariant ------------------------------------------------------

  // Partitions claimed are a prefix, each finished or held by one worker.
  ghost predicate ClaimsOk<V>(s: State<V>)
    requires s.job.Valid()
  {
    && s.claimed == s.next <= s.job.Count()
    && s.completed == |s.finished|
    && (forall p | p in s.finished :: p < s.next)
    && (forall w | 0 <= w < |s.workers| && s.workers[w].pc.Running? ::
          s.workers[w].pc.p < s.next && s.workers[w].pc.p !in s.finished)
    && (forall u, w | 0 <= u < w < |s.workers| && s.workers[u].pc.Running? && s.workers[w].pc.Running? ::
          s.workers[u].pc.p != s.workers[w].pc.p)
    && (forall p: nat | p < s.next && p !in s.finished :: Held(s, p))
  }

  ghost predicate Held<V>(s: State<V>, p: nat) {
    exists w :: 0 <= w < |s.workers| && s.workers[w].pc.Running? && s.workers[w].pc.p == p
  }

  // `stop` and `lowest` name the least failure among finished partitions.
  ghost predicate FailuresOk<V>(s: State<V>) {
    && s.lowest >= -1
    && (s.stop <==> s.lowest >= 0)
    && (s.lowest >= 0 ==> s.lowest in s.finished && s.job.exec(s.lowest).status != 0)
    && (forall p | p in s.finished && s.job.exec(p).status != 0 :: 0 <= s.lowest <= p)
  }

  // The private cells reflect exactly the writes made so far.
  ghost predicate CellsOk<V>(s: State<V>)
    requires s.job.Valid()
  {
    && |s.shadow| == |s.coverage| == s.job.length
    && (forall i: nat, p: nat | i < s.job.length && s.job.Legal(p, i) && p in s.finished ::
      CellAt(s, i, p, |s.job.Writes(p)|))
    && (forall w | 0 <= w < |s.workers| && s.workers[w].pc.Running? :: RunningCells(s, s.workers[w].pc))
    && (forall i: nat, p: nat | i < s.job.length && s.job.Legal(p, i) && p >= s.next :: CellAt(s, i, p, 0))
    && (forall p | p in s.finished :: AllLegal(s.job, p, |s.job.Writes(p)|))
  }

  ghost predicate RunningCells<V>(s: State<V>, pc: Pc)
    requires s.job.Valid() && |s.shadow| == |s.coverage| == s.job.length && pc.Running?
  {
    && pc.done <= |s.job.Writes(pc.p)|
    && AllLegal(s.job, pc.p, pc.done)
    && (forall i: nat | i < s.job.length && s.job.Legal(pc.p, i) :: CellAt(s, i, pc.p, pc.done))
  }

  ghost predicate AllLegal<V>(job: Job<V>, p: nat, n: nat) {
    n <= |job.Writes(p)| && forall j | 0 <= j < n ::
      0 <= job.Writes(p)[j].0 < job.length && job.Legal(p, job.Writes(p)[j].0)
  }

  // No wake-up is lost, and a worker that left the claim loop left it for good.
  ghost predicate WaitsOk<V>(s: State<V>)
    requires s.job.Valid()
  {
    && (s.active <==> !s.caller.Free?)
    && (s.active ==> !s.shutdown && s.job.Count() > 0)
    && (s.caller.Blocked? ==> !s.JobDone())
    && (forall w | 0 <= w < |s.workers| :: WorkerOk(s, s.workers[w]))
  }

  ghost predicate WorkerOk<V>(s: State<V>, w: Worker)
    requires s.job.Valid()
  {
    && w.observed <= s.generation
    && (w.pc.Running? ==> s.active && w.observed == s.generation)
    && (w.pc.Asleep? ==> !s.shutdown && (s.active ==> w.observed == s.generation))
    && (w.pc.Exited? ==> s.shutdown)
    && (s.active && w.observed == s.generation && !w.pc.Running? ==> s.stop || s.next >= s.job.Count())
  }

  ghost predicate Inv<V>(s: State<V>) {
    && s.job.Valid()
    && WaitsOk(s)
    && ClaimsOk(s)
    && FailuresOk(s)
    && CellsOk(s)
  }

  // The invariant around worker w, which holds the lock inside the claim loop.
  ghost predicate InvExcept<V>(s: State<V>, w: nat) {
    && s.job.Valid()
    && w < |s.workers| && s.workers[w] == Worker(s.generation, Ready)
    && s.active && !s.caller.Free? && !s.shutdown && s.job.Count() > 0
    && (forall u | 0 <= u < |s.workers| && u != w :: WorkerOk(s, s.workers[u]))
    && ClaimsOk(s)
    && FailuresOk(s)
    && CellsOk(s)
  }

  lemma FreeIsIdle<V>(s: State<V>)
    requires Inv(s) && s.caller.Free?
    ensures s.job.Valid() && !s.active
  {
    hide ClaimsOk, FailuresOk, CellsOk;
  }

  // ---- every step keeps the invariant -------------------------------------

  lemma SameHolders<V>(s: State<V>, s': State<V>, w: nat)
    requires s.job.Valid() && s'.job.Valid() && ClaimsOk(s) && w < |s.workers| == |s'.workers|
      && !s.workers[w].pc.Running?
    requires forall u | 0 <= u < |s.workers| && u != w :: s'.workers[u] == s.workers[u]
    ensures forall p: nat | p < s.next && p !in s.finished :: Held(s', p)
  {
    forall p: nat | p < s.next && p !in s.finished
      ensures Held(s', p)
    {
      assert Held(s, p);
      var u :| 0 <= u < |s.workers| && s.workers[u].pc.Running? && s.workers[u].pc.p == p;
      assert s'.workers[u] == s.workers[u];
    }
  }

  // Changing what a worker waits for changes nothing else.
  lemma NotRunningKeeps<V>(s: State<V>, w: nat, pc: Pc)
    requires Inv(s) && w < |s.workers| && !s.workers[w].pc.Running? && !pc.Running?
    requires WorkerOk(s, s.workers[w].(pc := pc))
    ensures Inv(SetPc(s, w, pc))
  {
    var s' := SetPc(s, w, pc);
    SameHolders(s, s', w);
    SameCellsOk(s, s');
    hide CellsOk, RunningCells, CellAt, Held;
  }

  lemma ClaimKeeps<V>(s: State<V>, w: nat)
    requires InvExcept(s, w) && (s.caller.Blocked? ==> !s.JobDone())
    ensures Inv(ClaimOrRest(s, w))
  {
    if s.stop || s.next >= s.job.Count() {
      RestKeeps(s, w);
    } else {
      ClaimCells(s, w);
      ClaimClaims(s, w);
      ClaimWaits(s, w);
    }
  }

  lemma RestKeeps<V>(s: State<V>, w: nat)
    requires InvExcept(s, w) && (s.caller.Blocked? ==> !s.JobDone())
    requires s.stop || s.next >= s.job.Count()
    ensures Inv(ClaimOrRest(s, w))
  {
    var s' := ClaimOrRest(s, w);
    SameHolders(s, s', w);
    SameCellsOk(s, s');
    forall u | 0 <= u < |s'.workers|
      ensures WorkerOk(s', s'.workers[u])
    {
      assert u != w ==> WorkerOk(s, s.workers[u]);
    }
  }

  lemma ClaimClaims<V>(s: State<V>, w: nat)
    requires InvExcept(s, w) && !s.stop && s.next < s.job.Count()
    ensures ClaimsOk(ClaimOrRest(s, w)) && FailuresOk(ClaimOrRest(s, w))
  {
    var s' := ClaimOrRest(s, w);
    SameHolders(s, s', w);
    assert s'.workers[w].pc == Running(s.next, 0);
    assert Held(s', s.next);
  }

  lemma ClaimWaits<V>(s: State<V>, w: nat)
    requires InvExcept(s, w) && (s.caller.Blocked? ==> !s.JobDone())
    requires !s.stop && s.next < s.job.Count()
    ensures WaitsOk(ClaimOrRest(s, w))
  {
    var s' := ClaimOrRest(s, w);
    forall u | 0 <= u < |s'.workers|
      ensures WorkerOk(s', s'.workers[u])
    {
      assert u != w ==> WorkerOk(s, s.workers[u]);
    }
  }

  // A freshly claimed partition starts from untouched cells.
  lemma ClaimCells<V>(s: State<V>, w: nat)
    requires InvExcept(s, w) && !s.stop && s.next < s.job.Count()
    ensures CellsOk(ClaimOrRest(s, w))
  {
    var s' := ClaimOrRest(s, w);
    forall u | 0 <= u < |s'.workers| && s'.workers[u].pc.Running?
      ensures RunningCells(s', s'.workers[u].pc)
    {
      if u == w {
        forall i: nat | i < s'.job.length && s'.job.Legal(s.next, i)
          ensures CellAt(s', i, s.next, 0)
        {
          assert CellAt(s, i, s.next, 0);
        }
      } else {
        SameCells(s, s', s.workers[u].pc);
      }
    }
    forall i: nat, p: nat | i < s'.job.length && s'.job.Legal(p, i) && p in s'.finished
      ensures CellAt(s', i, p, |s'.job.Writes(p)|)
    {
      assert CellAt(s, i, p, |s.job.Writes(p)|);
    }
    forall i: nat, p: nat | i < s'.job.length && s'.job.Legal(p, i) && p >= s'.next
      ensures CellAt(s', i, p, 0)
    {
      assert CellAt(s, i, p, 0);
    }
  }

  lemma SameCells<V>(s: State<V>, s': State<V>, pc: Pc)
    requires s.job.Valid() && s'.job == s.job && s'.shadow == s.shadow && s'.coverage == s.coverage
    requires |s.shadow| == |s.coverage| == s.job.length && pc.Running? && RunningCells(s, pc)
    ensures RunningCells(s', pc)
  {
    forall i: nat | i < s'.job.length && s'.job.Legal(pc.p, i)
      ensures CellAt(s', i, pc.p, pc.done)
    {
      assert CellAt(s, i, pc.p, pc.done);
    }
  }

  lemma WakeKeeps<V>(s: State<V>, w: nat)
    requires Inv(s) && w < |s.workers| && s.workers[w].pc.Ready?
    ensures Inv(WakeTurn(s, w))
  {
    if !s.shutdown && s.active && s.generation != s.workers[w].observed {
      var s1 := s.(workers := s.workers[w := Worker(s.generation, Ready)]);
      SameHolders(s, s1, w);
      SameCellsOk(s, s1);
      ClaimKeeps(s1, w);
    } else {
      NotRunningKeeps(s, w, if s.shutdown then Exited else Asleep);
    }
  }

  lemma SameCellsOk<V>(s: State<V>, s': State<V>)
    requires s.job.Valid() && CellsOk(s)
    requires s'.job == s.job && s'.shadow == s.shadow && s'.coverage == s.coverage && s'.next == s.next
      && s'.finished == s.finished
    requires |s'.workers| == |s.workers|
    requires forall u | 0 <= u < |s.workers| && s'.workers[u].pc.Running? :: s'.workers[u] == s.workers[u]
    ensures CellsOk(s')
  {
    forall i: nat, p: nat | i < s'.job.length && s'.job.Legal(p, i) && p in s'.finished
      ensures CellAt(s', i, p, |s'.job.Writes(p)|)
    {
      assert CellAt(s, i, p, |s.job.Writes(p)|);
    }
    forall i: nat, p: nat | i < s'.job.length && s'.job.Legal(p, i) && p >= s'.next
      ensures CellAt(s', i, p, 0)
    {
      assert CellAt(s, i, p, 0);
    }
    forall u | 0 <= u < |s'.workers| && s'.workers[u].pc.Running?
      ensures RunningCells(s', s'.workers[u].pc)
    {
      SameCells(s, s', s.workers[u].pc);
    }
  }

  // ---- a kernel's write ---------------------------------------------------

  // A cell belongs to one tile.
  lemma OneTile<V>(job: Job<V>, i: nat, p: nat, q: nat)
    requires job.Valid() && i < job.length && job.Legal(p, i) && job.Legal(q, i)
    ensures p == q
  {
    TileUnique(p, q, i, job.width);
  }

  lemma WriteKeepsCell<V>(s: State<V>, w: nat, i: nat, p: nat, n: nat)
    requires Inv(s) && Enabled(s, Write(w)) && !WriteTurn(s, w).trapped
    requires i < s.job.length && s.job.Legal(p, i) && p != s.workers[w].pc.p
    requires n <= |s.job.Writes(p)| && CellAt(s, i, p, n)
    ensures CellAt(WriteTurn(s, w), i, p, n)
  {
    var q, m := s.workers[w].pc.p, s.workers[w].pc.done;
    if s.job.Writes(q)[m].0 == i { OneTile(s.job, i, p, q); }
  }

  lemma WriteOwnCell<V>(s: State<V>, w: nat, i: nat)
    requires Inv(s) && Enabled(s, Write(w)) && !WriteTurn(s, w).trapped
    requires i < s.job.length && s.job.Legal(s.workers[w].pc.p, i)
    ensures CellAt(WriteTurn(s, w), i, s.workers[w].pc.p, s.workers[w].pc.done + 1)
  {
    var p, n := s.workers[w].pc.p, s.workers[w].pc.done;
    assert RunningCells(s, s.workers[w].pc);
    assert CellAt(s, i, p, n);
    var ws := s.job.Writes(p);
    assert ws[..n + 1][..n] == ws[..n];
  }

  lemma WriteKeeps<V>(s: State<V>, w: nat)
    requires Inv(s) && Enabled(s, Write(w)) && !WriteTurn(s, w).trapped
    ensures Inv(WriteTurn(s, w))
  {
    WriteClaims(s, w);
    WriteWaits(s, w);
    WriteCells(s, w);
    hide ClaimsOk, WaitsOk, CellsOk;
  }

  lemma WriteClaims<V>(s: State<V>, w: nat)
    requires Inv(s) && Enabled(s, Write(w)) && !WriteTurn(s, w).trapped
    ensures WriteTurn(s, w).job == s.job && ClaimsOk(WriteTurn(s, w))
  {
    hide CellsOk, WaitsOk, FailuresOk, PartitionCount, Held;
    var s' := WriteTurn(s, w);
    forall q: nat | q < s'.next && q !in s'.finished
      ensures Held(s', q)
    {
      WriteHeld(s, w, q);
    }
  }

  lemma WriteHeld<V>(s: State<V>, w: nat, q: nat)
    requires Inv(s) && Enabled(s, Write(w)) && !WriteTurn(s, w).trapped && Held(s, q)
    ensures Held(WriteTurn(s, w), q)
  {
    hide CellsOk, WaitsOk, FailuresOk, ClaimsOk, PartitionCount;
    var s' := WriteTurn(s, w);
    var u :| 0 <= u < |s.workers| && s.workers[u].pc.Running? && s.workers[u].pc.p == q;
    assert s'.workers[u].pc.Running? && s'.workers[u].pc.p == q;
  }

  lemma WriteWaits<V>(s: State<V>, w: nat)
    requires Inv(s) && Enabled(s, Write(w)) && !WriteTurn(s, w).trapped
    ensures WriteTurn(s, w).job == s.job && WaitsOk(WriteTurn(s, w))
  {
    hide CellsOk, ClaimsOk, FailuresOk, PartitionCount;
    var s' := WriteTurn(s, w);
    forall u | 0 <= u < |s'.workers|
      ensures WorkerOk(s', s'.workers[u])
    {
      assert WorkerOk(s, s.workers[u]);
    }
  }

  lemma WriteCells<V>(s: State<V>, w: nat)
    requires Inv(s) && Enabled(s, Write(w)) && !WriteTurn(s, w).trapped
    ensures WriteTurn(s, w).job == s.job && CellsOk(WriteTurn(s, w))
  {
    var s' := WriteTurn(s, w);
    forall i: nat, q: nat | i < s'.job.length && s'.job.Legal(q, i) && q in s'.finished
      ensures CellAt(s', i, q, |s'.job.Writes(q)|)
    {
      WriteKeepsCell(s, w, i, q, |s.job.Writes(q)|);
    }
    forall i: nat, q: nat | i < s'.job.length && s'.job.Legal(q, i) && q >= s'.next
      ensures CellAt(s', i, q, 0)
    {
      WriteKeepsCell(s, w, i, q, 0);
    }
    forall u | 0 <= u < |s'.workers| && s'.workers[u].pc.Running?
      ensures RunningCells(s', s'.workers[u].pc)
    {
      WriteRunning(s, w, u);
    }
    hide CellAt, RunningCells, WaitsOk, FailuresOk, PartitionCount;
  }

  lemma WriteRunning<V>(s: State<V>, w: nat, u: nat)
    requires Inv(s) && Enabled(s, Write(w)) && !WriteTurn(s, w).trapped
    requires u < |s.workers| && s.workers[u].pc.Running?
    ensures var s' := WriteTurn(s, w);
      && s'.job == s.job && |s'.workers| == |s.workers| && |s'.shadow| == |s'.coverage| == s'.job.length
      && s'.workers[u].pc.Running? && RunningCells(s', s'.workers[u].pc)
  {
    var s' := WriteTurn(s, w);
    var pc := s.workers[u].pc;
    assert RunningCells(s, pc);
    hide Inv, WaitsOk, ClaimsOk, FailuresOk, CellsOk, PartitionCount;
    forall i: nat | i < s'.job.length && s'.job.Legal(pc.p, i)
      ensures CellAt(s', i, pc.p, s'.workers[u].pc.done)
    {
      if u == w {
        WriteOwnCell(s, w, i);
      } else {
        assert CellAt(s, i, pc.p, pc.done);
        WriteKeepsCell(s, w, i, pc.p, pc.done);
      }
    }
  }

  // ---- a kernel's return --------------------------------------------------

  lemma CompleteKeeps<V>(s: State<V>, w: nat)
    requires Inv(s) && Enabled(s, Complete(w))
    ensures Inv(CompleteTurn(s, w))
  {
    var s' := Recorded(s, w);
    RecordedClaims(s, w);
    RecordedFailures(s, w);
    RecordedCells(s, w);
    forall u | 0 <= u < |s'.workers| && u != w
      ensures WorkerOk(s', s'.workers[u])
    {
      assert WorkerOk(s, s.workers[u]);
    }
    assert WorkerOk(s, s.workers[w]);
    ClaimKeeps(s', w);
  }

  lemma RecordedClaimed<V>(s: State<V>, w: nat)
    requires s.job.Valid() && w < |s.workers| && s.workers[w].pc.Running?
    ensures var r := Recorded(s, w);
      && r.job == s.job && r.next == s.next && r.claimed == s.claimed && r.completed == s.completed + 1
      && r.workers == s.workers[w := s.workers[w].(pc := Ready)] && r.finished == s.finished + {s.workers[w].pc.p}
  {
    hide PartitionCount;
  }

  lemma RecordedClaims<V>(s: State<V>, w: nat)
    requires Inv(s) && Enabled(s, Complete(w))
    ensures ClaimsOk(Recorded(s, w))
  {
    RecordedClaimed(s, w);
    hide WaitsOk, FailuresOk, CellsOk, Recorded, PartitionCount;
    var s' := Recorded(s, w);
    forall q: nat | q < s'.next && q !in s'.finished
      ensures Held(s', q)
    {
      assert Held(s, q);
      var u :| 0 <= u < |s.workers| && s.workers[u].pc.Running? && s.workers[u].pc.p == q;
      assert s'.workers[u] == s.workers[u];
    }
  }

  lemma RecordedFailures<V>(s: State<V>, w: nat)
    requires Inv(s) && Enabled(s, Complete(w))
    ensures FailuresOk(Recorded(s, w))
  {
    hide WaitsOk, CellsOk, Held;
  }

  lemma RecordedCells<V>(s: State<V>, w: nat)
    requires Inv(s) && Enabled(s, Complete(w))
    ensures CellsOk(Recorded(s, w))
  {
    var s' := Recorded(s, w);
    var p := s.workers[w].pc.p;
    assert RunningCells(s, s.workers[w].pc);
    forall i: nat, q: nat | i < s'.job.length && s'.job.Legal(q, i) && q in s'.finished
      ensures CellAt(s', i, q, |s'.job.Writes(q)|)
    {
      assert CellAt(s, i, q, |s.job.Writes(q)|);
    }
    forall i: nat, q: nat | i < s'.job.length && s'.job.Legal(q, i) && q >= s'.next
      ensures CellAt(s', i, q, 0)
    {
      assert CellAt(s, i, q, 0);
    }
    forall u | 0 <= u < |s'.workers| && s'.workers[u].pc.Running?
      ensures RunningCells(s', s'.workers[u].pc)
    {
      SameCells(s, s', s.workers[u].pc);
    }
  }

  // ---- the dispatching thread ---------------------------------------------

  lemma ReturnKeeps<V>(s: State<V>)
    requires Inv(s) && s.caller.Woken?
    ensures Inv(CallerTurn(s))
  {
    var s' := CallerTurn(s);
    SameHeld(s, s');
    if s.JobDone() { DoneIsQuiet(s); }
    SameCellsOk(s, s');
    forall u | 0 <= u < |s'.workers|
      ensures WorkerOk(s', s'.workers[u])
    {
      assert WorkerOk(s, s.workers[u]);
    }
  }

  lemma SameHeld<V>(s: State<V>, s': State<V>)
    requires s.job.Valid() && ClaimsOk(s) && s'.job.Valid()
    requires |s'.workers| == |s.workers|
    requires forall u | 0 <= u < |s.workers| && s.workers[u].pc.Running? :: s'.workers[u] == s.workers[u]
    ensures forall p: nat | p < s.next && p !in s.finished :: Held(s', p)
  {
    forall p: nat | p < s.next && p !in s.finished
      ensures Held(s', p)
    {
      assert Held(s, p);
      var u :| 0 <= u < |s.workers| && s.workers[u].pc.Running? && s.workers[u].pc.p == p;
      assert s'.workers[u] == s.workers[u];
    }
  }

  // When the job is done nothing is in flight and every claim has finished.
  lemma DoneIsQuiet<V>(s: State<V>)
    requires Inv(s) && s.active && s.JobDone()
    ensures forall p: nat | p < s.next :: p in s.finished
    ensures forall w | 0 <= w < |s.workers| :: !s.workers[w].pc.Running?
    ensures !s.stop ==> s.next == s.job.Count()
  {
    if s.stop {
      FullSubset(s.finished, s.next);
    } else {
      assert forall p | p in s.finished :: p < s.job.Count();
      FullSubset(s.finished, s.job.Count());
      assert s.next < s.job.Count() ==> s.next in s.finished;
    }
    FullSubset(s.finished, s.next);
  }

  lemma NobodyRuns<V>(s: State<V>)
    requires Inv(s) && !s.active
    ensures forall w | 0 <= w < |s.workers| :: !s.workers[w].pc.Running?
  {
    forall w | 0 <= w < |s.workers|
      ensures !s.workers[w].pc.Running?
    {
      assert WorkerOk(s, s.workers[w]);
    }
  }

  lemma CallKeeps<V>(s: State<V>, job: Job<V>)
    requires Inv(s) && Enabled(s, Call(job))
    ensures Inv(Dispatch(s, job))
  {
    var s' := Dispatch(s, job);
    NobodyRuns(s);
    if s.cancelNext {
      SameHeld(s, s');
      SameCellsOk(s, s');
    } else {
      forall i: nat, p: nat | i < s'.job.length && s'.job.Legal(p, i)
        ensures CellAt(s', i, p, 0)
      {
        assert s'.job.Writes(p)[..0] == [];
      }
    }
    forall u | 0 <= u < |s'.workers|
      ensures WorkerOk(s', s'.workers[u])
    {
      assert WorkerOk(s, s.workers[u]);
    }
  }

  lemma ShutdownKeeps<V>(s: State<V>)
    requires Inv(s) && Enabled(s, Shutdown)
    ensures Inv(Step(s, Shutdown))
  {
    var s' := Step(s, Shutdown);
    NobodyRuns(s);
    SameHeld(s, s');
    SameCellsOk(s, s');
    forall u | 0 <= u < |s'.workers|
      ensures WorkerOk(s', s'.workers[u])
    {
      assert WorkerOk(s, s.workers[u]);
    }
  }

  lemma FlagsKeep<V>(s: State<V>, s': State<V>)
    requires Inv(s)
    requires s' == s.(cancelNext := true) || (s.caller.Blocked? && s' == s.(caller := Woken))
    ensures Inv(s')
  {
    SameHeld(s, s');
    SameCellsOk(s, s');
    forall u | 0 <= u < |s'.workers|
      ensures WorkerOk(s', s'.workers[u])
    {
      assert WorkerOk(s, s.workers[u]);
    }
  }

  // Every step keeps the invariant, or traps on a write outside the tile.
  lemma StepKeeps<V>(s: State<V>, a: Action<V>)
    requires Inv(s) && Enabled(s, a)
    ensures Inv(Step(s, a)) || Step(s, a).trapped
  {
    match a
    case Wake(w) => WakeKeeps(s, w);
    case Write(w) => if !WriteTurn(s, w).trapped { WriteKeeps(s, w); }
    case Complete(w) => CompleteKeeps(s, w);
    case Spurious(w) =>
      assert WorkerOk(s, s.workers[w]);
      NotRunningKeeps(s, w, Ready);
    case SpuriousCaller => FlagsKeep(s, Step(s, a));
    case Call(job) => CallKeeps(s, job);
    case Return => ReturnKeeps(s);
    case Cancel => FlagsKeep(s, Step(s, a));
    case Shutdown => ShutdownKeeps(s);
  }

  // ---- runs ---------------------------------------------------------------

  // A pool of n threads that have not yet taken the lock.
  function Initial<V>(n: nat, job: Job<V>): State<V>
    requires job.Valid()
  {
    State(seq(n, _ => Worker(0, Ready)), 0, false, false, false, false, 0, 0, 0, -1, job,
          job.shadow0, seq(job.length, _ => false), {}, false, Free, NoReport)
  }

  lemma InitialInv<V>(n: nat, job: Job<V>)
    requires job.Valid()
    ensures Inv(Initial(n, job))
  {
    var s := Initial(n, job);
    forall i: nat, p: nat | i < s.job.length && s.job.Legal(p, i)
      ensures CellAt(s, i, p, 0)
    {
      assert s.job.Writes(p)[..0] == [];
    }
  }

  // The states some schedule of steps leads to.
  ghost predicate Reaches<V>(s: State<V>, actions: seq<Action<V>>, t: State<V>)
    decreases |actions|
  {
    if actions == [] then s == t
    else s.job.Valid() && Enabled(s, actions[0]) && Reaches(Step(s, actions[0]), actions[1..], t)
  }

  // On every schedule the invariant holds until a write traps.
  lemma {:induction false} ReachableInv<V>(s: State<V>, actions: seq<Action<V>>, t: State<V>)
    requires Inv(s) && Reaches(s, actions, t)
    ensures Inv(t) || t.trapped
    decreases |actions|
  {
    if actions != [] {
      StepKeeps(s, actions[0]);
      var s' := Step(s, actions[0]);
      if s'.trapped {
        TrapStays(s', actions[1..], t);
      } else {
        ReachableInv(s', actions[1..], t);
      }
    }
  }

  lemma TrapStays<V>(s: State<V>, actions: seq<Action<V>>, t: State<V>)
    requires s.trapped && Reaches(s, actions, t)
    ensures t.trapped
  {}

  // From a new pool of any size on, whatever is called and in whatever order
  // the steps come.
  lemma PoolInv<V>(n: nat, job: Job<V>, actions: seq<Action<V>>, t: State<V>)
    requires job.Valid() && Reaches(Initial(n, job), actions, t)
    ensures Inv(t) || t.trapped
  {
    InitialInv(n, job);
    ReachableInv(Initial(n, job), actions, t);
  }

  // Only a call changes the generation, and nothing the number of threads.
  lemma OneGeneration<V>(s: State<V>, a: Action<V>)
    requires s.job.Valid() && Enabled(s, a)
    ensures Step(s, a).generation == if a.Call? then s.generation + 1 else s.generation
    ensures !a.Call? ==> Step(s, a).job == s.job
    ensures |Step(s, a).workers| == |s.workers|
  {
    hide ClaimOrRest, Recorded;
    match a
    case Wake(w) =>
      if s.generation != s.workers[w].observed {
        ClaimSameCall(s.(workers := s.workers[w := Worker(s.generation, Ready)]), w);
      }
    case Complete(w) =>
      RecordedSameCall(s, w);
      ClaimSameCall(Recorded(s, w), w);
    case _ =>
  }

  lemma ClaimSameCall<V>(s: State<V>, w: nat)
    requires s.job.Valid() && w < |s.workers|
    ensures var r := ClaimOrRest(s, w);
      r.generation == s.generation && r.job == s.job && |r.workers| == |s.workers| && r.caller.Free? == s.caller.Free?
  {
    hide PartitionCount;
  }

  lemma RecordedSameCall<V>(s: State<V>, w: nat)
    requires s.job.Valid() && w < |s.workers| && s.workers[w].pc.Running?
    ensures var r := Recorded(s, w);
      r.generation == s.generation && r.job == s.job && |r.workers| == |s.workers| && r.caller.Free? == s.caller.Free?
  {
    hide PartitionCount;
  }

  lemma {:induction false} GenerationsGrow<V>(s: State<V>, actions: seq<Action<V>>, t: State<V>)
    requires Reaches(s, actions, t)
    ensures t.generation >= s.generation
    decreases |actions|
  {
    if actions != [] {
      OneGeneration(s, actions[0]);
      GenerationsGrow(Step(s, actions[0]), actions[1..], t);
    }
  }

  lemma InvJob<V>(s: State<V>)
    requires Inv(s)
    ensures s.job.Valid()
  {}

  // ---- what a finished job reports ----------------------------------------

  // The least failing partition of the whole job, or -1.
  ghost predicate LeastFailure<V>(job: Job<V>, lowest: int)
    requires job.Valid()
  {
    if lowest < 0 then lowest == -1 && forall p: nat | p < job.Count() :: job.exec(p).status == 0
    else lowest < job.Count() && job.exec(lowest).status != 0 && forall p: nat | p < lowest :: job.exec(p).status == 0
  }

  // Whatever the schedule, the failure reported is the least of the job, and a
  // job without failure leaves every cell as its own tile wrote it.
  lemma ReportIsExact<V>(s: State<V>)
    requires Inv(s) && s.caller.Woken? && s.JobDone()
    ensures CallerTurn(s).report == Finished(s.generation, s.completed, s.lowest)
    ensures LeastFailure(s.job, s.lowest)
    ensures s.lowest < 0 ==> s.completed == s.job.Count()
    ensures s.lowest < 0 ==> forall i: nat, p: nat | i < s.job.length && s.job.Legal(p, i) && p < s.job.Count() ::
      CellAt(s, i, p, |s.job.Writes(p)|)
    ensures s.lowest < 0 ==> forall p: nat | p < s.job.Count() :: AllLegal(s.job, p, |s.job.Writes(p)|)
  {
    DoneIsQuiet(s);
    if s.lowest >= 0 {
      forall p: nat | p < s.lowest
        ensures s.job.exec(p).status == 0
      {
        assert p in s.finished;
      }
    } else {
      forall p: nat | p < s.job.Count()
        ensures s.job.exec(p).status == 0 && p in s.finished
      {
        assert p in s.finished;
      }
    }
  }

  // ---- progress -----------------------------------------------------------

  // A step of the pool itself, not an early return of a wait or a new request.
  predicate Progress<V>(a: Action<V>) { a.Wake? || a.Write? || a.Complete? || a.Return? }

  // While a job is active and no write has trapped, some step of the pool is
  // enabled: no schedule gets stuck.
  lemma NotStuck<V>(s: State<V>) returns (a: Action<V>)
    requires Inv(s) && s.active && !s.trapped && |s.workers| > 0
    ensures Progress(a) && Enabled(s, a)
  {
    if s.caller.Woken? {
      a := Return;
    } else if w: nat :| w < |s.workers| && s.workers[w].pc.Ready? {
      a := Wake(w);
    } else if w: nat :| w < |s.workers| && s.workers[w].pc.Running? {
      assert RunningCells(s, s.workers[w].pc);
      a := if s.workers[w].pc.done < |s.job.Writes(s.workers[w].pc.p)| then Write(w) else Complete(w);
    } else {
      QuietIsDone(s);
      a := Return;
    }
  }

  // With every worker asleep the job is done, so a blocked dispatcher would
  // have been signalled.
  lemma QuietIsDone<V>(s: State<V>)
    requires Inv(s) && s.active && |s.workers| > 0
    requires forall w | 0 <= w < |s.workers| :: !s.workers[w].pc.Ready? && !s.workers[w].pc.Running?
    ensures s.JobDone()
  {
    assert WorkerOk(s, s.workers[0]);
    forall p: nat | p < s.next
      ensures p in s.finished
    {
      assert p !in s.finished ==> Held(s, p);
    }
    assert Below(s.next) == s.finished;
  }

  // Work left in one worker, in the unclaimed partitions, and in the dispatcher.
  function WorkerWork<V>(s: State<V>, w: Worker): nat {
    match w.pc
    case Running(p, done) => if done <= |s.job.Writes(p)| then |s.job.Writes(p)| - done + 2 else 2
    case Ready => 2
    case _ => 0
  }

  function WorkersWork<V>(s: State<V>, ws: seq<Worker>): nat {
    if ws == [] then 0 else WorkerWork(s, ws[0]) + WorkersWork(s, ws[1..])
  }

  function UnclaimedWork<V>(job: Job<V>, from: nat): nat
    requires job.Valid()
    decreases job.Count() - from
  {
    if from >= job.Count() then 0 else |job.Writes(from)| + 2 + UnclaimedWork(job, from + 1)
  }

  function WorkLeft<V>(s: State<V>): nat
    requires s.job.Valid()
  {
    WorkersWork(s, s.workers) + UnclaimedWork(s.job, s.next) + (if s.caller.Woken? then 1 else 0)
  }

  lemma {:induction false} WorkersWorkUpdate<V>(s: State<V>, s': State<V>, ws: seq<Worker>, w: nat, x: Worker)
    requires s'.job == s.job && w < |ws|
    ensures WorkersWork(s', ws[w := x]) == WorkersWork(s, ws) - WorkerWork(s, ws[w]) + WorkerWork(s', x)
  {
    if w == 0 {
      assert ws[0 := x][1..] == ws[1..];
      SameWork(s, s', ws[1..]);
    } else {
      assert ws[w := x][1..] == ws[1..][w - 1 := x];
      WorkersWorkUpdate(s, s', ws[1..], w - 1, x);
    }
  }

  lemma {:induction false} SameWork<V>(s: State<V>, s': State<V>, ws: seq<Worker>)
    requires s'.job == s.job
    ensures WorkersWork(s', ws) == WorkersWork(s, ws)
  {
    if ws != [] { SameWork(s, s', ws[1..]); }
  }

  // The claim loop's head uses up the work of the worker that enters it.
  lemma ClaimWork<V>(s: State<V>, w: nat)
    requires s.job.Valid() && w < |s.workers| && s.workers[w].pc.Ready? && !s.shutdown
    ensures WorkLeft(ClaimOrRest(s, w)) + (if s.caller.Blocked? && s.JobDone() then 1 else 2) <= WorkLeft(s)
  {
    var s' := ClaimOrRest(s, w);
    WorkersWorkUpdate(s, s', s.workers, w, s'.workers[w]);
  }

  // Every step of the pool uses up work.
  lemma StepUsesWork<V>(s: State<V>, a: Action<V>)
    requires Inv(s) && Enabled(s, a) && Progress(a) && s.active && !Step(s, a).trapped
    ensures var s' := Step(s, a); s'.job == s.job && s.job.Valid() && WorkLeft(s') < WorkLeft(s)
  {
    hide WorkLeft;
    match a
    case Wake(w) => WakeUsesWork(s, w);
    case Write(w) => WriteUsesWork(s, w);
    case Complete(w) => CompleteUsesWork(s, w);
    case Return => ReturnUsesWork(s);
  }

  lemma WakeUsesWork<V>(s: State<V>, w: nat)
    requires Inv(s) && Enabled(s, Wake(w)) && s.active
    ensures var s' := Step(s, Wake(w)); s'.job == s.job && s.job.Valid() && WorkLeft(s') < WorkLeft(s)
  {
    var s' := Step(s, Wake(w));
    assert WorkerOk(s, s.workers[w]);
    if s.generation == s.workers[w].observed {
      WorkersWorkUpdate(s, s', s.workers, w, s'.workers[w]);
    } else {
      var s1 := s.(workers := s.workers[w := Worker(s.generation, Ready)]);
      WorkersWorkUpdate(s, s1, s.workers, w, Worker(s.generation, Ready));
      ClaimWork(s1, w);
    }
  }

  lemma WriteUsesWork<V>(s: State<V>, w: nat)
    requires Inv(s) && Enabled(s, Write(w)) && s.active && !Step(s, Write(w)).trapped
    ensures var s' := Step(s, Write(w)); s'.job == s.job && s.job.Valid() && WorkLeft(s') < WorkLeft(s)
  {
    ActiveNotShutdown(s);
    hide Inv;
    var s' := Step(s, Write(w));
    WorkersWorkUpdate(s, s', s.workers, w, s'.workers[w]);
  }

  lemma ReturnUsesWork<V>(s: State<V>)
    requires Inv(s) && Enabled(s, Return) && s.active
    ensures var s' := Step(s, Return); s'.job == s.job && s.job.Valid() && WorkLeft(s') < WorkLeft(s)
  {
    ActiveNotShutdown(s);
    hide Inv;
    SameWork(s, Step(s, Return), s.workers);
  }

  // Recording a result costs nothing but may wake the dispatcher.
  lemma RecordedWork<V>(s: State<V>, w: nat)
    requires s.job.Valid() && Enabled(s, Complete(w))
    ensures WorkLeft(Recorded(s, w)) <= WorkLeft(s) + 1
  {
    var s1 := Recorded(s, w);
    WorkersWorkUpdate(s, s1, s.workers, w, s1.workers[w]);
  }

  lemma CompleteUsesWork<V>(s: State<V>, w: nat)
    requires Inv(s) && Enabled(s, Complete(w)) && s.active
    ensures var s' := CompleteTurn(s, w); s'.job == s.job && s.job.Valid() && WorkLeft(s') < WorkLeft(s)
  {
    hide Inv, WorkLeft;
    ActiveNotShutdown(s);
    RecordedWork(s, w);
    ClaimWork(Recorded(s, w), w);
  }

  lemma ActiveNotShutdown<V>(s: State<V>)
    requires Inv(s) && s.active
    ensures s.job.Valid() && !s.shutdown
  {}

  // ---- every call returns -------------------------------------------------

  // How many steps of the pool a schedule takes, and how many waits end early.
  function PoolSteps<V>(actions: seq<Action<V>>): nat {
    if actions == [] then 0 else (if Progress(actions[0]) then 1 else 0) + PoolSteps(actions[1..])
  }

  predicate Early<V>(a: Action<V>) { a.Spurious? || a.SpuriousCaller? }

  function EarlyWakes<V>(actions: seq<Action<V>>): nat {
    if actions == [] then 0 else (if Early(actions[0]) then 1 else 0) + EarlyWakes(actions[1..])
  }

  // A wait that ends early adds the work of going back to it.
  lemma EarlyWork<V>(s: State<V>, a: Action<V>)
    requires Inv(s) && Enabled(s, a) && s.active && !Progress(a)
    ensures var s' := Step(s, a);
      && s'.active && s'.job == s.job && s.job.Valid() && s'.generation == s.generation
      && WorkLeft(s') <= WorkLeft(s) + (if Early(a) then 2 else 0)
  {
    ActiveNotShutdown(s);
    assert !s.caller.Free?;
    hide Inv;
    match a
    case Spurious(w) => WorkersWorkUpdate(s, Step(s, a), s.workers, w, Step(s, a).workers[w]);
    case SpuriousCaller => SameWork(s, Step(s, a), s.workers);
    case Cancel => SameWork(s, Step(s, a), s.workers);
    case _ =>
  }

  // No call starts without a new generation.
  lemma {:induction false} IdleStays<V>(s: State<V>, actions: seq<Action<V>>, t: State<V>)
    requires Inv(s) && !s.active && Reaches(s, actions, t) && t.generation == s.generation && !t.trapped
    ensures !t.active
    decreases |actions|
  {
    hide Inv, Step, Enabled;
    if actions != [] {
      InvJob(s);
      var a, s' := actions[0], Step(s, actions[0]);
      OneGeneration(s, a);
      GenerationsGrow(s', actions[1..], t);
      StepKeeps(s, a);
      if s'.trapped {
        TrapStays(s', actions[1..], t);
      } else {
        IdleStep(s, a);
        IdleStays(s', actions[1..], t);
      }
    }
  }

  lemma IdleStep<V>(s: State<V>, a: Action<V>)
    requires Inv(s) && !s.active && Enabled(s, a) && !a.Call?
    ensures !Step(s, a).active
  {
    InvJob(s);
    NobodyRuns(s);
  }

  // On every schedule a call that is still active has taken no more steps of the
  // pool than the work it started with and two for each wait that ended early.
  lemma {:induction false} CallIsBounded<V>(s: State<V>, actions: seq<Action<V>>, t: State<V>)
    requires Inv(s) && s.active && Reaches(s, actions, t)
    requires t.active && t.generation == s.generation && !t.trapped
    ensures t.job.Valid() && s.job.Valid()
    ensures PoolSteps(actions) + WorkLeft(t) <= WorkLeft(s) + 2 * EarlyWakes(actions)
    decreases |actions|
  {
    hide Inv, Step, Enabled, WorkLeft;
    InvJob(s);
    if actions != [] {
      var a, s' := actions[0], Step(s, actions[0]);
      OneGeneration(s, a);
      GenerationsGrow(s', actions[1..], t);
      StepKeeps(s, a);
      if s'.trapped {
        TrapStays(s', actions[1..], t);
      } else {
        if Progress(a) { StepUsesWork(s, a); } else { EarlyWork(s, a); }
        if s'.active {
          CallIsBounded(s', actions[1..], t);
        } else {
          IdleStays(s', actions[1..], t);
        }
      }
    }
  }

  lemma SomeWork<V>(s: State<V>, a: Action<V>)
    requires Inv(s) && Enabled(s, a) && Progress(a) && s.active && Step(s, a).trapped
    ensures s.job.Valid() && WorkLeft(s) > 0
  {
    InvJob(s);
    TrapsOnWrite(s, a);
    hide Inv, Step;
    WorkersWorkUpdate(s, s, s.workers, a.w, Worker(0, Asleep));
  }

  lemma TrapsOnWrite<V>(s: State<V>, a: Action<V>)
    requires s.job.Valid() && Enabled(s, a) && Step(s, a).trapped
    ensures a.Write?
  {
    hide PartitionCount, ClaimOrRest, Broadcast;
    match a
    case Wake(w) => WakeKeepsTrap(s, w);
    case Complete(w) =>
      RecordedFree(s, w);
      ClaimKeepsTrap(Recorded(s, w), w);
    case _ =>
  }

  lemma ClaimKeepsTrap<V>(s: State<V>, w: nat)
    requires s.job.Valid() && w < |s.workers|
    ensures ClaimOrRest(s, w).trapped == s.trapped
  {
    hide PartitionCount;
  }

  lemma WakeKeepsTrap<V>(s: State<V>, w: nat)
    requires s.job.Valid() && w < |s.workers| && s.workers[w].pc.Ready?
    ensures WakeTurn(s, w).trapped == s.trapped
  {
    hide PartitionCount, ClaimOrRest;
    ClaimKeepsTrap(s.(workers := s.workers[w := Worker(s.generation, Ready)]), w);
  }

  lemma RecordedFree<V>(s: State<V>, w: nat)
    requires s.job.Valid() && w < |s.workers| && s.workers[w].pc.Running?
    ensures Recorded(s, w).job == s.job && |Recorded(s, w).workers| == |s.workers|
    ensures Recorded(s, w).trapped == s.trapped
  {
    hide PartitionCount;
  }

  // From every active state steps of the pool alone, no more than the work left,
  // lead to the return of the call or to a trap.
  lemma {:induction false} CallReturns<V>(s: State<V>) returns (actions: seq<Action<V>>, t: State<V>)
    requires Inv(s) && s.active && !s.trapped && |s.workers| > 0
    ensures s.job.Valid() && |actions| <= WorkLeft(s) && forall a | a in actions :: Progress(a)
    ensures Reaches(s, actions, t) && (t.trapped || !t.active)
    decreases if s.job.Valid() then WorkLeft(s) else 0
  {
    hide Inv, Step, Enabled, WorkLeft;
    InvJob(s);
    var a := NotStuck(s);
    var s' := Step(s, a);
    StepKeeps(s, a);
    if s'.trapped {
      actions, t := [a], s';
      SomeWork(s, a);
    } else {
      StepUsesWork(s, a);
      OneGeneration(s, a);
      if s'.active {
        actions, t := CallReturns(s');
        actions := [a] + actions;
      } else {
        actions, t := [a], s';
      }
    }
  }

  // ---- traps --------------------------------------------------------------

  // Write n of partition p lands in the buffer and in the tile numbered p.
  predicate LandsInside<V>(job: Job<V>, p: nat, n: nat)
    requires job.Valid() && n < |job.Writes(p)|
  {
    var i := job.Writes(p)[n].0;
    0 <= i < job.length && i / job.width == p
  }

  ghost predicate AllInside<V>(job: Job<V>) {
    job.Valid() ==> forall p: nat, n: nat | p < job.Count() && n < |job.Writes(p)| :: LandsInside(job, p, n)
  }

  lemma LegalIsInside<V>(job: Job<V>, p: nat, n: nat)
    requires job.Valid() && p < job.Count() && n < |job.Writes(p)|
    ensures var i := job.Writes(p)[n].0;
      0 <= i < job.length && job.Legal(p, i) <==> LandsInside(job, p, n)
  {
    hide PartitionCount;
    var i := job.Writes(p)[n].0;
    if 0 <= i < job.length { TilesPartition(job.length, job.width, i, p); }
  }

  lemma ClaimedExists<V>(s: State<V>, w: nat)
    requires Inv(s) && w < |s.workers| && s.workers[w].pc.Running?
    ensures s.job.Valid() && s.workers[w].pc.p < s.job.Count()
  {
    hide WaitsOk, FailuresOk, CellsOk, PartitionCount, Held;
  }

  lemma WriteTraps<V>(s: State<V>, w: nat)
    requires s.job.Valid() && Enabled(s, Write(w)) && s.workers[w].pc.p < s.job.Count()
    ensures WriteTurn(s, w).trapped <==> !LandsInside(s.job, s.workers[w].pc.p, s.workers[w].pc.done)
  {
    LegalIsInside(s.job, s.workers[w].pc.p, s.workers[w].pc.done);
    hide LandsInside, PartitionCount, Job.Legal;
  }

  // A step traps exactly when it is a write outside the tile of its partition.
  lemma TrapsExactly<V>(s: State<V>, a: Action<V>)
    requires Inv(s) && s.job.Valid() && Enabled(s, a)
    ensures Step(s, a).trapped <==>
      a.Write? && !LandsInside(s.job, s.workers[a.w].pc.p, s.workers[a.w].pc.done)
  {
    if a.Write? {
      ClaimedExists(s, a.w);
      WriteTraps(s, a.w);
    }
    if Step(s, a).trapped { TrapsOnWrite(s, a); }
    hide Inv, WriteTurn, LandsInside, PartitionCount, ClaimOrRest, Broadcast;
  }

  lemma StepJob<V>(s: State<V>, a: Action<V>)
    requires s.job.Valid() && Enabled(s, a)
    ensures Step(s, a).job == s.job || (a.Call? && Step(s, a).job == a.job)
  {
    hide PartitionCount, ClaimOrRest, WakeTurn, Recorded, Broadcast;
    match a
    case Wake(w) => WakeKeepsJob(s, w);
    case Complete(w) =>
      RecordedFree(s, w);
      ClaimKeepsJob(Recorded(s, w), w);
    case _ =>
  }

  lemma ClaimKeepsJob<V>(s: State<V>, w: nat)
    requires s.job.Valid() && w < |s.workers|
    ensures ClaimOrRest(s, w).job == s.job
  {
    hide PartitionCount;
  }

  lemma WakeKeepsJob<V>(s: State<V>, w: nat)
    requires s.job.Valid() && w < |s.workers| && s.workers[w].pc.Ready?
    ensures WakeTurn(s, w).job == s.job
  {
    hide PartitionCount, ClaimOrRest;
    ClaimKeepsJob(s.(workers := s.workers[w := Worker(s.generation, Ready)]), w);
  }

  // Jobs whose writes all land inside never trap, on any schedule.
  lemma {:induction false} NeverTraps<V>(s: State<V>, actions: seq<Action<V>>, t: State<V>)
    requires Inv(s) && !s.trapped && Reaches(s, actions, t)
    requires AllInside(s.job) && forall a | a in actions && a.Call? :: AllInside(a.job)
    ensures Inv(t) && !t.trapped
    decreases |actions|
  {
    if actions != [] {
      var a, s' := actions[0], Step(s, actions[0]);
      hide Inv, Step, Enabled, AllInside, LandsInside;
      InsideStep(s, a);
      StepKeeps(s, a);
      StepJob(s, a);
      NeverTraps(s', actions[1..], t);
    }
  }

  lemma InsideStep<V>(s: State<V>, a: Action<V>)
    requires Inv(s) && s.job.Valid() && Enabled(s, a) && AllInside(s.job)
    ensures !Step(s, a).trapped
  {
    TrapsExactly(s, a);
    if a.Write? { ClaimedExists(s, a.w); }
    hide Inv, Step, LandsInside;
  }

  // So from every active state of such a job the call can return, within the
  // work left.
  lemma CallComesBack<V>(s: State<V>) returns (actions: seq<Action<V>>, t: State<V>)
    requires Inv(s) && s.active && !s.trapped && |s.workers| > 0 && AllInside(s.job)
    ensures s.job.Valid() && |actions| <= WorkLeft(s) && forall a | a in actions :: Progress(a)
    ensures Reaches(s, actions, t) && !t.trapped && !t.active
  {
    hide *;
    actions, t := CallReturns(s);
    NoCalls(actions);
    NeverTraps(s, actions, t);
  }

  lemma NoCalls<V>(actions: seq<Action<V>>)
    requires forall a | a in actions :: Progress(a)
    ensures forall a | a in actions :: !a.Call?
  {}
}
