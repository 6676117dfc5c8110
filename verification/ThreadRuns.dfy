/** Interleavings of ResourcePtr calls by any number of threads, and the sequential order behind each. */
module ThreadRuns {
  import opened Options
  import opened Resources
  import opened ResourceThreads
  import opened ResourceRuns

  // ----- footprints -----

  /** swap() and the comparisons return at once, without locking, when both sides are the same object. */
  predicate Shortcut<R, D>(op: Op<R, D>) {
    (op.Swap? || op.Compare?) && op.i == op.j
  }

  /** The instances whose mutexes the call takes, both at once where there are two (std::lock). */
  function Locks<R, D>(op: Op<R, D>): set<nat> {
    if Shortcut(op) then {} else if op.Swap? || op.Compare? then {op.i, op.j} else {op.i}
  }

  /** The instances the call reads or writes: those and the source of a move. */
  function Foot<R, D>(op: Op<R, D>): set<nat> {
    if op.MoveAssign? then {op.i, op.j} else Locks(op)
  }

  /** What a call uses without having locked it: the source of a move, and nothing else. */
  lemma OnlySourcesAreTrusted<R, D>(op: Op<R, D>)
    ensures Foot(op) - Locks(op) == if op.MoveAssign? then {op.j} - {op.i} else {}
    ensures Locks(op) <= Foot(op)
  {
  }

  ghost predicate SameOn<R, D>(foot: set<nat>, a: seq<Cell<R, D>>, b: seq<Cell<R, D>>) {
    |a| == |b| && forall x :: x in foot && x < |a| ==> a[x] == b[x]
  }

  ghost predicate SameOff<R, D>(foot: set<nat>, a: seq<Cell<R, D>>, b: seq<Cell<R, D>>) {
    |a| == |b| && forall x :: 0 <= x < |a| && x !in foot ==> a[x] == b[x]
  }

  lemma StepIsLocal<R, D>(op: Op<R, D>, c1: seq<Cell<R, D>>, c2: seq<Cell<R, D>>, f: Frame<R>, throws: bool)
    requires InRange(op, |c1|) && SameOn(Foot(op), c1, c2) && f.outcome.None?
    ensures var (s1, s2) := (BodyStep(op, c1, f, throws), BodyStep(op, c2, f, throws));
            s1.frame == s2.frame && s1.events == s2.events && SameOn(Foot(op), s1.cells, s2.cells)
  {
    if op.MoveAssign? || op.Swap? || op.Compare? {
      StepOnTwoIsLocal(op, c1, c2, f, throws);
    } else {
      assert c1[op.i] == c2[op.i];
    }
  }

  lemma StepOnTwoIsLocal<R, D>(op: Op<R, D>, c1: seq<Cell<R, D>>, c2: seq<Cell<R, D>>, f: Frame<R>, throws: bool)
    requires op.MoveAssign? || op.Swap? || op.Compare?
    requires InRange(op, |c1|) && SameOn(Foot(op), c1, c2) && f.outcome.None?
    ensures var (s1, s2) := (BodyStep(op, c1, f, throws), BodyStep(op, c2, f, throws));
            s1.frame == s2.frame && s1.events == s2.events && SameOn(Foot(op), s1.cells, s2.cells)
  {
    if !Shortcut(op) {
      assert c1[op.i] == c2[op.i] && c1[op.j] == c2[op.j];
    }
  }

  lemma StepStaysInFoot<R, D>(op: Op<R, D>, cells: seq<Cell<R, D>>, f: Frame<R>, throws: bool)
    requires InRange(op, |cells|) && f.outcome.None?
    ensures SameOff(Foot(op), cells, BodyStep(op, cells, f, throws).cells)
  {
  }

  lemma {:induction false} RestIsLocal<R, D>(op: Op<R, D>, c1: seq<Cell<R, D>>, c2: seq<Cell<R, D>>, f: Frame<R>,
                                             throws: bool)
    requires InRange(op, |c1|) && SameOn(Foot(op), c1, c2)
    ensures var (r1, r2) := (Rest(op, c1, f, throws), Rest(op, c2, f, throws));
            r1.outcome == r2.outcome && r1.events == r2.events && SameOn(Foot(op), r1.cells, r2.cells)
    decreases 7 - f.pc, f.outcome.None?
  {
    if f.outcome.Some? {
    } else {
      StepIsLocal(op, c1, c2, f, throws);
      var (s1, s2) := (BodyStep(op, c1, f, throws), BodyStep(op, c2, f, throws));
      RestIsLocal(op, s1.cells, s2.cells, s1.frame, throws);
    }
  }

  lemma CallIsLocal<R, D>(op: Op<R, D>, c1: seq<Cell<R, D>>, c2: seq<Cell<R, D>>, throws: bool)
    requires InRange(op, |c1|) && SameOn(Foot(op), c1, c2)
    ensures var (r1, r2) := (Call(op, c1, throws), Call(op, c2, throws));
            r1.outcome == r2.outcome && r1.events == r2.events && SameOn(Foot(op), r1.cells, r2.cells)
  {
    StepsAreTheCall(op, c1, throws);
    StepsAreTheCall(op, c2, throws);
    RestIsLocal(op, c1, c2, Entered(), throws);
  }

  lemma CallStaysInFoot<R, D>(op: Op<R, D>, cells: seq<Cell<R, D>>, throws: bool)
    requires InRange(op, |cells|)
    ensures SameOff(Foot(op), cells, Call(op, cells, throws).cells)
  {
  }

  // ----- taking effect -----

  /** A call has taken effect with the step that records its events, or the last one if it has none. */
  ghost predicate TakesEffect<R, D>(s: Stepped<R, D>) {
    s.events != [] || s.frame.outcome.Some?
  }

  /** Only a step that runs a deleter depends on whether deleters throw. */
  lemma QuietStepIgnoresThrows<R, D>(op: Op<R, D>, cells: seq<Cell<R, D>>, f: Frame<R>, b1: bool, b2: bool)
    requires InRange(op, |cells|) && f.outcome.None? && BodyStep(op, cells, f, b1).events == []
    ensures BodyStep(op, cells, f, b1) == BodyStep(op, cells, f, b2)
  {
  }

  lemma QuietStepKeepsRest<R, D>(op: Op<R, D>, cells: seq<Cell<R, D>>, f: Frame<R>, throws: bool, b: bool)
    requires InRange(op, |cells|) && f.outcome.None? && BodyStep(op, cells, f, throws).events == []
    ensures var s := BodyStep(op, cells, f, throws);
            Rest(op, s.cells, s.frame, b) == Rest(op, cells, f, b)
  {
    QuietStepIgnoresThrows(op, cells, f, throws, b);
    var s := BodyStep(op, cells, f, b);
    var rest := Rest(op, s.cells, s.frame, b);
    assert [] + rest.events == rest.events;
  }

  /** What is left of a call that has taken effect: no further event, and nothing left to chance. */
  ghost predicate Settled<R, D>(op: Op<R, D>, cells: seq<Cell<R, D>>, f: Frame<R>)
    requires InRange(op, |cells|)
  {
    Rest(op, cells, f, true) == Rest(op, cells, f, false) && Rest(op, cells, f, false).events == []
  }

  lemma EffectSettles<R, D>(op: Op<R, D>, cells: seq<Cell<R, D>>, f: Frame<R>, throws: bool)
    requires InRange(op, |cells|) && f.outcome.None? && TakesEffect(BodyStep(op, cells, f, throws))
    ensures Settled(op, BodyStep(op, cells, f, throws).cells, BodyStep(op, cells, f, throws).frame)
  {
    var s := BodyStep(op, cells, f, throws);
    if s.frame.outcome.None? {
      RestOfMove(op, s.cells, s.frame, true);
      RestOfMove(op, s.cells, s.frame, false);
    }
  }

  lemma SettledIsLocal<R, D>(op: Op<R, D>, c1: seq<Cell<R, D>>, c2: seq<Cell<R, D>>, f: Frame<R>)
    requires InRange(op, |c1|) && SameOn(Foot(op), c1, c2) && Settled(op, c1, f)
    ensures Settled(op, c2, f)
    decreases 7 - f.pc, f.outcome.None?
  {
    if f.outcome.None? {
      SettledStep(op, c1, f, false);
      StepIsLocal(op, c1, c2, f, false);
      StepIsLocal(op, c1, c2, f, true);
      var (s1, s2) := (BodyStep(op, c1, f, false), BodyStep(op, c2, f, false));
      QuietStepIgnoresThrows(op, c2, f, false, true);
      SettledIsLocal(op, s1.cells, s2.cells, s1.frame);
    }
  }

  lemma SettledStep<R, D>(op: Op<R, D>, cells: seq<Cell<R, D>>, f: Frame<R>, throws: bool)
    requires InRange(op, |cells|) && f.outcome.None? && Settled(op, cells, f)
    ensures var s := BodyStep(op, cells, f, throws);
            && s.events == [] && Settled(op, s.cells, s.frame)
            && Rest(op, s.cells, s.frame, false) == Rest(op, cells, f, false)
  {
  }

  // ----- the machine -----

  datatype Thread<!R, !D> = Idle | Busy(op: Op<R, D>, frame: Frame<R>, effective: bool)

  datatype Return<!R, !D> = Return(thread: ThreadId, op: Op<R, D>, outcome: Outcome<R>)

  datatype World<!R, !D> = World(
    cells: seq<Cell<R, D>>,
    mutex: seq<Option<ThreadId>>,
    threads: seq<Thread<R, D>>,
    log: seq<Event<R, D>>,
    returned: seq<Return<R, D>>)

  datatype Action<!R, !D> =
    | Start(t: ThreadId, op: Op<R, D>)      // take the mutexes; not possible while another thread has one
    | Body(t: ThreadId, throws: bool)       // one statement
    | Unlock(t: ThreadId)                   // free the mutexes and return or rethrow

  ghost predicate Working<R, D>(w: World<R, D>, t: int) {
    0 <= t < |w.threads| && w.threads[t].Busy?
  }

  /** The client's part: the source of a move is used by no other call in progress. */
  ghost predicate SourcesUnshared<R, D>(w: World<R, D>, op: Op<R, D>) {
    forall u | Working(w, u) ::
      && (Foot(op) - Locks(op)) !! Foot(w.threads[u].op)
      && Foot(op) !! (Foot(w.threads[u].op) - Locks(w.threads[u].op))
  }

  /** A move from another instance, which it does not lock. */
  predicate MovesFrom<R, D>(op: Op<R, D>, x: nat) {
    op.MoveAssign? && op.j == x && op.i != x
  }

  /** That is all the client has to see to: calls in progress do not use what another one moves from. */
  lemma ClientRule<R, D>(w: World<R, D>, op: Op<R, D>)
    ensures SourcesUnshared(w, op)
            <==> forall u, x: nat | Working(w, u) ::
                   && !(MovesFrom(op, x) && x in Foot(w.threads[u].op))
                   && !(MovesFrom(w.threads[u].op, x) && x in Foot(op))
  {
    OnlySourcesAreTrusted(op);
    forall u | Working(w, u)
      ensures (Foot(op) - Locks(op)) !! Foot(w.threads[u].op)
              <==> forall x: nat :: !(MovesFrom(op, x) && x in Foot(w.threads[u].op))
      ensures Foot(op) !! (Foot(w.threads[u].op) - Locks(w.threads[u].op))
              <==> forall x: nat :: !(MovesFrom(w.threads[u].op, x) && x in Foot(op))
    {
      OnlySourcesAreTrusted(w.threads[u].op);
      assert forall o: Op<R, D>, x: nat :: x in Foot(o) - Locks(o) <==> MovesFrom(o, x);
    }
  }

  ghost predicate Enabled<R, D>(w: World<R, D>, act: Action<R, D>) {
    match act
    case Start(t, op) =>
      && t < |w.threads| && w.threads[t].Idle? && InRange(op, |w.cells|) && |w.mutex| == |w.cells|
      && (forall x | x in Locks(op) :: w.mutex[x].None?)
      && SourcesUnshared(w, op)
    case Body(t, _) => Working(w, t) && w.threads[t].frame.outcome.None? && InRange(w.threads[t].op, |w.cells|)
    case Unlock(t) => Working(w, t) && w.threads[t].frame.outcome.Some?
  }

  ghost function SetAll(mutex: seq<Option<ThreadId>>, which: set<nat>, v: Option<ThreadId>): seq<Option<ThreadId>> {
    seq(|mutex|, x requires 0 <= x < |mutex| => if x in which then v else mutex[x])
  }

  ghost function Next<R, D>(w: World<R, D>, act: Action<R, D>): World<R, D>
    requires Enabled(w, act)
  {
    match act
    case Start(t, op) =>
      w.(mutex := SetAll(w.mutex, Locks(op), Some(t)), threads := w.threads[t := Busy(op, Entered(), false)])
    case Body(t, throws) =>
      var th := w.threads[t];
      var s := BodyStep(th.op, w.cells, th.frame, throws);
      w.(cells := s.cells, log := w.log + s.events,
         threads := w.threads[t := Busy(th.op, s.frame, th.effective || TakesEffect(s))])
    case Unlock(t) =>
      var th := w.threads[t];
      w.(mutex := SetAll(w.mutex, Locks(th.op), None), threads := w.threads[t := Idle],
         returned := w.returned + [Return(t, th.op, th.frame.outcome.value)])
  }

  ghost predicate Initially<R, D>(w: World<R, D>) {
    && |w.mutex| == |w.cells| && w.log == [] && w.returned == []
    && (forall x :: 0 <= x < |w.mutex| ==> w.mutex[x].None?)
    && (forall t :: 0 <= t < |w.threads| ==> w.threads[t].Idle?)
  }

  /** The world after an interleaving, if every step of it was possible. */
  ghost function Reached<R, D>(w: World<R, D>, run: seq<Action<R, D>>): Option<World<R, D>> {
    if run == [] then Some(w)
    else
      var n := |run| - 1;
      match Reached(w, run[..n])
      case None => None
      case Some(v) => if Enabled(v, run[n]) then Some(Next(v, run[n])) else None
  }

  // ----- the sequential order -----

  datatype Commit<!R, !D> = Commit(thread: ThreadId, op: Op<R, D>, throws: bool)

  ghost predicate Commits<R, D>(w: World<R, D>, act: Action<R, D>) {
    && act.Body? && Enabled(w, act) && !w.threads[act.t].effective
    && TakesEffect(BodyStep(w.threads[act.t].op, w.cells, w.threads[act.t].frame, act.throws))
  }

  ghost function CommitOf<R, D>(w: World<R, D>, act: Action<R, D>): seq<Commit<R, D>> {
    if Commits(w, act) then [Commit(act.t, w.threads[act.t].op, act.throws)] else []
  }

  /** The calls of an interleaving in the order in which they take effect. */
  ghost function CommitOrder<R, D>(w: World<R, D>, run: seq<Action<R, D>>): seq<Commit<R, D>> {
    if run == [] then []
    else
      var n := |run| - 1;
      CommitOrder(w, run[..n]) +
      match Reached(w, run[..n])
      case None => []
      case Some(v) => CommitOf(v, run[n])
  }

  datatype Sequential<!R, !D> = Sequential(cells: seq<Cell<R, D>>, log: seq<Event<R, D>>, returned: seq<Return<R, D>>)

  ghost predicate AllInRange<R, D>(order: seq<Commit<R, D>>, n: nat) {
    forall k :: 0 <= k < |order| ==> InRange(order[k].op, n)
  }

  /** The same calls one after the other, each undisturbed. */
  ghost function OneByOne<R, D>(cells: seq<Cell<R, D>>, order: seq<Commit<R, D>>): (r: Sequential<R, D>)
    requires AllInRange(order, |cells|)
    ensures |r.cells| == |cells|
  {
    if order == [] then Sequential(cells, [], [])
    else
      var n := |order| - 1;
      After(OneByOne(cells, order[..n]), order[n])
  }

  ghost function After<R, D>(before: Sequential<R, D>, c: Commit<R, D>): (r: Sequential<R, D>)
    requires InRange(c.op, |before.cells|)
    ensures |r.cells| == |before.cells|
  {
    var res := Call(c.op, before.cells, c.throws);
    Sequential(res.cells, before.log + res.events, before.returned + [Return(c.thread, c.op, res.outcome)])
  }

  lemma OneByOneSnoc<R, D>(cells: seq<Cell<R, D>>, order: seq<Commit<R, D>>, c: Commit<R, D>)
    requires AllInRange(order, |cells|) && InRange(c.op, |cells|)
    ensures AllInRange(order + [c], |cells|)
    ensures OneByOne(cells, order + [c]) == After(OneByOne(cells, order), c)
  {
  }

  /** The results one thread has got, in order. */
  ghost function Of<R, D>(returned: seq<Return<R, D>>, t: ThreadId): seq<Return<R, D>> {
    if returned == [] then []
    else
      var n := |returned| - 1;
      Of(returned[..n], t) + (if returned[n].thread == t then [returned[n]] else [])
  }

  lemma OfSnoc<R, D>(returned: seq<Return<R, D>>, r: Return<R, D>, t: ThreadId)
    ensures Of(returned + [r], t) == Of(returned, t) + (if r.thread == t then [r] else [])
  {
  }

  /** The result a call in progress will return, if it has taken effect. */
  ghost function Pending<R, D>(w: World<R, D>, t: ThreadId): seq<Return<R, D>> {
    if Working(w, t) && w.threads[t].effective && InRange(w.threads[t].op, |w.cells|) then
      [Return(t, w.threads[t].op, Rest(w.threads[t].op, w.cells, w.threads[t].frame, false).outcome)]
    else []
  }

  // ----- the invariant -----

  ghost predicate Agrees<R, D>(th: Thread<R, D>, cells: seq<Cell<R, D>>, seqCells: seq<Cell<R, D>>, throws: bool)
    requires th.Busy? && InRange(th.op, |cells|) && |cells| == |seqCells|
  {
    var (rest, call) := (Rest(th.op, cells, th.frame, throws), Call(th.op, seqCells, throws));
    rest.outcome == call.outcome && rest.events == call.events && SameOn(Foot(th.op), rest.cells, call.cells)
  }

  /** A call yet to take effect will do what the whole call would do; one that has is done but for its writes. */
  ghost predicate OnCourse<R, D>(th: Thread<R, D>, cells: seq<Cell<R, D>>, seqCells: seq<Cell<R, D>>)
    requires th.Busy? && InRange(th.op, |cells|) && |cells| == |seqCells|
  {
    && (th.frame.outcome.Some? ==> th.effective)
    && (!th.effective ==> Agrees(th, cells, seqCells, true) && Agrees(th, cells, seqCells, false))
    && (th.effective ==> Settled(th.op, cells, th.frame)
                         && SameOn(Foot(th.op), Rest(th.op, cells, th.frame, false).cells, seqCells))
  }

  ghost predicate Shape<R, D>(w: World<R, D>) {
    && |w.mutex| == |w.cells|
    && (forall t | Working(w, t) :: InRange(w.threads[t].op, |w.cells|))
    && (forall t, u | Working(w, t) && Working(w, u) && t != u :: Foot(w.threads[t].op) !! Foot(w.threads[u].op))
  }

  /** A mutex is held exactly by the thread whose call in progress locks it. */
  ghost predicate MutexesMatch<R, D>(w: World<R, D>) {
    forall x, t: ThreadId | 0 <= x < |w.mutex| ::
      w.mutex[x] == Some(t) <==> Working(w, t) && x in Locks(w.threads[t].op)
  }

  ghost predicate Matches<R, D>(w: World<R, D>, seqCells: seq<Cell<R, D>>) {
    && Shape(w) && MutexesMatch(w) && |seqCells| == |w.cells|
    && (forall t | Working(w, t) :: OnCourse(w.threads[t], w.cells, seqCells))
    && (forall x | 0 <= x < |w.cells| && (forall t | Working(w, t) :: x !in Foot(w.threads[t].op)) ::
          w.cells[x] == seqCells[x])
  }

  // ----- every step keeps it -----

  lemma OthersStayOnCourse<R, D>(th: Thread<R, D>, cells: seq<Cell<R, D>>, seqCells: seq<Cell<R, D>>,
                                 cells': seq<Cell<R, D>>, seqCells': seq<Cell<R, D>>)
    requires th.Busy? && InRange(th.op, |cells|) && |cells| == |seqCells|
    requires OnCourse(th, cells, seqCells)
    requires SameOn(Foot(th.op), cells, cells') && SameOn(Foot(th.op), seqCells, seqCells')
    ensures OnCourse(th, cells', seqCells')
    ensures Rest(th.op, cells, th.frame, false).outcome == Rest(th.op, cells', th.frame, false).outcome
  {
    RestIsLocal(th.op, cells, cells', th.frame, true);
    RestIsLocal(th.op, cells, cells', th.frame, false);
    if th.effective {
      SettledIsLocal(th.op, cells, cells', th.frame);
    } else {
      CallIsLocal(th.op, seqCells, seqCells', true);
      CallIsLocal(th.op, seqCells, seqCells', false);
    }
  }

  ghost function Advanced<R, D>(th: Thread<R, D>, cells: seq<Cell<R, D>>, throws: bool): Thread<R, D>
    requires th.Busy? && InRange(th.op, |cells|) && th.frame.outcome.None?
  {
    var s := BodyStep(th.op, cells, th.frame, throws);
    Busy(th.op, s.frame, th.effective || TakesEffect(s))
  }

  lemma CommitStaysOnCourse<R, D>(th: Thread<R, D>, cells: seq<Cell<R, D>>, seqCells: seq<Cell<R, D>>, throws: bool)
    requires th.Busy? && InRange(th.op, |cells|) && |cells| == |seqCells| && th.frame.outcome.None?
    requires OnCourse(th, cells, seqCells) && !th.effective
    requires TakesEffect(BodyStep(th.op, cells, th.frame, throws))
    ensures var (s, call) := (BodyStep(th.op, cells, th.frame, throws), Call(th.op, seqCells, throws));
            && OnCourse(Advanced(th, cells, throws), s.cells, call.cells)
            && s.events == call.events
            && Rest(th.op, s.cells, s.frame, false).outcome == call.outcome
  {
    EffectSettles(th.op, cells, th.frame, throws);
    assert Agrees(th, cells, seqCells, throws);
    var s := BodyStep(th.op, cells, th.frame, throws);
    assert Rest(th.op, cells, th.frame, throws).events == s.events + Rest(th.op, s.cells, s.frame, throws).events;
    assert s.events + [] == s.events;
  }

  lemma QuietStaysOnCourse<R, D>(th: Thread<R, D>, cells: seq<Cell<R, D>>, seqCells: seq<Cell<R, D>>, throws: bool)
    requires th.Busy? && InRange(th.op, |cells|) && |cells| == |seqCells| && th.frame.outcome.None?
    requires OnCourse(th, cells, seqCells)
    requires th.effective || !TakesEffect(BodyStep(th.op, cells, th.frame, throws))
    ensures var s := BodyStep(th.op, cells, th.frame, throws);
            && OnCourse(Advanced(th, cells, throws), s.cells, seqCells)
            && s.events == []
            && (th.effective ==> Rest(th.op, s.cells, s.frame, false).outcome
                                 == Rest(th.op, cells, th.frame, false).outcome)
  {
    if th.effective {
      SettledStep(th.op, cells, th.frame, throws);
    } else {
      QuietStepKeepsRest(th.op, cells, th.frame, throws, true);
      QuietStepKeepsRest(th.op, cells, th.frame, throws, false);
    }
  }

  lemma FootInRange<R, D>(op: Op<R, D>, n: nat)
    requires InRange(op, n)
    ensures forall x :: x in Foot(op) ==> x < n
    ensures Locks(op) <= Foot(op)
  {
  }

  lemma StartedIsApart<R, D>(w: World<R, D>, t: ThreadId, op: Op<R, D>, u: ThreadId)
    requires Shape(w) && MutexesMatch(w) && Enabled(w, Start(t, op)) && Working(w, u)
    ensures Foot(op) !! Foot(w.threads[u].op)
  {
  }

  lemma StartsOnCourse<R, D>(op: Op<R, D>, cells: seq<Cell<R, D>>, seqCells: seq<Cell<R, D>>)
    requires InRange(op, |cells|) && SameOn(Foot(op), cells, seqCells)
    ensures OnCourse(Busy(op, Entered(), false), cells, seqCells)
  {
    StepsAreTheCall(op, cells, true);
    StepsAreTheCall(op, cells, false);
    CallIsLocal(op, cells, seqCells, true);
    CallIsLocal(op, cells, seqCells, false);
  }

  lemma StartKeeps<R, D>(w: World<R, D>, seqCells: seq<Cell<R, D>>, t: ThreadId, op: Op<R, D>)
    requires Matches(w, seqCells) && Enabled(w, Start(t, op))
    ensures Matches(Next(w, Start(t, op)), seqCells)
  {
    var w' := Next(w, Start(t, op));
    forall u | Working(w, u)
      ensures Foot(op) !! Foot(w.threads[u].op)
    {
      StartedIsApart(w, t, op, u);
    }
    assert forall u | Working(w, u) :: u != t && Working(w', u) && w'.threads[u] == w.threads[u];
    assert forall u | Working(w', u) :: u == t || Working(w, u);
    assert Working(w', t);
    forall x: nat | x in Foot(op) && x < |w.cells|
      ensures w.cells[x] == seqCells[x]
    {
      assert forall u | Working(w, u) :: x !in Foot(w.threads[u].op);
    }
    StartsOnCourse(op, w.cells, seqCells);
    StartKeepsMutexes(w, t, op);
  }

  lemma StartKeepsMutexes<R, D>(w: World<R, D>, t: ThreadId, op: Op<R, D>)
    requires MutexesMatch(w) && Enabled(w, Start(t, op))
    ensures MutexesMatch(Next(w, Start(t, op)))
  {
  }

  lemma UnlockKeeps<R, D>(w: World<R, D>, seqCells: seq<Cell<R, D>>, t: ThreadId)
    requires Matches(w, seqCells) && Enabled(w, Unlock(t))
    ensures Matches(Next(w, Unlock(t)), seqCells)
  {
    var w' := Next(w, Unlock(t));
    var th := w.threads[t];
    assert OnCourse(th, w.cells, seqCells);
    assert Rest(th.op, w.cells, th.frame, false).cells == w.cells;
    assert forall u | Working(w', u) :: u != t && Working(w, u) && w'.threads[u] == w.threads[u];
    assert forall u | Working(w, u) :: u == t || Working(w', u);
    forall x | 0 <= x < |w.cells| && forall u | Working(w', u) :: x !in Foot(w'.threads[u].op)
      ensures w.cells[x] == seqCells[x]
    {
      if x !in Foot(th.op) {
        assert forall u | Working(w, u) :: x !in Foot(w.threads[u].op);
      }
    }
    UnlockKeepsMutexes(w, t);
  }

  lemma UnlockKeepsMutexes<R, D>(w: World<R, D>, t: ThreadId)
    requires Shape(w) && MutexesMatch(w) && Enabled(w, Unlock(t))
    ensures MutexesMatch(Next(w, Unlock(t)))
  {
  }

  /** The sequential cells after one step of the interleaving. */
  ghost function SeqCellsAfter<R, D>(w: World<R, D>, act: Action<R, D>, seqCells: seq<Cell<R, D>>): seq<Cell<R, D>>
    requires |seqCells| == |w.cells|
  {
    if Commits(w, act) then Call(w.threads[act.t].op, seqCells, act.throws).cells else seqCells
  }

  lemma BodyChangesOnlyFoot<R, D>(w: World<R, D>, seqCells: seq<Cell<R, D>>, t: ThreadId, throws: bool)
    requires Enabled(w, Body(t, throws)) && |seqCells| == |w.cells|
    ensures SameOff(Foot(w.threads[t].op), w.cells, Next(w, Body(t, throws)).cells)
    ensures SameOff(Foot(w.threads[t].op), seqCells, SeqCellsAfter(w, Body(t, throws), seqCells))
  {
    StepStaysInFoot(w.threads[t].op, w.cells, w.threads[t].frame, throws);
    CallStaysInFoot(w.threads[t].op, seqCells, throws);
  }

  lemma BodyKeepsOthers<R, D>(w: World<R, D>, seqCells: seq<Cell<R, D>>, t: ThreadId, throws: bool, u: ThreadId)
    requires Matches(w, seqCells) && Enabled(w, Body(t, throws)) && Working(w, u) && u != t
    ensures var w' := Next(w, Body(t, throws));
            && w'.threads[u] == w.threads[u]
            && OnCourse(w'.threads[u], w'.cells, SeqCellsAfter(w, Body(t, throws), seqCells))
            && Pending(w', u) == Pending(w, u)
  {
    var w' := Next(w, Body(t, throws));
    BodyChangesOnlyFoot(w, seqCells, t, throws);
    assert Foot(w.threads[t].op) !! Foot(w.threads[u].op);
    OthersStayOnCourse(w.threads[u], w.cells, seqCells, w'.cells, SeqCellsAfter(w, Body(t, throws), seqCells));
  }

  lemma BodyKeepsOwn<R, D>(w: World<R, D>, seqCells: seq<Cell<R, D>>, t: ThreadId, throws: bool)
    requires Matches(w, seqCells) && Enabled(w, Body(t, throws))
    ensures var (act, w') := (Body(t, throws), Next(w, Body(t, throws)));
            && OnCourse(w'.threads[t], w'.cells, SeqCellsAfter(w, act, seqCells))
            && w'.log == w.log + (if Commits(w, act) then Call(w.threads[t].op, seqCells, throws).events else [])
            && Pending(w', t) == (if Commits(w, act) then
                                    [Return(t, w.threads[t].op, Call(w.threads[t].op, seqCells, throws).outcome)]
                                  else Pending(w, t))
  {
    var th := w.threads[t];
    assert OnCourse(th, w.cells, seqCells);
    if Commits(w, Body(t, throws)) {
      CommitStaysOnCourse(th, w.cells, seqCells, throws);
    } else {
      QuietStaysOnCourse(th, w.cells, seqCells, throws);
    }
  }

  lemma BodyKeeps<R, D>(w: World<R, D>, seqCells: seq<Cell<R, D>>, t: ThreadId, throws: bool)
    requires Matches(w, seqCells) && Enabled(w, Body(t, throws))
    ensures Matches(Next(w, Body(t, throws)), SeqCellsAfter(w, Body(t, throws), seqCells))
  {
    var w' := Next(w, Body(t, throws));
    BodyKeepsOwn(w, seqCells, t, throws);
    BodyChangesOnlyFoot(w, seqCells, t, throws);
    forall u: ThreadId | Working(w, u) && u != t
      ensures w'.threads[u] == w.threads[u]
      ensures OnCourse(w'.threads[u], w'.cells, SeqCellsAfter(w, Body(t, throws), seqCells))
    {
      BodyKeepsOthers(w, seqCells, t, throws, u);
    }
    assert forall u | Working(w', u) :: Working(w, u) && w'.threads[u].op == w.threads[u].op;
    assert forall u | Working(w, u) :: Working(w', u) && w'.threads[u].op == w.threads[u].op;
    BodyKeepsMutexes(w, t, throws);
    forall x | 0 <= x < |w'.cells| && forall u | Working(w', u) :: x !in Foot(w'.threads[u].op)
      ensures w'.cells[x] == SeqCellsAfter(w, Body(t, throws), seqCells)[x]
    {
      assert Working(w', t);
      assert x !in Foot(w.threads[t].op);
      assert forall u | Working(w, u) :: x !in Foot(w.threads[u].op);
    }
  }

  lemma BodyKeepsMutexes<R, D>(w: World<R, D>, t: ThreadId, throws: bool)
    requires MutexesMatch(w) && Enabled(w, Body(t, throws))
    ensures MutexesMatch(Next(w, Body(t, throws)))
  {
  }

  // ----- linearisation -----

  ghost predicate Simulates<R, D>(w: World<R, D>, one: Sequential<R, D>) {
    && Matches(w, one.cells)
    && w.log == one.log
    && (forall t: ThreadId :: Of(one.returned, t) == Of(w.returned, t) + Pending(w, t))
  }

  lemma StartSimulates<R, D>(w: World<R, D>, one: Sequential<R, D>, t: ThreadId, op: Op<R, D>)
    requires Simulates(w, one) && Enabled(w, Start(t, op))
    ensures Simulates(Next(w, Start(t, op)), one)
  {
    StartKeeps(w, one.cells, t, op);
    forall u: ThreadId
      ensures Pending(Next(w, Start(t, op)), u) == Pending(w, u)
    {
    }
  }

  lemma UnlockSimulates<R, D>(w: World<R, D>, one: Sequential<R, D>, t: ThreadId)
    requires Simulates(w, one) && Enabled(w, Unlock(t))
    ensures Simulates(Next(w, Unlock(t)), one)
  {
    var w' := Next(w, Unlock(t));
    var r := Return(t, w.threads[t].op, w.threads[t].frame.outcome.value);
    UnlockKeeps(w, one.cells, t);
    assert OnCourse(w.threads[t], w.cells, one.cells);
    assert Pending(w, t) == [r];
    forall u: ThreadId
      ensures Of(w'.returned, u) + Pending(w', u) == Of(w.returned, u) + Pending(w, u)
    {
      OfSnoc(w.returned, r, u);
    }
  }

  lemma BodySimulates<R, D>(w: World<R, D>, one: Sequential<R, D>, t: ThreadId, throws: bool)
    requires Simulates(w, one) && Enabled(w, Body(t, throws))
    ensures var act := Body(t, throws);
            Simulates(Next(w, act), if Commits(w, act) then After(one, Commit(t, w.threads[t].op, throws)) else one)
  {
    BodyKeeps(w, one.cells, t, throws);
    BodyKeepsOwn(w, one.cells, t, throws);
    BodyResults(w, one, t, throws);
  }

  lemma BodyPending<R, D>(w: World<R, D>, seqCells: seq<Cell<R, D>>, t: ThreadId, throws: bool, u: ThreadId)
    requires Matches(w, seqCells) && Enabled(w, Body(t, throws)) && u != t
    ensures Pending(Next(w, Body(t, throws)), u) == Pending(w, u)
  {
    if Working(w, u) {
      BodyKeepsOthers(w, seqCells, t, throws, u);
    }
  }

  lemma BodyResults<R, D>(w: World<R, D>, one: Sequential<R, D>, t: ThreadId, throws: bool)
    requires Simulates(w, one) && Enabled(w, Body(t, throws))
    ensures var act := Body(t, throws);
            var one' := if Commits(w, act) then After(one, Commit(t, w.threads[t].op, throws)) else one;
            forall u: ThreadId :: Of(one'.returned, u) == Of(w.returned, u) + Pending(Next(w, act), u)
  {
    var act := Body(t, throws);
    var w' := Next(w, act);
    BodyKeepsOwn(w, one.cells, t, throws);
    var r := Return(t, w.threads[t].op, Call(w.threads[t].op, one.cells, throws).outcome);
    assert Commits(w, act) ==> Pending(w, t) == [] && Pending(w', t) == [r];
    forall u: ThreadId
      ensures Of(if Commits(w, act) then one.returned + [r] else one.returned, u)
           == Of(w.returned, u) + Pending(w', u)
    {
      OfSnoc(one.returned, r, u);
      if u != t {
        BodyPending(w, one.cells, t, throws, u);
      }
    }
  }

  /**
   Every interleaving is matched, step by step, by the sequential execution of its calls in the order in which
   they take effect: same deleter calls in the same order, same results for every thread.
   */
  lemma {:induction false} InterleavingIsSequential<R, D>(start: World<R, D>, run: seq<Action<R, D>>)
    requires Initially(start) && Reached(start, run).Some?
    ensures AllInRange(CommitOrder(start, run), |start.cells|)
    ensures Simulates(Reached(start, run).value, OneByOne(start.cells, CommitOrder(start, run)))
    decreases |run|
  {
    if run == [] {
      assert forall t: ThreadId :: Pending(start, t) == [];
    } else {
      var n := |run| - 1;
      var (front, act) := (run[..n], run[n]);
      InterleavingIsSequential(start, front);
      var w := Reached(start, front).value;
      var order := CommitOrder(start, front);
      var one := OneByOne(start.cells, order);
      match act {
        case Start(t, op) => StartSimulates(w, one, t, op);
        case Unlock(t) => UnlockSimulates(w, one, t);
        case Body(t, throws) =>
          BodySimulates(w, one, t, throws);
          if Commits(w, act) {
            OneByOneSnoc(start.cells, order, Commit(t, w.threads[t].op, throws));
          }
      }
      if !Commits(w, act) {
        assert CommitOrder(start, run) == order;
      }
    }
  }

  lemma HolderIsWorking<R, D>(w: World<R, D>, x: nat)
    requires MutexesMatch(w) && x < |w.mutex|
    ensures w.mutex[x].Some? ==> Working(w, w.mutex[x].value)
  {
  }

  /** When no call is in progress the shared state is that of the sequential execution and every mutex is free. */
  lemma Linearizable<R, D>(start: World<R, D>, run: seq<Action<R, D>>)
    requires Initially(start) && Reached(start, run).Some?
    requires forall t :: !Working(Reached(start, run).value, t)
    ensures var (w, order) := (Reached(start, run).value, CommitOrder(start, run));
            && AllInRange(order, |start.cells|)
            && w.cells == OneByOne(start.cells, order).cells
            && w.log == OneByOne(start.cells, order).log
            && (forall t: ThreadId :: Of(w.returned, t) == Of(OneByOne(start.cells, order).returned, t))
            && (forall x :: 0 <= x < |w.mutex| ==> w.mutex[x].None?)
  {
    InterleavingIsSequential(start, run);
    var (w, one) := (Reached(start, run).value, OneByOne(start.cells, CommitOrder(start, run)));
    assert w.cells == one.cells;
    forall x | 0 <= x < |w.mutex|
      ensures w.mutex[x].None?
    {
      HolderIsWorking(w, x);
    }
  }

  lemma {:induction false} OrderOnlyGrows<R, D>(start: World<R, D>, run: seq<Action<R, D>>, more: seq<Action<R, D>>)
    ensures CommitOrder(start, run) <= CommitOrder(start, run + more)
    decreases |more|
  {
    if more == [] {
      assert run + more == run;
    } else {
      var n := |more| - 1;
      OrderOnlyGrows(start, run, more[..n]);
      assert (run + more)[..|run + more| - 1] == run + more[..n];
    }
  }

  /** The number of calls in the order that are the thread's. */
  ghost function By<R, D>(order: seq<Commit<R, D>>, t: ThreadId): nat {
    if order == [] then 0
    else
      var n := |order| - 1;
      By(order[..n], t) + (if order[n].thread == t then 1 else 0)
  }

  lemma {:induction false} ByOfPrefix<R, D>(a: seq<Commit<R, D>>, b: seq<Commit<R, D>>, t: ThreadId)
    requires a <= b
    ensures By(a, t) <= By(b, t)
    decreases |b|
  {
    if a == b {
    } else {
      ByOfPrefix(a, b[..|b| - 1], t);
    }
  }

  /** What the call at position `p` of the order returns: its effect on what the calls before it have left. */
  ghost function ResultOf<R, D>(cells: seq<Cell<R, D>>, order: seq<Commit<R, D>>, p: nat): Return<R, D>
    requires AllInRange(order, |cells|) && p < |order|
  {
    var c := order[p];
    Return(c.thread, c.op, Call(c.op, OneByOne(cells, order[..p]).cells, c.throws).outcome)
  }

  lemma ResultOfLast<R, D>(cells: seq<Cell<R, D>>, order: seq<Commit<R, D>>, t: ThreadId)
    requires order != [] && AllInRange(order, |cells|)
    ensures var n := |order| - 1;
            Of(OneByOne(cells, order).returned, t)
            == Of(OneByOne(cells, order[..n]).returned, t)
               + (if order[n].thread == t then [ResultOf(cells, order, n)] else [])
  {
    var n := |order| - 1;
    OfSnoc(OneByOne(cells, order[..n]).returned, ResultOf(cells, order, n), t);
  }

  lemma {:induction false} AsManyResults<R, D>(cells: seq<Cell<R, D>>, order: seq<Commit<R, D>>, t: ThreadId)
    requires AllInRange(order, |cells|)
    ensures |Of(OneByOne(cells, order).returned, t)| == By(order, t)
    decreases |order|
  {
    if order == [] {
    } else {
      AsManyResults(cells, order[..|order| - 1], t);
      ResultOfLast(cells, order, t);
    }
  }

  /** The thread's k-th result is `r`. */
  ghost predicate IsResult<R, D>(cells: seq<Cell<R, D>>, order: seq<Commit<R, D>>, k: nat, r: Return<R, D>)
    requires AllInRange(order, |cells|)
  {
    var results := Of(OneByOne(cells, order).returned, r.thread);
    k < |results| && results[k] == r
  }

  lemma ResultOfLastCommit<R, D>(cells: seq<Cell<R, D>>, order: seq<Commit<R, D>>)
    requires order != [] && AllInRange(order, |cells|)
    ensures var n := |order| - 1;
            IsResult(cells, order, By(order[..n], order[n].thread), ResultOf(cells, order, n))
  {
    var n := |order| - 1;
    AsManyResults(cells, order[..n], order[n].thread);
    ResultOfLast(cells, order, order[n].thread);
  }

  lemma ResultsStay<R, D>(cells: seq<Cell<R, D>>, order: seq<Commit<R, D>>, k: nat, r: Return<R, D>)
    requires order != [] && AllInRange(order, |cells|)
    requires IsResult(cells, order[..|order| - 1], k, r)
    ensures IsResult(cells, order, k, r)
  {
    ResultOfLast(cells, order, r.thread);
  }

  /** The k-th result of a thread is what its k-th call computes from what the calls before it have left. */
  lemma {:induction false} ResultAt<R, D>(cells: seq<Cell<R, D>>, order: seq<Commit<R, D>>, p: nat)
    requires AllInRange(order, |cells|) && p < |order|
    ensures IsResult(cells, order, By(order[..p], order[p].thread), ResultOf(cells, order, p))
    decreases |order|
  {
    var front := order[..|order| - 1];
    if p < |front| {
      ResultAt(cells, front, p);
      assert front[..p] == order[..p];
      ResultsStay(cells, order, By(order[..p], order[p].thread), ResultOf(cells, order, p));
    } else {
      ResultOfLastCommit(cells, order);
    }
  }

  /** 1 if the thread has a call in progress. */
  ghost function InProgress<R, D>(w: World<R, D>, t: ThreadId): nat {
    if Working(w, t) then 1 else 0
  }

  /** What has returned is in the order, and besides at most the call in progress. */
  lemma ReturnedIsCommitted<R, D>(start: World<R, D>, run: seq<Action<R, D>>, t: ThreadId)
    requires Initially(start) && Reached(start, run).Some?
    ensures var w := Reached(start, run).value;
            |Of(w.returned, t)| <= By(CommitOrder(start, run), t) <= |Of(w.returned, t)| + InProgress(w, t)
  {
    InterleavingIsSequential(start, run);
    AsManyResults(start.cells, CommitOrder(start, run), t);
  }

  lemma EarlierByCount<R, D>(early: seq<Commit<R, D>>, order: seq<Commit<R, D>>, t: ThreadId, u: ThreadId,
                             a: nat, b: nat)
    requires early <= order && a < |order| && b < |order| && order[b].thread == u
    requires By(order[..a], t) < By(early, t) && By(order[..b], u) >= By(early, u)
    ensures a < |early| <= b
  {
    if |early| <= a {
      ByOfPrefix(early, order[..a], t);
    }
    if b < |early| {
      assert order[..b + 1][..b] == order[..b];
      ByOfPrefix(order[..b + 1], early, u);
    }
  }

  /**
   The order respects real time: however the run goes on, a call of `t` that had returned at some point comes
   before every call of `u` that had not been started then. (The call at position `a` is one of the first that
   `t` had results of; the one at `b` comes after all that `u` had results of, and after the one `u` was in.)
   */
  lemma RespectsRealTime<R, D>(start: World<R, D>, run: seq<Action<R, D>>, more: seq<Action<R, D>>,
                               t: ThreadId, u: ThreadId, a: nat, b: nat)
    requires Initially(start) && Reached(start, run).Some?
    requires var order := CommitOrder(start, run + more);
             a < |order| && b < |order| && order[a].thread == t && order[b].thread == u
    requires By(CommitOrder(start, run + more)[..a], t) < |Of(Reached(start, run).value.returned, t)|
    requires By(CommitOrder(start, run + more)[..b], u)
             >= |Of(Reached(start, run).value.returned, u)| + InProgress(Reached(start, run).value, u)
    ensures a < b
  {
    OrderOnlyGrows(start, run, more);
    ReturnedIsCommitted(start, run, t);
    ReturnedIsCommitted(start, run, u);
    EarlierByCount(CommitOrder(start, run), CommitOrder(start, run + more), t, u, a, b);
  }

  /** At no point of any run do two calls in progress work on the same instance. */
  lemma MutualExclusion<R, D>(start: World<R, D>, run: seq<Action<R, D>>, t: ThreadId, u: ThreadId)
    requires Initially(start) && Reached(start, run).Some?
    requires Working(Reached(start, run).value, t) && Working(Reached(start, run).value, u) && t != u
    ensures var w := Reached(start, run).value;
            Foot(w.threads[t].op) !! Foot(w.threads[u].op)
  {
    InterleavingIsSequential(start, run);
  }

  /**
   At every point of every run a mutex is held by a thread exactly if that thread has a call in progress that
   locks it: one on that instance, or one on two different instances of which it is either.
   */
  lemma HoldersOfMutexes<R, D>(start: World<R, D>, run: seq<Action<R, D>>, x: nat, t: ThreadId)
    requires Initially(start) && Reached(start, run).Some?
    requires x < |Reached(start, run).value.mutex|
    ensures var w := Reached(start, run).value;
            w.mutex[x] == Some(t) <==>
              && t < |w.threads| && w.threads[t].Busy?
              && var op := w.threads[t].op;
                 if op.Swap? || op.Compare? then op.i != op.j && (x == op.i || x == op.j) else x == op.i
  {
    InterleavingIsSequential(start, run);
  }

  ghost predicate CanGoOn<R, D>(w: World<R, D>, u: ThreadId) {
    Enabled(w, Unlock(u)) || forall throws :: Enabled(w, Body(u, throws))
  }

  /** A call that cannot start although its client keeps the rules waits for the mutex of a call in progress. */
  lemma WaitsForSomebody<R, D>(w: World<R, D>, t: ThreadId, op: Op<R, D>) returns (u: ThreadId)
    requires Shape(w) && MutexesMatch(w)
    requires t < |w.threads| && w.threads[t].Idle? && InRange(op, |w.cells|) && SourcesUnshared(w, op)
    requires !Enabled(w, Start(t, op))
    ensures Working(w, u) && Locks(op) * Locks(w.threads[u].op) != {}
  {
    FootInRange(op, |w.cells|);
    var x :| x in Locks(op) && w.mutex[x].Some?;
    u := w.mutex[x].value;
    assert w.mutex[x] == Some(u);
    assert x in Locks(op) * Locks(w.threads[u].op);
  }

  /**
   A call that cannot start although its client keeps the rules waits for a mutex of another call, and that one
   can go on; so can every other call in progress, whatever the rest do.
   */
  lemma NobodyIsStuck<R, D>(start: World<R, D>, run: seq<Action<R, D>>, t: ThreadId, op: Op<R, D>)
    requires Initially(start) && Reached(start, run).Some?
    ensures var w := Reached(start, run).value;
            && (forall u: ThreadId | Working(w, u) :: CanGoOn(w, u))
            && (t < |w.threads| && w.threads[t].Idle? && InRange(op, |w.cells|) && SourcesUnshared(w, op) ==>
                  || Enabled(w, Start(t, op))
                  || exists u: ThreadId ::
                       Working(w, u) && Locks(op) * Locks(w.threads[u].op) != {} && CanGoOn(w, u))
  {
    InterleavingIsSequential(start, run);
    var w := Reached(start, run).value;
    assert forall u: ThreadId | Working(w, u) :: CanGoOn(w, u);
    if t < |w.threads| && w.threads[t].Idle? && InRange(op, |w.cells|) && SourcesUnshared(w, op)
       && !Enabled(w, Start(t, op)) {
      var u := WaitsForSomebody(w, t, op);
    }
  }

  lemma {:induction false} ReachedConcat<R, D>(w: World<R, D>, run: seq<Action<R, D>>, more: seq<Action<R, D>>)
    requires Reached(w, run).Some?
    ensures Reached(w, run + more) == Reached(Reached(w, run).value, more)
    decreases |more|
  {
    if more == [] {
      assert run + more == run;
    } else {
      var n := |more| - 1;
      ReachedConcat(w, run, more[..n]);
      assert (run + more)[..|run + more| - 1] == run + more[..n];
    }
  }

  lemma OneStep<R, D>(w: World<R, D>, act: Action<R, D>)
    requires Enabled(w, act)
    ensures Reached(w, [act]) == Some(Next(w, act))
  {
    assert [act][..0] == [];
    assert Reached(w, []) == Some(w);
  }

  ghost predicate OpsInRange<R, D>(w: World<R, D>) {
    forall t | Working(w, t) :: InRange(w.threads[t].op, |w.cells|)
  }

  /** 0 for an idle thread, 1 for one that has only to free its mutexes, 2 for one within its body. */
  ghost function Stage<R, D>(th: Thread<R, D>): nat {
    if th.Idle? then 0 else if th.frame.outcome.Some? then 1 else 2
  }

  ghost function ToGo<R, D>(th: Thread<R, D>): int {
    if th.Idle? then 0 else 7 - th.frame.pc
  }

  /** A thread can finish the call it is in, without any other thread doing anything. */
  lemma {:induction false} FinishOne<R, D>(w: World<R, D>, t: ThreadId) returns (more: seq<Action<R, D>>)
    requires OpsInRange(w) && t < |w.threads|
    ensures Reached(w, more).Some?
    ensures OpsInRange(Reached(w, more).value) && Reached(w, more).value.threads == w.threads[t := Idle]
    decreases Stage(w.threads[t]), ToGo(w.threads[t])
  {
    if w.threads[t].Idle? {
      more := [];
    } else {
      assert Working(w, t);
      var act := if w.threads[t].frame.outcome.Some? then Unlock(t) else Body(t, false);
      var w' := Next(w, act);
      assert forall u | Working(w', u) :: Working(w, u) && w'.threads[u].op == w.threads[u].op;
      var rest := FinishOne(w', t);
      more := [act] + rest;
      OneStep(w, act);
      ReachedConcat(w, [act], rest);
    }
  }

  lemma {:induction false} FinishAll<R, D>(w: World<R, D>, k: nat) returns (more: seq<Action<R, D>>)
    requires OpsInRange(w) && k <= |w.threads| && forall u :: 0 <= u < k ==> w.threads[u].Idle?
    ensures Reached(w, more).Some? && forall u :: !Working(Reached(w, more).value, u)
    decreases |w.threads| - k
  {
    if k == |w.threads| {
      more := [];
    } else {
      var first := FinishOne(w, k);
      var rest := FinishAll(Reached(w, first).value, k + 1);
      more := first + rest;
      ReachedConcat(w, first, rest);
    }
  }

  ghost predicate AtPeace<R, D>(w: World<R, D>) {
    && (forall u :: !Working(w, u))
    && (forall x :: 0 <= x < |w.mutex| ==> w.mutex[x].None?)
  }

  /** No deadlock: every run can be continued until all calls have returned and all mutexes are free. */
  lemma EveryRunCanFinish<R, D>(start: World<R, D>, run: seq<Action<R, D>>)
    requires Initially(start) && Reached(start, run).Some?
    ensures exists more :: Reached(start, run + more).Some? && AtPeace(Reached(start, run + more).value)
  {
    InterleavingIsSequential(start, run);
    var more := FinishAll(Reached(start, run).value, 0);
    ReachedConcat(start, run, more);
    Linearizable(start, run + more);
  }

  /** How many steps a thread has left at most. */
  ghost function Left<R, D>(th: Thread<R, D>): nat {
    if th.Idle? then 0
    else if th.frame.outcome.Some? then 1
    else if th.frame.pc <= 6 then 8 - th.frame.pc
    else 2
  }

  ghost function AllLeft<R, D>(threads: seq<Thread<R, D>>): nat {
    if threads == [] then 0 else Left(threads[0]) + AllLeft(threads[1..])
  }

  lemma {:induction false} AllLeftUpdate<R, D>(threads: seq<Thread<R, D>>, t: nat, th: Thread<R, D>)
    requires t < |threads|
    ensures AllLeft(threads[t := th]) + Left(threads[t]) == AllLeft(threads) + Left(th)
    ensures AllLeft(threads) <= 8 * |threads|
  {
    var after := threads[t := th];
    if t == 0 {
      assert after[1..] == threads[1..];
      AllLeftBound(threads);
    } else {
      AllLeftUpdate(threads[1..], t - 1, th);
      assert after[1..] == threads[1..][t - 1 := th];
    }
  }

  lemma {:induction false} AllLeftBound<R, D>(threads: seq<Thread<R, D>>)
    ensures AllLeft(threads) <= 8 * |threads|
  {
    if threads == [] {
    } else {
      AllLeftBound(threads[1..]);
    }
  }

  ghost predicate NoStart<R, D>(run: seq<Action<R, D>>) {
    forall k :: 0 <= k < |run| ==> !run[k].Start?
  }

  lemma StepLeavesLess<R, D>(w: World<R, D>, act: Action<R, D>)
    requires Enabled(w, act) && !act.Start?
    ensures AllLeft(Next(w, act).threads) < AllLeft(w.threads)
    ensures |Next(w, act).threads| == |w.threads|
  {
    AllLeftUpdate(w.threads, act.t, Next(w, act).threads[act.t]);
  }

  lemma {:induction false} StepsAreLimited<R, D>(w: World<R, D>, more: seq<Action<R, D>>)
    requires Reached(w, more).Some? && NoStart(more)
    ensures |more| + AllLeft(Reached(w, more).value.threads) <= AllLeft(w.threads)
    decreases |more|
  {
    if more == [] {
    } else {
      var n := |more| - 1;
      StepsAreLimited(w, more[..n]);
      StepLeavesLess(Reached(w, more[..n]).value, more[n]);
    }
  }

  /**
   All calls in progress end soon, whatever the scheduler does: without new calls at most 8 steps are possible for
   each thread, and as long as there is a call in progress or a mutex is held another step is possible.
   */
  lemma CallsEndSoon<R, D>(start: World<R, D>, run: seq<Action<R, D>>, more: seq<Action<R, D>>)
    requires Initially(start) && Reached(start, run).Some?
    requires Reached(start, run + more).Some? && NoStart(more)
    ensures |more| <= 8 * |Reached(start, run).value.threads|
    ensures var w := Reached(start, run + more).value;
            AtPeace(w) || exists u: ThreadId :: Working(w, u) && CanGoOn(w, u)
  {
    var w := Reached(start, run).value;
    ReachedConcat(start, run, more);
    StepsAreLimited(w, more);
    AllLeftBound(w.threads);
    InterleavingIsSequential(start, run + more);
    var end := Reached(start, run + more).value;
    if u: ThreadId :| Working(end, u) {
      assert CanGoOn(end, u);
    } else {
      PeaceWithoutCalls(end);
    }
  }

  lemma PeaceWithoutCalls<R, D>(w: World<R, D>)
    requires MutexesMatch(w) && forall u: ThreadId :: !Working(w, u)
    ensures AtPeace(w)
  {
    forall x | 0 <= x < |w.mutex|
      ensures w.mutex[x].None?
    {
      HolderIsWorking(w, x);
    }
  }

  // ----- ownership over every interleaving -----

  lemma {:induction false} SequentialConserves<R, D>(cells: seq<Cell<R, D>>, order: seq<Commit<R, D>>, t: Token<R, D>)
    requires AllInRange(order, |cells|)
    ensures var one := OneByOne(cells, order);
            Balanced(cells, one.cells, one.log, t)
    decreases |order|
  {
    if order == [] {
    } else {
      var n := |order| - 1;
      SequentialConserves(cells, order[..n], t);
      var before := OneByOne(cells, order[..n]);
      var res := Call(order[n].op, before.cells, order[n].throws);
      CallIsBalanced(order[n].op, before.cells, order[n].throws, t);
      forall k: Kind
        ensures Times(before.log + res.events, k, t) == Times(before.log, k, t) + Times(res.events, k, t)
      {
        TimesConcat(before.log, res.events, k, t);
      }
    }
  }

  ghost predicate InUse<R, D>(w: World<R, D>, x: nat) {
    exists u :: Working(w, u) && x in Foot(w.threads[u].op)
  }

  /** The instances that no call in progress works on; the others count as empty. */
  ghost function AtRest<R, D>(w: World<R, D>): (r: seq<Cell<R, D>>)
    ensures |r| == |w.cells|
  {
    seq(|w.cells|, x requires 0 <= x < |w.cells| => if InUse(w, x) then Emptied(w.cells[x]) else w.cells[x])
  }

  lemma {:induction false} HeldByFewer<R, D>(a: seq<Cell<R, D>>, b: seq<Cell<R, D>>, t: Token<R, D>)
    requires |a| == |b| && forall x :: 0 <= x < |a| ==> HeldIn(a[x], t) <= HeldIn(b[x], t)
    ensures Held(a, t) <= Held(b, t)
  {
    if a == [] {
    } else {
      HeldByFewer(a[1..], b[1..], t);
    }
  }

  /**
   At every point of every interleaving, with any calls in progress: what is held by instances at rest, deleted
   by its deleter or released was there at the start or acquired since, and no more often than that; so nothing
   is deleted twice, or deleted and still held. The difference is in the hands of calls in progress: all is
   accounted for by the sequential execution of the calls that have taken effect.
   */
  lemma OwnershipAtEveryPoint<R, D>(start: World<R, D>, run: seq<Action<R, D>>, t: Token<R, D>)
    requires Initially(start) && Reached(start, run).Some?
    ensures var w := Reached(start, run).value;
            Held(AtRest(w), t) + Times(w.log, DeletedKind, t) + Times(w.log, ReleasedKind, t)
            <= Held(start.cells, t) + Times(w.log, AcquiredKind, t)
    ensures var (w, order) := (Reached(start, run).value, CommitOrder(start, run));
            && AllInRange(order, |start.cells|)
            && Held(OneByOne(start.cells, order).cells, t)
               + Times(w.log, DeletedKind, t) + Times(w.log, ReleasedKind, t)
               == Held(start.cells, t) + Times(w.log, AcquiredKind, t)
  {
    InterleavingIsSequential(start, run);
    var (w, one) := (Reached(start, run).value, OneByOne(start.cells, CommitOrder(start, run)));
    SequentialConserves(start.cells, CommitOrder(start, run), t);
    forall x | 0 <= x < |w.cells|
      ensures HeldIn(AtRest(w)[x], t) <= HeldIn(one.cells[x], t)
    {
      if !InUse(w, x) {
        assert w.cells[x] == one.cells[x];
      }
    }
    HeldByFewer(AtRest(w), one.cells, t);
  }

  /** With no call in progress, nothing is missing either. */
  lemma ThreadsConserve<R, D>(start: World<R, D>, run: seq<Action<R, D>>, t: Token<R, D>)
    requires Initially(start) && Reached(start, run).Some?
    requires forall u :: !Working(Reached(start, run).value, u)
    ensures var w := Reached(start, run).value;
            Held(start.cells, t) + Times(w.log, AcquiredKind, t)
            == Held(w.cells, t) + Times(w.log, DeletedKind, t) + Times(w.log, ReleasedKind, t)
  {
    Linearizable(start, run);
    OwnershipAtEveryPoint(start, run, t);
  }
}
