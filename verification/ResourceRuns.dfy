/**
 Whole-run ownership: any number of ResourcePtrs, any sequence of calls, deleters that may throw at any call.

 A token is a resource together with the deleter that came with it: the one supplied at construction, or the
 holder's own at the time of reset(). Tokens are counted, so a resource value may be acquired more than once.
 */
module ResourceRuns {
  import opened Options
  import opened Resources

  type Token<R, D> = (R, D)

  // ----- counting a token -----

  ghost function HeldIn<R, D>(c: Cell<R, D>, t: Token<R, D>): nat {
    if c.initialized && c.resource == t.0 && c.deleter == t.1 then 1 else 0
  }

  /** How many instances hold the token. */
  ghost function Held<R, D>(cells: seq<Cell<R, D>>, t: Token<R, D>): nat {
    if cells == [] then 0 else HeldIn(cells[0], t) + Held(cells[1..], t)
  }

  datatype Kind = AcquiredKind | DeletedKind | ReleasedKind

  function KindOf<R, D>(e: Event<R, D>): Kind {
    match e case Acquired(_, _) => AcquiredKind case Deleted(_, _) => DeletedKind case Released(_, _) => ReleasedKind
  }

  ghost function IsEvent<R, D>(e: Event<R, D>, k: Kind, t: Token<R, D>): nat {
    if KindOf(e) == k && e.resource == t.0 && e.deleter == t.1 then 1 else 0
  }

  /** How often the token was acquired, deleted or released. */
  ghost function Times<R, D>(log: seq<Event<R, D>>, k: Kind, t: Token<R, D>): nat {
    if log == [] then 0 else IsEvent(log[0], k, t) + Times(log[1..], k, t)
  }

  lemma {:induction false} TimesConcat<R, D>(a: seq<Event<R, D>>, b: seq<Event<R, D>>, k: Kind, t: Token<R, D>)
    ensures Times(a + b, k, t) == Times(a, k, t) + Times(b, k, t)
  {
    if a == [] {
      assert a + b == b;
    } else {
      TimesConcat(a[1..], b, k, t);
      assert (a + b)[1..] == a[1..] + b;
    }
  }

  lemma {:induction false} HeldUpdate<R, D>(cells: seq<Cell<R, D>>, i: nat, c: Cell<R, D>, t: Token<R, D>)
    requires i < |cells|
    ensures Held(cells[i := c], t) + HeldIn(cells[i], t) == Held(cells, t) + HeldIn(c, t)
  {
    var after := cells[i := c];
    if i == 0 {
      assert after[1..] == cells[1..];
    } else {
      HeldUpdate(cells[1..], i - 1, c, t);
      assert after[1..] == cells[1..][i - 1 := c];
    }
  }

  lemma {:induction false} HeldAppend<R, D>(cells: seq<Cell<R, D>>, c: Cell<R, D>, t: Token<R, D>)
    ensures Held(cells + [c], t) == Held(cells, t) + HeldIn(c, t)
  {
    if cells == [] {
      assert cells + [c] == [c];
      assert Held([c][1..], t) == 0;
    } else {
      HeldAppend(cells[1..], c, t);
      assert (cells + [c])[1..] == cells[1..] + [c];
    }
  }

  /** Held before plus acquired equals held after plus deleted plus released. */
  ghost predicate Balanced<R, D>(before: seq<Cell<R, D>>, after: seq<Cell<R, D>>, events: seq<Event<R, D>>,
                                 t: Token<R, D>) {
    Held(before, t) + Times(events, AcquiredKind, t)
      == Held(after, t) + Times(events, DeletedKind, t) + Times(events, ReleasedKind, t)
  }

  lemma OneEvent<R, D>(e: Event<R, D>, k: Kind, t: Token<R, D>)
    ensures Times([e], k, t) == IsEvent(e, k, t)
  {
  }

  lemma DeletionTimes<R, D>(c: Cell<R, D>, t: Token<R, D>)
    ensures Times(Deletion(c), DeletedKind, t) == HeldIn(c, t)
    ensures Times(Deletion(c), AcquiredKind, t) == Times(Deletion(c), ReleasedKind, t) == 0
  {
  }

  lemma MoveIsBalanced<R, D>(cells: seq<Cell<R, D>>, i: nat, j: nat, throws: bool, t: Token<R, D>)
    requires i < |cells| && j < |cells|
    ensures Balanced(cells, Call(MoveAssign(i, j), cells, throws).cells,
                     Call(MoveAssign(i, j), cells, throws).events, t)
  {
    var c := cells[i];
    DeletionTimes(c, t);
    HeldUpdate(cells, i, Emptied(c), t);
    var emptied := cells[i := Emptied(c)];
    var moved := emptied[i := emptied[j]];
    HeldUpdate(emptied, i, emptied[j], t);
    HeldUpdate(moved, j, Emptied(emptied[j]), t);
    assert moved[j] == emptied[j];
  }

  lemma SwapIsBalanced<R, D>(cells: seq<Cell<R, D>>, i: nat, j: nat, t: Token<R, D>)
    requires i < |cells| && j < |cells|
    ensures Held(cells[i := cells[j]][j := cells[i]], t) == Held(cells, t)
  {
    var half := cells[i := cells[j]];
    HeldUpdate(cells, i, cells[j], t);
    HeldUpdate(half, j, cells[i], t);
    assert half[j] == cells[j];
  }

  lemma ResetIsBalanced<R, D>(cells: seq<Cell<R, D>>, i: nat, r: R, throws: bool, t: Token<R, D>)
    requires i < |cells|
    ensures Balanced(cells, Call(Reset(i, r), cells, throws).cells, Call(Reset(i, r), cells, throws).events, t)
  {
    var c := cells[i];
    var acquired := Acquired(r, c.deleter);
    DeletionTimes(c, t);
    HeldUpdate(cells, i, Cell(r, c.deleter, true), t);
    forall k: Kind
      ensures Times([acquired] + Deletion(c), k, t) == IsEvent(acquired, k, t) + Times(Deletion(c), k, t)
    {
      TimesConcat([acquired], Deletion(c), k, t);
      OneEvent(acquired, k, t);
    }
  }

  /** No member call creates, loses or duplicates a token, whether or not a deleter throws. */
  lemma CallIsBalanced<R, D>(op: Op<R, D>, cells: seq<Cell<R, D>>, throws: bool, t: Token<R, D>)
    requires InRange(op, |cells|)
    ensures Balanced(cells, Call(op, cells, throws).cells, Call(op, cells, throws).events, t)
  {
    match op
    case MoveAssign(i, j) => MoveIsBalanced(cells, i, j, throws, t);
    case Swap(i, j) => SwapIsBalanced(cells, i, j, t);
    case Reset(i, r) => ResetIsBalanced(cells, i, r, throws, t);
    case Release(i) =>
      var c := cells[i];
      HeldUpdate(cells, i, Emptied(c), t);
      forall k: Kind { OneEvent(Released(c.resource, c.deleter), k, t); }
    case Dealloc(i) =>
      DeletionTimes(cells[i], t);
      HeldUpdate(cells, i, Emptied(cells[i]), t);
    case Get(_) =>
    case HasResource(_) =>
    case Compare(_, _, _, _) =>
  }

  // ----- runs, with construction and destruction -----

  datatype Step<!R, !D> =
    | ConstructEmpty(d: D)
    | Construct(r: R, d: D)
    | MoveConstruct(source: nat)
    | Member(op: Op<R, D>, throws: bool)
    | Destroy(instance: nat, throws: bool)

  /** Instances are numbered in order of construction; `alive` are those not destroyed yet. */
  datatype State<R, D> = State(cells: seq<Cell<R, D>>, alive: set<nat>, log: seq<Event<R, D>>)

  ghost predicate Enabled<R, D>(s: State<R, D>, step: Step<R, D>) {
    match step
    case ConstructEmpty(_) => true
    case Construct(_, _) => true
    case MoveConstruct(j) => j in s.alive && j < |s.cells|
    case Member(op, _) => InRange(op, |s.cells|) && op.i in s.alive && Second(op) in s.alive
    case Destroy(i, _) => i in s.alive && i < |s.cells|
  }

  /** `unset` stands for the resource field of an instance constructed without a resource. */
  ghost function Do<R, D>(s: State<R, D>, step: Step<R, D>, unset: R): State<R, D>
    requires Enabled(s, step)
  {
    var n := |s.cells|;
    match step
    case ConstructEmpty(d) => State(s.cells + [Cell(unset, d, false)], s.alive + {n}, s.log)
    case Construct(r, d) => State(s.cells + [Cell(r, d, true)], s.alive + {n}, s.log + [Acquired(r, d)])
    case MoveConstruct(j) => State(s.cells[j := Emptied(s.cells[j])] + [s.cells[j]], s.alive + {n}, s.log)
    case Member(op, throws) =>
      var res := Call(op, s.cells, throws);
      State(res.cells, s.alive, s.log + res.events)
    case Destroy(i, throws) =>
      var res := Call(Dealloc(i), s.cells, throws);
      State(res.cells, s.alive - {i}, s.log + res.events)
  }

  ghost function Run<R, D>(s: State<R, D>, steps: seq<Step<R, D>>, unset: R): Option<State<R, D>>
    decreases |steps|
  {
    if steps == [] then Some(s)
    else if !Enabled(s, steps[0]) then None
    else Run(Do(s, steps[0], unset), steps[1..], unset)
  }

  /** The token is held, deleted and released as often as it was acquired. */
  ghost predicate Conserved<R, D>(s: State<R, D>, t: Token<R, D>) {
    Times(s.log, AcquiredKind, t)
      == Held(s.cells, t) + Times(s.log, DeletedKind, t) + Times(s.log, ReleasedKind, t)
  }

  /** Destroyed instances hold nothing. */
  ghost predicate DeadAreEmpty<R, D>(s: State<R, D>) {
    && (forall i :: 0 <= i < |s.cells| && i !in s.alive ==> !s.cells[i].initialized)
    && (forall i :: i in s.alive ==> i < |s.cells|)
  }

  ghost function Initial<R, D>(): State<R, D> {
    State([], {}, [])
  }

  lemma BalancedKeepsConserved<R, D>(s: State<R, D>, s': State<R, D>, events: seq<Event<R, D>>, t: Token<R, D>)
    requires Conserved(s, t) && Balanced(s.cells, s'.cells, events, t) && s'.log == s.log + events
    ensures Conserved(s', t)
  {
    TimesConcat(s.log, events, AcquiredKind, t);
    TimesConcat(s.log, events, DeletedKind, t);
    TimesConcat(s.log, events, ReleasedKind, t);
  }

  lemma StepConserves<R, D>(s: State<R, D>, step: Step<R, D>, unset: R, t: Token<R, D>)
    requires Conserved(s, t) && Enabled(s, step)
    ensures Conserved(Do(s, step, unset), t)
  {
    var s' := Do(s, step, unset);
    match step
    case ConstructEmpty(d) =>
      HeldAppend(s.cells, Cell(unset, d, false), t);
    case Construct(r, d) =>
      HeldAppend(s.cells, Cell(r, d, true), t);
      forall k: Kind { OneEvent(Acquired(r, d), k, t); }
      BalancedKeepsConserved(s, s', [Acquired(r, d)], t);
    case MoveConstruct(j) =>
      HeldUpdate(s.cells, j, Emptied(s.cells[j]), t);
      HeldAppend(s.cells[j := Emptied(s.cells[j])], s.cells[j], t);
    case Member(op, throws) =>
      CallIsBalanced(op, s.cells, throws, t);
      BalancedKeepsConserved(s, s', Call(op, s.cells, throws).events, t);
    case Destroy(i, throws) =>
      CallIsBalanced(Dealloc(i), s.cells, throws, t);
      BalancedKeepsConserved(s, s', Call(Dealloc(i), s.cells, throws).events, t);
  }

  lemma StepKeepsDeadEmpty<R, D>(s: State<R, D>, step: Step<R, D>, unset: R)
    requires DeadAreEmpty(s) && Enabled(s, step)
    ensures DeadAreEmpty(Do(s, step, unset))
  {
  }

  /** Ownership over every run: for every token, however often it is acquired. */
  lemma {:induction false} RunConserves<R, D>(s: State<R, D>, steps: seq<Step<R, D>>, unset: R, t: Token<R, D>)
    requires Conserved(s, t) && DeadAreEmpty(s) && Run(s, steps, unset).Some?
    ensures Conserved(Run(s, steps, unset).value, t) && DeadAreEmpty(Run(s, steps, unset).value)
    decreases |steps|
  {
    if steps == [] {
    } else {
      StepConserves(s, steps[0], unset, t);
      StepKeepsDeadEmpty(s, steps[0], unset);
      RunConserves(Do(s, steps[0], unset), steps[1..], unset, t);
    }
  }

  lemma {:induction false} NobodyHolds<R, D>(cells: seq<Cell<R, D>>, t: Token<R, D>)
    requires forall i :: 0 <= i < |cells| ==> !cells[i].initialized
    ensures Held(cells, t) == 0
  {
    if cells == [] {
    } else {
      NobodyHolds(cells[1..], t);
    }
  }

  /** Once every instance is gone, every token has gone to its own deleter or was released: nothing leaks. */
  lemma NothingLeaks<R, D>(steps: seq<Step<R, D>>, unset: R, t: Token<R, D>)
    requires Run(Initial(), steps, unset).Some?
    requires Run(Initial(), steps, unset).value.alive == {}
    ensures var log := Run(Initial(), steps, unset).value.log;
            Times(log, AcquiredKind, t) == Times(log, DeletedKind, t) + Times(log, ReleasedKind, t)
  {
    RunConserves(Initial(), steps, unset, t);
    NobodyHolds(Run(Initial(), steps, unset).value.cells, t);
  }

  /** The instances that hold a token. */
  ghost function Holders<R, D>(cells: seq<Cell<R, D>>, t: Token<R, D>): set<nat> {
    set i: nat | i < |cells| && cells[i].initialized && (cells[i].resource, cells[i].deleter) == t
  }

  lemma {:induction false} HeldCountsHolders<R, D>(cells: seq<Cell<R, D>>, t: Token<R, D>)
    ensures |Holders(cells, t)| == Held(cells, t)
    decreases |cells|
  {
    if cells == [] {
    } else {
      var n := |cells| - 1;
      var front, last := cells[..n], cells[n];
      HeldCountsHolders(front, t);
      HeldAppend(front, last, t);
      assert front + [last] == cells;
      assert Holders(cells, t) == Holders(front, t) + (if HeldIn(last, t) == 1 then {n} else {});
    }
  }

  /** The event a token's acquisition, deletion or release is. */
  ghost function EventOf<R, D>(k: Kind, t: Token<R, D>): Event<R, D> {
    match k
    case AcquiredKind => Acquired(t.0, t.1)
    case DeletedKind => Deleted(t.0, t.1)
    case ReleasedKind => Released(t.0, t.1)
  }

  lemma {:induction false} TimesCountsEvents<R, D>(log: seq<Event<R, D>>, k: Kind, t: Token<R, D>)
    ensures Times(log, k, t) == |set x: nat | x < |log| && log[x] == EventOf(k, t)|
    decreases |log|
  {
    if log == [] {
    } else {
      var n := |log| - 1;
      var front, last := log[..n], log[n];
      TimesCountsEvents(front, k, t);
      TimesConcat(front, [last], k, t);
      OneEvent(last, k, t);
      assert front + [last] == log;
      var before := set x: nat | x < |front| && front[x] == EventOf(k, t);
      assert (set x: nat | x < |log| && log[x] == EventOf(k, t))
          == before + (if last == EventOf(k, t) then {n} else {});
    }
  }

  /** What construction and destruction do, said of the fields and of the log. */
  lemma StepsOnFields<R, D>(s: State<R, D>, step: Step<R, D>, unset: R)
    requires Enabled(s, step) && !step.Member?
    ensures var (after, n) := (Do(s, step, unset), |s.cells|);
            && (forall x :: 0 <= x < n && !(step.MoveConstruct? && x == step.source)
                            && !(step.Destroy? && x == step.instance) ==>
                  x < |after.cells| && after.cells[x] == s.cells[x])
            && (step.ConstructEmpty? ==>
                  && |after.cells| == n + 1 && !after.cells[n].initialized && after.cells[n].deleter == step.d
                  && after.alive == s.alive + {n} && after.log == s.log)
            && (step.Construct? ==>
                  && |after.cells| == n + 1 && after.cells[n] == Cell(step.r, step.d, true)
                  && after.alive == s.alive + {n} && after.log == s.log + [Acquired(step.r, step.d)])
            && (step.MoveConstruct? ==>
                  && |after.cells| == n + 1 && after.cells[n] == s.cells[step.source]
                  && !after.cells[step.source].initialized
                  && after.alive == s.alive + {n} && after.log == s.log)
            && (step.Destroy? ==>
                  var c := s.cells[step.instance];
                  && |after.cells| == n && !after.cells[step.instance].initialized
                  && after.alive == s.alive - {step.instance}
                  && after.log == s.log + (if c.initialized then [Deleted(c.resource, c.deleter)] else []))
  {
  }

  /**
   In every run, a resource acquired once (with the deleter that came with it) is in exactly one place: held by
   one instance that is still alive, passed once to that very deleter, or released once.
   */
  lemma ExactlyOnePlace<R, D>(steps: seq<Step<R, D>>, unset: R, t: Token<R, D>)
    requires Run(Initial(), steps, unset).Some?
    requires Times(Run(Initial(), steps, unset).value.log, AcquiredKind, t) == 1
    ensures var s := Run(Initial(), steps, unset).value;
            |Holders(s.cells, t)| + Times(s.log, DeletedKind, t) + Times(s.log, ReleasedKind, t) == 1
    ensures var s := Run(Initial(), steps, unset).value;
            Holders(s.cells, t) <= s.alive
  {
    RunConserves(Initial(), steps, unset, t);
    HeldCountsHolders(Run(Initial(), steps, unset).value.cells, t);
  }
}
