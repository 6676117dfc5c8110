/**
 ResourcePtr is documented to be thread-safe. Here every member call is a sequence of small steps (take the
 mutexes, read and write the fields one by one, run the deleter, free the mutexes), threads interleave
 arbitrarily, and each interleaving is shown to give the results of one sequential order of whole calls.

 The client's part of the bargain: a moved-from source, which operator= does not lock, is used by no other call
 in progress; deleters do not call back into the instance that runs them.
 */
module ResourceThreads {
  import opened Options
  import opened Resources

  type ThreadId = nat

  // ----- one call, step by step -----

  /**
   Where a call has got to: the next statement, what it has read so far (`old_resource` in reset(), the operands
   of a comparison), and the result once there is one.
   */
  datatype Frame<R> = Frame(pc: nat, saved: Option<R>, left: bool, right: bool, outcome: Option<Outcome<R>>)

  datatype Stepped<R, D> = Stepped(cells: seq<Cell<R, D>>, frame: Frame<R>, events: seq<Event<R, D>>)

  ghost function SetInitialized<R, D>(cells: seq<Cell<R, D>>, i: nat, b: bool): seq<Cell<R, D>>
    requires i < |cells|
  {
    cells[i := cells[i].(initialized := b)]
  }

  ghost function SetResource<R, D>(cells: seq<Cell<R, D>>, i: nat, r: R): seq<Cell<R, D>>
    requires i < |cells|
  {
    cells[i := cells[i].(resource := r)]
  }

  ghost function SetDeleter<R, D>(cells: seq<Cell<R, D>>, i: nat, d: D): seq<Cell<R, D>>
    requires i < |cells|
  {
    cells[i := cells[i].(deleter := d)]
  }

  ghost function Goto<R, D>(cells: seq<Cell<R, D>>, f: Frame<R>, pc: nat): Stepped<R, D> {
    Stepped(cells, f.(pc := pc), [])
  }

  ghost function Finish<R, D>(cells: seq<Cell<R, D>>, f: Frame<R>, o: Outcome<R>, events: seq<Event<R, D>>)
    : Stepped<R, D>
  {
    Stepped(cells, f.(outcome := Some(o)), events)
  }

  /**
   One statement of the body of `op`, between taking and freeing the mutexes. Events are recorded at the step at
   which the call takes effect: the call of the deleter, if there is one.
   */
  ghost function BodyStep<R, D>(op: Op<R, D>, cells: seq<Cell<R, D>>, f: Frame<R>, throws: bool): (s: Stepped<R, D>)
    requires InRange(op, |cells|) && f.outcome.None?
    ensures |s.cells| == |cells|
    ensures s.frame.outcome.None? ==> f.pc < s.frame.pc <= 6
  {
    var c := cells[op.i];
    var thrown := if throws then DeleterThrew else Done;
    match op
    case MoveAssign(i, j) =>
      (match f.pc
       case 0 => Goto(cells, f, if c.initialized then 1 else 3)
       case 1 => Goto(SetInitialized(cells, i, false), f, 2)
       case 2 =>
         if throws then Finish(cells, f, DeleterThrew, [Deleted(c.resource, c.deleter)])
         else Stepped(cells, f.(pc := 3), [Deleted(c.resource, c.deleter)])
       case 3 => Goto(SetResource(cells, i, cells[j].resource), f, 4)
       case 4 => Goto(SetInitialized(cells, i, cells[j].initialized), f, 5)
       case 5 => Goto(SetInitialized(cells, j, false), f, 6)
       case _ => Finish(SetDeleter(cells, i, cells[j].deleter), f, Done, []))
    case Swap(i, j) =>
      if i == j then Finish(cells, f, Done, []) else
      (match f.pc
       case 0 => Goto(SetResource(SetResource(cells, i, cells[j].resource), j, c.resource), f, 1)
       case 1 => Goto(SetDeleter(SetDeleter(cells, i, cells[j].deleter), j, c.deleter), f, 2)
       case _ => Finish(SetInitialized(SetInitialized(cells, i, cells[j].initialized), j, c.initialized), f, Done, []))
    case Reset(i, r) =>
      (match f.pc
       case 0 => Stepped(cells, f.(pc := 1, saved := if c.initialized then Some(c.resource) else None), [])
       case 1 => Goto(SetResource(cells, i, r), f, 2)
       case 2 => Goto(SetInitialized(cells, i, true), f, 3)
       case _ =>
         if f.saved.None? then Finish(cells, f, Done, [Acquired(c.resource, c.deleter)])
         else Finish(cells, f, thrown, [Acquired(c.resource, c.deleter), Deleted(f.saved.value, c.deleter)]))
    case Release(i) =>
      (match f.pc
       case 0 => if c.initialized then Goto(cells, f, 1) else Finish(cells, f, LogicError, [])
       case 1 => Goto(SetInitialized(cells, i, false), f, 2)
       case _ => Finish(cells, f, Value(c.resource), [Released(c.resource, c.deleter)]))
    case Dealloc(i) =>
      (match f.pc
       case 0 => if c.initialized then Goto(cells, f, 1) else Finish(cells, f, Done, [])
       case 1 => Goto(SetInitialized(cells, i, false), f, 2)
       case _ => Finish(cells, f, thrown, [Deleted(c.resource, c.deleter)]))
    case Get(i) =>
      (match f.pc
       case 0 => if c.initialized then Goto(cells, f, 1) else Finish(cells, f, LogicError, [])
       case _ => Finish(cells, f, Value(c.resource), []))
    case HasResource(i) => Finish(cells, f, Flag(c.initialized), [])
    case Compare(i, j, rel, same) =>
      if i == j then Finish(cells, f, Flag(same), []) else
      (match f.pc
       case 0 => Stepped(cells, f.(pc := 1, left := c.initialized), [])
       case 1 => Stepped(cells, f.(pc := 2, right := cells[j].initialized), [])
       case 2 => Stepped(cells, f.(pc := 3, saved := Some(c.resource)), [])
       case _ =>
         var r := if f.saved.Some? then f.saved.value else c.resource;
         Finish(cells, f, Flag(rel(f.left, f.right, r, cells[j].resource)), []))
  }

  /** The rest of the body, run without interruption. */
  ghost function Rest<R, D>(op: Op<R, D>, cells: seq<Cell<R, D>>, f: Frame<R>, throws: bool): (res: Result<R, D>)
    requires InRange(op, |cells|)
    ensures |res.cells| == |cells|
    decreases 7 - f.pc, f.outcome.None?
  {
    if f.outcome.Some? then Result(cells, f.outcome.value, [])
    else
      var s := BodyStep(op, cells, f, throws);
      var rest := Rest(op, s.cells, s.frame, throws);
      rest.(events := s.events + rest.events)
  }

  ghost function Entered<R>(): Frame<R> {
    Frame(0, None, false, false, None)
  }

  // ----- run without interruption, the steps of a call are the call -----

  lemma RestOfMove<R, D>(op: Op<R, D>, cells: seq<Cell<R, D>>, f: Frame<R>, throws: bool)
    requires op.MoveAssign? && InRange(op, |cells|) && f.outcome.None? && f.pc == 3
    ensures var r := Rest(op, cells, f, throws);
            && r.outcome == Done && r.events == []
            && r.cells == (if op.i == op.j then SetInitialized(cells, op.i, false)
                           else cells[op.i := cells[op.j]][op.j := Emptied(cells[op.j])])
  {
    var s3 := BodyStep(op, cells, f, throws);
    var s4 := BodyStep(op, s3.cells, s3.frame, throws);
    var s5 := BodyStep(op, s4.cells, s4.frame, throws);
    var s6 := BodyStep(op, s5.cells, s5.frame, throws);
    assert Rest(op, s6.cells, s6.frame, throws) == Result(s6.cells, Done, []);
    assert Rest(op, s5.cells, s5.frame, throws) == Result(s6.cells, Done, []);
    assert Rest(op, s4.cells, s4.frame, throws) == Result(s6.cells, Done, []);
    assert Rest(op, s3.cells, s3.frame, throws) == Result(s6.cells, Done, []);
    var want := if op.i == op.j then SetInitialized(cells, op.i, false)
                else cells[op.i := cells[op.j]][op.j := Emptied(cells[op.j])];
    forall x | 0 <= x < |cells|
      ensures s6.cells[x] == want[x]
    {
    }
    assert s6.cells == want;
  }

  lemma StepsOfMoveAssign<R, D>(op: Op<R, D>, cells: seq<Cell<R, D>>, throws: bool)
    requires op.MoveAssign? && InRange(op, |cells|)
    ensures Rest(op, cells, Entered(), throws) == Call(op, cells, throws)
  {
    var c := cells[op.i];
    var s0 := BodyStep(op, cells, Entered(), throws);
    if c.initialized {
      var s1 := BodyStep(op, s0.cells, s0.frame, throws);
      var s2 := BodyStep(op, s1.cells, s1.frame, throws);
      assert s1.cells == cells[op.i := Emptied(c)];
      assert s2.events == Deletion(c);
      if throws {
        assert Rest(op, s2.cells, s2.frame, throws) == Result(s1.cells, DeleterThrew, []);
      } else {
        RestOfMove(op, s2.cells, s2.frame, throws);
      }
      assert Rest(op, s1.cells, s1.frame, throws).events == s2.events;
      assert Rest(op, s0.cells, s0.frame, throws).events == s2.events;
    } else {
      assert cells[op.i := Emptied(c)] == cells;
      RestOfMove(op, s0.cells, s0.frame, throws);
    }
    assert Rest(op, cells, Entered(), throws).cells == Call(op, cells, throws).cells;
  }

  lemma StepsOfSwap<R, D>(op: Op<R, D>, cells: seq<Cell<R, D>>, throws: bool)
    requires op.Swap? && InRange(op, |cells|)
    ensures Rest(op, cells, Entered(), throws) == Call(op, cells, throws)
  {
  }

  lemma StepsOfReset<R, D>(op: Op<R, D>, cells: seq<Cell<R, D>>, throws: bool)
    requires op.Reset? && InRange(op, |cells|)
    ensures Rest(op, cells, Entered(), throws) == Call(op, cells, throws)
  {
    var s0 := BodyStep(op, cells, Entered(), throws);
    var s1 := BodyStep(op, s0.cells, s0.frame, throws);
    var s2 := BodyStep(op, s1.cells, s1.frame, throws);
    var s3 := BodyStep(op, s2.cells, s2.frame, throws);
    assert Rest(op, s3.cells, s3.frame, throws) == Result(s3.cells, s3.frame.outcome.value, []);
    assert s3.events + [] == s3.events == Call(op, cells, throws).events;
    assert Rest(op, s2.cells, s2.frame, throws).events == s3.events;
    assert Rest(op, s1.cells, s1.frame, throws).events == s3.events;
    assert s3.cells == Call(op, cells, throws).cells;
  }

  lemma StepsOfOneCell<R, D>(op: Op<R, D>, cells: seq<Cell<R, D>>, throws: bool)
    requires op.Release? || op.Dealloc? || op.Get?
    requires InRange(op, |cells|)
    ensures Rest(op, cells, Entered(), throws) == Call(op, cells, throws)
  {
    var s0 := BodyStep(op, cells, Entered(), throws);
    if cells[op.i].initialized {
      var s1 := BodyStep(op, s0.cells, s0.frame, throws);
      if op.Get? {
        assert Rest(op, s1.cells, s1.frame, throws) == Result(s1.cells, s1.frame.outcome.value, []);
      } else {
        var s2 := BodyStep(op, s1.cells, s1.frame, throws);
        assert Rest(op, s2.cells, s2.frame, throws) == Result(s2.cells, s2.frame.outcome.value, []);
        assert s2.events + [] == s2.events == Call(op, cells, throws).events;
        assert Rest(op, s1.cells, s1.frame, throws).events == s2.events;
      }
    } else {
      assert Rest(op, s0.cells, s0.frame, throws) == Result(s0.cells, s0.frame.outcome.value, []);
      assert cells[op.i := Emptied(cells[op.i])] == cells;
    }
  }

  lemma StepsOfCompare<R, D>(op: Op<R, D>, cells: seq<Cell<R, D>>, throws: bool)
    requires op.Compare? && InRange(op, |cells|)
    ensures Rest(op, cells, Entered(), throws) == Call(op, cells, throws)
  {
    var s0 := BodyStep(op, cells, Entered(), throws);
    if op.i == op.j {
      assert Rest(op, s0.cells, s0.frame, throws).events == [];
    } else {
      var s1 := BodyStep(op, s0.cells, s0.frame, throws);
      var s2 := BodyStep(op, s1.cells, s1.frame, throws);
      var s3 := BodyStep(op, s2.cells, s2.frame, throws);
      assert Rest(op, s3.cells, s3.frame, throws) == Result(cells, s3.frame.outcome.value, []);
      assert Rest(op, s2.cells, s2.frame, throws) == Result(cells, s3.frame.outcome.value, []);
      assert Rest(op, s1.cells, s1.frame, throws) == Result(cells, s3.frame.outcome.value, []);
    }
  }

  lemma StepsAreTheCall<R, D>(op: Op<R, D>, cells: seq<Cell<R, D>>, throws: bool)
    requires InRange(op, |cells|)
    ensures Rest(op, cells, Entered(), throws) == Call(op, cells, throws)
  {
    match op
    case MoveAssign(_, _) => StepsOfMoveAssign(op, cells, throws);
    case Swap(_, _) => StepsOfSwap(op, cells, throws);
    case Reset(_, _) => StepsOfReset(op, cells, throws);
    case Release(_) => StepsOfOneCell(op, cells, throws);
    case Dealloc(_) => StepsOfOneCell(op, cells, throws);
    case Get(_) => StepsOfOneCell(op, cells, throws);
    case HasResource(_) =>
      var s0 := BodyStep(op, cells, Entered(), throws);
      assert Rest(op, s0.cells, s0.frame, throws).events == [];
    case Compare(_, _, _, _) => StepsOfCompare(op, cells, throws);
  }
}
