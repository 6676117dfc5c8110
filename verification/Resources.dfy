/**
 What the members of ResourcePtr (include/lomiri/util/ResourcePtr.h) do to the instances they work on, as
 functions. The class in ResourcePtr.dfy is proved against these; runs and threads are built from them.
 */
module Resources {
  /** The three data members. `resource` means something only while `initialized` is set. */
  datatype Cell<R, D> = Cell(resource: R, deleter: D, initialized: bool)

  /** What happens to resources. Each event names the deleter that belongs to the resource. */
  datatype Event<R, D> =
    | Acquired(resource: R, deleter: D)
    | Deleted(resource: R, deleter: D)
    | Released(resource: R, deleter: D)

  /** How a call ends: normally, with a value, or by an exception. */
  datatype Outcome<R> = Done | Value(value: R) | Flag(flag: bool) | LogicError | DeleterThrew

  /**
   A member call; `i` and `j` are positions in a sequence of instances. `Compare` stands for any of the
   comparison operators: `same` is what its same-object shortcut returns, `rel` what it computes otherwise, from
   the `initialized` and `resource` fields of both sides.
   */
  datatype Op<!R, !D> =
    | MoveAssign(i: nat, j: nat)
    | Swap(i: nat, j: nat)
    | Reset(i: nat, r: R)
    | Release(i: nat)
    | Dealloc(i: nat)
    | Get(i: nat)
    | HasResource(i: nat)
    | Compare(i: nat, j: nat, rel: (bool, bool, R, R) -> bool, same: bool)

  datatype Result<R, D> = Result(cells: seq<Cell<R, D>>, outcome: Outcome<R>, events: seq<Event<R, D>>)

  function Second<R, D>(op: Op<R, D>): nat {
    if op.MoveAssign? || op.Swap? || op.Compare? then op.j else op.i
  }

  predicate InRange<R, D>(op: Op<R, D>, n: nat) {
    op.i < n && Second(op) < n
  }

  function Emptied<R, D>(c: Cell<R, D>): Cell<R, D> {
    c.(initialized := false)
  }

  /** The deleter call made for the resource held in `c`, if any. */
  function Deletion<R, D>(c: Cell<R, D>): seq<Event<R, D>> {
    if c.initialized then [Deleted(c.resource, c.deleter)] else []
  }

  function DeletionOutcome<R, D>(c: Cell<R, D>, throws: bool): Outcome<R> {
    if c.initialized && throws then DeleterThrew else Done
  }

  /** The effect of a whole call; `throws` says whether a deleter throws if one is called. */
  function Call<R, D>(op: Op<R, D>, cells: seq<Cell<R, D>>, throws: bool): (res: Result<R, D>)
    requires InRange(op, |cells|)
    ensures |res.cells| == |cells|
  {
    var c := cells[op.i];
    match op
    case MoveAssign(i, j) =>
      var emptied := cells[i := Emptied(c)];
      if DeletionOutcome(c, throws) == DeleterThrew then Result(emptied, DeleterThrew, Deletion(c))
      else Result(emptied[i := emptied[j]][j := Emptied(emptied[j])], Done, Deletion(c))
    case Swap(i, j) => Result(cells[i := cells[j]][j := c], Done, [])
    case Reset(i, r) =>
      Result(cells[i := Cell(r, c.deleter, true)], DeletionOutcome(c, throws), [Acquired(r, c.deleter)] + Deletion(c))
    case Release(i) =>
      if !c.initialized then Result(cells, LogicError, [])
      else Result(cells[i := Emptied(c)], Value(c.resource), [Released(c.resource, c.deleter)])
    case Dealloc(i) => Result(cells[i := Emptied(c)], DeletionOutcome(c, throws), Deletion(c))
    case Get(i) => Result(cells, if c.initialized then Value(c.resource) else LogicError, [])
    case HasResource(i) => Result(cells, Flag(c.initialized), [])
    case Compare(i, j, rel, same) =>
      var d := cells[j];
      Result(cells, Flag(if i == j then same else rel(c.initialized, d.initialized, c.resource, d.resource)), [])
  }

  // ----- the calls, said of the fields -----

  ghost predicate OthersKept<R, D>(i: nat, j: nat, before: seq<Cell<R, D>>, after: seq<Cell<R, D>>) {
    |after| == |before| && forall x :: 0 <= x < |before| && x != i && x != j ==> after[x] == before[x]
  }

  /** The old resource is deleted by its own deleter; if that does not throw, j's comes over and j is empty. */
  lemma MoveAssignOnFields<R, D>(i: nat, j: nat, cells: seq<Cell<R, D>>, throws: bool)
    requires i < |cells| && j < |cells|
    ensures var (a, b, res) := (cells[i], cells[j], Call(MoveAssign(i, j), cells, throws));
            && OthersKept(i, j, cells, res.cells)
            && res.events == (if a.initialized then [Deleted(a.resource, a.deleter)] else [])
            && res.outcome == (if a.initialized && throws then DeleterThrew else Done)
            && (i == j || (a.initialized && throws) ==>
                  res.cells[i] == Cell(a.resource, a.deleter, false) && (i != j ==> res.cells[j] == b))
            && (i != j && !(a.initialized && throws) ==>
                  res.cells[i] == b && res.cells[j] == Cell(b.resource, b.deleter, false))
  {
  }

  lemma SwapOnFields<R, D>(i: nat, j: nat, cells: seq<Cell<R, D>>, throws: bool)
    requires i < |cells| && j < |cells|
    ensures var res := Call(Swap(i, j), cells, throws);
            && OthersKept(i, j, cells, res.cells)
            && res.cells[i] == cells[j] && res.cells[j] == cells[i] && res.events == [] && res.outcome == Done
  {
  }

  /** The new resource is held in any case; the old one is deleted once, by the deleter both share. */
  lemma ResetOnFields<R, D>(i: nat, r: R, cells: seq<Cell<R, D>>, throws: bool)
    requires i < |cells|
    ensures var (a, res) := (cells[i], Call(Reset(i, r), cells, throws));
            var after := res.cells[i];
            && OthersKept(i, i, cells, res.cells)
            && after.initialized && after.resource == r && after.deleter == a.deleter
            && res.events == [Acquired(r, a.deleter)] + (if a.initialized then [Deleted(a.resource, a.deleter)] else [])
            && res.outcome == (if a.initialized && throws then DeleterThrew else Done)
  {
  }

  /** The resource is given out and not deleted; without one there is a logic_error and no effect. */
  lemma ReleaseOnFields<R, D>(i: nat, cells: seq<Cell<R, D>>, throws: bool)
    requires i < |cells|
    ensures var (a, res) := (cells[i], Call(Release(i), cells, throws));
            var after := res.cells[i];
            && OthersKept(i, i, cells, res.cells)
            && !after.initialized && after.resource == a.resource && after.deleter == a.deleter
            && res.events == (if a.initialized then [Released(a.resource, a.deleter)] else [])
            && res.outcome == (if a.initialized then Value(a.resource) else LogicError)
  {
  }

  /** Empty afterwards; the resource, if any, is deleted once, and that is what may throw. */
  lemma DeallocOnFields<R, D>(i: nat, cells: seq<Cell<R, D>>, throws: bool)
    requires i < |cells|
    ensures var (a, res) := (cells[i], Call(Dealloc(i), cells, throws));
            var after := res.cells[i];
            && OthersKept(i, i, cells, res.cells)
            && !after.initialized && after.resource == a.resource && after.deleter == a.deleter
            && res.events == (if a.initialized then [Deleted(a.resource, a.deleter)] else [])
            && res.outcome == (if a.initialized && throws then DeleterThrew else Done)
  {
  }

  /** The members that only look leave everything as it is. */
  lemma LookingOnFields<R, D>(op: Op<R, D>, cells: seq<Cell<R, D>>, throws: bool)
    requires InRange(op, |cells|) && (op.Get? || op.HasResource? || op.Compare?)
    ensures var (a, b, res) := (cells[op.i], cells[Second(op)], Call(op, cells, throws));
            && res.cells == cells && res.events == []
            && (op.Get? ==> res.outcome == if a.initialized then Value(a.resource) else LogicError)
            && (op.HasResource? ==> res.outcome == Flag(a.initialized))
            && (op.Compare? && op.i == op.j ==> res.outcome == Flag(op.same))
            && (op.Compare? && op.i != op.j ==>
                  res.outcome == Flag(op.rel(a.initialized, b.initialized, a.resource, b.resource)))
  {
  }

  /**
   The documentation promises that after a move the source holds nothing and the target holds a resource iff the
   source did. That fails exactly if both held one and either they are the same object (which then loses its
   resource) or the deleter of the old resource throws (the source then keeps its own).
   */
  lemma MovePromiseHoldsExactly<R, D>(i: nat, j: nat, cells: seq<Cell<R, D>>, throws: bool)
    requires i < |cells| && j < |cells|
    ensures var after := Call(MoveAssign(i, j), cells, throws).cells;
            !after[j].initialized && after[i].initialized == cells[j].initialized
            <==> !(cells[i].initialized && cells[j].initialized && (i == j || throws))
    ensures var after := Call(MoveAssign(i, j), cells, throws).cells;
            after[i].initialized ==> after[i] == cells[j]
  {
  }
}
