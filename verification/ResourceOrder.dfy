/** The order of ResourcePtr instances: empty ones are equal and below all others. */
module ResourceOrder {
  import opened Options
  import opened Resources

  /** What an instance is compared by. */
  function Key<R, D>(c: Cell<R, D>): Option<R> {
    if c.initialized then Some(c.resource) else None
  }

  ghost predicate Irreflexive<R>(lt: (R, R) -> bool, x: R) {
    !lt(x, x)
  }

  ghost predicate StrictTotalOrder<T(!new)>(lt: (T, T) -> bool) {
    && (forall x, y :: lt(x, y) || lt(y, x) || x == y)
    && (forall x, y :: lt(x, y) ==> !lt(y, x) && x != y)
    && (forall x, y, z :: lt(x, y) && lt(y, z) ==> lt(x, z))
  }

  /** "Empty below everything", on top of an order on resources. */
  ghost predicate Below<R>(lt: (R, R) -> bool, x: Option<R>, y: Option<R>) {
    y.Some? && (x.None? || lt(x.value, y.value))
  }

  /** What operator<= computes on two different objects; it does not look at `initialized`. */
  ghost predicate StaleLessOrEqual<R, D>(lt: (R, R) -> bool, a: Cell<R, D>, b: Cell<R, D>) {
    lt(a.resource, b.resource) || a.resource == b.resource
  }

  ghost predicate BelowOrEqual<R>(lt: (R, R) -> bool, x: Option<R>, y: Option<R>) {
    Below(lt, x, y) || x == y
  }

  /** Lifting to instances keeps a total order total; so ==, !=, < and >= form one order. */
  lemma LiftedOrderIsTotal<R(!new)>(lt: (R, R) -> bool)
    requires StrictTotalOrder(lt)
    ensures StrictTotalOrder((x: Option<R>, y: Option<R>) => Below(lt, x, y))
    ensures forall x: Option<R>, y: Option<R> :: !Below(lt, x, y) <==> BelowOrEqual(lt, y, x)
    ensures forall y: Option<R> :: BelowOrEqual(lt, None, y) && (Below(lt, None, y) <==> y.Some?)
  {
  }

  ghost predicate LessOrEqualIsRight<R, D>(lt: (R, R) -> bool, a: Cell<R, D>, b: Cell<R, D>) {
    StaleLessOrEqual(lt, a, b) <==> BelowOrEqual(lt, Key(a), Key(b))
  }

  /**
   operator<= (and its negation, operator>) agrees with that order for all contents of the fields exactly when
   both instances hold a resource. Its documentation promises the order for empty instances as well.
   */
  lemma LessOrEqualNeedsBoth<R(!new), D>(lt: (R, R) -> bool, d: D, leftHolds: bool, rightHolds: bool, lo: R, hi: R)
    requires StrictTotalOrder(lt) && lt(lo, hi)
    ensures (forall r, s :: LessOrEqualIsRight(lt, Cell(r, d, leftHolds), Cell(s, d, rightHolds)))
            <==> leftHolds && rightHolds
  {
    if !leftHolds {
      assert !LessOrEqualIsRight(lt, Cell(hi, d, leftHolds), Cell(lo, d, rightHolds));
    } else if !rightHolds {
      assert !LessOrEqualIsRight(lt, Cell(lo, d, leftHolds), Cell(hi, d, rightHolds));
    }
  }
}
