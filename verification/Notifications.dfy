/**
 The notification list with a confirmation slot (MockModel.cpp), the one implementation in the repository of
 the contract in include/lomiri/shell/notifications/ModelInterface.h:51-56.

 A run is described on values: notifications are named by numbers, `types` holds the "type" entry of each
 notification's data. The class MockModel at the end is proved to take exactly these steps.
 */
module Notifications {
  import opened Options

  /** TypeEnum of include/lomiri/shell/notifications/Enums.h. */
  datatype Type = Invalid | Confirmation | Ephemeral | Interactive | SnapDecision | Placeholder

  /** What a view is told: rows inserted (with the notification it then reads there), removed, or changed. */
  datatype Signal<N> = Inserted(row: nat, n: N) | Removed(row: nat) | Changed(row: nat)

  function InsertAt<N>(s: seq<N>, row: nat, x: N): (r: seq<N>)
    requires row <= |s|
    ensures |r| == |s| + 1
  {
    s[..row] + [x] + s[row..]
  }

  /** QList::insert, which appends if the row is beyond the end. */
  function ListInsert<N>(s: seq<N>, row: nat, x: N): (r: seq<N>)
    ensures |r| == |s| + 1
  {
    InsertAt(s, if row <= |s| then row else |s|, x)
  }

  function RemoveAt<N>(s: seq<N>, row: nat): (r: seq<N>)
    requires row < |s|
    ensures |r| == |s| - 1
  {
    s[..row] + s[row + 1..]
  }

  /** QList::indexOf */
  function IndexOf<N(==)>(s: seq<N>, x: N): (r: int)
    ensures -1 <= r < |s|
    ensures r == -1 <==> x !in s
    ensures r >= 0 ==> s[r] == x && x !in s[..r]
  {
    if s == [] then -1
    else if s[0] == x then 0
    else
      var r := IndexOf(s[1..], x);
      assert r >= 0 ==> s[..r + 1] == [s[0]] + s[1..][..r];
      if r == -1 then -1 else r + 1
  }

  /** `types` has an entry for a notification whose data contains a "type". */
  datatype Model<!N> = Model(list: seq<N>, types: map<N, Type>, placeholder: bool)

  datatype Event<N> =
    | Enable(slot: N)          // setConfirmationPlaceholder(true); `slot` is the notification it creates
    | Disable                  // setConfirmationPlaceholder(false)
    | Add(n: N)
    | Dismiss(n: N)            // n emits dismissed()

  predicate HasType<N>(m: Model<N>, n: N, t: Type) {
    n in m.types && m.types[n] == t
  }

  datatype Step<!N> = Step(model: Model<N>, signals: seq<Signal<N>>)

  /** A confirmation goes to the first row, which has to be there (m_list.at(0)). */
  predicate CanDo<N>(m: Model<N>, e: Event<N>) {
    e.Add? && m.placeholder && HasType(m, e.n, Confirmation) ==> m.list != []
  }

  /** One event: the model afterwards and the signals emitted meanwhile. */
  function Do<N>(m: Model<N>, e: Event<N>): Step<N>
    requires CanDo(m, e)
  {
    match e
    case Enable(slot) =>
      if m.placeholder then Step(m, [])
      else Step(Model(InsertAt(m.list, 0, slot), m.types[slot := Placeholder], true), [Inserted(0, slot)])
    case Disable =>
      if !m.placeholder then Step(m, [])
      else if m.list != [] && HasType(m, m.list[0], Placeholder)
      then Step(Model(RemoveAt(m.list, 0), m.types, false), [Removed(0)])
      else Step(m.(placeholder := false), [])
    case Add(n) =>
      if m.placeholder && HasType(m, n, Confirmation)
      then Step(m.(types := m.types[m.list[0] := Confirmation]), [Changed(0)])
      else if m.placeholder then Step(m.(list := ListInsert(m.list, 1, n)), [Inserted(1, n)])
      else Step(m.(list := InsertAt(m.list, 0, n)), [Inserted(0, n)])
    case Dismiss(n) =>
      var row := IndexOf(m.list, n);
      if row < 0 then Step(m, [])
      else if m.placeholder && HasType(m, n, Confirmation)
      then Step(m.(types := m.types[n := Placeholder]), [Changed(0)])
      else Step(m.(list := RemoveAt(m.list, row)), [Removed(row)])
  }

  // ----- what the events do, said of the list -----

  /** Enabling puts the slot in front, as an empty place, unless there is one already. */
  lemma EnableOnList<N>(m: Model<N>, slot: N)
    ensures var after := Do(m, Enable(slot)).model;
            && after.placeholder
            && (m.placeholder ==> after == m)
            && (!m.placeholder ==> after.list == [slot] + m.list && HasType(after, slot, Placeholder))
            && forall n :: n != slot ==> SameType(m, after, n)
  {
  }

  ghost predicate SameType<N>(m: Model<N>, after: Model<N>, n: N) {
    forall t :: HasType(after, n, t) <==> HasType(m, n, t)
  }

  /** Disabling takes away an empty slot in front, and nothing else. */
  lemma DisableOnList<N>(m: Model<N>)
    ensures var after := Do(m, Disable).model;
            && !after.placeholder && after.types == m.types
            && (if m.placeholder && m.list != [] && HasType(m, m.list[0], Placeholder)
                then [m.list[0]] + after.list == m.list else after.list == m.list)
  {
  }

  /**
   An addition goes in front, or directly behind the slot in front, and the rest keeps its order. A confirmation
   takes over the slot instead.
   */
  lemma AddOnList<N>(m: Model<N>, n: N)
    requires CanDo(m, Add(n))
    ensures var after := Do(m, Add(n)).model;
            && after.placeholder == m.placeholder
            && (!m.placeholder ==> after.list == [n] + m.list && after.types == m.types)
            && (m.placeholder && !HasType(m, n, Confirmation) ==>
                  && after.list == (if m.list == [] then [n] else [m.list[0], n] + m.list[1..])
                  && after.types == m.types)
            && (m.placeholder && HasType(m, n, Confirmation) ==>
                  && m.list != [] && after.list == m.list && HasType(after, m.list[0], Confirmation)
                  && forall x :: x != m.list[0] ==> SameType(m, after, x))
  {
  }

  /** Dismissing takes that notification out where it stands first; a confirmation becomes an empty slot again. */
  lemma DismissOnList<N>(m: Model<N>, n: N)
    ensures var after := Do(m, Dismiss(n)).model;
            && after.placeholder == m.placeholder
            && (n !in m.list ==> after == m)
            && (n in m.list && !(m.placeholder && HasType(m, n, Confirmation)) ==>
                  && after.types == m.types && |after.list| == |m.list| - 1
                  && exists at :: 0 <= at < |m.list| && IsWithout(after.list, m.list, at, n))
            && (n in m.list && m.placeholder && HasType(m, n, Confirmation) ==>
                  && after.list == m.list && HasType(after, n, Placeholder)
                  && forall x :: x != n ==> SameType(m, after, x))
  {
    var row := IndexOf(m.list, n);
    if row >= 0 && !(m.placeholder && HasType(m, n, Confirmation)) {
      var after := Do(m, Dismiss(n)).model.list;
      assert after == m.list[..row] + m.list[row + 1..];
      assert IsWithout(after, m.list, row, n);
    }
  }

  /** `s` without its first `n`, which stands at `at`. */
  ghost predicate IsWithout<N>(after: seq<N>, s: seq<N>, at: nat, n: N)
    requires at < |s|
  {
    && n !in s[..at] && s[at] == n
    && at <= |after| && after[..at] == s[..at] && after[at..] == s[at + 1..]
  }

  // ----- the invariant -----

  ghost predicate Distinct<N>(s: seq<N>) {
    forall i, j :: 0 <= i < j < |s| ==> s[i] != s[j]
  }

  /** While the placeholder is on, row 0 is `slot` and holds a place or a confirmation. */
  ghost predicate SlotOnTop<N>(m: Model<N>, slot: Option<N>) {
    m.placeholder ==>
      && slot.Some? && m.list != [] && m.list[0] == slot.value
      && (HasType(m, slot.value, Placeholder) || HasType(m, slot.value, Confirmation))
  }

  ghost predicate Good<N>(m: Model<N>, slot: Option<N>) {
    Distinct(m.list) && SlotOnTop(m, slot)
  }

  /** The slot inserted at the last enabling. */
  function SlotAfter<N>(m: Model<N>, slot: Option<N>, e: Event<N>): Option<N> {
    if e.Enable? && !m.placeholder then Some(e.slot) else slot
  }

  /** The notification an event lists anew, if it does. */
  function Listed<N>(m: Model<N>, e: Event<N>): Option<N> {
    match e
    case Enable(slot) => if m.placeholder then None else Some(slot)
    case Add(n) => if m.placeholder && HasType(m, n, Confirmation) then None else Some(n)
    case Disable => None
    case Dismiss(_) => None
  }

  /** What a client has to avoid: listing a notification that is listed, and dismissing an empty slot. */
  ghost predicate Admissible<N>(m: Model<N>, e: Event<N>) {
    && (Listed(m, e).Some? ==> Listed(m, e).value !in m.list)
    && !(e.Dismiss? && m.placeholder && m.list != [] && e.n == m.list[0] && HasType(m, e.n, Placeholder))
  }

  lemma InsertKeepsDistinct<N>(s: seq<N>, row: nat, x: N)
    requires Distinct(s) && row <= |s|
    ensures Distinct(InsertAt(s, row, x)) <==> x !in s
  {
    var r := InsertAt(s, row, x);
    assert forall i :: 0 <= i < row ==> r[i] == s[i];
    assert forall i :: row < i < |r| ==> r[i] == s[i - 1];
    assert r[row] == x;
    if x in s {
      var k :| 0 <= k < |s| && s[k] == x;
      assert r[if k < row then k else k + 1] == x;
    }
  }

  lemma EnableKeepsGood<N>(m: Model<N>, slot: Option<N>, s: N)
    requires Good(m, slot)
    ensures Good(Do(m, Enable(s)).model, SlotAfter(m, slot, Enable(s))) <==> Admissible(m, Enable(s))
  {
    if !m.placeholder {
      InsertKeepsDistinct(m.list, 0, s);
    }
  }

  lemma DisableKeepsGood<N>(m: Model<N>, slot: Option<N>)
    requires Good(m, slot)
    ensures Good(Do(m, Disable).model, slot)
  {
  }

  lemma AddKeepsGood<N>(m: Model<N>, slot: Option<N>, n: N)
    requires Good(m, slot)
    ensures Good(Do(m, Add(n)).model, slot) <==> Admissible(m, Add(n))
  {
    if !(m.placeholder && HasType(m, n, Confirmation)) {
      InsertKeepsDistinct(m.list, if m.placeholder then 1 else 0, n);
    }
  }

  lemma DismissKeepsGood<N>(m: Model<N>, slot: Option<N>, n: N)
    requires Good(m, slot)
    ensures Good(Do(m, Dismiss(n)).model, slot) <==> Admissible(m, Dismiss(n))
  {
  }

  /** The invariant survives an event exactly if the event is admissible. */
  lemma StepKeepsGood<N>(m: Model<N>, slot: Option<N>, e: Event<N>)
    requires Good(m, slot)
    ensures Good(Do(m, e).model, SlotAfter(m, slot, e)) <==> Admissible(m, e)
  {
    match e
    case Enable(s) => EnableKeepsGood(m, slot, s);
    case Disable => DisableKeepsGood(m, slot);
    case Add(n) => AddKeepsGood(m, slot, n);
    case Dismiss(n) => DismissKeepsGood(m, slot, n);
  }

  // ----- runs, and what a view makes of their signals -----

  /** What a view that only keeps the notifications makes of one row signal. */
  function Replay<N>(view: seq<N>, signal: Signal<N>): Option<seq<N>> {
    match signal
    case Inserted(row, n) => if row <= |view| then Some(InsertAt(view, row, n)) else None
    case Removed(row) => if row < |view| then Some(RemoveAt(view, row)) else None
    case Changed(row) => if row < |view| then Some(view) else None
  }

  /** And of a series of them; None if a row is not there. */
  function Mirror<N>(view: seq<N>, signals: seq<Signal<N>>): Option<seq<N>>
    decreases |signals|
  {
    if signals == [] then Some(view)
    else
      match Replay(view, signals[0])
      case None => None
      case Some(next) => Mirror(next, signals[1..])
  }

  lemma {:induction false} MirrorConcat<N>(view: seq<N>, a: seq<Signal<N>>, b: seq<Signal<N>>)
    ensures Mirror(view, a + b)
         == if Mirror(view, a).None? then None else Mirror(Mirror(view, a).value, b)
    decreases |a|
  {
    if a == [] {
      assert a + b == b;
    } else {
      assert (a + b)[1..] == a[1..] + b;
      if Replay(view, a[0]).Some? {
        MirrorConcat(Replay(view, a[0]).value, a[1..], b);
      }
    }
  }

  datatype Run<!N> = Run(model: Model<N>, slot: Option<N>, signals: seq<Signal<N>>)

  /**
   Any run from the empty list, or None if a confirmation comes when there is no first row for it. `types` is the
   type that the data of each notification, listed sooner or later, has to begin with.
   */
  ghost function Play<N(!new)>(types: map<N, Type>, events: seq<Event<N>>): Option<Run<N>> {
    if events == [] then Some(Run(Model([], types, false), None, []))
    else
      var n := |events| - 1;
      match Play(types, events[..n])
      case None => None
      case Some(before) =>
        if !CanDo(before.model, events[n]) then None
        else
          var step := Do(before.model, events[n]);
          Some(Run(step.model, SlotAfter(before.model, before.slot, events[n]), before.signals + step.signals))
  }

  lemma PlaySnoc<N(!new)>(types: map<N, Type>, events: seq<Event<N>>, e: Event<N>)
    requires Play(types, events).Some? && CanDo(Play(types, events).value.model, e)
    ensures var before := Play(types, events).value;
            var step := Do(before.model, e);
            Play(types, events + [e])
              == Some(Run(step.model, SlotAfter(before.model, before.slot, e), before.signals + step.signals))
  {
    assert (events + [e])[..|events|] == events;
  }

  ghost predicate AllAdmissible<N(!new)>(types: map<N, Type>, events: seq<Event<N>>) {
    events == [] ||
    var n := |events| - 1;
    && AllAdmissible(types, events[..n])
    && Play(types, events[..n]).Some? && Admissible(Play(types, events[..n]).value.model, events[n])
  }

  /** A notification is added below the slot, but the slot has been dismissed and there is nothing else. */
  ghost predicate AddsBelowNothing<N>(m: Model<N>, e: Event<N>) {
    e.Add? && m.placeholder && m.list == []
  }

  ghost predicate NeverAddsBelowNothing<N(!new)>(types: map<N, Type>, events: seq<Event<N>>) {
    events == [] ||
    var n := |events| - 1;
    && NeverAddsBelowNothing(types, events[..n])
    && Play(types, events[..n]).Some? && !AddsBelowNothing(Play(types, events[..n]).value.model, events[n])
  }

  /** The row signals of an event can be replayed, unless it adds a notification below nothing. */
  lemma StepIsMirrored<N>(m: Model<N>, e: Event<N>)
    requires CanDo(m, e)
    ensures Mirror(m.list, Do(m, e).signals)
         == if AddsBelowNothing(m, e) then None else Some(Do(m, e).model.list)
  {
    if Do(m, e).signals != [] {
      var signal := Do(m, e).signals[0];
      assert Do(m, e).signals == [signal];
      MirrorOne(m.list, signal);
    }
  }

  lemma MirrorOne<N>(view: seq<N>, signal: Signal<N>)
    ensures Mirror(view, [signal]) == Replay(view, signal)
  {
  }

  /** In every run at all, a view that replays the row signals has the model's list exactly if that never happens. */
  lemma {:induction false} MirroredExactly<N(!new)>(types: map<N, Type>, events: seq<Event<N>>)
    requires Play(types, events).Some?
    ensures Mirror([], Play(types, events).value.signals)
         == if NeverAddsBelowNothing(types, events) then Some(Play(types, events).value.model.list) else None
  {
    if events == [] {
    } else {
      var n := |events| - 1;
      var before := Play(types, events[..n]).value;
      MirroredExactly(types, events[..n]);
      StepIsMirrored(before.model, events[n]);
      MirrorConcat([], before.signals, Do(before.model, events[n]).signals);
    }
  }

  /** It does happen: dismiss the slot while it is empty, then add a notification. */
  lemma LosingTheMirror<N(!new)>(types: map<N, Type>, s: N, n: N)
    requires n != s && !(n in types && types[n] == Confirmation)
    ensures var r := Play(types, [Enable(s), Dismiss(s), Add(n)]);
            r.Some? && r.value.model.list == [n] && Mirror([], r.value.signals) == None
  {
    var (e1, e2, e3) := (Enable(s), Dismiss(s), Add(n));
    PlaySnoc(types, [], e1);
    assert [] + [e1] == [e1] && [e1] + [e2] == [e1, e2] && [e1, e2] + [e3] == [e1, e2, e3];
    assert Play(types, [e1]).value.model.list == [s];
    PlaySnoc(types, [e1], e2);
    assert Play(types, [e1, e2]).value.model.list == [];
    PlaySnoc(types, [e1, e2], e3);
    var before := Play(types, [e1, e2]).value;
    assert AddsBelowNothing(before.model, e3);
    assert [e1, e2, e3][..2] == [e1, e2];
    MirroredExactly(types, [e1, e2, e3]);
  }

  /**
   In every run of admissible events: while the placeholder is on, row 0 is the slot inserted at the last
   enabling, of type Placeholder or Confirmation; nothing is listed twice; no event is impossible; and a view that
   replays the emitted row signals has the model's list.
   */
  lemma {:induction false} EveryRunIsFaithful<N(!new)>(types: map<N, Type>, events: seq<Event<N>>)
    requires AllAdmissible(types, events)
    ensures Play(types, events).Some?
    ensures var r := Play(types, events).value;
            Good(r.model, r.slot) && Mirror([], r.signals) == Some(r.model.list)
  {
    if events == [] {
    } else {
      var n := |events| - 1;
      var before := Play(types, events[..n]).value;
      EveryRunIsFaithful(types, events[..n]);
      StepKeepsGood(before.model, before.slot, events[n]);
      StepIsMirrored(before.model, events[n]);
      MirrorConcat([], before.signals, Do(before.model, events[n]).signals);
    }
  }

  // ----- the newest stands first -----

  /** The number of the event that listed `n`, if it is in the list because it was added, and -1 otherwise. */
  ghost function AddedBy<N(!new)>(types: map<N, Type>, events: seq<Event<N>>, n: N): int
    requires Play(types, events).Some?
    ensures AddedBy(types, events, n) < |events|
  {
    if events == [] then -1
    else
      var k := |events| - 1;
      var (before, after) := (Play(types, events[..k]).value.model.list, Play(types, events).value.model.list);
      if n in before || n !in after then AddedBy(types, events[..k], n)
      else if events[k] == Add(n) then k
      else -1
  }

  ghost predicate Descending<N(!new)>(s: seq<N>, rank: N -> int) {
    forall i, j :: 0 <= i < j < |s| && rank(s[i]) >= 0 ==> rank(s[j]) < rank(s[i])
  }

  /** A slot has not been added. */
  ghost predicate InOrder<N(!new)>(m: Model<N>, rank: N -> int) {
    Descending(m.list, rank) && (m.placeholder ==> m.list != [] && rank(m.list[0]) < 0)
  }

  lemma SameRanks<N(!new)>(s: seq<N>, rank: N -> int, rank': N -> int)
    requires Descending(s, rank) && forall x :: x in s ==> rank'(x) == rank(x)
    ensures Descending(s, rank')
  {
  }

  lemma DescendingWithout<N(!new)>(s: seq<N>, rank: N -> int, row: nat)
    requires Descending(s, rank) && row < |s|
    ensures Descending(RemoveAt(s, row), rank)
  {
    var r := RemoveAt(s, row);
    assert forall i :: 0 <= i < row ==> r[i] == s[i];
    assert forall i :: row <= i < |r| ==> r[i] == s[i + 1];
  }

  lemma DescendingWith<N(!new)>(s: seq<N>, rank: N -> int, row: nat, x: N)
    requires Descending(s, rank) && row <= |s|
    requires forall i :: 0 <= i < row ==> rank(s[i]) < 0
    requires rank(x) < 0 || forall y :: y in s ==> rank(y) < rank(x)
    ensures Descending(InsertAt(s, row, x), rank)
  {
    var r := InsertAt(s, row, x);
    assert forall i :: 0 <= i < row ==> r[i] == s[i];
    assert forall i :: row < i < |r| ==> r[i] == s[i - 1];
  }

  /** `rank'` continues `rank`: what event number `k` added ranks `k`, a slot it put in -1. */
  ghost predicate Continues<N(!new)>(m: Model<N>, e: Event<N>, k: int, rank: N -> int, rank': N -> int)
    requires CanDo(m, e)
  {
    var after := Do(m, e).model.list;
    && (forall x :: x in m.list ==> rank(x) < k)
    && (forall x :: x in m.list && x in after ==> rank'(x) == rank(x))
    && (forall x :: x !in m.list && x in after ==> rank'(x) == if e == Add(x) then k else -1)
  }

  lemma ListingKeepsOrder<N(!new)>(m: Model<N>, slot: Option<N>, e: Event<N>, k: int,
                                   rank: N -> int, rank': N -> int)
    requires Good(m, slot) && CanDo(m, e) && Admissible(m, e) && InOrder(m, rank)
    requires Continues(m, e, k, rank, rank') && Listed(m, e).Some?
    ensures InOrder(Do(m, e).model, rank')
  {
    var x := Listed(m, e).value;
    var row := if e.Add? && m.placeholder then 1 else 0;
    var after := Do(m, e).model.list;
    assert after == InsertAt(m.list, row, x);
    assert forall y :: y in m.list ==> y in after;
    assert after[row] == x;
    SameRanks(m.list, rank, rank');
    DescendingWith(m.list, rank', row, x);
  }

  lemma RemovingKeepsOrder<N(!new)>(m: Model<N>, slot: Option<N>, e: Event<N>, k: int,
                                    rank: N -> int, rank': N -> int)
    requires Good(m, slot) && CanDo(m, e) && Admissible(m, e) && InOrder(m, rank)
    requires Continues(m, e, k, rank, rank') && (e.Disable? || e.Dismiss?) && Do(m, e).model.list != m.list
    ensures InOrder(Do(m, e).model, rank')
  {
    var row := if e.Disable? then 0 else IndexOf(m.list, e.n);
    var after := Do(m, e).model.list;
    assert after == RemoveAt(m.list, row);
    assert forall y :: y in after ==> y in m.list;
    DescendingWithout(m.list, rank, row);
    SameRanks(after, rank, rank');
  }

  lemma StepKeepsOrder<N(!new)>(m: Model<N>, slot: Option<N>, e: Event<N>, k: int, rank: N -> int, rank': N -> int)
    requires Good(m, slot) && CanDo(m, e) && Admissible(m, e) && InOrder(m, rank)
    requires Continues(m, e, k, rank, rank')
    ensures InOrder(Do(m, e).model, rank')
  {
    if Listed(m, e).Some? {
      ListingKeepsOrder(m, slot, e, k, rank, rank');
    } else if Do(m, e).model.list != m.list {
      RemovingKeepsOrder(m, slot, e, k, rank, rank');
    } else {
      SameRanks(m.list, rank, rank');
    }
  }

  ghost function Additions<N(!new)>(types: map<N, Type>, events: seq<Event<N>>): N -> int
    requires Play(types, events).Some?
  {
    x => AddedBy(types, events, x)
  }

  lemma {:induction false} AdditionsInOrder<N(!new)>(types: map<N, Type>, events: seq<Event<N>>)
    requires AllAdmissible(types, events)
    ensures Play(types, events).Some? && InOrder(Play(types, events).value.model, Additions(types, events))
  {
    EveryRunIsFaithful(types, events);
    if events == [] {
    } else {
      var k := |events| - 1;
      var before := Play(types, events[..k]).value;
      EveryRunIsFaithful(types, events[..k]);
      AdditionsInOrder(types, events[..k]);
      StepKeepsOrder(before.model, before.slot, events[k], k,
                     Additions(types, events[..k]), Additions(types, events));
    }
  }

  /** In every run of admissible events: of any two in the list that were added, the one added later stands first. */
  lemma NewestFirst<N(!new)>(types: map<N, Type>, events: seq<Event<N>>, i: nat, j: nat)
    requires AllAdmissible(types, events)
    requires Play(types, events).Some? && i < j < |Play(types, events).value.model.list|
    ensures var list := Play(types, events).value.model.list;
            AddedBy(types, events, list[i]) >= 0 ==>
              AddedBy(types, events, list[j]) < AddedBy(types, events, list[i])
  {
    AdditionsInOrder(types, events);
  }

  // ----- data changes -----

  function TypeOf<N>(m: Model<N>, n: N): Option<Type> {
    if n in m.types then Some(m.types[n]) else None
  }

  /** The types a view shows: refreshed for a row when it is inserted or reported as changed. */
  ghost predicate RefreshesTypes<N>(m: Model<N>, e: Event<N>)
    requires CanDo(m, e)
  {
    var step := Do(m, e);
    forall n :: n in m.list && n in step.model.list && TypeOf(step.model, n) != TypeOf(m, n) ==>
      exists s :: s in step.signals && s.Changed? && s.row < |m.list| && m.list[s.row] == n
  }

  /**
   A listed notification whose type changes is reported, except that dismissing a Confirmation below row 0
   while the placeholder is on reports row 0 instead of its own.
   */
  lemma TypesAreReportedExactly<N>(m: Model<N>, slot: Option<N>, e: Event<N>)
    requires Good(m, slot) && Admissible(m, e)
    ensures RefreshesTypes(m, e)
            <==> !(e.Dismiss? && m.placeholder && IndexOf(m.list, e.n) > 0 && HasType(m, e.n, Confirmation))
  {
  }

  /** Admissible events lead there: a confirmation is listed first, then the slot is put above it. */
  lemma HidingATypeChange<N(!new)>(types: map<N, Type>, s: N, n: N)
    requires n != s && n in types && types[n] == Confirmation
    ensures var (events, last) := ([Add(n), Enable(s)], Dismiss(n));
            && AllAdmissible(types, events + [last])
            && var m := Play(types, events).value.model;
               && m.list == [s, n] && CanDo(m, last)
               && Do(m, last).signals == [Changed(0)] && HasType(Do(m, last).model, n, Placeholder)
               && !RefreshesTypes(m, last)
  {
    ConfirmationBelowSlot(types, s, n);
    var events := [Add(n), Enable(s)];
    var r := Play(types, events).value;
    AdmissibleSnoc(types, events, Dismiss(n));
    EveryRunIsFaithful(types, events);
    TypesAreReportedExactly(r.model, r.slot, Dismiss(n));
  }

  lemma ConfirmationBelowSlot<N(!new)>(types: map<N, Type>, s: N, n: N)
    requires n != s
    ensures AllAdmissible(types, [Add(n), Enable(s)])
    ensures var r := Play(types, [Add(n), Enable(s)]);
            r.Some? && r.value.model == Model([s, n], types[s := Placeholder], true)
  {
    assert [] + [Add(n)] == [Add(n)] && [Add(n)] + [Enable(s)] == [Add(n), Enable(s)];
    PlaySnoc(types, [], Add(n));
    AdmissibleSnoc(types, [], Add(n));
    assert Play(types, [Add(n)]).value.model == Model([n], types, false);
    PlaySnoc(types, [Add(n)], Enable(s));
    AdmissibleSnoc(types, [Add(n)], Enable(s));
  }

  lemma AdmissibleSnoc<N(!new)>(types: map<N, Type>, events: seq<Event<N>>, e: Event<N>)
    requires AllAdmissible(types, events)
    requires Play(types, events).Some? && Admissible(Play(types, events).value.model, e)
    ensures AllAdmissible(types, events + [e])
  {
    assert (events + [e])[..|events|] == events;
  }

  // ----- the code -----

  /** MockNotification, of whose data only the "type" entry matters. */
  class MockNotification {
    var typ: Option<Type>

    constructor (typ: Option<Type>)
      ensures this.typ == typ
    {
      this.typ := typ;
    }
  }

  class MockModel {
    var list: seq<MockNotification>
    var confirmationPlaceholder: bool
    ghost var signals: seq<Signal<MockNotification>>

    /** The model, as far as the notifications in `known` go. */
    ghost function View(known: set<MockNotification>): Model<MockNotification>
      reads this, known
    {
      Model(list, map n | n in known && n.typ.Some? :: n.typ.value, confirmationPlaceholder)
    }

    ghost predicate Knows(known: set<MockNotification>)
      reads this
    {
      forall n :: n in list ==> n in known
    }

    constructor ()
      ensures list == [] && !confirmationPlaceholder && signals == []
    {
      list := [];
      confirmationPlaceholder := false;
      signals := [];
    }

    /** Creates the slot, if the placeholder is switched on; its notification is `slot`. */
    method SetConfirmationPlaceholder(on: bool, ghost known: set<MockNotification>)
      returns (slot: MockNotification?)
      requires Knows(known)
      modifies this
      ensures slot != null <==> on && !old(confirmationPlaceholder)
      ensures slot == null && on ==> View(known) == old(View(known)) && signals == old(signals)
      ensures !on ==>
                && Knows(known)
                && View(known) == Do(old(View(known)), Disable).model
                && signals == old(signals) + Do(old(View(known)), Disable).signals
      ensures slot != null ==>
                && fresh(slot) && Knows(known + {slot})
                && View(known + {slot}) == Do(old(View(known)), Enable(slot)).model
                && signals == old(signals) + Do(old(View(known)), Enable(slot)).signals
    {
      slot := null;
      if confirmationPlaceholder != on {
        confirmationPlaceholder := on;
        if confirmationPlaceholder {
          var notification := new MockNotification(Some(Placeholder));
          slot := notification;
          list := InsertAt(list, 0, notification);
          signals := signals + [Inserted(0, notification)];
        } else if |list| > 0 && list[0].typ == Some(Placeholder) {
          list := RemoveAt(list, 0);
          signals := signals + [Removed(0)];
        }
      }
    }

    method Add(notification: MockNotification, ghost known: set<MockNotification>)
      requires Knows(known) && notification in known
      requires confirmationPlaceholder && notification.typ == Some(Confirmation) ==> list != []   // m_list.at(0)
      modifies this, known
      ensures Knows(known)
      ensures View(known) == Do(old(View(known)), Event.Add(notification)).model
      ensures signals == old(signals) + Do(old(View(known)), Event.Add(notification)).signals
    {
      ghost var was := View(known);
      var row := -1;
      if confirmationPlaceholder && notification.typ == Some(Confirmation) {
        var placeholder := list[0];
        placeholder.typ := Some(Confirmation);
        assert View(known).types == was.types[placeholder := Confirmation];
        signals := signals + [Changed(0)];
      } else if confirmationPlaceholder {
        row := 1;
      } else {
        row := 0;
      }
      if row >= 0 {
        list := ListInsert(list, row, notification);
        assert View(known).types == was.types;
        signals := signals + [Inserted(row, notification)];
      }
    }

    method OnDismissed(notification: MockNotification, ghost known: set<MockNotification>)
      requires Knows(known) && notification in known
      modifies this, known
      ensures Knows(known)
      ensures View(known) == Do(old(View(known)), Dismiss(notification)).model
      ensures signals == old(signals) + Do(old(View(known)), Dismiss(notification)).signals
    {
      var row := IndexOf(list, notification);
      if row >= 0 {
        if confirmationPlaceholder && notification.typ == Some(Confirmation) {
          notification.typ := Some(Placeholder);
          signals := signals + [Changed(0)];
        } else {
          list := RemoveAt(list, row);
          signals := signals + [Removed(row)];
        }
      }
    }
  }
}
