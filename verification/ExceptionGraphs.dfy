/**
 When a graph of exceptions can be rendered at all, and what remember() does to it.

 A graph is a map from its objects to their `earlier` links; the causes are fixed in the objects.
 */
module ExceptionGraphs {
  import opened Options
  import opened Report
  import opened ReportProperties
  import opened Exceptions

  // ----- graphs and paths -----

  datatype Edge = EarlierEdge | NestedEdge

  ghost function Next(links: Links, e: ExceptionObject, edge: Edge): ExceptionObject? {
    match edge
    case EarlierEdge => if e.kind == LomiriKind && e in links then links[e] else null
    case NestedEdge => if e.kind == PlainStdKind || e.kind == UnknownKind then null else e.nested
  }

  ghost function Follow(links: Links, e: ExceptionObject?, path: seq<Edge>): ExceptionObject? {
    if e == null || path == [] then e else Follow(links, Next(links, e, path[0]), path[1..])
  }

  ghost predicate Reaches(links: Links, a: ExceptionObject?, b: ExceptionObject) {
    exists path :: Follow(links, a, path) == b
  }

  ghost predicate Acyclic(links: Links) {
    forall e, path | e in links && path != [] :: Follow(links, e, path) != e
  }

  /** Every link stays in the graph, and only Lomiri exceptions are remembered. */
  ghost predicate Closed(links: Links) {
    forall e | e in links ::
      && (Next(links, e, NestedEdge) != null ==> Next(links, e, NestedEdge) in links)
      && (Next(links, e, EarlierEdge) != null ==>
            Next(links, e, EarlierEdge) in links && Next(links, e, EarlierEdge).kind == LomiriKind)
  }

  ghost predicate Finite(links: Links, e: ExceptionObject) {
    exists c :: DenotesCause(links, e, c)
  }

  lemma FollowStep(links: Links, e: ExceptionObject, edge: Edge, path: seq<Edge>)
    ensures Follow(links, e, [edge] + path) == Follow(links, Next(links, e, edge), path)
  {
  }

  lemma {:induction false} FollowConcat(links: Links, e: ExceptionObject?, p: seq<Edge>, q: seq<Edge>)
    ensures Follow(links, e, p + q) == Follow(links, Follow(links, e, p), q)
  {
    if e == null || p == [] {
      assert p == [] ==> p + q == q;
    } else {
      FollowConcat(links, Next(links, e, p[0]), p[1..], q);
      assert (p + q)[1..] == p[1..] + q;
    }
  }

  // ----- unfoldings, one edge at a time -----

  function LomiriSize(v: Lomiri): nat {
    1 + (if v.earlier.None? then 0 else LomiriSize(v.earlier.value))
      + (if v.nested.None? then 0 else Size(v.nested.value))
  }

  function Size(c: Cause): nat {
    match c
    case OfLomiri(v) => LomiriSize(v)
    case StdNested(_, n) => 1 + (if n.None? then 0 else Size(n.value))
    case BareNested(n) => 1 + (if n.None? then 0 else Size(n.value))
    case PlainStd(_) => 1
    case Unknown => 1
  }

  function Child(c: Cause, edge: Edge): (d: Option<Cause>)
    ensures d.Some? ==> Size(d.value) < Size(c)
  {
    match edge
    case EarlierEdge =>
      if c.OfLomiri? && c.exc.earlier.Some? then Some(OfLomiri(c.exc.earlier.value)) else None
    case NestedEdge =>
      match c
      case OfLomiri(v) => v.nested
      case StdNested(_, n) => n
      case BareNested(n) => n
      case PlainStd(_) => None
      case Unknown => None
  }

  ghost predicate SameHead(links: Links, e: ExceptionObject, c: Cause) {
    match c
    case OfLomiri(v) => e.kind == LomiriKind && e in links && e.name == v.name && e.reason == v.reason
    case StdNested(w, _) => e.kind == StdNestedKind && e.what == w
    case BareNested(_) => e.kind == BareNestedKind
    case PlainStd(w) => e.kind == PlainStdKind && e.what == w
    case Unknown => e.kind == UnknownKind
  }

  ghost predicate SameChild(links: Links, e: ExceptionObject, c: Cause, edge: Edge) {
    match Child(c, edge)
    case None => Next(links, e, edge) == null
    case Some(d) => Next(links, e, edge) != null && DenotesCause(links, Next(links, e, edge), d)
  }

  lemma DenotesByEdges(links: Links, e: ExceptionObject, c: Cause)
    ensures DenotesCause(links, e, c)
            <==> SameHead(links, e, c) && SameChild(links, e, c, EarlierEdge) && SameChild(links, e, c, NestedEdge)
  {
    match c
    case OfLomiri(v) =>
      assert DenotesCause(links, e, c) <==> Denotes(links, e, v);
      if v.earlier.Some? && e in links && links[e] != null {
        var d := OfLomiri(v.earlier.value);
        assert DenotesCause(links, links[e], d) <==> Denotes(links, links[e], v.earlier.value);
      }
    case StdNested(_, n) =>
    case BareNested(n) =>
    case PlainStd(_) =>
    case Unknown =>
  }

  /** A graph has at most one unfolding, hence at most one report. */
  lemma {:induction false} UnfoldingIsUnique(links: Links, e: ExceptionObject, c: Cause, d: Cause)
    requires DenotesCause(links, e, c) && DenotesCause(links, e, d)
    ensures c == d
    decreases Size(c)
  {
    DenotesByEdges(links, e, c);
    DenotesByEdges(links, e, d);
    if Child(c, EarlierEdge).Some? {
      UnfoldingIsUnique(links, Next(links, e, EarlierEdge),
                        Child(c, EarlierEdge).value, Child(d, EarlierEdge).value);
    }
    if Child(c, NestedEdge).Some? {
      UnfoldingIsUnique(links, Next(links, e, NestedEdge),
                        Child(c, NestedEdge).value, Child(d, NestedEdge).value);
    }
  }

  lemma {:induction false} UnfoldingAlongPath(links: Links, e: ExceptionObject, c: Cause, path: seq<Edge>)
    returns (d: Cause)
    requires DenotesCause(links, e, c) && Follow(links, e, path) != null
    ensures DenotesCause(links, Follow(links, e, path), d)
    ensures Size(d) <= Size(c) && (path != [] ==> Size(d) < Size(c))
    decreases |path|
  {
    d := c;
    if path == [] {
    } else {
      DenotesByEdges(links, e, c);
      d := UnfoldingAlongPath(links, Next(links, e, path[0]), Child(c, path[0]).value, path[1..]);
    }
  }

  lemma CycleHasNoUnfolding(links: Links, e: ExceptionObject, path: seq<Edge>)
    requires path != [] && Follow(links, e, path) == e
    ensures !Finite(links, e)
  {
    if Finite(links, e) {
      var c :| DenotesCause(links, e, c);
      var d := UnfoldingAlongPath(links, e, c, path);
      UnfoldingIsUnique(links, e, c, d);
    }
  }

  /** Builds an unfolding from those of the successors. */
  lemma Assemble(links: Links, e: ExceptionObject)
    requires e in links
    requires Next(links, e, EarlierEdge) != null ==>
               Next(links, e, EarlierEdge).kind == LomiriKind && Finite(links, Next(links, e, EarlierEdge))
    requires Next(links, e, NestedEdge) != null ==> Finite(links, Next(links, e, NestedEdge))
    ensures Finite(links, e)
  {
    var nested: Option<Cause> := None;
    if Next(links, e, NestedEdge) != null {
      var n :| DenotesCause(links, Next(links, e, NestedEdge), n);
      nested := Some(n);
    }
    var earlier: Option<Lomiri> := None;
    if Next(links, e, EarlierEdge) != null {
      var d :| DenotesCause(links, Next(links, e, EarlierEdge), d);
      DenotesByEdges(links, Next(links, e, EarlierEdge), d);
      earlier := Some(d.exc);
    }
    var c := match e.kind
      case LomiriKind => OfLomiri(Lomiri(e.name, e.reason, earlier, nested))
      case StdNestedKind => StdNested(e.what, nested)
      case BareNestedKind => BareNested(nested)
      case PlainStdKind => PlainStd(e.what)
      case UnknownKind => Unknown;
    DenotesByEdges(links, e, c);
  }

  ghost predicate LeadsTo(links: Links, a: ExceptionObject, b: ExceptionObject) {
    exists path :: path != [] && Follow(links, a, path) == b
  }

  lemma LeadsToNext(links: Links, a: ExceptionObject, e: ExceptionObject, edge: Edge)
    requires a == e || LeadsTo(links, a, e)
    requires Next(links, e, edge) != null
    ensures LeadsTo(links, a, Next(links, e, edge))
  {
    var step := [edge] + [];
    FollowStep(links, e, edge, []);
    assert step != [] && Follow(links, e, step) == Next(links, e, edge);
    if a != e {
      var path :| path != [] && Follow(links, a, path) == e;
      FollowConcat(links, a, path, step);
      assert path + step != [];
    }
  }

  /** Depth-first search: `above` are objects that lead to `e`, so an acyclic graph never returns to them. */
  lemma {:induction false} Unfold(links: Links, e: ExceptionObject, above: set<ExceptionObject>)
    requires Closed(links) && Acyclic(links) && e in links
    requires above <= links.Keys && forall a | a in above :: LeadsTo(links, a, e)
    ensures Finite(links, e)
    decreases |links.Keys - above|, 1
  {
    assert !LeadsTo(links, e, e);
    forall edge | Next(links, e, edge) != null
      ensures Finite(links, Next(links, e, edge))
    {
      forall a | a in above + {e}
        ensures LeadsTo(links, a, Next(links, e, edge))
      {
        LeadsToNext(links, a, e, edge);
      }
      UnfoldNext(links, e, edge, above);
    }
    Assemble(links, e);
  }

  lemma {:induction false} UnfoldNext(links: Links, e: ExceptionObject, edge: Edge, above: set<ExceptionObject>)
    requires Closed(links) && Acyclic(links) && e in links && e !in above && Next(links, e, edge) != null
    requires above <= links.Keys
    requires forall a | a in above + {e} :: LeadsTo(links, a, Next(links, e, edge))
    ensures Finite(links, Next(links, e, edge))
    decreases |links.Keys - above|, 0
  {
    assert links.Keys - above == (links.Keys - (above + {e})) + {e};
    Unfold(links, Next(links, e, edge), above + {e});
  }

  /** A closed graph can be rendered from everywhere exactly when it has no cycle. */
  lemma RenderableIffAcyclic(links: Links)
    requires Closed(links)
    ensures (forall e | e in links :: Finite(links, e)) <==> Acyclic(links)
  {
    if Acyclic(links) {
      forall e | e in links
        ensures Finite(links, e)
      {
        Unfold(links, e, {});
      }
    } else {
      var e, path :| e in links && path != [] && Follow(links, e, path) == e;
      CycleHasNoUnfolding(links, e, path);
    }
  }

  // ----- remember -----

  /** What an object unfolds to does not depend on links it cannot reach. */
  lemma {:induction false} UnreachedLinkIsIrrelevant(links: Links, target: ExceptionObject, arg: ExceptionObject?,
                                                     e: ExceptionObject, c: Cause)
    requires DenotesCause(links, e, c) && target in links && !Reaches(links, e, target)
    ensures DenotesCause(links[target := arg], e, c)
    decreases Size(c)
  {
    var after := links[target := arg];
    assert Follow(links, e, []) == e;
    DenotesByEdges(links, e, c);
    forall edge
      ensures SameChild(after, e, c, edge)
    {
      assert Next(after, e, edge) == Next(links, e, edge);
      if Child(c, edge).Some? {
        var n := Next(links, e, edge);
        forall path
          ensures Follow(links, n, path) != target
        {
          FollowStep(links, e, edge, path);
          assert Follow(links, e, [edge] + path) != target;
        }
        UnreachedLinkIsIrrelevant(links, target, arg, n, Child(c, edge).value);
      }
    }
    DenotesByEdges(after, e, c);
  }

  /** A path to `target` need not use the link that remember() changes: its first visit is enough. */
  lemma {:induction false} PathSurvives(links: Links, target: ExceptionObject, arg: ExceptionObject?,
                                        e: ExceptionObject?, path: seq<Edge>)
    returns (survivor: seq<Edge>)
    requires target in links && Follow(links, e, path) == target
    ensures Follow(links[target := arg], e, survivor) == target
    decreases |path|
  {
    if e == target {
      survivor := [];
    } else {
      var rest := PathSurvives(links, target, arg, Next(links, e, path[0]), path[1..]);
      survivor := [path[0]] + rest;
      FollowStep(links[target := arg], e, path[0], rest);
    }
  }

  lemma {:induction false} StaysFinite(links: Links, target: ExceptionObject, arg: ExceptionObject?,
                                       e: ExceptionObject, c: Cause)
    requires Closed(links) && target in links && e in links && DenotesCause(links, e, c)
    requires arg != null ==> arg.kind == LomiriKind && Finite(links[target := arg], arg)
    ensures Finite(links[target := arg], e)
    decreases Size(c)
  {
    var after := links[target := arg];
    DenotesByEdges(links, e, c);
    if Child(c, NestedEdge).Some? {
      StaysFinite(links, target, arg, Next(links, e, NestedEdge), Child(c, NestedEdge).value);
    }
    if Child(c, EarlierEdge).Some? && e != target {
      StaysFinite(links, target, arg, Next(links, e, EarlierEdge), Child(c, EarlierEdge).value);
    }
    Assemble(after, e);
  }

  lemma RememberKeepsClosed(links: Links, target: ExceptionObject, arg: ExceptionObject?)
    requires Closed(links) && target in links
    requires arg != null ==> arg in links && arg.kind == LomiriKind
    ensures Closed(links[target := arg])
  {
    var after := links[target := arg];
    forall e | e in after
      ensures Next(after, e, NestedEdge) == Next(links, e, NestedEdge)
      ensures Next(after, e, EarlierEdge) == Next(links, e, EarlierEdge) || (e == target && after[e] == arg)
    {
    }
  }

  /**
   remember(arg) on `target` leaves every exception of the graph renderable exactly when `arg` is null or does
   not lead back to `target`. The code checks neither.
   */
  lemma RememberKeepsHistoriesFinite(links: Links, target: ExceptionObject, arg: ExceptionObject?)
    requires Closed(links) && Acyclic(links)
    requires target in links && target.kind == LomiriKind
    requires arg != null ==> arg in links && arg.kind == LomiriKind
    ensures Closed(links[target := arg])
    ensures Acyclic(links[target := arg]) <==> arg == null || !Reaches(links, arg, target)
    ensures (forall e | e in links :: Finite(links[target := arg], e)) <==> arg == null || !Reaches(links, arg, target)
  {
    var after := links[target := arg];
    RememberKeepsClosed(links, target, arg);
    RenderableIffAcyclic(links);
    RenderableIffAcyclic(after);
    assert after.Keys == links.Keys;
    if arg == null || !Reaches(links, arg, target) {
      if arg != null {
        var w :| DenotesCause(links, arg, w);
        UnreachedLinkIsIrrelevant(links, target, arg, arg, w);
      }
      forall e | e in links
        ensures Finite(after, e)
      {
        var c :| DenotesCause(links, e, c);
        StaysFinite(links, target, arg, e, c);
      }
    } else {
      var path :| Follow(links, arg, path) == target;
      var survivor := PathSurvives(links, target, arg, arg, path);
      FollowStep(after, target, EarlierEdge, survivor);
      CycleHasNoUnfolding(after, target, [EarlierEdge] + survivor);
    }
  }

  /** The history of the remembering exception is the argument's history followed by itself. */
  lemma RememberExtendsHistory(links: Links, target: ExceptionObject, arg: ExceptionObject?, w: Option<Lomiri>)
    requires Closed(links) && Acyclic(links) && target in links && target.kind == LomiriKind
    requires arg != null ==> arg in links && arg.kind == LomiriKind && !Reaches(links, arg, target)
    requires DenotesEarlier(links, arg, w)
    ensures Finite(links[target := arg], target)
    ensures forall v | Denotes(links[target := arg], target, v) ::
              && v.earlier == w
              && Chain(v) == (if w.None? then [] else Chain(w.value)) + [v]
              && Generation(v) == 1 + (if w.None? then 0 else Generation(w.value))
  {
    var after := links[target := arg];
    RememberKeepsHistoriesFinite(links, target, arg);
    forall v | Denotes(after, target, v)
      ensures v.earlier == w
    {
      assert after[target] == arg && DenotesEarlier(after, arg, v.earlier);
      if arg != null {
        var a := OfLomiri(w.value);
        assert DenotesCause(links, arg, a);
        UnreachedLinkIsIrrelevant(links, target, arg, arg, a);
        assert DenotesCause(after, arg, OfLomiri(v.earlier.value));
        UnfoldingIsUnique(after, arg, a, OfLomiri(v.earlier.value));
      }
    }
  }

  // ----- threading the copies through a series of failures -----

  /** `previous` is what the i-th call of remember() was given: null, then the copy the call before returned. */
  function Previous(copies: seq<ExceptionObject>, i: nat): ExceptionObject?
    requires i <= |copies|
  {
    if i == 0 then null else copies[i - 1]
  }

  lemma PreviousOfPrefix(copies: seq<ExceptionObject>, copy: ExceptionObject)
    ensures forall i :: 0 <= i <= |copies| ==> Previous(copies + [copy], i) == Previous(copies, i)
    ensures Previous(copies + [copy], |copies| + 1) == copy
  {
  }

  function Members(es: seq<ExceptionObject>): set<ExceptionObject> {
    set e | e in es
  }

  method RememberEach(es: seq<ExceptionObject>) returns (ep: ExceptionObject?, ghost copies: seq<ExceptionObject>)
    modifies es
    ensures |copies| == |es| && ep == Previous(copies, |es|)
    ensures forall i :: 0 <= i < |es| ==> fresh(copies[i]) && es[i].SameContents(copies[i])
    ensures forall i :: 0 <= i < |es| ==> copies[i].earlier == Previous(copies, i)
  {
    ep := null;
    copies := [];
    for k := 0 to |es|
      invariant |copies| == k && ep == Previous(copies, k)
      invariant forall i :: 0 <= i < k ==> fresh(copies[i]) && es[i].SameContents(copies[i])
      invariant forall i :: 0 <= i < k ==> copies[i].earlier == Previous(copies, i)
    {
      var e := es[k];
      assert forall i :: 0 <= i < k ==> copies[i] != e;
      var copy := e.Remember(ep);
      PreviousOfPrefix(copies, copy);
      ep := copy;
      copies := copies + [copy];
    }
  }

  /** A history threaded that way has one entry for each call, in call order. */
  lemma {:induction false} ThreadedHistory(links: Links, copies: seq<ExceptionObject>, v: Lomiri)
    requires copies != []
    requires forall i :: 0 <= i < |copies| ==> copies[i] in links && links[copies[i]] == Previous(copies, i)
    requires Denotes(links, copies[|copies| - 1], v)
    ensures |Chain(v)| == |copies| == Generation(v)
    ensures forall i :: 0 <= i < |copies| ==> Denotes(links, copies[i], Chain(v)[i])
    decreases |copies|
  {
    var n := |copies| - 1;
    ChainLength(v);
    assert DenotesEarlier(links, links[copies[n]], v.earlier);
    if n == 0 {
    } else {
      var front := copies[..n];
      assert forall i :: 0 <= i < n ==> front[i] == copies[i] && Previous(front, i) == Previous(copies, i);
      ThreadedHistory(links, front, v.earlier.value);
      assert Chain(v) == Chain(v.earlier.value) + [v];
    }
  }

  lemma FiniteByEdges(links: Links, e: ExceptionObject)
    requires e in links && (links[e] != null ==> links[e].kind == LomiriKind) && e.kind == LomiriKind
    ensures Finite(links, e) <==> (links[e] == null || Finite(links, links[e]))
                                  && (e.nested == null || Finite(links, e.nested))
  {
    if Finite(links, e) {
      var c :| DenotesCause(links, e, c);
      DenotesByEdges(links, e, c);
    } else if (links[e] == null || Finite(links, links[e])) && (e.nested == null || Finite(links, e.nested)) {
      Assemble(links, e);
    }
  }

  /** The exception threaded that way has a report exactly if every cause that was kept on the way has one. */
  lemma {:induction false} ThreadedIsFinite(links: Links, copies: seq<ExceptionObject>)
    requires copies != []
    requires forall i :: 0 <= i < |copies| ==>
               copies[i].kind == LomiriKind && copies[i] in links && links[copies[i]] == Previous(copies, i)
    ensures Finite(links, copies[|copies| - 1])
            <==> forall i :: 0 <= i < |copies| ==> copies[i].nested == null || Finite(links, copies[i].nested)
    decreases |copies|
  {
    var n := |copies| - 1;
    FiniteByEdges(links, copies[n]);
    if n == 0 {
    } else {
      var front := copies[..n];
      assert forall i :: 0 <= i < n ==> front[i] == copies[i] && Previous(front, i) == Previous(copies, i);
      ThreadedIsFinite(links, front);
      assert forall i :: 0 <= i < n ==> copies[i].nested == front[i].nested;
    }
  }

  /**
   The use remember() is made for: every failure adds itself to the ones before
   (include/lomiri/Exception.h:52-96). In the graph of the copies and whatever else is `known`, the exception in
   the end has a report exactly if all the causes have one; it then has one history entry for each call, in call
   order.
   */
  method RememberAll(es: seq<ExceptionObject>, ghost known: set<ExceptionObject>)
    returns (ep: ExceptionObject?, ghost copies: seq<ExceptionObject>)
    requires forall i :: 0 <= i < |es| ==> es[i].kind == LomiriKind
    modifies es
    ensures |copies| == |es| && ep == Previous(copies, |es|)
    ensures forall i :: 0 <= i < |es| ==> fresh(copies[i]) && es[i].SameContents(copies[i])
    ensures forall i :: 0 <= i < |es| ==> copies[i].earlier == Previous(copies, i)
    ensures es != [] ==>
              (Finite(EarlierLinks(known + Members(copies)), ep)
               <==> forall i :: 0 <= i < |es| ==>
                      es[i].nested == null || Finite(EarlierLinks(known + Members(copies)), es[i].nested))
    ensures es != [] ==>
              forall v | Denotes(EarlierLinks(known + Members(copies)), ep, v) ::
                && |Chain(v)| == |es|
                && forall i :: 0 <= i < |es| ==>
                     Denotes(EarlierLinks(known + Members(copies)), copies[i], Chain(v)[i])
  {
    ep, copies := RememberEach(es);
    if es != [] {
      ghost var links := EarlierLinks(known + Members(copies));
      ThreadedIsFinite(links, copies);
      assert forall i :: 0 <= i < |es| ==> copies[i].nested == es[i].nested;
      forall v | Denotes(links, ep, v)
        ensures |Chain(v)| == |es| && forall i :: 0 <= i < |es| ==> Denotes(links, copies[i], Chain(v)[i])
      {
        ThreadedHistory(links, copies, v);
      }
    }
  }

  // ----- the public entry point -----

  /**
   Exception::to_string(string): on a graph without cycles the report exists, and the result is its rows, each
   behind as many indents as it is deep.
   */
  method ToStringFromTop(e: ExceptionObject, indent: string, ghost objects: set<ExceptionObject>)
    returns (result: string)
    requires e in objects && e.kind == LomiriKind
    requires Closed(EarlierLinks(objects)) && Acyclic(EarlierLinks(objects))
    ensures exists v :: Denotes(EarlierLinks(objects), e, v)
                        && result == Join(Indented(Rows(ReportLines(v)), 0, indent))
  {
    ghost var links := EarlierLinks(objects);
    RenderableIffAcyclic(links);
    assert Finite(links, e);
    ghost var c :| DenotesCause(links, e, c);
    DenotesByEdges(links, e, c);
    ghost var v := c.exc;
    result := ToString(e, 0, indent, objects, v);
    FlatExactly(v, 0, indent);
  }
}
