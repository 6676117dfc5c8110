/** The class template ResourcePtr<R, D>: an owner of one resource, its deleter and a mutex. */
module ResourcePtrs {
  import opened Resources
  import opened ResourceOrder

  /** Where deleters run. They may throw, and they do not call back into the instance that runs them. */
  class Deleters<R, D> {
    ghost var log: seq<Event<R, D>>

    constructor ()
      ensures log == []
    {
      log := [];
    }

    method Invoke(d: D, r: R) returns (threw: bool)
      modifies this
      ensures log == old(log) + [Deleted(r, d)]
    {
      log := log + [Deleted(r, d)];
      threw := *;
    }

    ghost method Note(e: Event<R, D>)
      modifies this
      ensures log == old(log) + [e]
    {
      log := log + [e];
    }
  }

  /** One instance before and after a call that works on it alone. */
  ghost predicate Does<R, D>(op: Op<R, D>, before: Cell<R, D>, after: Cell<R, D>,
                             log: seq<Event<R, D>>, log': seq<Event<R, D>>, outcome: Outcome<R>)
    requires InRange(op, 1)
  {
    var res := Call(op, [before], outcome == DeleterThrew);
    res.cells[0] == after && log' == log + res.events && outcome == res.outcome
  }

  /** Two instances before and after a call that works on both. */
  ghost predicate DoesBoth<R, D>(op: Op<R, D>, before: seq<Cell<R, D>>, after: seq<Cell<R, D>>,
                                 log: seq<Event<R, D>>, log': seq<Event<R, D>>, outcome: Outcome<R>)
    requires |before| == 2 && InRange(op, 2)
  {
    var res := Call(op, before, outcome == DeleterThrew);
    res.cells == after && log' == log + res.events && outcome == res.outcome
  }

  class ResourcePtr<R(0,==), D> {
    var resource: R
    var delete: D
    var initialized: bool
    var locked: bool

    ghost function Contents(): Cell<R, D>
      reads this
    {
      Cell(resource, delete, initialized)
    }

    /** ResourcePtr(D), and ResourcePtr() with a default-constructed deleter. */
    constructor Empty(d: D)
      ensures !initialized && delete == d && !locked
    {
      delete := d;
      initialized := false;
      locked := false;
      resource := *;
    }

    constructor Holding(r: R, d: D, ghost world: Deleters<R, D>)
      modifies world
      ensures Contents() == Cell(r, d, true) && !locked
      ensures world.log == old(world.log) + [Acquired(r, d)]
    {
      resource := r;
      delete := d;
      initialized := true;
      locked := false;
      new;
      world.Note(Acquired(r, d));
    }

    /** The move constructor. The source is a temporary and is not locked. */
    constructor Moved(r: ResourcePtr<R, D>)
      modifies r
      ensures Contents() == old(r.Contents()) && !locked
      ensures r.Contents() == Emptied(old(r.Contents())) && !r.initialized && r.locked == old(r.locked)
      ensures initialized == old(r.initialized) && resource == old(r.resource) && delete == old(r.delete)
    {
      resource := r.resource;
      delete := r.delete;
      initialized := r.initialized;
      locked := false;
      new;
      r.initialized := false;
    }

    /** operator=(ResourcePtr&&), self-move included. */
    method MoveAssign(r: ResourcePtr<R, D>, world: Deleters<R, D>) returns (outcome: Outcome<R>)
      requires !locked
      modifies this, r, world
      ensures !locked && (r != this ==> r.locked == old(r.locked))
      ensures r == this ==>
                Does(Op.MoveAssign(0, 0), old(Contents()), Contents(), old(world.log), world.log, outcome)
      ensures r != this ==>
                DoesBoth(Op.MoveAssign(0, 1), [old(Contents()), old(r.Contents())], [Contents(), r.Contents()],
                         old(world.log), world.log, outcome)
      ensures outcome == Done || (outcome == DeleterThrew && old(initialized))
      ensures world.log == old(world.log) + (if old(initialized) then [Deleted(old(resource), old(delete))] else [])
      ensures r == this || outcome == DeleterThrew ==>
                !initialized && (r != this ==> r.Contents() == old(r.Contents()))
      ensures r != this && outcome == Done ==>
                && initialized == old(r.initialized) && resource == old(r.resource) && delete == old(r.delete)
                && !r.initialized
    {
      locked := true;
      if initialized {
        initialized := false;
        var threw := world.Invoke(delete, resource);
        if threw {
          locked := false;
          return DeleterThrew;
        }
      }
      resource := r.resource;
      initialized := r.initialized;
      r.initialized := false;
      delete := r.delete;
      locked := false;
      outcome := Done;
    }

    /** ~ResourcePtr: an exception from the deleter is swallowed. */
    method Destroy(world: Deleters<R, D>)
      requires !locked
      modifies this, world
      ensures !locked && Contents() == Emptied(old(Contents())) && !initialized
      ensures world.log == old(world.log) + (if old(initialized) then [Deleted(old(resource), old(delete))] else [])
    {
      var _ := Dealloc(world);
    }

    method Swap(other: ResourcePtr<R, D>)
      requires !locked && !other.locked
      modifies this, other
      ensures !locked && !other.locked
      ensures Contents() == old(other.Contents()) && other.Contents() == old(Contents())
    {
      if this == other {
        return;
      }
      locked, other.locked := true, true;
      resource, other.resource := other.resource, resource;
      delete, other.delete := other.delete, delete;
      initialized, other.initialized := other.initialized, initialized;
      locked, other.locked := false, false;
    }

    /** The new resource is installed even if the deleter of the old one throws. */
    method Reset(r: R, world: Deleters<R, D>) returns (outcome: Outcome<R>)
      requires !locked
      modifies this, world
      ensures !locked
      ensures Does(Op.Reset(0, r), old(Contents()), Contents(), old(world.log), world.log, outcome)
      ensures initialized && resource == r && delete == old(delete)
      ensures outcome == Done || (outcome == DeleterThrew && old(initialized))
      ensures world.log == old(world.log) + [Acquired(r, delete)]
                           + (if old(initialized) then [Deleted(old(resource), delete)] else [])
    {
      locked := true;
      var hasOld := initialized;
      var oldResource: R := *;
      if hasOld {
        oldResource := resource;
      }
      resource := r;
      initialized := true;
      world.Note(Acquired(r, delete));
      outcome := Done;
      if hasOld {
        var threw := world.Invoke(delete, oldResource);
        outcome := if threw then DeleterThrew else Done;
      }
      locked := false;
    }

    method Release(ghost world: Deleters<R, D>) returns (outcome: Outcome<R>)
      requires !locked
      modifies this, world
      ensures !locked
      ensures Does(Op.Release(0), old(Contents()), Contents(), old(world.log), world.log, outcome)
      ensures !initialized && outcome == if old(initialized) then Value(old(resource)) else LogicError
      ensures world.log == old(world.log) + (if old(initialized) then [Released(old(resource), old(delete))] else [])
    {
      locked := true;
      if !initialized {
        locked := false;
        return LogicError;
      }
      initialized := false;
      outcome := Value(resource);
      world.Note(Released(resource, delete));
      locked := false;
    }

    method Dealloc(world: Deleters<R, D>) returns (outcome: Outcome<R>)
      requires !locked
      modifies this, world
      ensures !locked
      ensures Does(Op.Dealloc(0), old(Contents()), Contents(), old(world.log), world.log, outcome)
      ensures !initialized && (outcome == Done || (outcome == DeleterThrew && old(initialized)))
      ensures world.log == old(world.log) + (if old(initialized) then [Deleted(old(resource), old(delete))] else [])
    {
      locked := true;
      if !initialized {
        locked := false;
        return Done;
      }
      initialized := false;
      var threw := world.Invoke(delete, resource);
      outcome := if threw then DeleterThrew else Done;
      locked := false;
    }

    method Get() returns (outcome: Outcome<R>)
      requires !locked
      modifies this`locked
      ensures !locked
      ensures outcome == if initialized then Value(resource) else LogicError
    {
      locked := true;
      if !initialized {
        locked := false;
        return LogicError;
      }
      outcome := Value(resource);
      locked := false;
    }

    method HasResource() returns (has: bool)
      requires !locked
      modifies this`locked
      ensures !locked
      ensures has == initialized && (has <==> Key(Contents()).Some?)
    {
      locked := true;
      has := initialized;
      locked := false;
    }

    // ----- comparisons; `lt` and `==` are those of the resource type -----

    method Equals(rhs: ResourcePtr<R, D>) returns (b: bool)
      requires !locked && !rhs.locked
      modifies this`locked, rhs`locked
      ensures !locked && !rhs.locked
      ensures b <==> Key(Contents()) == Key(rhs.Contents())
      ensures b <==> initialized == rhs.initialized && (initialized ==> resource == rhs.resource)
    {
      if this == rhs {
        return true;
      }
      locked, rhs.locked := true, true;
      if !initialized {
        b := !rhs.initialized;
      } else if !rhs.initialized {
        b := false;
      } else {
        b := resource == rhs.resource;
      }
      locked, rhs.locked := false, false;
    }

    method NotEquals(rhs: ResourcePtr<R, D>) returns (b: bool)
      requires !locked && !rhs.locked
      modifies this`locked, rhs`locked
      ensures !locked && !rhs.locked
      ensures b <==> Key(Contents()) != Key(rhs.Contents())
      ensures !b <==> initialized == rhs.initialized && (initialized ==> resource == rhs.resource)
    {
      var eq := Equals(rhs);
      b := !eq;
    }

    method Less(rhs: ResourcePtr<R, D>, lt: (R, R) -> bool) returns (b: bool)
      requires !locked && !rhs.locked && Irreflexive(lt, resource)
      modifies this`locked, rhs`locked
      ensures !locked && !rhs.locked
      ensures b <==> Below(lt, Key(Contents()), Key(rhs.Contents()))
      ensures b <==> rhs.initialized && (initialized ==> lt(resource, rhs.resource))
    {
      if this == rhs {
        return false;
      }
      locked, rhs.locked := true, true;
      if !initialized {
        b := rhs.initialized;
      } else if !rhs.initialized {
        b := false;
      } else {
        b := lt(resource, rhs.resource);
      }
      locked, rhs.locked := false, false;
    }

    /** Compares the `resource` fields whether or not they are in use. */
    method LessOrEqual(rhs: ResourcePtr<R, D>, lt: (R, R) -> bool) returns (b: bool)
      requires !locked && !rhs.locked
      modifies this`locked, rhs`locked
      ensures !locked && !rhs.locked
      ensures b <==> StaleLessOrEqual(lt, Contents(), rhs.Contents())
      ensures b <==> lt(resource, rhs.resource) || resource == rhs.resource
    {
      if this == rhs {
        return true;
      }
      locked, rhs.locked := true, true;
      b := lt(resource, rhs.resource) || resource == rhs.resource;
      locked, rhs.locked := false, false;
    }

    method Greater(rhs: ResourcePtr<R, D>, lt: (R, R) -> bool) returns (b: bool)
      requires !locked && !rhs.locked
      modifies this`locked, rhs`locked
      ensures !locked && !rhs.locked
      ensures b <==> !StaleLessOrEqual(lt, Contents(), rhs.Contents())
      ensures !b <==> lt(resource, rhs.resource) || resource == rhs.resource
    {
      var le := LessOrEqual(rhs, lt);
      b := !le;
    }

    method GreaterOrEqual(rhs: ResourcePtr<R, D>, lt: (R, R) -> bool) returns (b: bool)
      requires !locked && !rhs.locked && Irreflexive(lt, resource)
      modifies this`locked, rhs`locked
      ensures !locked && !rhs.locked
      ensures b <==> !Below(lt, Key(Contents()), Key(rhs.Contents()))
      ensures !b <==> rhs.initialized && (initialized ==> lt(resource, rhs.resource))
    {
      var less := Less(rhs, lt);
      b := !less;
    }
  }
}
