/** UniqueFd: one object owns one descriptor and closes it exactly once. */
module Descriptors {
  import opened Os
  import opened FdOwnership

  // The descriptor table after reset(next) on an object that holds `held`.
  function AfterReset(fds: map<nat, Descriptor>, held: int, next: int): map<nat, Descriptor> {
    if ResetCloses(held, next) then fds - {held} else fds
  }

  class UniqueFd {
    var fd: int

    constructor (fd: int)
      ensures this.fd == fd
    {
      this.fd := fd;
    }

    predicate Owns()
      reads this
    {
      fd >= 0
    }

    method Release() returns (released: int)
      modifies this
      ensures released == old(fd) && fd == -1
    {
      released := fd;
      fd := -1;
    }

    /** reset(next), also the destructor with next == -1: closes the old descriptor unless it is the new one. */
    method Reset(t: Thread, next: int)
      requires t.Valid() && (ResetCloses(fd, next) ==> fd in t.fds)
      modifies this, t
      ensures fd == next && t.base == old(t.base) && t.changes == old(t.changes) && t.interrupts == old(t.interrupts) && t.faults == old(t.faults)
      ensures t.Tracked() && t.Steady(old(t.run))
      ensures t.fds == AfterReset(old(t.fds), old(fd), next)
      ensures ResetCloses(old(fd), next) ==>
                t.fs == if old(t.fds)[old(fd)].Writer? then t.run.w.fs.CloseWriter(old(t.fds)[old(fd)].ino) else t.run.w.fs
      ensures !ResetCloses(old(fd), next) ==> t.run == old(t.run) && t.fs == old(t.fs)
    {
      if fd >= 0 && fd != next {
        t.Close(fd);
      } else {
        t.Audit();
      }
      fd := next;
    }

    /** Move assignment, self-assignment included. */
    method MoveFrom(t: Thread, other: UniqueFd)
      requires t.Valid() && (this != other && ResetCloses(fd, other.fd) ==> fd in t.fds)
      modifies this, other, t
      ensures t.Tracked() && t.Steady(old(t.run))
      ensures t.base == old(t.base) && t.changes == old(t.changes) && fd == old(other.fd) && (this != other ==> other.fd == -1)
      ensures t.fds == if this == other then old(t.fds) else AfterReset(old(t.fds), old(fd), old(other.fd))
      ensures this == other || !ResetCloses(old(fd), old(other.fd)) ==> t.run == old(t.run) && t.fs == old(t.fs)
    {
      if this != other {
        var released := other.Release();
        Reset(t, released);
      } else {
        t.Audit();
      }
    }
  }

  // ---- The methods are the steps of FdOwnership ----

  // `s` has this descriptor table, and its object `x` holds `held`.
  ghost predicate Stands(s: State, x: Name, held: int, fds: map<nat, Descriptor>) {
    && x in s.fds && s.fds[x] == held
    && forall fd: int :: fd in s.open <==> fd >= 0 && fd in fds
  }

  /** What Reset does to object and table is what the step Resets does. */
  lemma ResetIsAStep(s: State, x: Name, held: int, next: int, fds: map<nat, Descriptor>)
    requires Stands(s, x, held, fds) && Allowed(s, Resets(x, next))
    ensures Stands(Step(s, Resets(x, next)), x, next, AfterReset(fds, held, next))
    ensures forall y :: y in s.fds && y != x ==> y in Step(s, Resets(x, next)).fds && Step(s, Resets(x, next)).fds[y] == s.fds[y]
  {
  }

  /** What MoveFrom does to both objects and the table is what the step MoveAssigns does. */
  lemma MoveIsAStep(s: State, x: Name, from: Name, held: int, other: int, fds: map<nat, Descriptor>)
    requires Stands(s, x, held, fds) && Stands(s, from, other, fds)
    ensures x != from ==> Stands(Step(s, MoveAssigns(x, from)), x, other, AfterReset(fds, held, other))
    ensures x != from ==> Stands(Step(s, MoveAssigns(x, from)), from, -1, AfterReset(fds, held, other))
    ensures x == from ==> Step(s, MoveAssigns(x, from)) == s
  {
  }

  /** What Release does is what the step Releases does: the table stays as it is. */
  lemma ReleaseIsAStep(s: State, x: Name, held: int, fds: map<nat, Descriptor>)
    requires Stands(s, x, held, fds)
    ensures Stands(Step(s, Releases(x)), x, -1, fds)
  {
  }

  /** What the destructor, reset() to nothing, does to the table is what the step Destroys does. */
  lemma DestructionIsAStep(s: State, x: Name, held: int, fds: map<nat, Descriptor>)
    requires Stands(s, x, held, fds)
    ensures var s' := Step(s, Destroys(x));
            x !in s'.fds && forall fd: int :: fd in s'.open <==> fd >= 0 && fd in AfterReset(fds, held, -1)
  {
  }
}
