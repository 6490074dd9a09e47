/**
 Any program over any number of UniqueFd objects: construction, moves (self-moves included), release, reset
 and destruction, in any order. Descriptor numbers are reused after close, as the kernel does.
 */
module FdOwnership {

  type Name = nat  // a UniqueFd variable

  // `loose` descriptors are open and belong to no UniqueFd.
  datatype State = State(fds: map<Name, int>, open: set<int>, loose: set<int>, closes: seq<int>)

  datatype Op =
    | Opens(fd: int)                    // the kernel hands out a descriptor
    | Constructs(x: Name, fd: int)      // UniqueFd x(fd); fd < 0 after a failed open
    | MoveConstructs(x: Name, from: Name)
    | MoveAssigns(x: Name, from: Name)
    | Releases(x: Name)
    | Resets(x: Name, fd: int)
    | Destroys(x: Name)

  // What the caller owes: a descriptor given to an object has no other owner.
  predicate Allowed(s: State, op: Op) {
    match op
    case Opens(fd) => fd >= 0 && fd !in s.open
    case Constructs(x, fd) => x !in s.fds && (fd < 0 || fd in s.loose)
    case MoveConstructs(x, from) => x !in s.fds && from in s.fds
    case MoveAssigns(x, from) => x in s.fds && from in s.fds
    case Releases(x) => x in s.fds
    case Resets(x, fd) => x in s.fds && (fd < 0 || fd in s.loose || fd == s.fds[x])
    case Destroys(x) => x in s.fds
  }

  // close(fd), whether or not it is open
  function Close(s: State, fd: int): State {
    s.(open := s.open - {fd}, closes := s.closes + [fd])
  }

  // reset(next) on an object that holds `held`
  predicate ResetCloses(held: int, next: int) {
    held >= 0 && held != next
  }

  function ResetTo(s: State, x: Name, fd: int): State
    requires x in s.fds
  {
    var closed := if ResetCloses(s.fds[x], fd) then Close(s, s.fds[x]) else s;
    closed.(fds := closed.fds[x := fd], loose := closed.loose - {fd})
  }

  function Release(s: State, x: Name): State
    requires x in s.fds
  {
    s.(fds := s.fds[x := -1], loose := if s.fds[x] >= 0 then s.loose + {s.fds[x]} else s.loose)
  }

  function Step(s: State, op: Op): State
    requires Allowed(s, op)
  {
    match op
    case Opens(fd) => s.(open := s.open + {fd}, loose := s.loose + {fd})
    case Constructs(x, fd) => s.(fds := s.fds[x := fd], loose := s.loose - {fd})
    case MoveConstructs(x, from) =>
      var r := Release(s, from);
      r.(fds := r.fds[x := s.fds[from]], loose := r.loose - {s.fds[from]})
    case MoveAssigns(x, from) => if x == from then s else ResetTo(Release(s, from), x, s.fds[from])
    case Releases(x) => Release(s, x)
    case Resets(x, fd) => ResetTo(s, x, fd)
    case Destroys(x) =>
      var r := ResetTo(s, x, -1);
      r.(fds := r.fds - {x})
  }

  predicate Owned(s: State, fd: int) {
    fd >= 0 && exists x :: x in s.fds && s.fds[x] == fd
  }

  // Every open descriptor has exactly one owner or is loose; every owned descriptor is open.
  ghost predicate Sound(s: State) {
    && (forall x, y :: x in s.fds && y in s.fds && x != y && s.fds[x] >= 0 ==> s.fds[x] != s.fds[y])
    && (forall x :: x in s.fds && s.fds[x] >= 0 ==> s.fds[x] in s.open && s.fds[x] !in s.loose)
    && (forall fd :: fd in s.loose ==> fd in s.open && fd >= 0)
    && (forall fd :: fd in s.open ==> fd in s.loose || Owned(s, fd))
  }

  lemma ReleaseIsSound(s: State, x: Name)
    requires Sound(s) && x in s.fds
    ensures Sound(Release(s, x))
  {
    var s' := Release(s, x);
    forall fd | fd in s'.open && fd !in s'.loose
      ensures Owned(s', fd)
    {
      var y :| y in s.fds && s.fds[y] == fd;
      assert s'.fds[y] == fd;
    }
  }

  // The object lets go of what it holds, and it is closed.
  lemma CloseIsSound(s: State, x: Name)
    requires Sound(s) && x in s.fds && s.fds[x] >= 0
    ensures Sound(Close(s, s.fds[x]).(fds := s.fds[x := -1]))
  {
    var s' := Close(s, s.fds[x]).(fds := s.fds[x := -1]);
    forall d | d in s'.open && d !in s'.loose
      ensures Owned(s', d)
    {
      var y :| y in s.fds && s.fds[y] == d;
      assert s'.fds[y] == d;
    }
  }

  // An empty object takes a loose descriptor.
  lemma TakeIsSound(s: State, x: Name, fd: int)
    requires Sound(s) && x in s.fds && s.fds[x] < 0 && (fd < 0 || fd in s.loose)
    ensures Sound(s.(fds := s.fds[x := fd], loose := s.loose - {fd}))
  {
    var s' := s.(fds := s.fds[x := fd], loose := s.loose - {fd});
    assert s'.fds[x] == fd;
    forall d | d in s'.open && d !in s'.loose && d != fd
      ensures Owned(s', d)
    {
      var y :| y in s.fds && s.fds[y] == d;
      assert s'.fds[y] == d;
    }
  }

  lemma ResetIsSound(s: State, x: Name, fd: int)
    requires Sound(s) && x in s.fds && (fd < 0 || fd in s.loose || fd == s.fds[x])
    ensures Sound(ResetTo(s, x, fd))
  {
    if ResetCloses(s.fds[x], fd) {
      var closed := Close(s, s.fds[x]).(fds := s.fds[x := -1]);
      CloseIsSound(s, x);
      TakeIsSound(closed, x, fd);
      assert closed.fds[x := fd] == s.fds[x := fd];
    } else if s.fds[x] < 0 {
      TakeIsSound(s, x, fd);
    } else {
      assert s.fds[x := fd] == s.fds && s.loose - {fd} == s.loose;
    }
  }

  lemma AdoptIsSound(s: State, x: Name, fd: int)
    requires Sound(s) && x !in s.fds && (fd < 0 || fd in s.loose)
    ensures Sound(s.(fds := s.fds[x := fd], loose := s.loose - {fd}))
  {
    var s' := s.(fds := s.fds[x := fd], loose := s.loose - {fd});
    assert s'.fds[x] == fd;
    forall d | d in s'.open && d !in s'.loose && d != fd
      ensures Owned(s', d)
    {
      var y :| y in s.fds && s.fds[y] == d;
      assert s'.fds[y] == d;
    }
  }

  lemma DropIsSound(s: State, x: Name)
    requires Sound(s) && x in s.fds && s.fds[x] < 0
    ensures Sound(s.(fds := s.fds - {x}))
  {
    var s' := s.(fds := s.fds - {x});
    forall d | d in s'.open && d !in s'.loose
      ensures Owned(s', d)
    {
      var y :| y in s.fds && s.fds[y] == d;
      assert s'.fds[y] == d;
    }
  }

  /** Whatever the operation, no descriptor gets a second owner and no owner a closed descriptor. */
  lemma StepIsSound(s: State, op: Op)
    requires Sound(s) && Allowed(s, op)
    ensures Sound(Step(s, op))
  {
    match op {
      case Opens(fd) =>
        forall d | d in s.open && d !in s.loose
          ensures Owned(Step(s, op), d)
        {
          var y :| y in s.fds && s.fds[y] == d;
          assert Step(s, op).fds[y] == d;
        }
      case Constructs(x, fd) => AdoptIsSound(s, x, fd);
      case MoveConstructs(x, from) =>
        ReleaseIsSound(s, from);
        AdoptIsSound(Release(s, from), x, s.fds[from]);
      case MoveAssigns(x, from) =>
        ReleaseIsSound(s, from);
        if x != from {
          ResetIsSound(Release(s, from), x, s.fds[from]);
        }
      case Releases(x) => ReleaseIsSound(s, x);
      case Resets(x, fd) => ResetIsSound(s, x, fd);
      case Destroys(x) =>
        ResetIsSound(s, x, -1);
        DropIsSound(ResetTo(s, x, -1), x);
    }
  }

  /** One operation closes at most one descriptor, it is open and owned at that moment, and never a loose one. */
  lemma StepClosesOnlyItsOwn(s: State, op: Op)
    requires Sound(s) && Allowed(s, op)
    ensures var s' := Step(s, op);
            s'.closes == s.closes
            || (exists fd :: s'.closes == s.closes + [fd] && fd in s.open && fd !in s'.open && Owned(s, fd) && fd !in s.loose)
    ensures forall fd :: fd in s.loose ==> fd in Step(s, op).open
  {
    var s' := Step(s, op);
    if s'.closes != s.closes {
      var fd := s.fds[op.x];
      assert s'.closes == s.closes + [fd];
    }
  }

  /** A destructor closes what its object holds, exactly if it holds something, and removes the object. */
  lemma DestructorsClose(s: State, x: Name)
    requires x in s.fds
    ensures var s' := Step(s, Destroys(x));
            && s'.fds == s.fds - {x}
            && s'.closes == (if s.fds[x] >= 0 then s.closes + [s.fds[x]] else s.closes)
            && s'.open == (if s.fds[x] >= 0 then s.open - {s.fds[x]} else s.open)
  {
  }

  /** A descriptor has no owner only if it is new, had none before, or was given up by release(). */
  lemma LooseOnlyByRelease(s: State, op: Op, fd: int)
    requires Sound(s) && Allowed(s, op) && fd in Step(s, op).loose
    ensures fd in s.loose || op == Opens(fd) || (op.Releases? && s.fds[op.x] == fd)
    ensures !Adopts(op, fd)
  {
  }

  // The object takes over a descriptor that the caller hands to it.
  predicate Adopts(op: Op, fd: int) {
    fd >= 0 && ((op.Constructs? && op.fd == fd) || (op.Resets? && op.fd == fd))
  }

  // ---- Whole programs ----

  ghost predicate Runs(s: State, program: seq<Op>, end: State)
    decreases |program|
  {
    if program == [] then end == s
    else Allowed(s, program[0]) && Runs(Step(s, program[0]), program[1..], end)
  }

  function Count(events: seq<int>, fd: int): nat {
    if events == [] then 0
    else Count(events[..|events| - 1], fd) + (if events[|events| - 1] == fd then 1 else 0)
  }

  function OpensOf(program: seq<Op>, fd: int): nat {
    if program == [] then 0
    else (if program[0].Opens? && program[0].fd == fd then 1 else 0) + OpensOf(program[1..], fd)
  }

  lemma StepConserves(s: State, op: Op, fd: int)
    requires Sound(s) && Allowed(s, op)
    ensures (if fd in Step(s, op).open then 1 else 0) + Count(Step(s, op).closes, fd)
         == (if fd in s.open then 1 else 0) + Count(s.closes, fd) + (if op == Opens(fd) then 1 else 0)
  {
    var s' := Step(s, op);
    if s'.closes != s.closes {
      var closed := s.fds[op.x];
      assert s'.closes == s.closes + [closed];
      assert s'.closes[..|s.closes|] == s.closes;
    }
  }

  // In this program the last thing that concerned the ownership of `fd` was its open or its release(): since then
  // no object has taken it over. `was` says so of what went before.
  ghost predicate Unclaimed(s: State, program: seq<Op>, fd: int, was: bool)
    decreases |program|
  {
    if program == [] || !Allowed(s, program[0]) then was
    else Unclaimed(Step(s, program[0]), program[1..], fd, UnclaimedAfter(s, program[0], fd, was))
  }

  predicate UnclaimedAfter(s: State, op: Op, fd: int, was: bool)
    requires Allowed(s, op)
  {
    if Adopts(op, fd) then false
    else was || op == Opens(fd) || (op.Releases? && s.fds[op.x] == fd)
  }

  lemma {:induction false} LooseIsUnclaimed(s: State, program: seq<Op>, end: State, fd: int, was: bool)
    requires Sound(s) && Runs(s, program, end) && (fd in s.loose ==> was) && fd in end.loose
    ensures Unclaimed(s, program, fd, was)
    decreases |program|
  {
    if program != [] {
      var next := Step(s, program[0]);
      StepIsSound(s, program[0]);
      if fd in next.loose {
        LooseOnlyByRelease(s, program[0], fd);
      }
      LooseIsUnclaimed(next, program[1..], end, fd, UnclaimedAfter(s, program[0], fd, was));
    }
  }

  /**
   Over any program, every descriptor number is closed exactly as often as it was opened, save the one time it
   may still be open; and what is open at the end has exactly one owner, or none has taken it over since its open
   or its release().
   */
  lemma {:induction false} EachOpenIsClosedOnce(s: State, program: seq<Op>, end: State, fd: int)
    requires Sound(s) && Runs(s, program, end)
    ensures Sound(end)
    ensures (if fd in end.open then 1 else 0) + Count(end.closes, fd)
         == (if fd in s.open then 1 else 0) + Count(s.closes, fd) + OpensOf(program, fd)
    ensures fd in end.open ==> Owned(end, fd) || Unclaimed(s, program, fd, fd in s.loose)
    decreases |program|
  {
    if fd in end.loose {
      LooseIsUnclaimed(s, program, end, fd, fd in s.loose);
    }
    if program != [] {
      var next := Step(s, program[0]);
      StepIsSound(s, program[0]);
      StepConserves(s, program[0], fd);
      EachOpenIsClosedOnce(next, program[1..], end, fd);
    }
  }

  /**
   No leak: once every object is destroyed, a descriptor that is still open was never taken over by an object after
   its open, or was given up by release(); every other one was closed as often as it was opened.
   */
  lemma NothingLeaks(program: seq<Op>, end: State)
    requires Runs(State(map[], {}, {}, []), program, end) && end.fds == map[]
    ensures forall fd :: fd in end.open ==> Unclaimed(State(map[], {}, {}, []), program, fd, false)
    ensures forall fd :: fd !in end.open ==> Count(end.closes, fd) == OpensOf(program, fd)
  {
    var start := State(map[], {}, {}, []);
    EachOpenIsClosedOnce(start, program, end, 0);
    forall fd | fd in end.open
      ensures Unclaimed(start, program, fd, false)
    {
      LooseIsUnclaimed(start, program, end, fd, false);
    }
    forall fd | fd !in end.open
      ensures Count(end.closes, fd) == OpensOf(program, fd)
    {
      EachOpenIsClosedOnce(start, program, end, fd);
    }
  }
}
