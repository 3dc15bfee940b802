/** The borrowed object pool: what each critical section does, and what all interleavings of clients keep. */
module ObjectPool {

  // ---------------------------------------------------------------- the state behind the mutex

  type Item = nat

  datatype Core = Core(maxSize: nat, objects: seq<Item>, allocatedSize: nat, borrowedSize: nat)

  /** How the first part of a borrow ends. */
  datatype Attempt = Got(item: Item) | MustWait

  predicate CanAllocate(core: Core) {
    core.maxSize == 0 || core.allocatedSize < core.maxSize
  }

  function Take(core: Core): Core
    requires core.objects != []
  {
    core.(objects := core.objects[..|core.objects| - 1], borrowedSize := core.borrowedSize + 1)
  }

  function Last(core: Core): Item
    requires core.objects != []
  {
    core.objects[|core.objects| - 1]
  }

  function Allocate(core: Core): Core {
    core.(allocatedSize := core.allocatedSize + 1, borrowedSize := core.borrowedSize + 1)
  }

  /** `--borrowed_objects_size` on an unsigned 64-bit counter. */
  function Decrement(size: nat): nat {
    if size == 0 then 0xFFFF_FFFF_FFFF_FFFF else size - 1
  }

  function GiveBack(core: Core, item: Item): Core {
    core.(objects := core.objects + [item], borrowedSize := Decrement(core.borrowedSize))
  }

  function Drop(core: Core): Core {
    core.(borrowedSize := if core.borrowedSize > 0 then core.borrowedSize - 1 else 0,
          allocatedSize := if core.allocatedSize > 0 then core.allocatedSize - 1 else 0)
  }

  function Cleared(core: Core): Core {
    core.(objects := [], allocatedSize := 0, borrowedSize := 0)
  }

  class Pool {
    const maxSize: nat
    var objects: seq<Item>
    var allocatedSize: nat
    var borrowedSize: nat

    ghost function State(): Core
      reads this
    {
      Core(maxSize, objects, allocatedSize, borrowedSize)
    }

    constructor (maxSize: nat)
      ensures State() == Core(maxSize, [], 0, 0)
    {
      this.maxSize := maxSize;
      objects, allocatedSize, borrowedSize := [], 0, 0;
    }

    method BorrowFromObjects() returns (item: Item)
      requires objects != []
      modifies this
      ensures State() == Take(old(State())) && item == Last(old(State()))
    {
      item := objects[|objects| - 1];
      objects := objects[..|objects| - 1];
      borrowedSize := borrowedSize + 1;
    }

    method AllocateObjectForBorrowing()
      modifies this
      ensures State() == Allocate(old(State()))
    {
      allocatedSize := allocatedSize + 1;
      borrowedSize := borrowedSize + 1;
    }

    /** The critical section of a borrow up to the wait; `made` is what the factory returns if it is called. */
    method BeginBorrow(made: Item) returns (r: Attempt)
      modifies this
      ensures old(objects) != [] ==> State() == Take(old(State())) && r == Got(Last(old(State())))
      ensures old(objects) == [] && CanAllocate(old(State())) ==> State() == Allocate(old(State())) && r == Got(made)
      ensures old(objects) == [] && !CanAllocate(old(State())) ==> State() == old(State()) && r == MustWait
    {
      if objects != [] {
        var item := BorrowFromObjects();
        return Got(item);
      }
      var hasUnlimitedSize := maxSize == 0;
      if hasUnlimitedSize || allocatedSize < maxSize {
        AllocateObjectForBorrowing();
        return Got(made);
      }
      r := MustWait;
    }

    /** The critical section after a wake-up: the wait's condition, then the object. */
    method ResumeBorrow() returns (r: Attempt)
      modifies this
      ensures old(objects) != [] ==> State() == Take(old(State())) && r == Got(Last(old(State())))
      ensures old(objects) == [] ==> State() == old(State()) && r == MustWait
    {
      if objects == [] {
        return MustWait;
      }
      var item := BorrowFromObjects();
      r := Got(item);
    }

    method ReturnObject(item: Item)
      modifies this
      ensures State() == GiveBack(old(State()), item)
    {
      objects := objects + [item];
      borrowedSize := Decrement(borrowedSize);
    }

    method RemoveObject()
      modifies this
      ensures State() == Drop(old(State()))
    {
      if borrowedSize > 0 {
        borrowedSize := borrowedSize - 1;
      }
      if allocatedSize > 0 {
        allocatedSize := allocatedSize - 1;
      }
    }

    method ClearUp()
      modifies this
      ensures State() == Cleared(old(State()))
    {
      allocatedSize := 0;
      borrowedSize := 0;
      while objects != []
        invariant allocatedSize == 0 && borrowedSize == 0
        decreases |objects|
      {
        objects := objects[..|objects| - 1];
      }
    }
  }

  // ---------------------------------------------------------------- clients, waiters, notifications

  type Client = nat

  /** The pool with its clients.
      `held` pairs a client with each item it holds; `waiting` clients are blocked and not notified; `awake` ones
      have left the condition variable and are about to check it; `notifying` ones have returned an object and not
      yet called notify_one; `timed` marks the waits that may give up; `live` are the objects made and not destroyed. */
  datatype System = System(core: Core, held: set<(Client, Item)>, waiting: set<Client>, awake: set<Client>,
                           notifying: set<Client>, timed: set<Client>, live: set<Item>, made: nat)

  ghost predicate Running(s: System, c: Client) {
    c !in s.waiting && c !in s.awake && c !in s.notifying
  }

  datatype Step =
    | Borrow(c: Client, timeout: bool)
    | Return(c: Client, item: Item)
    | Notify(c: Client, woken: set<Client>)
    | Wake(c: Client)
    | Resume(c: Client)
    | GiveUp(c: Client)
    | Remove(c: Client, item: Item)
    | ClearUp

  ghost predicate Enabled(s: System, step: Step) {
    match step
    case Borrow(c, _) => Running(s, c)
    case Return(c, item) => Running(s, c) && (c, item) in s.held
    // notify_one releases one waiting client, if there is any
    case Notify(c, woken) =>
      c in s.notifying && woken <= s.waiting && |woken| <= 1 && (woken == {} ==> s.waiting == {})
    // a spurious wake-up, or the end of a timed wait
    case Wake(c) => c in s.waiting
    case Resume(c) => c in s.awake
    case GiveUp(c) => c in s.awake && c in s.timed && s.core.objects == []
    case Remove(c, item) => Running(s, c) && (c, item) in s.held
    case ClearUp => s.held == {}
  }

  ghost function Apply(s: System, step: Step): System
    requires Enabled(s, step)
  {
    match step
    case Borrow(c, timeout) =>
      if s.core.objects != [] then s.(core := Take(s.core), held := s.held + {(c, Last(s.core))})
      else if CanAllocate(s.core) then 
        s.(core := Allocate(s.core), held := s.held + {(c, s.made)}, live := s.live + {s.made}, made := s.made + 1)
      else s.(waiting := s.waiting + {c}, timed := if timeout then s.timed + {c} else s.timed - {c})
    case Return(c, item) =>
      s.(core := GiveBack(s.core, item), held := s.held - {(c, item)}, notifying := s.notifying + {c})
    case Notify(c, woken) =>
      s.(notifying := s.notifying - {c}, waiting := s.waiting - woken, awake := s.awake + woken)
    case Wake(c) => s.(waiting := s.waiting - {c}, awake := s.awake + {c})
    case Resume(c) =>
      if s.core.objects != [] then
        s.(core := Take(s.core), held := s.held + {(c, Last(s.core))}, awake := s.awake - {c})
      else s.(awake := s.awake - {c}, waiting := s.waiting + {c})
    case GiveUp(c) => s.(awake := s.awake - {c})
    case Remove(c, item) => s.(core := Drop(s.core), held := s.held - {(c, item)}, live := s.live - {item})
    case ClearUp => s.(core := Cleared(s.core), live := {})
  }

  // ---------------------------------------------------------------- the invariant

  ghost predicate Idle(s: System, o: Item) {
    o in s.core.objects
  }

  ghost predicate Holds(s: System, c: Client, o: Item) {
    (c, o) in s.held
  }

  ghost predicate Distinct(objects: seq<Item>) {
    forall i, j :: 0 <= i < j < |objects| ==> objects[i] != objects[j]
  }

  /** Every object is idle once or held by one client, never both. */
  ghost predicate OnePlace(s: System) {
    && Distinct(s.core.objects)
    && (forall o :: o in s.live ==> o < s.made && (Idle(s, o) || exists c :: Holds(s, c, o)))
    && (forall o :: Idle(s, o) ==> o in s.live)
    && (forall c, o :: Holds(s, c, o) ==> o in s.live && !Idle(s, o))
    && (forall c, d, o :: Holds(s, c, o) && Holds(s, d, o) ==> c == d)
  }

  ghost predicate Counted(s: System) {
    && s.core.borrowedSize == |s.held|
    && s.core.allocatedSize == s.core.borrowedSize + |s.core.objects|
    && (s.core.maxSize > 0 ==> s.core.allocatedSize <= s.core.maxSize)
  }

  /** A client is in one phase at a time, and only a limited pool makes clients wait. */
  ghost predicate OnePhase(s: System) {
    && s.waiting !! s.awake && s.waiting !! s.notifying && s.awake !! s.notifying
    && (s.waiting + s.awake != {} ==> s.core.maxSize > 0)
  }

  /** While a client waits un-notified, every idle object has a notification of its own on the way. */
  ghost predicate NoLostWakeup(s: System) {
    s.waiting != {} ==> |s.core.objects| <= |s.notifying| + |s.awake|
  }

  ghost predicate Inv(s: System) {
    OnePlace(s) && Counted(s) && OnePhase(s) && NoLostWakeup(s)
  }

  ghost predicate Init(s: System) {
    s.core == Core(s.core.maxSize, [], 0, 0) && s.held == {} && s.waiting == {} && s.awake == {} && s.notifying == {}
    && s.live == {}
  }

  lemma InitInv(s: System)
    requires Init(s)
    ensures Inv(s)
  {
  }

  lemma TakeOnePlace(s: System, t: System, c: Client)
    requires OnePlace(s) && s.core.objects != []
    requires t.core == Take(s.core) && t.held == s.held + {(c, Last(s.core))} && t.live == s.live && t.made == s.made
    ensures OnePlace(t)
  {
    var last := Last(s.core);
    assert s.core.objects == t.core.objects + [last];
    assert forall o :: Idle(s, o) <==> Idle(t, o) || o == last;
    assert forall d, o :: Holds(t, d, o) <==> Holds(s, d, o) || (d == c && o == last);
    assert Holds(t, c, last);
  }

  lemma AllocateOnePlace(s: System, t: System, c: Client)
    requires OnePlace(s)
    requires t.core == Allocate(s.core) && t.held == s.held + {(c, s.made)} && t.live == s.live + {s.made} && t.made == s.made + 1
    ensures OnePlace(t)
  {
    assert forall o :: Idle(s, o) <==> Idle(t, o);
    assert forall d, o :: Holds(t, d, o) <==> Holds(s, d, o) || (d == c && o == s.made);
    assert Holds(t, c, s.made);
  }

  lemma GiveBackOnePlace(s: System, t: System, c: Client, item: Item)
    requires OnePlace(s) && Holds(s, c, item)
    requires t.core == GiveBack(s.core, item) && t.held == s.held - {(c, item)} && t.live == s.live && t.made == s.made
    ensures OnePlace(t)
  {
    assert forall o :: Idle(t, o) <==> Idle(s, o) || o == item;
    assert forall d, o :: Holds(t, d, o) <==> Holds(s, d, o) && o != item;
  }

  lemma RemoveOnePlace(s: System, t: System, c: Client, item: Item)
    requires OnePlace(s) && Holds(s, c, item)
    requires t.core == Drop(s.core) && t.held == s.held - {(c, item)} && t.live == s.live - {item} && t.made == s.made
    ensures OnePlace(t)
  {
    assert forall o :: Idle(t, o) <==> Idle(s, o);
    assert forall d, o :: Holds(t, d, o) <==> Holds(s, d, o) && o != item;
  }

  lemma SameOnePlace(s: System, t: System)
    requires OnePlace(s)
    requires t.core == s.core && t.held == s.held && t.live == s.live && t.made == s.made
    ensures OnePlace(t)
  {
    assert forall o :: Idle(t, o) <==> Idle(s, o);
    assert forall d, o :: Holds(t, d, o) <==> Holds(s, d, o);
  }

  lemma StepOnePlace(s: System, step: Step)
    requires OnePlace(s) && Enabled(s, step)
    ensures OnePlace(Apply(s, step))
  {
    var t := Apply(s, step);
    match step
    case Borrow(c, _) =>
      if s.core.objects != [] {
        TakeOnePlace(s, t, c);
      } else if CanAllocate(s.core) {
        AllocateOnePlace(s, t, c);
      } else {
        SameOnePlace(s, t);
      }
    case Return(c, item) =>
      GiveBackOnePlace(s, t, c, item);
    case Resume(c) =>
      if s.core.objects != [] {
        TakeOnePlace(s, t, c);
      } else {
        SameOnePlace(s, t);
      }
    case Remove(c, item) =>
      RemoveOnePlace(s, t, c, item);
    case ClearUp =>
    case _ =>
      SameOnePlace(s, t);
  }

  lemma StepCounted(s: System, step: Step)
    requires OnePlace(s) && Counted(s) && Enabled(s, step)
    ensures Counted(Apply(s, step))
  {
    if step.Borrow? || step.Resume? {
      if s.core.objects != [] {
        assert Idle(s, Last(s.core)) && !Holds(s, step.c, Last(s.core));
      } else {
        assert !Holds(s, step.c, s.made);
      }
    }
  }

  lemma StepOnePhase(s: System, step: Step)
    requires OnePhase(s) && Enabled(s, step)
    ensures OnePhase(Apply(s, step))
  {
    hide Take, Last, Allocate, GiveBack, Drop, Cleared;
    KeepsMaxSize(s, step);
  }

  lemma KeepsMaxSize(s: System, step: Step)
    requires Enabled(s, step)
    ensures Apply(s, step).core.maxSize == s.core.maxSize
  {
  }

  lemma StepNoLostWakeup(s: System, step: Step)
    requires OnePhase(s) && NoLostWakeup(s) && Enabled(s, step)
    ensures NoLostWakeup(Apply(s, step))
  {
  }

  /** Every step of every client keeps the invariant. */
  lemma StepInv(s: System, step: Step)
    requires Inv(s) && Enabled(s, step)
    ensures Inv(Apply(s, step))
  {
    hide OnePlace, Counted, OnePhase, NoLostWakeup, Apply, Enabled;
    StepOnePlace(s, step);
    StepCounted(s, step);
    StepOnePhase(s, step);
    StepNoLostWakeup(s, step);
  }

  /** The pool's own critical section carries out the step: its state becomes that of the next system state, and a
      borrowing client gets the object that is then recorded as held, or waits. */
  method Perform(pool: Pool, ghost s: System, step: Step, made: Item) returns (r: Attempt)
    requires pool.State() == s.core && Inv(s) && Enabled(s, step) && made == s.made
    modifies pool
    ensures pool.State() == Apply(s, step).core
    ensures (step.Borrow? || step.Resume?) && r.Got? ==>
      Apply(s, step).held == s.held + {(step.c, r.item)} && step.c !in Apply(s, step).waiting
    ensures (step.Borrow? || step.Resume?) && r.MustWait? ==>
      Apply(s, step).held == s.held && step.c in Apply(s, step).waiting
  {
    r := MustWait;
    match step
    case Borrow(_, _) =>
      r := pool.BeginBorrow(made);
    case Return(_, item) =>
      pool.ReturnObject(item);
    case Resume(_) =>
      r := pool.ResumeBorrow();
    case GiveUp(_) =>
      r := pool.ResumeBorrow();
    case Remove(_, _) =>
      pool.RemoveObject();
    case ClearUp =>
      pool.ClearUp();
    case _ =>
  }

  // ---------------------------------------------------------------- whole runs

  /** The states of an interleaving, one step apart. */
  ghost predicate IsRun(states: seq<System>, steps: seq<Step>) {
    && |states| == |steps| + 1 && Init(states[0])
    && forall i :: 0 <= i < |steps| ==> Enabled(states[i], steps[i]) && states[i + 1] == Apply(states[i], steps[i])
  }

  lemma {:induction false} RunInv(states: seq<System>, steps: seq<Step>, i: nat)
    requires IsRun(states, steps) && i < |states|
    ensures Inv(states[i])
  {
    hide Inv, Apply, Enabled, Init;
    if i == 0 {
      InitInv(states[0]);
    } else {
      RunInv(states, steps, i - 1);
      StepInv(states[i - 1], steps[i - 1]);
    }
  }

  /** What the invariant means to clients, in every state of every run. */
  lemma RunSafety(states: seq<System>, steps: seq<Step>, i: nat)
    requires IsRun(states, steps) && i < |states|
    ensures forall o :: o in states[i].live ==> (Idle(states[i], o) <==> !exists c :: Holds(states[i], c, o))
    ensures forall c, d, o :: Holds(states[i], c, o) && Holds(states[i], d, o) ==> c == d
    ensures states[i].core.allocatedSize == |states[i].held| + |states[i].core.objects|
    ensures states[i].core.borrowedSize == |states[i].held|
    ensures states[i].core.maxSize > 0 ==> states[i].core.allocatedSize <= states[i].core.maxSize
    ensures states[i].waiting != {} && states[i].notifying == {} && states[i].awake == {} ==> states[i].core.objects == []
  {
    hide IsRun;
    RunInv(states, steps, i);
  }

  /** `returnObject` never wraps its counter. */
  lemma NoUnderflow(s: System, step: Step)
    requires Inv(s) && Enabled(s, step) && (step.Return? || step.Remove?)
    ensures s.core.borrowedSize > 0 && s.core.allocatedSize > 0
  {
    assert Holds(s, step.c, step.item);
    if s.held == {} {
      assert false;
    }
  }

  // ---------------------------------------------------------------- waiting at a pool that is not full

  ghost predicate Blocked(s: System) {
    s.waiting + s.awake != {}
  }

  /** Clients are blocked only while the pool is full. */
  ghost predicate FullWhileBlocked(s: System) {
    Blocked(s) ==> s.core.allocatedSize == s.core.maxSize
  }

  /** A step keeps this if and only if it does not shrink the pool under blocked clients. */
  lemma FullWhileBlockedExactly(s: System, step: Step)
    requires Inv(s) && FullWhileBlocked(s) && Enabled(s, step)
    ensures FullWhileBlocked(Apply(s, step)) <==> !ShrinksUnderBlocked(s, step)
  {
    hide OnePlace, NoLostWakeup;
    StepInv(s, step);
    if step.Remove? {
      NoUnderflow(s, step);
    }
  }

  ghost predicate ShrinksUnderBlocked(s: System, step: Step) {
    (step.Remove? || step.ClearUp?) && Blocked(s)
  }

  lemma {:induction false} StaysFullWhileBlocked(states: seq<System>, steps: seq<Step>, i: nat)
    requires IsRun(states, steps) && i < |states|
    requires forall j :: 0 <= j < |steps| ==> !ShrinksUnderBlocked(states[j], steps[j])
    ensures FullWhileBlocked(states[i])
  {
    hide Apply, Enabled, Inv;
    if i > 0 {
      StaysFullWhileBlocked(states, steps, i - 1);
      RunInv(states, steps, i - 1);
      FullWhileBlockedExactly(states[i - 1], steps[i - 1]);
    }
  }

  /** Clients are blocked only at a full pool throughout a run if and only if the run has no such step. */
  lemma RunFullWhileBlocked(states: seq<System>, steps: seq<Step>)
    requires IsRun(states, steps)
    ensures (forall i :: 0 <= i < |states| ==> FullWhileBlocked(states[i]))
      <==> (forall j :: 0 <= j < |steps| ==> !ShrinksUnderBlocked(states[j], steps[j]))
  {
    hide Apply, Enabled, Inv, FullWhileBlocked;
    if forall i :: 0 <= i < |states| ==> FullWhileBlocked(states[i]) {
      forall j | 0 <= j < |steps|
        ensures !ShrinksUnderBlocked(states[j], steps[j])
      {
        RunInv(states, steps, j);
        FullWhileBlockedExactly(states[j], steps[j]);
        assert FullWhileBlocked(states[j + 1]);
      }
    }
    if forall j :: 0 <= j < |steps| ==> !ShrinksUnderBlocked(states[j], steps[j]) {
      forall i | 0 <= i < |states|
        ensures FullWhileBlocked(states[i])
      {
        StaysFullWhileBlocked(states, steps, i);
      }
    }
  }

  /** In a run without such steps, clients that wait with no wake-up on the way wait for a client that holds an object. */
  lemma SomeoneHolds(states: seq<System>, steps: seq<Step>, i: nat)
    requires IsRun(states, steps) && i < |states|
    requires forall j :: 0 <= j < |steps| ==> !ShrinksUnderBlocked(states[j], steps[j])
    requires states[i].waiting != {} && states[i].awake == {} && states[i].notifying == {}
    ensures states[i].core.objects == [] && |states[i].held| == states[i].core.maxSize > 0
    ensures exists c, o :: Holds(states[i], c, o)
  {
    RunInv(states, steps, i);
    StaysFullWhileBlocked(states, steps, i);
    hide IsRun, ShrinksUnderBlocked;
    var s := states[i];
    assert s.held != {};
    var holder :| holder in s.held;
    assert Holds(s, holder.0, holder.1);
  }

  /** And once that client returns its object, any waiter that the notification wakes gets it. */
  lemma ReturnServesWaiter(s: System, c: Client, item: Item, d: Client)
    requires Inv(s) && Running(s, c) && Holds(s, c, item) && d in s.waiting && s.core.objects == []
    ensures Enabled(s, Return(c, item))
    ensures var s1 := Apply(s, Return(c, item));
      Enabled(s1, Notify(c, {d})) && var s2 := Apply(s1, Notify(c, {d}));
      Enabled(s2, Resume(d)) && Holds(Apply(s2, Resume(d)), d, item) && Running(Apply(s2, Resume(d)), d)
  {
    var s1 := Apply(s, Return(c, item));
    assert s1.core.objects == [item];
    var s2 := Apply(s1, Notify(c, {d}));
    assert Last(s2.core) == item;
    assert (d, item) in Apply(s2, Resume(d)).held;
  }

  /** A removal leaves a waiter with nobody to wake it, although an object could be allocated for it. */
  lemma StrandedWaiter() returns (states: seq<System>, steps: seq<Step>)
    ensures IsRun(states, steps)
    ensures var last := states[|states| - 1];
      last.waiting == {1} && last.awake == {} && last.notifying == {} && last.held == {} && CanAllocate(last.core)
  {
    var s0 := System(Core(1, [], 0, 0), {}, {}, {}, {}, {}, {}, 0);
    steps := [Borrow(0, false), Borrow(1, false), Remove(0, 0)];
    var s1 := Apply(s0, steps[0]);
    var s2 := Apply(s1, steps[1]);
    assert Holds(s2, 0, 0);
    var s3 := Apply(s2, steps[2]);
    states := [s0, s1, s2, s3];
  }

  // ---------------------------------------------------------------- how waits end

  /** Step `j` is the last borrow of `c` before step `i`. */
  ghost predicate LastBorrow(steps: seq<Step>, c: Client, j: nat, i: nat) {
    && j < i <= |steps| && steps[j].Borrow? && steps[j].c == c
    && forall k :: j < k < i ==> !(steps[k].Borrow? && steps[k].c == c)
  }

  /** What is known of a blocked client: its last borrow began the wait, found nothing and could not allocate, said
      whether the wait is timed, and since then the client has neither given up nor taken an object. */
  ghost predicate WaitsSince(states: seq<System>, steps: seq<Step>, c: Client, j: nat, i: nat)
    requires IsRun(states, steps)
  {
    && LastBorrow(steps, c, j, i)
    && states[j].core.objects == [] && !CanAllocate(states[j].core)
    && (c in states[i].timed <==> steps[j].timeout)
    && forall k :: j < k <= i ==> BlockedClient(states[k], c)
  }

  ghost predicate BlockedClient(s: System, c: Client) {
    c in s.waiting || c in s.awake
  }

  lemma BlockedStep(s: System, step: Step, c: Client)
    requires Enabled(s, step) && BlockedClient(Apply(s, step), c)
    ensures !BlockedClient(s, c) ==>
      step.Borrow? && step.c == c && s.core.objects == [] && !CanAllocate(s.core)
      && (c in Apply(s, step).timed <==> step.timeout)
    ensures BlockedClient(s, c) && OnePhase(s) ==>
      !(step.Borrow? && step.c == c) && (c in Apply(s, step).timed <==> c in s.timed)
  {
    hide Take, Allocate, GiveBack, Drop, Cleared, Last;
  }

  lemma {:induction false} WaitHistory(states: seq<System>, steps: seq<Step>, c: Client, i: nat) returns (j: nat)
    requires IsRun(states, steps) && i < |states| && BlockedClient(states[i], c)
    ensures WaitsSince(states, steps, c, j, i)
  {
    hide Apply, Enabled, Inv, BlockedClient, CanAllocate;
    NoneBlockedAtFirst(states[0], c);
    RunInv(states, steps, i - 1);
    InvIsOnePhase(states[i - 1]);
    BlockedStep(states[i - 1], steps[i - 1], c);
    if BlockedClient(states[i - 1], c) {
      j := WaitHistory(states, steps, c, i - 1);
    } else {
      j := i - 1;
    }
  }

  lemma NoneBlockedAtFirst(s: System, c: Client)
    requires Init(s)
    ensures !BlockedClient(s, c)
  {
  }

  lemma InvIsOnePhase(s: System)
    requires Inv(s)
    ensures OnePhase(s)
  {
  }

  /** In every run only a timed borrow gives up: the last borrow of the client was given a timeout, had to wait, and
      at the moment of giving up still nothing is idle. */
  lemma GiveUpWasTimed(states: seq<System>, steps: seq<Step>, i: nat) returns (j: nat)
    requires IsRun(states, steps) && i < |steps| && steps[i].GiveUp?
    ensures LastBorrow(steps, steps[i].c, j, i) && steps[j].timeout
    ensures states[j].core.objects == [] && !CanAllocate(states[j].core) && states[i].core.objects == []
  {
    hide Apply, Inv, CanAllocate;
    j := WaitHistory(states, steps, steps[i].c, i);
  }

  /** A client stops being blocked only by taking an object, or by giving up a timed wait. */
  lemma UnblockedStep(s: System, step: Step, c: Client)
    requires Enabled(s, step) && BlockedClient(s, c) && !BlockedClient(Apply(s, step), c)
    ensures (step == Resume(c) && s.core.objects != [] && Holds(Apply(s, step), c, Last(s.core))) || (step == GiveUp(c) && c in s.timed)
  {
  }

  lemma BorrowerRuns(s: System, step: Step)
    requires Enabled(s, step) && step.Borrow?
    ensures !BlockedClient(s, step.c)
  {
  }

  /** Hence in every run an untimed borrow that had to wait is over only once a resumption has taken an object. */
  lemma {:induction false} UntimedEndsWithObject(states: seq<System>, steps: seq<Step>, c: Client, j: nat, i: nat) returns (k: nat)
    requires IsRun(states, steps) && j < i < |states| && steps[j] == Borrow(c, false)
    requires BlockedClient(states[j + 1], c) && !BlockedClient(states[i], c)
    ensures j < k < i && steps[k] == Resume(c) && states[k].core.objects != []
    ensures Holds(states[k + 1], c, Last(states[k].core))
    ensures forall n :: j < n <= k ==> BlockedClient(states[n], c)
    decreases i
  {
    hide Apply, Enabled, Inv, BlockedClient, CanAllocate;
    if forall n :: j < n < i ==> BlockedClient(states[n], c) {
      k := i - 1;
      var b := WaitHistory(states, steps, c, k);
      BorrowerRuns(states[b], steps[b]);
      UnblockedStep(states[k], steps[k], c);
    } else {
      var n :| j < n < i && !BlockedClient(states[n], c);
      k := UntimedEndsWithObject(states, steps, c, j, n);
    }
  }

  /** A timed waiter can always leave: it wakes when its time is up and, nothing being idle, gives up. */
  lemma TimedCanLeave(s: System, c: Client)
    requires Inv(s) && c in s.waiting && c in s.timed && s.core.objects == []
    ensures Enabled(s, Wake(c)) && Enabled(Apply(s, Wake(c)), GiveUp(c))
    ensures var t := Apply(Apply(s, Wake(c)), GiveUp(c)); Running(t, c) && t.core == s.core && t.held == s.held
  {
  }

  // ---------------------------------------------------------------- idle objects are used first

  lemma GrowsOnlyWhenNoneIdle(s: System, step: Step)
    requires Inv(s) && Enabled(s, step) && Apply(s, step).core.allocatedSize > s.core.allocatedSize
    ensures step.Borrow? && s.core.objects == [] && CanAllocate(s.core)
    ensures Apply(s, step).core.allocatedSize == |Apply(s, step).held|
  {
    StepInv(s, step);
    hide OnePlace, NoLostWakeup, OnePhase;
  }

  /** In every run there are never more objects than were held at once at some time so far. */
  lemma {:induction false} NoMoreThanHeld(states: seq<System>, steps: seq<Step>, i: nat) returns (j: nat)
    requires IsRun(states, steps) && i < |states|
    ensures j <= i && states[i].core.allocatedSize <= |states[j].held|
  {
    hide Apply, Enabled, Inv;
    if i == 0 {
      j := 0;
    } else {
      RunInv(states, steps, i - 1);
      if states[i].core.allocatedSize > states[i - 1].core.allocatedSize {
        GrowsOnlyWhenNoneIdle(states[i - 1], steps[i - 1]);
        j := i;
      } else {
        j := NoMoreThanHeld(states, steps, i - 1);
      }
    }
  }

  /** A borrow waits if and only if nothing is idle and nothing may be allocated; otherwise it holds one object more. */
  lemma BorrowExactly(s: System, c: Client, timeout: bool)
    requires Inv(s) && Enabled(s, Borrow(c, timeout))
    ensures c in Apply(s, Borrow(c, timeout)).waiting <==> s.core.objects == [] && !CanAllocate(s.core)
    ensures c !in Apply(s, Borrow(c, timeout)).waiting ==>
      Running(Apply(s, Borrow(c, timeout)), c) && |Apply(s, Borrow(c, timeout)).held| == |s.held| + 1
  {
    StepCounted(s, Borrow(c, timeout));
  }

  /** What is returned is what is borrowed next, and the pool is as it was. */
  lemma ReturnThenBorrow(core: Core, item: Item)
    requires core.borrowedSize > 0
    ensures GiveBack(core, item).objects != [] && Last(GiveBack(core, item)) == item && Take(GiveBack(core, item)) == core
  {
    assert GiveBack(core, item).objects[..|core.objects|] == core.objects;
  }
}
