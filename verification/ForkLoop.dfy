/** The loop of fork over page numbers (user/lib/fork.c), one system call at a time,
    while everybody else goes on. */
module ForkLoops {
  import opened Mmu
  import opened AddressSpaces
  import opened Forks

  /** Where the parent stands in the loop: about to look at page vpn, or inside duppage
      of that page, after the first of its two calls. */
  datatype Place = Before(vpn: nat) | Inside(vpn: nat)

  ghost predicate Mapped(f: State, e: nat, vpn: nat) { (e, vpn) in f.s.maps }

  /** The loop comes to page w next: those from v on are not mapped. */
  ghost predicate NextPage(f: State, e: nat, v: nat, w: nat) {
    v <= w && Mapped(f, e, w) && forall u | v <= u < w :: !Mapped(f, e, u)
  }

  /** Every other step, by anybody: stores, fault handling, other system calls, and
      forks of others. */
  predicate IsElse(op: Op, e: nat) {
    !(op.DupChild? && op.e == e) && !(op.DupParent? && op.e == e)
  }

  /** The call unmaps or replaces a page of e, or ends it. */
  predicate ReplacesIn(op: Op, e: nat) {
    ((op.Alloc? || op.Drop?) && op.k.0 == e) || (op.Exit? && op.e == e)
  }

  /** The call takes from e a page that it has. */
  predicate TakesFrom(f: State, op: Op, e: nat) {
    ReplacesIn(op, e) && (op.Alloc? ==> op.k in f.s.maps)
  }

  /** One step of the system, seen from the loop of parent e over the pages below n.  The
      parent makes no other calls in the loop, but may be given pages where it has none
      by the refill handler; and the child is not running yet. */
  ghost predicate LoopStep(f: State, op: Op, p: Place, q: Place, e: nat, child: nat, n: nat) {
    if IsElse(op, e) then q == p && !TakesFrom(f, op, e) && !ReplacesIn(op, child)
    else match p
      case Before(v) =>
        && op.DupChild? && op.child == child && op.vpn < n && NextPage(f, e, v, op.vpn)
        && q == if NeedsCow(f.s.maps[(e, op.vpn)]) then Inside(op.vpn) else Before(op.vpn + 1)
      case Inside(v) => op.DupParent? && q == Before(v + 1)
  }

  /** A run in which e goes through the whole loop: places[i] is where it is in state i. */
  ghost predicate LoopRun(states: seq<State>, ops: seq<Op>, places: seq<Place>, e: nat, child: nat, n: nat) {
    && Run(states, ops) && Valid(states[0]) && |places| == |states|
    && places[0] == Before(0) && e !in states[0].dup
    && (forall i | 0 <= i < |ops| :: LoopStep(states[i], ops[i], places[i], places[i + 1], e, child, n))
    && places[|ops|].Before? && forall u | places[|ops|].vpn <= u < n :: !Mapped(states[|ops|], e, u)
  }

  /** No other step unmaps a page other than the handler's. */
  lemma MappedStays(f: State, op: Op, g: State, e: nat, vpn: nat)
    requires Valid(f) && Step(f, op, g) && vpn != UCOW && Mapped(f, e, vpn) && !TakesFrom(f, op, e)
    ensures Mapped(g, e, vpn)
  {
    hide Inv, Exclusive, CowIsReadOnly, HandlersOk, DupsOk, Maps, Unmap, Quiet;
    match op
    case Write(_, _, _) =>
    case Fault(d, va) => FaultFacts(f, d, va, g);
    case Copy(_) =>
    case Remap(d) => RemapFacts(f, d, g);
    case Finish(d) => FinishFacts(f, d, g);
    case DupChild(d, c, v) => DupChildFacts(f, d, c, v, g);
    case DupParent(d) => DupParentFacts(f, d, g);
    case Alloc(k, perm) => AllocFacts(f, k, perm, g);
    case Drop(k) => DropFacts(f, k, g);
    case Create(d) => CreateFacts(f, d, g);
    case Exit(d) => ExitFacts(f, d, g);
  }

  lemma {:induction false} StaysMapped(states: seq<State>, ops: seq<Op>, i: nat, e: nat, vpn: nat)
    requires Run(states, ops) && Valid(states[0]) && i <= |ops| && vpn != UCOW && Mapped(states[0], e, vpn)
    requires forall h | 0 <= h < i :: !TakesFrom(states[h], ops[h], e)
    ensures Mapped(states[i], e, vpn) && Valid(states[i])
  {
    hide Valid, Step, Mapped, EagerStep, View;
    ForkRefinesEagerCopy(states, ops, i);
    if i > 0 {
      StaysMapped(states, ops, i - 1, e, vpn);
      MappedStays(states[i - 1], ops[i - 1], states[i], e, vpn);
    }
  }

  lemma NothingReplaced(states: seq<State>, ops: seq<Op>, places: seq<Place>, e: nat, child: nat, n: nat)
    requires LoopRun(states, ops, places, e, child, n)
    ensures forall i | 0 <= i < |ops| :: !TakesFrom(states[i], ops[i], e) && !ReplacesIn(ops[i], child)
  {
    forall i | 0 <= i < |ops| ensures !TakesFrom(states[i], ops[i], e) && !ReplacesIn(ops[i], child) {
      assert LoopStep(states[i], ops[i], places[i], places[i + 1], e, child, n);
    }
  }

  /** Only the two calls of duppage change what a parent has under way. */
  lemma DupChanges(f: State, op: Op, g: State, e: nat)
    requires Step(f, op, g)
    ensures IsElse(op, e) ==> (e in g.dup <==> e in f.dup) && (e in f.dup ==> g.dup[e] == f.dup[e])
    ensures op.DupChild? && op.e == e ==>
      && (e, op.vpn) in f.s.maps && e !in f.dup
      && if NeedsCow(f.s.maps[(e, op.vpn)]) then e in g.dup && g.dup[e] == (op.child, op.vpn) else e !in g.dup
    ensures op.DupParent? && op.e == e ==> e !in g.dup
  {
    hide Maps;
  }

  /** Inside duppage of page v the child's entry v is the one under way, before it none. */
  lemma {:induction false} PlaceIsRight(states: seq<State>, ops: seq<Op>, places: seq<Place>, e: nat, child: nat, n: nat, i: nat)
    requires LoopRun(states, ops, places, e, child, n) && i <= |ops|
    ensures e in states[i].dup <==> places[i].Inside?
    ensures places[i].Inside? ==> states[i].dup[e] == (child, places[i].vpn)
  {
    hide Step, Valid;
    if i > 0 {
      PlaceIsRight(states, ops, places, e, child, n, i - 1);
      assert Step(states[i - 1], ops[i - 1], states[i]);
      assert LoopStep(states[i - 1], ops[i - 1], places[i - 1], places[i], e, child, n);
      DupChanges(states[i - 1], ops[i - 1], states[i], e);
    }
  }

  /** Once the loop is past a page that was mapped when it began, duppage of that page
      has been finished. */
  lemma {:induction false} PassedIsDone(states: seq<State>, ops: seq<Op>, places: seq<Place>, e: nat, child: nat, n: nat, i: nat, vpn: nat)
      returns (t: nat)
    requires LoopRun(states, ops, places, e, child, n) && i <= |ops| && places[i].vpn > vpn
    requires vpn != UCOW && Mapped(states[0], e, vpn)
    ensures t < i && Finishes(states[t], ops[t], (e, vpn), (child, vpn))
  {
    hide Step, Valid, Mapped;
    assert LoopStep(states[i - 1], ops[i - 1], places[i - 1], places[i], e, child, n);
    if places[i - 1].vpn > vpn {
      t := PassedIsDone(states, ops, places, e, child, n, i - 1, vpn);
    } else {
      t := i - 1;
      NothingReplaced(states, ops, places, e, child, n);
      StaysMapped(states, ops, t, e, vpn);
      PlaceIsRight(states, ops, places, e, child, n, t);
      assert Step(states[t], ops[t], states[i]);
      DupChanges(states[t], ops[t], states[i], e);
    }
  }

  predicate Unwritten(ops: seq<Op>, t: nat, j: Key) {
    forall i | t < i < |ops| :: !Writes(ops[i], j)
  }

  /** After the loop of fork the child has every page below n that the parent had when it
      began: a private one as it was in the parent at its duppage, as long as the child
      does not write it itself, and a library page as the same object. */
  lemma EveryPageIsCopied(states: seq<State>, ops: seq<Op>, places: seq<Place>, e: nat, child: nat, n: nat, vpn: nat)
      returns (t: nat)
    requires LoopRun(states, ops, places, e, child, n)
    requires vpn < n && vpn != UCOW && Mapped(states[0], e, vpn)
    ensures t < |ops| && Finishes(states[t], ops[t], (e, vpn), (child, vpn))
    ensures (e, vpn) in Own(states[t]) && Unwritten(ops, t, (child, vpn)) ==>
      (child, vpn) in Own(states[|ops|]) && Own(states[|ops|])[(child, vpn)] == Own(states[t])[(e, vpn)]
    ensures (e, vpn) !in Own(states[t]) ==>
      && (child, vpn) in Library(states[|ops|]) && (e, vpn) in Library(states[|ops|])
      && Library(states[|ops|])[(child, vpn)] == Library(states[|ops|])[(e, vpn)]
  {
    hide Valid, Step, Own, Library, Finishes, LoopStep;
    NothingReplaced(states, ops, places, e, child, n);
    StaysMapped(states, ops, |ops|, e, vpn);
    t := PassedIsDone(states, ops, places, e, child, n, |ops|, vpn);
    var k, j := (e, vpn), (child, vpn);
    forall i | t < i < |ops| ensures !Replaces(ops[i], k) { StaysMapped(states, ops, i, e, vpn); }
    if k !in Own(states[t]) {
      LibraryStaysShared(states, ops, t, |ops|, k, j);
    } else if Unwritten(ops, t, j) {
      ReadsAsAtDup(states, ops, t, |ops|, k, j, j);
    }
  }
}
