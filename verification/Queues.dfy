/** The intrusive queues of include/queue.h.  Their links are pointers into other
    structures: an element keeps the address of the cell that points to it.  Memory
    is modelled cell by cell, so that assigning through such an address is what it
    is in C. */
module Queues {

  type Node = nat        // a structure with a link field
  type Head = nat        // a queue head

  datatype Ptr = Null | Ref(node: Node)

  /** The address of a cell that holds a node pointer: the `first` field of a head
      or the `next` field of a node. */
  datatype Cell = First(head: Head) | Next(node: Node)

  /** cells: what each cell holds (lh_first, tqh_first, le_next, tqe_next);
      prev: the back-pointers (le_prev, tqe_prev); last: tqh_last.  A pointer that is
      null, as in an element that was never queued, has no entry in prev or last. */
  datatype Links = Links(cells: map<Cell, Ptr>, prev: map<Node, Cell>, last: map<Head, Cell>)

  /** The cell that holds the pointer to element i of the queue q. */
  function CellOf(h: Head, q: seq<Node>, i: nat): Cell
    requires i <= |q|
  {
    if i == 0 then First(h) else Next(q[i - 1])
  }

  /** What that cell must hold. */
  function PtrAt(q: seq<Node>, i: nat): Ptr
    requires i <= |q|
  {
    if i == |q| then Null else Ref(q[i])
  }

  ghost predicate Distinct(q: seq<Node>) {
    forall i, j | 0 <= i < j < |q| :: q[i] != q[j]
  }

  /** The links of head h spell the sequence q. */
  ghost predicate Spells(m: Links, h: Head, q: seq<Node>) {
    && Distinct(q)
    && (forall i | 0 <= i <= |q| :: CellOf(h, q, i) in m.cells && m.cells[CellOf(h, q, i)] == PtrAt(q, i))
    && (forall i | 0 <= i < |q| :: q[i] in m.prev && m.prev[q[i]] == CellOf(h, q, i))
  }

  /** A tail queue also knows the cell at its end. */
  ghost predicate IsTailq(m: Links, h: Head, q: seq<Node>) {
    Spells(m, h, q) && h in m.last && m.last[h] == CellOf(h, q, |q|)
  }

  /** The structures that the queue h owns while it holds q. */
  predicate Owns(h: Head, q: seq<Node>, c: Cell) {
    c == First(h) || (c.Next? && c.node in q)
  }

  /** Nothing outside head h and the nodes ns has changed. */
  ghost predicate Frame(m: Links, m': Links, h: Head, ns: seq<Node>) {
    && (forall c | c in m.cells && !Owns(h, ns, c) :: c in m'.cells && m'.cells[c] == m.cells[c])
    && (forall n | n in m.prev && n !in ns :: n in m'.prev && m'.prev[n] == m.prev[n])
    && (forall g | g in m.last && g != h :: g in m'.last && m'.last[g] == m.last[g])
  }

  /** Nothing outside heads h and g and the nodes ns has changed. */
  ghost predicate FrameTwo(m: Links, m': Links, h: Head, g: Head, ns: seq<Node>) {
    && (forall c | c in m.cells && !Owns(h, ns, c) && c != First(g) :: c in m'.cells && m'.cells[c] == m.cells[c])
    && (forall n | n in m.prev && n !in ns :: n in m'.prev && m'.prev[n] == m.prev[n])
    && (forall f | f in m.last && f != h && f != g :: f in m'.last && m'.last[f] == m.last[f])
  }

  function Without(q: seq<Node>, x: Node): seq<Node> {
    if q == [] then [] else if q[0] == x then q[1..] else [q[0]] + Without(q[1..], x)
  }

  lemma {:induction false} WithoutAt(q: seq<Node>, x: Node, i: nat)
    requires i < |q| && q[i] == x && x !in q[..i]
    ensures Without(q, x) == q[..i] + q[i + 1..]
  {
    if i > 0 {
      assert q[1..][..i - 1] == q[1..i] && q[..i] == [q[0]] + q[1..i];
      WithoutAt(q[1..], x, i - 1);
    }
  }

  lemma {:induction false} WithoutAbsent(q: seq<Node>, x: Node)
    requires x !in q
    ensures Without(q, x) == q
  {
    if q != [] { WithoutAbsent(q[1..], x); }
  }

  lemma CellsDiffer(h: Head, q: seq<Node>, i: nat, j: nat)
    requires Distinct(q) && i < j <= |q|
    ensures CellOf(h, q, i) != CellOf(h, q, j)
  {}

  // ----- proofs of the macros, as statements about the links before and after

  function Inserted(q: seq<Node>, k: nat, x: Node): seq<Node>
    requires k <= |q|
  {
    q[..k] + [x] + q[k..]
  }

  function Removed(q: seq<Node>, k: nat): seq<Node>
    requires k < |q|
  {
    q[..k] + q[k + 1..]
  }

  lemma InsertedCells(h: Head, q: seq<Node>, k: nat, x: Node, i: nat)
    requires k <= |q| && i <= |q| + 1
    ensures CellOf(h, Inserted(q, k, x), i) ==
      if i <= k then CellOf(h, q, i) else if i == k + 1 then Next(x) else CellOf(h, q, i - 1)
    ensures PtrAt(Inserted(q, k, x), i) ==
      if i < k then PtrAt(q, i) else if i == k then Ref(x) else PtrAt(q, i - 1)
  {}

  lemma RemovedCells(h: Head, q: seq<Node>, k: nat, i: nat)
    requires k < |q| && i < |q|
    ensures CellOf(h, Removed(q, k), i) == if i <= k then CellOf(h, q, i) else CellOf(h, q, i + 1)
    ensures PtrAt(Removed(q, k), i) == if i < k then PtrAt(q, i) else PtrAt(q, i + 1)
  {}

  lemma OutsideCells(h: Head, q: seq<Node>, x: Node, i: nat)
    requires i <= |q| && x !in q
    ensures CellOf(h, q, i) != Next(x)
  {}

  lemma InsertedAt(m: Links, h: Head, q: seq<Node>, k: nat, x: Node, m': Links)
    requires Spells(m, h, q) && k <= |q| && x !in q
    requires m'.cells == m.cells[Next(x) := PtrAt(q, k)][CellOf(h, q, k) := Ref(x)]
    requires m'.prev == (if k < |q| then m.prev[q[k] := Next(x)] else m.prev)[x := CellOf(h, q, k)]
    ensures Spells(m', h, Inserted(q, k, x))
  {
    hide CellOf, PtrAt;
    var q' := Inserted(q, k, x);
    forall i | 0 <= i <= |q'|
      ensures CellOf(h, q', i) in m'.cells && m'.cells[CellOf(h, q', i)] == PtrAt(q', i)
    {
      InsertedCells(h, q, k, x, i);
      if i < k {
        CellsDiffer(h, q, i, k);
        OutsideCells(h, q, x, i);
      } else if i == k + 1 {
        OutsideCells(h, q, x, k);
      } else if i > k + 1 {
        CellsDiffer(h, q, k, i - 1);
        OutsideCells(h, q, x, i - 1);
      }
    }
    forall i | 0 <= i < |q'| ensures q'[i] in m'.prev && m'.prev[q'[i]] == CellOf(h, q', i) {
      InsertedCells(h, q, k, x, i);
    }
  }

  lemma RemovedAt(m: Links, h: Head, q: seq<Node>, k: nat, m': Links)
    requires Spells(m, h, q) && k < |q|
    requires m'.cells == m.cells[CellOf(h, q, k) := PtrAt(q, k + 1)]
    requires m'.prev == if k + 1 < |q| then m.prev[q[k + 1] := CellOf(h, q, k)] else m.prev
    ensures Spells(m', h, Removed(q, k))
  {
    hide CellOf, PtrAt;
    var q' := Removed(q, k);
    forall i | 0 <= i <= |q'|
      ensures CellOf(h, q', i) in m'.cells && m'.cells[CellOf(h, q', i)] == PtrAt(q', i)
    {
      RemovedCells(h, q, k, i);
      if i < k { CellsDiffer(h, q, i, k); } else if i > k { CellsDiffer(h, q, k, i + 1); }
    }
    forall i | 0 <= i < |q'| ensures q'[i] in m'.prev && m'.prev[q'[i]] == CellOf(h, q', i) {
      RemovedCells(h, q, k, i);
    }
  }

  lemma InsertedTail(m: Links, h: Head, q: seq<Node>, k: nat, x: Node, m': Links)
    requires IsTailq(m, h, q) && k <= |q| && x !in q
    requires m'.cells == m.cells[Next(x) := PtrAt(q, k)][CellOf(h, q, k) := Ref(x)]
    requires m'.prev == (if k < |q| then m.prev[q[k] := Next(x)] else m.prev)[x := CellOf(h, q, k)]
    requires m'.last == if k < |q| then m.last else m.last[h := Next(x)]
    ensures IsTailq(m', h, Inserted(q, k, x))
  {
    hide Spells, CellOf, PtrAt;
    InsertedAt(m, h, q, k, x, m');
    InsertedCells(h, q, k, x, |q| + 1);
  }

  lemma RemovedTail(m: Links, h: Head, q: seq<Node>, k: nat, m': Links)
    requires IsTailq(m, h, q) && k < |q|
    requires m'.cells == m.cells[CellOf(h, q, k) := PtrAt(q, k + 1)]
    requires m'.prev == if k + 1 < |q| then m.prev[q[k + 1] := CellOf(h, q, k)] else m.prev
    requires m'.last == if k + 1 < |q| then m.last else m.last[h := CellOf(h, q, k)]
    ensures IsTailq(m', h, Removed(q, k))
  {
    hide Spells, CellOf, PtrAt;
    RemovedAt(m, h, q, k, m');
    RemovedCells(h, q, k, |q| - 1);
  }

  /** A change confined to head h and the nodes ns leaves every other queue alone. */
  lemma FrameKeepsOthers(m: Links, m': Links, h: Head, ns: seq<Node>, g: Head, q: seq<Node>)
    requires Frame(m, m', h, ns) && g != h && (forall x | x in q :: x !in ns)
    ensures Spells(m, g, q) ==> Spells(m', g, q)
    ensures IsTailq(m, g, q) ==> IsTailq(m', g, q)
  {
    forall i | 0 <= i <= |q| ensures !Owns(h, ns, CellOf(g, q, i)) {}
  }

  /** A concatenation leaves every third queue alone. */
  lemma FrameTwoKeepsOthers(m: Links, m': Links, h: Head, g: Head, ns: seq<Node>, f: Head, q: seq<Node>)
    requires FrameTwo(m, m', h, g, ns) && f != h && f != g && (forall x | x in q :: x !in ns)
    ensures Spells(m, f, q) ==> Spells(m', f, q)
    ensures IsTailq(m, f, q) ==> IsTailq(m', f, q)
  {
    forall i | 0 <= i <= |q| ensures !Owns(h, ns, CellOf(f, q, i)) && CellOf(f, q, i) != First(g) {}
  }

  lemma FrameInsert(m: Links, m': Links, h: Head, q: seq<Node>, k: nat, x: Node)
    requires k <= |q|
    requires m'.cells == m.cells[Next(x) := PtrAt(q, k)][CellOf(h, q, k) := Ref(x)]
    requires m'.prev == (if k < |q| then m.prev[q[k] := Next(x)] else m.prev)[x := CellOf(h, q, k)]
    requires m'.last == m.last || m'.last == m.last[h := Next(x)]
    ensures Frame(m, m', h, Inserted(q, k, x))
  {
    assert x in Inserted(q, k, x) by { assert Inserted(q, k, x)[k] == x; }
    assert forall y | y in q :: y in Inserted(q, k, x) by {
      forall y | y in q ensures y in Inserted(q, k, x) {
        var i :| 0 <= i < |q| && q[i] == y;
        assert Inserted(q, k, x)[if i < k then i else i + 1] == y;
      }
    }
  }

  lemma {:induction false} RemovedIsWithout(q: seq<Node>, k: nat)
    requires Distinct(q) && k < |q|
    ensures Removed(q, k) == Without(q, q[k])
  {
    forall y | y in q[..k] ensures y != q[k] {}
    WithoutAt(q, q[k], k);
  }

  /** x has been removed from the queue h, and no link that the removal looked at
      has changed since. */
  ghost predicate Detached(m: Links, h: Head, x: Node) {
    && x in m.prev && Next(x) in m.cells && m.prev[x] in m.cells && h in m.last
    && m.cells[m.prev[x]] == m.cells[Next(x)]
    && (m.cells[Next(x)].Ref? ==> m.cells[Next(x)].node in m.prev && m.prev[m.cells[Next(x)].node] == m.prev[x])
    && (m.cells[Next(x)].Null? ==> m.last[h] == m.prev[x])
  }

  /** What a macro leaves: links, or links and a store through a null pointer. */
  datatype Outcome = Done(m: Links) | Fault(m: Links)

  /** TAILQ_REMOVE of any element.  Its back-pointer is copied first, null or not, and
      then stored through. */
  function Remove(m: Links, h: Head, x: Node): (o: Outcome)
    requires Next(x) in m.cells
    ensures m.cells.Keys <= o.m.cells.Keys
  {
    if x in m.prev then Done(AfterRemove(m, h, x))
    else if m.cells[Next(x)].Ref? then Fault(m.(prev := m.prev - {m.cells[Next(x)].node}))
    else Fault(m.(last := m.last - {h}))
  }

  /** TAILQ_REMOVE on memory, with a back-pointer to store through. */
  function AfterRemove(m: Links, h: Head, x: Node): Links
    requires x in m.prev && Next(x) in m.cells
  {
    var next, prev := m.cells[Next(x)], m.prev[x];
    Links(m.cells[prev := next],
      if next.Ref? then m.prev[next.node := prev] else m.prev,
      if next.Ref? then m.last else m.last[h := prev])
  }

  /** TAILQ_INSERT_TAIL on memory. */
  function AfterInsertTail(m: Links, h: Head, x: Node): Links
    requires h in m.last
  {
    Links(m.cells[Next(x) := Null][m.last[h] := Ref(x)], m.prev[x := m.last[h]], m.last[h := Next(x)])
  }

  /** It puts the element last. */
  lemma AppendedLinks(m: Links, h: Head, q: seq<Node>, x: Node)
    requires IsTailq(m, h, q) && x !in q
    ensures IsTailq(AfterInsertTail(m, h, x), h, q + [x]) && m.cells.Keys <= AfterInsertTail(m, h, x).cells.Keys
  {
    assert m.cells[Next(x) := Null][m.last[h] := Ref(x)] == m.cells[Next(x) := PtrAt(q, |q|)][CellOf(h, q, |q|) := Ref(x)];
    InsertedTail(m, h, q, |q|, x, AfterInsertTail(m, h, x));
    assert Inserted(q, |q|, x) == q + [x];
  }

  lemma RemoveListed(m: Links, h: Head, q: seq<Node>, k: nat)
    requires Spells(m, h, q) && k < |q|
    ensures q[k] in m.prev && Next(q[k]) in m.cells
    ensures var next := m.cells[Next(q[k])];
      var prev := if next != Null then m.prev[next.node := m.prev[q[k]]] else m.prev;
      q[k] in prev && prev[q[k]] == m.prev[q[k]] &&
      var m' := Links(m.cells[m.prev[q[k]] := next], prev, m.last);
      Spells(m', h, Without(q, q[k])) && Frame(m, m', h, q)
  {
    var x := q[k];
    assert CellOf(h, q, k + 1) == Next(x);
    assert m.cells[Next(x)] == PtrAt(q, k + 1);
    CellsDiffer(h, q, k, k + 1);
    if k + 1 < |q| { assert q[k + 1] != q[k]; }
    var next := m.cells[Next(x)];
    var m' := Links(m.cells[m.prev[x] := next], if next != Null then m.prev[next.node := m.prev[x]] else m.prev, m.last);
    RemovedAt(m, h, q, k, m');
    RemovedIsWithout(q, k);
    assert Owns(h, q, CellOf(h, q, k));
  }

  lemma RemoveLinked(m: Links, h: Head, q: seq<Node>, k: nat)
    requires IsTailq(m, h, q) && k < |q|
    ensures q[k] in m.prev && Next(q[k]) in m.cells
    ensures var m' := AfterRemove(m, h, q[k]);
      IsTailq(m', h, Without(q, q[k])) && Detached(m', h, q[k]) && Frame(m, m', h, q)
  {
    var x := q[k];
    assert CellOf(h, q, k + 1) == Next(x);
    CellsDiffer(h, q, k, k + 1);
    if k + 1 < |q| { assert q[k + 1] != q[k]; }
    var m' := AfterRemove(m, h, x);
    RemovedTail(m, h, q, k, m');
    RemovedIsWithout(q, k);
    assert Owns(h, q, CellOf(h, q, k));
  }

  /** A second removal finds its work done. */
  lemma RemoveDetached(m: Links, h: Head, x: Node)
    requires Detached(m, h, x)
    ensures AfterRemove(m, h, x) == m
  {}

  lemma RemoveAny(m: Links, h: Head, x: Node, q: seq<Node>)
    requires Next(x) in m.cells
    ensures IsTailq(m, h, q) && (x in q || Detached(m, h, x)) ==>
      var o := Remove(m, h, x);
      && o.Done? && IsTailq(o.m, h, Without(q, x)) && Frame(m, o.m, h, q)
      && Detached(o.m, h, x) && (x !in q ==> o.m == m)
  {
    if IsTailq(m, h, q) && x in q {
      var k :| 0 <= k < |q| && q[k] == x;
      RemoveLinked(m, h, q, k);
    } else if IsTailq(m, h, q) && Detached(m, h, x) {
      RemoveDetached(m, h, x);
      WithoutAbsent(q, x);
    }
  }

  /** What the stale links of x say agrees with the queue wherever they reach into it. */
  ghost predicate StaleAgrees(m: Links, h: Head, q: seq<Node>, x: Node)
    requires Next(x) in m.cells && IsTailq(m, h, q)
  {
    x in m.prev &&
    var next, prev := m.cells[Next(x)], m.prev[x];
    && (next.Ref? && next.node in q ==> m.prev[next.node] == prev)
    && (next.Null? ==> m.last[h] == prev)
    && (forall i | 0 <= i <= |q| && CellOf(h, q, i) == prev :: m.cells[prev] == next)
  }

  /** Removing an element that is not in the queue is harmless exactly when it has been
      in a queue before and its stale links agree. */
  lemma StaleRemoveIff(m: Links, h: Head, q: seq<Node>, x: Node)
    requires IsTailq(m, h, q) && x !in q && Next(x) in m.cells
    ensures Remove(m, h, x).Done? && IsTailq(Remove(m, h, x).m, h, q) <==> StaleAgrees(m, h, q, x)
  {
    if x in m.prev {
      var next, prev := m.cells[Next(x)], m.prev[x];
      var m' := AfterRemove(m, h, x);
      if IsTailq(m', h, q) {
        if next.Ref? && next.node in q {
          var i :| 0 <= i < |q| && q[i] == next.node;
          assert m'.prev[q[i]] == CellOf(h, q, i) == m.prev[q[i]];
        }
        forall i | 0 <= i <= |q| && CellOf(h, q, i) == prev ensures m.cells[prev] == next {
          assert m'.cells[CellOf(h, q, i)] == PtrAt(q, i) == m.cells[CellOf(h, q, i)];
        }
      }
    }
  }

  /** An element that was never in a queue: its links are zero. */
  predicate NeverQueued(m: Links, x: Node) {
    x !in m.prev && Next(x) in m.cells && m.cells[Next(x)] == Null
  }

  /** Removing such an element takes the end of the queue away and stores through null. */
  lemma NeverQueuedFaults(m: Links, h: Head, q: seq<Node>, x: Node)
    requires IsTailq(m, h, q) && NeverQueued(m, x)
    ensures x !in q && Remove(m, h, x).Fault? && h !in Remove(m, h, x).m.last
    ensures forall p :: !IsTailq(Remove(m, h, x).m, h, p)
  {}

  /** What the links say behind element k. */
  lemma AfterElement(m: Links, h: Head, q: seq<Node>, k: nat, x: Node)
    requires Spells(m, h, q) && k < |q| && x !in q
    ensures q[k] != x && CellOf(h, q, k + 1) == Next(q[k]) && Next(q[k]) in m.cells
    ensures m.cells[Next(q[k])] == PtrAt(q, k + 1) == if k + 1 < |q| then Ref(q[k + 1]) else Null
  {
    assert m.cells[CellOf(h, q, k + 1)] == PtrAt(q, k + 1);
  }

  /** LIST_INSERT_AFTER and TAILQ_INSERT_AFTER on memory; the latter also moves the
      end of the queue when there is no next element. */
  function AfterInsertAfter(m: Links, listelm: Node, x: Node): Links
    requires Next(listelm) in m.cells
  {
    var next := m.cells[Next(listelm)];
    Links(m.cells[Next(x) := next][Next(listelm) := Ref(x)],
      (if next.Ref? then m.prev[next.node := Next(x)] else m.prev)[x := Next(listelm)], m.last)
  }

  lemma InsertAfterLinks(m: Links, h: Head, q: seq<Node>, k: nat, x: Node)
    requires Spells(m, h, q) && k < |q| && x !in q
    ensures Next(q[k]) in m.cells && q[k] != x
    ensures var m' := AfterInsertAfter(m, q[k], x);
      Spells(m', h, Inserted(q, k + 1, x)) && Frame(m, m', h, Inserted(q, k + 1, x))
    ensures IsTailq(m, h, q) ==>
      var m' := AfterInsertAfter(m, q[k], x);
      var t := if m.cells[Next(q[k])].Ref? then m' else m'.(last := m.last[h := Next(x)]);
      IsTailq(t, h, Inserted(q, k + 1, x)) && Frame(m, t, h, Inserted(q, k + 1, x))
  {
    AfterElement(m, h, q, k, x);
    hide Spells, Frame, Inserted, CellOf, PtrAt;
    var m' := AfterInsertAfter(m, q[k], x);
    InsertedAt(m, h, q, k + 1, x, m');
    FrameInsert(m, m', h, q, k + 1, x);
    if IsTailq(m, h, q) {
      var t := if m.cells[Next(q[k])].Ref? then m' else m'.(last := m.last[h := Next(x)]);
      InsertedTail(m, h, q, k + 1, x, t);
      FrameInsert(m, t, h, q, k + 1, x);
    }
  }

  lemma ConcatCells(h: Head, g: Head, q: seq<Node>, p: seq<Node>, i: nat)
    requires i <= |q| + |p|
    ensures CellOf(h, q + p, i) ==
      if i <= |q| then CellOf(h, q, i) else CellOf(g, p, i - |q|)
    ensures PtrAt(q + p, i) == if i < |q| then PtrAt(q, i) else PtrAt(p, i - |q|)
  {}

  lemma CellsApart(h: Head, g: Head, q: seq<Node>, p: seq<Node>, i: nat, j: nat)
    requires h != g && (forall x | x in p :: x !in q) && i <= |q| && j <= |p|
    ensures CellOf(h, q, i) != CellOf(g, p, j)
  {
    if i > 0 && j > 0 { assert p[j - 1] in p; }
  }

  /** The links after TAILQ_CONCAT of a non-empty queue g to queue h. */
  lemma Concatenated(m: Links, h: Head, g: Head, q: seq<Node>, p: seq<Node>, m': Links)
    requires h != g && IsTailq(m, h, q) && IsTailq(m, g, p) && p != [] && (forall x | x in p :: x !in q)
    requires m'.cells == m.cells[CellOf(h, q, |q|) := Ref(p[0])][First(g) := Null]
    requires m'.prev == m.prev[p[0] := CellOf(h, q, |q|)]
    requires m'.last == m.last[h := CellOf(g, p, |p|)][g := First(g)]
    ensures IsTailq(m', h, q + p) && IsTailq(m', g, [])
  {
    hide CellOf, PtrAt;
    FirstCell(g, p);
    forall i, j | 0 <= i < j < |q + p| ensures (q + p)[i] != (q + p)[j] {
      if i < |q| <= j { assert p[j - |q|] in p; }
    }
    forall i | 0 <= i <= |q + p|
      ensures CellOf(h, q + p, i) in m'.cells && m'.cells[CellOf(h, q + p, i)] == PtrAt(q + p, i)
    {
      ConcatCells(h, g, q, p, i);
      if i <= |q| { CellsApart(h, g, q, p, i, 0); }
      if i < |q| {
        CellsDiffer(h, q, i, |q|);
      } else if i > |q| {
        CellsDiffer(g, p, 0, i - |q|);
        CellsApart(h, g, q, p, |q|, i - |q|);
      }
    }
    forall i | 0 <= i < |q + p| ensures (q + p)[i] in m'.prev && m'.prev[(q + p)[i]] == CellOf(h, q + p, i) {
      ConcatCells(h, g, q, p, i);
    }
    ConcatCells(h, g, q, p, |q| + |p|);
    FirstCell(g, []);
  }

  lemma FirstCell(g: Head, p: seq<Node>)
    ensures CellOf(g, p, 0) == First(g) && PtrAt(p, 0) == if p == [] then Null else Ref(p[0])
  {}

  function NextCells(nodes: nat): set<Cell> {
    set x | 0 <= x < nodes :: Next(x)
  }

  /** The memory the macros work on. */
  class LinkMemory {
    var cells: map<Cell, Ptr>
    var prev: map<Node, Cell>
    var last: map<Head, Cell>

    /** Zeroed memory for some elements. */
    constructor (nodes: nat)
      ensures prev == map[] && last == map[]
      ensures forall x | 0 <= x < nodes :: NeverQueued(View(), x)
    {
      cells, prev, last := map c | c in NextCells(nodes) :: Null, map[], map[];
    }

    function View(): Links
      reads this
    {
      Links(cells, prev, last)
    }

    /** LIST_INSERT_HEAD */
    method ListInsertHead(h: Head, x: Node, ghost q: seq<Node>)
      requires Spells(View(), h, q) && x !in q
      modifies this
      ensures Spells(View(), h, [x] + q) && Frame(old(View()), View(), h, [x] + q)
    {
      assert cells[CellOf(h, q, 0)] == PtrAt(q, 0);
      cells := cells[Next(x) := cells[First(h)]];
      if cells[Next(x)] != Null {
        prev := prev[cells[Next(x)].node := Next(x)];
      }
      cells := cells[First(h) := Ref(x)];
      prev := prev[x := First(h)];
      InsertedAt(old(View()), h, q, 0, x, View());
      FrameInsert(old(View()), View(), h, q, 0, x);
      assert Inserted(q, 0, x) == [x] + q;
    }

    /** LIST_INSERT_AFTER */
    method ListInsertAfter(h: Head, listelm: Node, x: Node, ghost q: seq<Node>, ghost k: nat)
      requires Spells(View(), h, q) && x !in q && k < |q| && q[k] == listelm
      modifies this
      ensures Spells(View(), h, Inserted(q, k + 1, x)) && Frame(old(View()), View(), h, Inserted(q, k + 1, x))
    {
      InsertAfterLinks(View(), h, q, k, x);
      hide Spells, Frame, Inserted, CellOf, PtrAt;
      cells := cells[Next(x) := cells[Next(listelm)]];
      if cells[Next(x)] != Null {
        prev := prev[cells[Next(listelm)].node := Next(x)];
      }
      cells := cells[Next(listelm) := Ref(x)];
      prev := prev[x := Next(listelm)];
    }

    /** LIST_INSERT_BEFORE and TAILQ_INSERT_BEFORE: the same assignments. */
    method InsertBefore(h: Head, listelm: Node, x: Node, ghost q: seq<Node>, ghost k: nat)
      requires Spells(View(), h, q) && x !in q && k < |q| && q[k] == listelm
      modifies this
      ensures Spells(View(), h, Inserted(q, k, x)) && Frame(old(View()), View(), h, Inserted(q, k, x))
      ensures old(IsTailq(View(), h, q)) ==> IsTailq(View(), h, Inserted(q, k, x))
    {
      prev := prev[x := prev[listelm]];
      cells := cells[Next(x) := Ref(listelm)];
      cells := cells[prev[listelm] := Ref(x)];
      prev := prev[listelm := Next(x)];
      InsertedAt(old(View()), h, q, k, x, View());
      FrameInsert(old(View()), View(), h, q, k, x);
      if old(IsTailq(View(), h, q)) { InsertedTail(old(View()), h, q, k, x, View()); }
    }

    /** LIST_REMOVE */
    method ListRemove(h: Head, x: Node, ghost q: seq<Node>)
      requires Spells(View(), h, q) && x in q
      modifies this
      ensures Spells(View(), h, Without(q, x)) && Frame(old(View()), View(), h, q)
    {
      hide Spells, Frame, Without;
      ghost var k :| 0 <= k < |q| && q[k] == x;
      RemoveListed(View(), h, q, k);
      if cells[Next(x)] != Null {
        prev := prev[cells[Next(x)].node := prev[x]];
      }
      cells := cells[prev[x] := cells[Next(x)]];
    }

    /** TAILQ_INIT */
    method TailqInit(h: Head)
      modifies this
      ensures IsTailq(View(), h, []) && Frame(old(View()), View(), h, [])
      ensures View() == Links(old(cells)[First(h) := Null], old(prev), old(last)[h := First(h)])
    {
      cells := cells[First(h) := Null];
      last := last[h := First(h)];
    }

    /** TAILQ_INSERT_HEAD */
    method TailqInsertHead(h: Head, x: Node, ghost q: seq<Node>)
      requires IsTailq(View(), h, q) && x !in q
      modifies this
      ensures IsTailq(View(), h, [x] + q) && Frame(old(View()), View(), h, [x] + q)
      ensures old(cells).Keys <= cells.Keys
    {
      assert cells[CellOf(h, q, 0)] == PtrAt(q, 0);
      cells := cells[Next(x) := cells[First(h)]];
      if cells[Next(x)] != Null {
        prev := prev[cells[First(h)].node := Next(x)];
      } else {
        last := last[h := Next(x)];
      }
      cells := cells[First(h) := Ref(x)];
      prev := prev[x := First(h)];
      InsertedTail(old(View()), h, q, 0, x, View());
      FrameInsert(old(View()), View(), h, q, 0, x);
      assert Inserted(q, 0, x) == [x] + q;
    }

    /** TAILQ_INSERT_TAIL */
    method TailqInsertTail(h: Head, x: Node, ghost q: seq<Node>)
      requires IsTailq(View(), h, q) && x !in q
      modifies this
      ensures IsTailq(View(), h, q + [x]) && Frame(old(View()), View(), h, q + [x])
      ensures View() == AfterInsertTail(old(View()), h, x)
    {
      cells := cells[Next(x) := Null];
      prev := prev[x := last[h]];
      cells := cells[last[h] := Ref(x)];
      last := last[h := Next(x)];
      InsertedTail(old(View()), h, q, |q|, x, View());
      FrameInsert(old(View()), View(), h, q, |q|, x);
      assert Inserted(q, |q|, x) == q + [x];
    }

    /** TAILQ_INSERT_AFTER */
    method TailqInsertAfter(h: Head, listelm: Node, x: Node, ghost q: seq<Node>, ghost k: nat)
      requires IsTailq(View(), h, q) && x !in q && k < |q| && q[k] == listelm
      modifies this
      ensures IsTailq(View(), h, Inserted(q, k + 1, x)) && Frame(old(View()), View(), h, Inserted(q, k + 1, x))
    {
      InsertAfterLinks(View(), h, q, k, x);
      hide IsTailq, Spells, Frame, Inserted, CellOf, PtrAt;
      cells := cells[Next(x) := cells[Next(listelm)]];
      if cells[Next(x)] != Null {
        prev := prev[cells[Next(x)].node := Next(x)];
      } else {
        last := last[h := Next(x)];
      }
      cells := cells[Next(listelm) := Ref(x)];
      prev := prev[x := Next(listelm)];
    }

    /** TAILQ_REMOVE of any element; false is a store through null.  An element of the
        queue is taken out, and once removed may be removed again while nothing else
        happens to the queue: that changes nothing at all. */
    method TailqRemove(h: Head, x: Node, ghost q: seq<Node>) returns (ok: bool)
      requires Next(x) in cells
      modifies this
      ensures Remove(old(View()), h, x) == if ok then Done(View()) else Fault(View())
      ensures old(IsTailq(View(), h, q) && (x in q || Detached(View(), h, x))) ==>
        && ok && IsTailq(View(), h, Without(q, x)) && Frame(old(View()), View(), h, q)
        && Detached(View(), h, x) && (x !in q ==> View() == old(View()))
    {
      RemoveAny(View(), h, x, q);
      hide IsTailq, Detached, Frame, Without;
      var known := x in prev;
      if cells[Next(x)] != Null {
        prev := if known then prev[cells[Next(x)].node := prev[x]] else prev - {cells[Next(x)].node};
      } else {
        last := if known then last[h := prev[x]] else last - {h};
      }
      if !known { return false; }
      cells := cells[prev[x] := cells[Next(x)]];
      ok := true;
    }

    /** TAILQ_CONCAT: move everything from queue g to the end of queue h. */
    method TailqConcat(h: Head, g: Head, ghost q: seq<Node>, ghost p: seq<Node>)
      requires h != g && IsTailq(View(), h, q) && IsTailq(View(), g, p)
      requires forall x | x in p :: x !in q
      modifies this
      ensures IsTailq(View(), h, q + p) && IsTailq(View(), g, [])
      ensures FrameTwo(old(View()), View(), h, g, q + p)
    {
      hide Frame, Distinct;
      assert last[h] == CellOf(h, q, |q|) && Owns(h, q + p, last[h]);
      assert cells[CellOf(g, p, 0)] == PtrAt(p, 0);
      if cells[First(g)] != Null {
        cells := cells[last[h] := cells[First(g)]];
        prev := prev[cells[First(g)].node := last[h]];
        last := last[h := last[g]];
        TailqInit(g);
        Concatenated(old(View()), h, g, q, p, View());
      } else {
        assert q + p == q;
      }
    }
  }
}
