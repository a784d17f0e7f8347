/** Why the closure-table statements keep the closure relation exact: each
    mutation of the parent map, followed by the statements the trait runs for
    it, leaves the closure of the new parent map. */
module Maintenance {
  import opened Forest
  import opened Statements

  // ---------------------------------------------------------------------
  // Insert: a new node below an existing node or the sentinel

  /** A new node's chain, and every old chain, under the extended map. */
  lemma {:induction false} InsertChain(p: Parents, d: Id, q: Id, n: Id, j: nat)
    requires Closed(p) && d != 0 && d !in p && (q == 0 || q in p)
    requires n == 0 || n in p
    ensures Up(p[d := q], n, j) == Up(p, n, j)
    ensures Up(p[d := q], d, j + 1) == Up(p, q, j)
  {
    var p' := p[d := q];
    forall i: nat | i < j ensures Pid(p', Up(p, n, i)) == Pid(p, Up(p, n, i)) {
      UpStays(p, n, i);
    }
    UpFrame(p, p', n, j);
    forall i: nat | i < j ensures Pid(p', Up(p, q, i)) == Pid(p, Up(p, q, i)) {
      UpStays(p, q, i);
    }
    UpFrame(p, p', q, j);
  }

  /** Inserting a node `d` below `q` and running insertClosure for it turns
      the closure of the old forest into the closure of the new one, without
      a primary-key clash. */
  lemma {:induction false} InsertIsExact(p: Parents, rows: set<Row>, d: Id, q: Id)
    requires IsForest(p) && IsClosure(p, rows)
    requires d != 0 && d !in p && (q == 0 || q in p)
    ensures IsForest(p[d := q])
    ensures IsClosure(p[d := q], rows + InsertSelect(rows, d, q))
    ensures !Clash(rows, InsertSelect(rows, d, q))
  {
    var p' := p[d := q];
    var added := InsertSelect(rows, d, q);
    forall n, j: nat | n in p' && 0 < j ensures Up(p', n, j) != n {
      if n == d {
        InsertChain(p, d, q, q, j - 1);
        UpStays(p, q, j - 1);
      } else {
        InsertChain(p, d, q, n, j);
      }
    }
    forall r: Row ensures r in rows + added <==> OnPath(p', r) {
      InsertSelectShape(rows, d, q, r);
      if r.descendant == d {
        if r.distance > 0 {
          InsertChain(p, d, q, q, r.distance - 1);
          if q == 0 {
            UpSentinel(p, r.distance - 1);
          }
          assert OnPath(p, Row(r.ancestor, q, r.distance - 1)) <==> OnPath(p', r);
        }
      } else if r.descendant in p {
        InsertChain(p, d, q, r.descendant, r.distance);
      }
    }
    ClosureIsKeyed(p', rows + added);
    forall r | r in added ensures r.descendant == d {
      InsertSelectShape(rows, d, q, r);
    }
  }

  // ---------------------------------------------------------------------
  // Move: updateClosure reparenting `k` below `q`

  /** What updateClosure checks before it writes: the forest is exact and the
      new parent is a node (or the sentinel) outside `k`'s recorded subtree. */
  ghost predicate MovePre(p: Parents, rows: set<Row>, k: Id, q: Id)
  {
    IsForest(p) && IsClosure(p, rows) && k in p && (q == 0 || q in p) && q !in SubtreeIds(rows, k)
  }

  /** A chain from outside `k`'s subtree never passes through `k`. */
  lemma {:induction false} AvoidsKey(p: Parents, rows: set<Row>, k: Id, n: Id, j: nat)
    requires IsForest(p) && IsClosure(p, rows) && k in p
    requires n == 0 || n in p
    requires n !in SubtreeIds(rows, k)
    ensures Up(p, n, j) != k
  {
    if n == 0 {
      UpSentinel(p, j);
    } else {
      var r := Row(k, n, j);
      assert OnPath(p, r) ==> r in rows;
      assert r in rows ==> r.descendant in SubtreeIds(rows, k);
    }
  }

  /** Outside the subtree a move changes no chain. */
  lemma {:induction false} MovedChainOutside(p: Parents, rows: set<Row>, k: Id, q: Id, n: Id, j: nat)
    requires MovePre(p, rows, k, q)
    requires n == 0 || n in p
    requires n !in SubtreeIds(rows, k)
    ensures Up(p[k := q], n, j) == Up(p, n, j)
  {
    forall i: nat | i < j ensures Pid(p[k := q], Up(p, n, i)) == Pid(p, Up(p, n, i)) {
      AvoidsKey(p, rows, k, n, i);
    }
    UpFrame(p, p[k := q], n, j);
  }

  /** Inside the subtree a chain is unchanged up to `k` and then continues
      from the new parent. */
  lemma {:induction false} MovedChainInside(p: Parents, rows: set<Row>, k: Id, q: Id, d: Id, dd: nat, j: nat)
    requires MovePre(p, rows, k, q)
    requires Row(k, d, dd) in rows
    ensures j <= dd ==> Up(p[k := q], d, j) == Up(p, d, j)
    ensures dd < j ==> Up(p[k := q], d, j) == Up(p, q, j - dd - 1)
  {
    var p' := p[k := q];
    assert OnPath(p, Row(k, d, dd));
    forall i: nat | i < dd ensures Pid(p', Up(p, d, i)) == Pid(p, Up(p, d, i)) {
      if Up(p, d, i) == k {
        UpUnique(p, d, i, dd);
      }
    }
    if j <= dd {
      UpFrame(p, p', d, j);
    } else {
      UpFrame(p, p', d, dd);
      UpAdd(p', d, dd, j - dd);
      assert Up(p', k, j - dd) == Up(p', q, j - dd - 1);
      MovedChainOutside(p, rows, k, q, q, j - dd - 1);
    }
  }

  /** Every attached row ends inside the subtree, farther from `k` than the
      subtree's own edge to that node. */
  lemma {:induction false} AttachBeyond(p: Parents, rows: set<Row>, k: Id, q: Id, r: Row)
    requires MovePre(p, rows, k, q)
    requires r in AttachSelect(Detached(rows, k), k, q)
    ensures exists dd: nat :: Row(k, r.descendant, dd) in rows && dd < r.distance
                              && Up(p, q, r.distance - dd - 1) == r.ancestor && r.ancestor != 0
  {
    var kept := Detached(rows, k);
    var x, y :| x in kept && y in kept && x.descendant == q && y.ancestor == k
      && r == Row(x.ancestor, y.descendant, x.distance + y.distance + 1);
    assert OnPath(p, x);
    assert Row(k, r.descendant, y.distance) == y;
  }

  /** A row ending inside the subtree farther out than `k` is a cross row. */
  lemma {:induction false} CrossOutside(p: Parents, rows: set<Row>, k: Id, dd: nat, r: Row)
    requires IsForest(p) && IsClosure(p, rows)
    requires Row(k, r.descendant, dd) in rows && dd < r.distance
    ensures r in rows ==> r in CrossRows(rows, k)
  {
    assert OnPath(p, Row(k, r.descendant, dd));
    assert r.descendant in SubtreeIds(rows, k);
    UpStays(p, r.descendant, dd);
    UpAdd(p, r.descendant, dd, r.distance - dd);
    var z := Row(r.ancestor, k, r.distance - dd);
    assert OnPath(p, r) ==> OnPath(p, z);
    assert z in rows ==> (z.ancestor != k ==> r.ancestor in ProperAncestorIds(rows, k));
  }

  /** A row ending inside the subtree no farther out than `k` starts inside
      the subtree and survives the detach. */
  lemma {:induction false} KeptInside(p: Parents, rows: set<Row>, k: Id, dd: nat, r: Row)
    requires IsForest(p) && IsClosure(p, rows) && r in rows
    requires Row(k, r.descendant, dd) in rows && r.distance <= dd
    ensures r !in CrossRows(rows, k)
  {
    var a, d, j := r.ancestor, r.descendant, r.distance;
    assert OnPath(p, r) && OnPath(p, Row(k, d, dd));
    forall z | z in rows && z.descendant == k && z.ancestor == a ensures z.ancestor == k {
      assert OnPath(p, z);
      UpStays(p, d, j);
      UpAdd(p, d, j, dd - j);
      UpAdd(p, a, dd - j, z.distance);
    }
  }

  /** A row ending outside the subtree is untouched by the move. */
  lemma {:induction false} MoveRowOutside(p: Parents, rows: set<Row>, k: Id, q: Id, r: Row)
    requires MovePre(p, rows, k, q)
    requires r.descendant !in SubtreeIds(rows, k)
    ensures r in Moved(rows, k, q) <==> OnPath(p[k := q], r)
  {
    if r in AttachSelect(Detached(rows, k), k, q) {
      AttachBeyond(p, rows, k, q, r);
    }
    if r.descendant in p {
      MovedChainOutside(p, rows, k, q, r.descendant, r.distance);
    }
  }

  /** A row inside the subtree reaching no higher than `k` is kept. */
  lemma {:induction false} MoveRowNear(p: Parents, rows: set<Row>, k: Id, q: Id, dd: nat, r: Row)
    requires MovePre(p, rows, k, q)
    requires Row(k, r.descendant, dd) in rows && r.distance <= dd
    ensures r in Moved(rows, k, q) <==> OnPath(p[k := q], r)
  {
    MovedChainInside(p, rows, k, q, r.descendant, dd, r.distance);
    if r in rows {
      KeptInside(p, rows, k, dd, r);
    }
    if r in AttachSelect(Detached(rows, k), k, q) {
      AttachBeyond(p, rows, k, q, r);
      ClosureIsKeyed(p, rows);
    }
  }

  /** A row inside the subtree reaching above `k` on the new chain is
      produced by the attach, through the new parent. */
  lemma {:induction false} MoveRowFarAttached(p: Parents, rows: set<Row>, k: Id, q: Id, dd: nat, r: Row)
    requires MovePre(p, rows, k, q)
    requires Row(k, r.descendant, dd) in rows && dd < r.distance
    requires OnPath(p[k := q], r)
    ensures r in AttachSelect(Detached(rows, k), k, q)
  {
    var kept := Detached(rows, k);
    var y := Row(k, r.descendant, dd);
    var x := Row(r.ancestor, q, r.distance - dd - 1);
    MovedChainInside(p, rows, k, q, r.descendant, dd, r.distance);
    if q == 0 {
      UpSentinel(p, r.distance - dd - 1);
    }
    assert OnPath(p, x);
    assert x in kept && y in kept;
    assert r == Row(x.ancestor, y.descendant, x.distance + y.distance + 1);
  }

  /** A row inside the subtree reaching above `k` is replaced by the
      attached row through the new parent. */
  lemma {:induction false} MoveRowFar(p: Parents, rows: set<Row>, k: Id, q: Id, dd: nat, r: Row)
    requires MovePre(p, rows, k, q)
    requires Row(k, r.descendant, dd) in rows && dd < r.distance
    ensures r in Moved(rows, k, q) <==> OnPath(p[k := q], r)
  {
    MovedChainInside(p, rows, k, q, r.descendant, dd, r.distance);
    CrossOutside(p, rows, k, dd, r);
    if OnPath(p[k := q], r) {
      MoveRowFarAttached(p, rows, k, q, dd, r);
    }
    if r in AttachSelect(Detached(rows, k), k, q) {
      AttachBeyond(p, rows, k, q, r);
      ClosureIsKeyed(p, rows);
    }
  }

  /** One row of the relation after the move, against the new forest. */
  lemma {:induction false} MoveRow(p: Parents, rows: set<Row>, k: Id, q: Id, r: Row)
    requires MovePre(p, rows, k, q)
    ensures r in Moved(rows, k, q) <==> OnPath(p[k := q], r)
  {
    if r.descendant !in SubtreeIds(rows, k) {
      MoveRowOutside(p, rows, k, q, r);
    } else {
      var y :| y in rows && y.ancestor == k && y.descendant == r.descendant;
      assert y == Row(k, r.descendant, y.distance);
      if r.distance <= y.distance {
        MoveRowNear(p, rows, k, q, y.distance, r);
      } else {
        MoveRowFar(p, rows, k, q, y.distance, r);
      }
    }
  }

  /** The moved forest is still a forest. */
  lemma {:induction false} MoveKeepsForest(p: Parents, rows: set<Row>, k: Id, q: Id)
    requires MovePre(p, rows, k, q)
    ensures IsForest(p[k := q])
  {
    var p' := p[k := q];
    forall n, j: nat | n in p' && 0 < j ensures Up(p', n, j) != n {
      if n !in SubtreeIds(rows, k) {
        MovedChainOutside(p, rows, k, q, n, j);
      } else {
        var y :| y in rows && y.ancestor == k && y.descendant == n;
        assert y == Row(k, n, y.distance);
        MovedChainInside(p, rows, k, q, n, y.distance, j);
        if y.distance < j {
          assert OnPath(p, y);
          AvoidsKey(p, rows, k, q, j - 1);
          UpAdd(p, q, j - y.distance - 1, y.distance);
        }
      }
    }
  }

  /** updateClosure's detach and attach turn the closure of the old forest
      into the closure of the forest with `k` reparented below `q`, and the
      attach violates no primary key. */
  lemma {:induction false} MoveIsExact(p: Parents, rows: set<Row>, k: Id, q: Id)
    requires MovePre(p, rows, k, q)
    ensures IsForest(p[k := q])
    ensures IsClosure(p[k := q], Moved(rows, k, q))
    ensures !Clash(Detached(rows, k), AttachSelect(Detached(rows, k), k, q))
  {
    MoveKeepsForest(p, rows, k, q);
    forall r: Row ensures r in Moved(rows, k, q) <==> OnPath(p[k := q], r) {
      MoveRow(p, rows, k, q, r);
    }
    var kept := Detached(rows, k);
    var attached := AttachSelect(kept, k, q);
    ClosureIsKeyed(p[k := q], Moved(rows, k, q));
    forall r | r in attached ensures r !in kept {
      AttachBeyond(p, rows, k, q, r);
      var dd: nat :| Row(k, r.descendant, dd) in rows && dd < r.distance;
      CrossOutside(p, rows, k, dd, r);
    }
  }

  // ---------------------------------------------------------------------
  // Delete: removing a node none points to

  /** No chain from another node reaches a node that is nobody's parent. */
  lemma {:induction false} LeafAvoided(p: Parents, k: Id, n: Id, j: nat)
    requires forall c | c in p :: p[c] != k
    requires n != k && k != 0
    ensures Up(p, n, j) != k
  {
    if j > 0 {
      UpLast(p, n, j - 1);
    }
  }

  /** Once no node points to `k`, detachRelationships followed by the default
      detachSelfRelation leaves the closure of the forest without `k`. */
  lemma {:induction false} RemoveLeafIsExact(p: Parents, rows: set<Row>, k: Id)
    requires IsForest(p) && IsClosure(p, rows) && k in p
    requires forall c | c in p :: p[c] != k
    ensures IsForest(p - {k})
    ensures IsClosure(p - {k}, Detached(rows, k) - ScopeRows(Detached(rows, k), k, BothScope))
    ensures forall r | r in Detached(rows, k) - ScopeRows(Detached(rows, k), k, BothScope)
              :: r.ancestor != k && r.descendant != k
  {
    var p' := p - {k};
    var kept := Detached(rows, k) - ScopeRows(Detached(rows, k), k, BothScope);
    forall n, j: nat | n in p' ensures Up(p', n, j) == Up(p, n, j) {
      forall i: nat | i < j ensures Pid(p', Up(p, n, i)) == Pid(p, Up(p, n, i)) {
        LeafAvoided(p, k, n, i);
      }
      UpFrame(p, p', n, j);
    }
    forall r | r in rows && r.ancestor == k ensures r.descendant == k {
      assert OnPath(p, r);
      if r.distance > 0 {
        LeafAvoided(p, k, r.descendant, r.distance);
      }
    }
    forall r: Row ensures r in kept <==> OnPath(p', r) {
      if r.descendant in p' {
        LeafAvoided(p, k, r.descendant, r.distance);
      }
    }
  }

  // ---------------------------------------------------------------------
  // deleteRelationships: dropping a whole subtree

  /** A chain that reaches the subtree of `k` started inside it. */
  lemma {:induction false} IntoSubtree(p: Parents, rows: set<Row>, k: Id, n: Id, i: nat)
    requires IsForest(p) && IsClosure(p, rows) && k in p && n in p
    requires Up(p, n, i) in SubtreeIds(rows, k)
    ensures n in SubtreeIds(rows, k)
  {
    var y :| y in rows && y.ancestor == k && y.descendant == Up(p, n, i);
    assert OnPath(p, y);
    UpAdd(p, n, i, y.distance);
    assert OnPath(p, Row(k, n, i + y.distance));
  }

  /** Removing `k`'s subtree from the entity table and running
      deleteRelationships leaves the closure of what remains. */
  lemma {:induction false} DeleteSubtreeIsExact(p: Parents, rows: set<Row>, k: Id)
    requires IsForest(p) && IsClosure(p, rows) && k in p
    ensures IsForest(p - SubtreeIds(rows, k))
    ensures IsClosure(p - SubtreeIds(rows, k), rows - SubtreeRows(rows, k))
  {
    var sub := SubtreeIds(rows, k);
    var p' := p - sub;
    forall n, j: nat | n in p' ensures Up(p', n, j) == Up(p, n, j) {
      forall i: nat | i < j ensures Pid(p', Up(p, n, i)) == Pid(p, Up(p, n, i)) {
        if Up(p, n, i) in sub {
          IntoSubtree(p, rows, k, n, i);
        }
      }
      UpFrame(p, p', n, j);
    }
    forall n | n in p' ensures p'[n] == 0 || p'[n] in p' {
      assert Up(p, n, 1) == p[n];
      if p[n] in sub {
        IntoSubtree(p, rows, k, n, 1);
      }
    }
  }

  // ---------------------------------------------------------------------
  // perfectNode on an exact closure

  /** Two relations with the same ancestor edges for every node are equal. */
  lemma {:induction false} IncomingExt(rows: set<Row>, rows': set<Row>)
    requires forall d :: Incoming(rows, d) == Incoming(rows', d)
    ensures rows == rows'
  {
    forall r | r in rows ensures r in rows' {
      assert r in Incoming(rows, r.descendant);
    }
    forall r | r in rows' ensures r in rows {
      assert r in Incoming(rows', r.descendant);
    }
  }

  /** On an exact closure perfectNode succeeds and changes nothing. */
  lemma {:induction false} PerfectedOnExact(p: Parents, rows: set<Row>, k: Id)
    requires IsForest(p) && IsClosure(p, rows) && k in p
    ensures Perfected(rows, k, p[k]) == rows
    ensures !Clash(rows - ScopeRows(rows, k, AncestorScope),
                   InsertSelect(rows - ScopeRows(rows, k, AncestorScope), k, p[k]))
  {
    assert Up(p, k, 1) == p[k];
    PerfectedIncoming(rows, k, p[k]);
    IncomingStep(p, rows, k);
    IncomingExt(Perfected(rows, k, p[k]), rows);
    ClosureIsKeyed(p, rows);
    var kept := rows - ScopeRows(rows, k, AncestorScope);
    forall r | r in InsertSelect(kept, k, p[k]) ensures r.descendant == k && r in rows {
      InsertSelectShape(kept, k, p[k], r);
    }
  }

  // ---------------------------------------------------------------------
  // Rebuilding: perfectNode over a sequence of nodes

  /** The outcome of a run of perfectNode calls: the relation left behind and
      whether every call went through. */
  datatype Sweep = Sweep(rows: set<Row>, complete: bool)

  /** perfectNode on each id of `order` in turn.  A missing id or a call
      whose insert breaks the primary key stops the run; the calls before it
      stay committed. */
  function PerfectSweep(p: Parents, rows: set<Row>, order: seq<Id>): Sweep
    decreases |order|
  {
    if order == [] then Sweep(rows, true)
    else if order[0] !in p then Sweep(rows, false)
    else match PerfectNodeRows(p, rows, order[0])
      case None => Sweep(rows, false)
      case Some(next) => PerfectSweep(p, next, order[1..])
  }

  /** The ids a sequence mentions. */
  function Elems(order: seq<Id>): set<Id>
  {
    set x | x in order
  }

  /** The ancestor edges of every node of `done` are exact. */
  ghost predicate ExactFor(p: Parents, rows: set<Row>, done: set<Id>)
  {
    forall r: Row | r.descendant in done :: r in rows <==> OnPath(p, r)
  }

  /** Every node of `order` comes after its parent: the parent is the
      sentinel, already in `done`, or earlier in `order`. */
  ghost predicate Ordered(p: Parents, done: set<Id>, order: seq<Id>)
    decreases |order|
  {
    order == [] ||
    (order[0] in p && (p[order[0]] == 0 || p[order[0]] in done)
     && Ordered(p, done + {order[0]}, order[1..]))
  }

  /** A sweep over `a + b` is the sweep over `a` continued over `b`. */
  lemma {:induction false} PerfectSweepAppend(p: Parents, rows: set<Row>, a: seq<Id>, b: seq<Id>)
    ensures PerfectSweep(p, rows, a + b)
         == (var s := PerfectSweep(p, rows, a); if s.complete then PerfectSweep(p, s.rows, b) else s)
    decreases |a|
  {
    if a != [] {
      assert (a + b)[0] == a[0];
      assert (a + b)[1..] == a[1..] + b;
      if a[0] in p && PerfectNodeRows(p, rows, a[0]).Some? {
        PerfectSweepAppend(p, PerfectNodeRows(p, rows, a[0]).value, a[1..], b);
      }
    } else {
      assert a + b == b;
    }
  }

  /** perfectNode on a node whose parent's edges are exact makes the node's
      own edges exact, never clashes, and touches no other node's edges. */
  lemma {:induction false} PerfectStepExact(p: Parents, rows: set<Row>, done: set<Id>, k: Id)
    requires IsForest(p) && k in p && Incoming(rows, 0) == {}
    requires ExactFor(p, rows, done)
    requires p[k] == 0 || p[k] in done
    ensures PerfectNodeRows(p, rows, k).Some?
    ensures ExactFor(p, PerfectNodeRows(p, rows, k).value, done + {k})
    ensures forall d | d != k :: Incoming(PerfectNodeRows(p, rows, k).value, d) == Incoming(rows, d)
  {
    var q := p[k];
    var kept := rows - ScopeRows(rows, k, AncestorScope);
    var added := InsertSelect(kept, k, q);
    assert Up(p, k, 1) == q;
    PerfectedIncoming(rows, k, q);
    var next := Perfected(rows, k, q);
    forall r: Row | r.descendant == k ensures r in next <==> OnPath(p, r) {
      assert r in next <==> r in Incoming(next, k);
      if r.distance > 0 {
        var s := Row(r.ancestor, q, r.distance - 1);
        assert r == Row(s.ancestor, k, s.distance + 1);
        if q == 0 {
          UpSentinel(p, r.distance - 1);
        }
        assert OnPath(p, r) <==> OnPath(p, s);
        assert s in rows <==> s in Incoming(rows, q);
      }
    }
    forall r: Row | r.descendant in done && r.descendant != k ensures r in next <==> OnPath(p, r) {
      assert r in next <==> r in Incoming(next, r.descendant);
      assert r in rows <==> r in Incoming(rows, r.descendant);
    }
    forall r | r in added ensures r.descendant == k && OnPath(p, r) {
      InsertSelectShape(kept, k, q, r);
    }
    forall r, s | r in added && s in added && SameKey(r, s) ensures r == s {
      UpUnique(p, k, r.distance, s.distance);
    }
  }

  /** A sweep in parent-before-child order makes every swept node exact and
      leaves the other nodes' edges alone. */
  lemma {:induction false} PerfectSweepExact(p: Parents, rows: set<Row>, done: set<Id>, order: seq<Id>)
    requires IsForest(p) && Incoming(rows, 0) == {}
    requires ExactFor(p, rows, done)
    requires Ordered(p, done, order)
    ensures PerfectSweep(p, rows, order).complete
    ensures ExactFor(p, PerfectSweep(p, rows, order).rows, done + Elems(order))
    ensures forall d | d !in order :: Incoming(PerfectSweep(p, rows, order).rows, d) == Incoming(rows, d)
    decreases |order|
  {
    if order != [] {
      var k := order[0];
      PerfectStepExact(p, rows, done, k);
      var next := PerfectNodeRows(p, rows, k).value;
      assert Incoming(next, 0) == Incoming(rows, 0);
      PerfectSweepExact(p, next, done + {k}, order[1..]);
      assert (done + {k}) + Elems(order[1..]) == done + Elems(order) by {
        assert order == [k] + order[1..];
      }
    }
  }

  /** Rebuilding from scratch: a parent-before-child sweep over every node
      of the forest, on a relation with no rows ending outside the forest,
      yields the exact closure whatever rows it started from. */
  lemma {:induction false} RebuildIsClosure(p: Parents, rows: set<Row>, order: seq<Id>)
    requires IsForest(p)
    requires forall r | r in rows :: r.descendant in p
    requires Ordered(p, {}, order)
    requires forall n | n in p :: n in order
    ensures PerfectSweep(p, rows, order).complete
    ensures IsClosure(p, PerfectSweep(p, rows, order).rows)
  {
    assert Incoming(rows, 0) == {};
    PerfectSweepExact(p, rows, {}, order);
    var result := PerfectSweep(p, rows, order).rows;
    forall r: Row ensures r in result <==> OnPath(p, r) {
      if r.descendant !in order {
        assert r in result <==> r in Incoming(result, r.descendant);
        assert r in rows <==> r in Incoming(rows, r.descendant);
      } else {
        var i :| 0 <= i < |order| && order[i] == r.descendant;
      }
    }
  }

  /** On an exact closure a sweep over nodes changes nothing. */
  lemma {:induction false} PerfectSweepOnExact(p: Parents, rows: set<Row>, order: seq<Id>)
    requires IsForest(p) && IsClosure(p, rows)
    requires forall i | 0 <= i < |order| :: order[i] in p
    ensures PerfectSweep(p, rows, order) == Sweep(rows, true)
    decreases |order|
  {
    if order != [] {
      PerfectedOnExact(p, rows, order[0]);
      PerfectSweepOnExact(p, rows, order[1..]);
    }
  }

  // ---------------------------------------------------------------------
  // _initClosure: a pre-order walk of a tree

  /** A node of the nested array `_initClosure` walks: an id and the
      `children` list. */
  datatype TreeNode = TreeNode(id: Id, children: seq<TreeNode>)

  /** The ids of a forest of nodes in the order `_initClosure` visits them:
      each node before its children, siblings left to right. */
  function Flatten(ts: seq<TreeNode>): seq<Id>
    decreases ts
  {
    if ts == [] then [] else FlattenTree(ts[0]) + Flatten(ts[1..])
  }

  function FlattenTree(t: TreeNode): seq<Id>
    decreases t
  {
    [t.id] + Flatten(t.children)
  }

  /** The nested array matches the parent map: each node's parent column
      names the node it is nested under, `parentId` at the top. */
  ghost predicate Agrees(p: Parents, ts: seq<TreeNode>, parentId: Id)
    decreases ts
  {
    forall i | 0 <= i < |ts| :: ts[i].id in p && p[ts[i].id] == parentId && Agrees(p, ts[i].children, ts[i].id)
  }

  lemma {:induction false} OrderedAppend(p: Parents, done: set<Id>, a: seq<Id>, b: seq<Id>)
    requires Ordered(p, done, a)
    requires Ordered(p, done + Elems(a), b)
    ensures Ordered(p, done, a + b)
    decreases |a|
  {
    if a == [] {
      assert a + b == b;
      assert done + Elems(a) == done;
    } else {
      assert (a + b)[0] == a[0];
      assert (a + b)[1..] == a[1..] + b;
      assert (done + {a[0]}) + Elems(a[1..]) == done + Elems(a) by {
        assert a == [a[0]] + a[1..];
      }
      OrderedAppend(p, done + {a[0]}, a[1..], b);
    }
  }

  lemma {:induction false} OrderedGrow(p: Parents, done: set<Id>, more: set<Id>, order: seq<Id>)
    requires Ordered(p, done, order)
    ensures Ordered(p, done + more, order)
    decreases |order|
  {
    if order != [] {
      OrderedGrow(p, done + {order[0]}, more, order[1..]);
      assert done + {order[0]} + more == done + more + {order[0]};
    }
  }

  /** Visiting a nested array that matches the parent map, each node comes
      after its parent. */
  lemma {:induction false} FlattenOrdered(p: Parents, ts: seq<TreeNode>, parentId: Id, done: set<Id>)
    requires Agrees(p, ts, parentId)
    requires parentId == 0 || parentId in done
    ensures Ordered(p, done, Flatten(ts))
    decreases ts
  {
    if ts != [] {
      var t := ts[0];
      assert Agrees(p, t.children, t.id);
      FlattenOrdered(p, t.children, t.id, done + {t.id});
      assert Ordered(p, done, [t.id]) by {
        assert [t.id][1..] == [];
      }
      assert done + Elems([t.id]) == done + {t.id};
      OrderedAppend(p, done, [t.id], Flatten(t.children));
      assert Agrees(p, ts[1..], parentId) by {
        forall i | 0 <= i < |ts[1..]| ensures ts[1..][i] == ts[i + 1] { }
      }
      FlattenOrdered(p, ts[1..], parentId, done);
      OrderedGrow(p, done, Elems(FlattenTree(t)), Flatten(ts[1..]));
      OrderedAppend(p, done, FlattenTree(t), Flatten(ts[1..]));
    }
  }

  /** Visiting two lists of nodes one after the other. */
  lemma {:induction false} FlattenConcat(a: seq<TreeNode>, b: seq<TreeNode>)
    ensures Flatten(a + b) == Flatten(a) + Flatten(b)
    decreases |a|
  {
    if a == [] {
      assert a + b == b;
    } else {
      assert (a + b)[0] == a[0];
      assert (a + b)[1..] == a[1..] + b;
      FlattenConcat(a[1..], b);
    }
  }

  /** A sweep's first step. */
  lemma {:induction false} PerfectSweepHead(p: Parents, rows: set<Row>, x: Id, rest: seq<Id>)
    ensures PerfectSweep(p, rows, [x] + rest)
         == if x !in p then Sweep(rows, false)
            else match PerfectNodeRows(p, rows, x)
              case None => Sweep(rows, false)
              case Some(next) => PerfectSweep(p, next, rest)
  {
    assert ([x] + rest)[0] == x;
    assert ([x] + rest)[1..] == rest;
  }

  /** A sweep over a node, then the nodes below it, then the rest: stop on a
      missing node or a clash, otherwise sweep the nodes below it and, when
      that completes, the rest. */
  lemma {:induction false} PerfectSweepNode(p: Parents, rows: set<Row>, x: Id, below: seq<Id>, rest: seq<Id>)
    ensures PerfectSweep(p, rows, [x] + (below + rest))
         == if x !in p || PerfectNodeRows(p, rows, x).None? then Sweep(rows, false)
            else var s := PerfectSweep(p, PerfectNodeRows(p, rows, x).value, below);
                 if s.complete then PerfectSweep(p, s.rows, rest) else s
  {
    PerfectSweepHead(p, rows, x, below + rest);
    if x in p && PerfectNodeRows(p, rows, x).Some? {
      PerfectSweepAppend(p, PerfectNodeRows(p, rows, x).value, below, rest);
    }
  }
}
