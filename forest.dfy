/** The two relations a closure table maintains, and what it means for the
    closure relation to be exact.

    The entity relation is a map from node id to the parent column `pid`;
    0 is the root sentinel (a null parent is read as 0 throughout).  The
    closure relation is a set of `(ancestor, descendant, distance)` rows whose
    primary key is `(ancestor, descendant)`. */
module Forest {

  type Id = nat

  datatype Option<T> = None | Some(value: T)

  /** Parent column of the entity relation: id -> pid. */
  type Parents = map<Id, Id>

  datatype Row = Row(ancestor: Id, descendant: Id, distance: nat)

  /** The parent of `n`, or the sentinel when `n` is not a node. */
  function Pid(p: Parents, n: Id): Id
  {
    if n in p then p[n] else 0
  }

  /** The node `j` parent-hops above `n`; the sentinel 0 once the chain has
      left the forest. */
  function Up(p: Parents, n: Id, j: nat): Id
    decreases j
  {
    if j == 0 then n else Up(p, Pid(p, n), j - 1)
  }

  /** Ids are positive and every parent pointer names a node or the sentinel. */
  ghost predicate Closed(p: Parents)
  {
    0 !in p && forall n | n in p :: p[n] == 0 || p[n] in p
  }

  /** No node is its own strict ancestor. */
  ghost predicate Acyclic(p: Parents)
  {
    forall n, j: nat | n in p && 0 < j :: Up(p, n, j) != n
  }

  /** A single-parent forest. */
  ghost predicate IsForest(p: Parents)
  {
    Closed(p) && Acyclic(p)
  }

  /** `r` records a real parent chain of `r.distance` hops. */
  ghost predicate OnPath(p: Parents, r: Row)
  {
    r.descendant in p && r.ancestor != 0 && Up(p, r.descendant, r.distance) == r.ancestor
  }

  /** The closure relation is exactly the reflexive-transitive closure of the
      parent map, with hop counts. */
  ghost predicate IsClosure(p: Parents, rows: set<Row>)
  {
    forall r: Row :: r in rows <==> OnPath(p, r)
  }

  predicate SameKey(r: Row, s: Row)
  {
    r.ancestor == s.ancestor && r.descendant == s.descendant
  }

  /** The primary-key constraint of the closure relation. */
  ghost predicate Keyed(rows: set<Row>)
  {
    forall r, s | r in rows && s in rows && SameKey(r, s) :: r == s
  }

  /** No row mentions the root sentinel. */
  ghost predicate NoSentinelRows(rows: set<Row>)
  {
    forall r | r in rows :: r.ancestor != 0 && r.descendant != 0
  }

  /** The rows whose descendant is `d`: d's ancestor edges. */
  function Incoming(rows: set<Row>, d: Id): set<Row>
  {
    set r | r in rows && r.descendant == d
  }

  /** The rows whose ancestor is `a`: a's descendant edges. */
  function Outgoing(rows: set<Row>, a: Id): set<Row>
  {
    set r | r in rows && r.ancestor == a
  }

  // ---------------------------------------------------------------------
  // Parent chains

  lemma {:induction false} UpSentinel(p: Parents, j: nat)
    requires 0 !in p
    ensures Up(p, 0, j) == 0
  {
    if j > 0 {
      UpSentinel(p, j - 1);
    }
  }

  /** Walking i hops and then j hops is walking i + j hops. */
  lemma {:induction false} UpAdd(p: Parents, n: Id, i: nat, j: nat)
    decreases i
    ensures Up(p, n, i + j) == Up(p, Up(p, n, i), j)
  {
    if i > 0 {
      UpAdd(p, Pid(p, n), i - 1, j);
    }
  }

  /** The last hop of a walk. */
  lemma {:induction false} UpLast(p: Parents, n: Id, j: nat)
    ensures Up(p, n, j + 1) == Pid(p, Up(p, n, j))
  {
    UpAdd(p, n, j, 1);
  }

  /** A chain from a node of a closed map stays among its nodes and the sentinel. */
  lemma {:induction false} UpStays(p: Parents, n: Id, j: nat)
    requires Closed(p)
    requires n == 0 || n in p
    ensures Up(p, n, j) == 0 || Up(p, n, j) in p
    decreases j
  {
    if j > 0 {
      UpStays(p, Pid(p, n), j - 1);
    }
  }

  /** Two parent maps that agree on every node a chain visits give the same chain. */
  lemma {:induction false} UpFrame(p: Parents, p': Parents, n: Id, j: nat)
    requires forall i: nat | i < j :: Pid(p', Up(p, n, i)) == Pid(p, Up(p, n, i))
    ensures Up(p', n, j) == Up(p, n, j)
    decreases j
  {
    if j > 0 {
      assert Pid(p', Up(p, n, 0)) == Pid(p, Up(p, n, 0));
      forall i: nat | i < j - 1
        ensures Pid(p', Up(p, Pid(p, n), i)) == Pid(p, Up(p, Pid(p, n), i))
      {
        assert Up(p, n, i + 1) == Up(p, Pid(p, n), i);
      }
      UpFrame(p, p', Pid(p, n), j - 1);
    }
  }

  /** In a forest a chain never comes back to a node it has passed. */
  lemma {:induction false} UpNoReturn(p: Parents, n: Id, i: nat, k: nat)
    requires IsForest(p)
    requires n in p && Up(p, n, i) != 0 && 0 < k
    ensures Up(p, n, i + k) != Up(p, n, i)
  {
    UpStays(p, n, i);
    UpAdd(p, n, i, k);
  }

  /** In a forest a node reaches a given ancestor at one distance only. */
  lemma {:induction false} UpUnique(p: Parents, n: Id, i: nat, i': nat)
    requires IsForest(p)
    requires n in p && Up(p, n, i) != 0 && Up(p, n, i) == Up(p, n, i')
    ensures i == i'
  {
    if i < i' {
      UpNoReturn(p, n, i, i' - i);
    } else if i' < i {
      UpNoReturn(p, n, i', i - i');
    }
  }

  /** An exact closure satisfies the primary-key constraint. */
  lemma {:induction false} ClosureIsKeyed(p: Parents, rows: set<Row>)
    requires IsForest(p) && IsClosure(p, rows)
    ensures Keyed(rows)
    ensures NoSentinelRows(rows)
  {
    forall r, s | r in rows && s in rows && SameKey(r, s)
      ensures r == s
    {
      assert OnPath(p, r) && OnPath(p, s);
      UpUnique(p, r.descendant, r.distance, s.distance);
    }
    forall r | r in rows
      ensures r.ancestor != 0 && r.descendant != 0
    {
      assert OnPath(p, r);
    }
  }

  /** The ancestor edges of `d` in the exact closure: its own row plus its
      parent's edges one hop further. */
  lemma {:induction false} IncomingStep(p: Parents, rows: set<Row>, d: Id)
    requires IsForest(p) && IsClosure(p, rows) && d in p
    ensures Incoming(rows, d)
         == {Row(d, d, 0)} + set r | r in Incoming(rows, p[d]) :: Row(r.ancestor, d, r.distance + 1)
  {
    var shifted := set r | r in Incoming(rows, p[d]) :: Row(r.ancestor, d, r.distance + 1);
    forall r | r in Incoming(rows, d)
      ensures r in {Row(d, d, 0)} + shifted
    {
      assert OnPath(p, r);
      if r.distance > 0 {
        var s := Row(r.ancestor, p[d], r.distance - 1);
        if p[d] == 0 {
          UpSentinel(p, r.distance - 1);
        }
        assert Up(p, d, r.distance) == Up(p, p[d], r.distance - 1);
        assert OnPath(p, s);
        assert s in Incoming(rows, p[d]);
      }
    }
    forall r | r in {Row(d, d, 0)} + shifted
      ensures r in Incoming(rows, d)
    {
      if r != Row(d, d, 0) {
        var s :| s in Incoming(rows, p[d]) && r == Row(s.ancestor, d, s.distance + 1);
        assert OnPath(p, s);
        assert OnPath(p, r);
      } else {
        assert OnPath(p, r);
      }
    }
  }
}
