/** The set meaning of each SQL statement the closure-table trait runs
    against the closure relation.  Every statement reads the relation as it
    stands when the statement starts. */
module Statements {
  import opened Forest

  /** The `$with` argument of detachSelfRelation: 'ancestor', 'descendant',
      or anything else. */
  datatype Scope = AncestorScope | DescendantScope | BothScope

  /** insertClosure: every row ending at `ancestorId`, re-pointed to
      `descendantId` one hop further, united with the self row. */
  function InsertSelect(rows: set<Row>, descendantId: Id, ancestorId: Id): set<Row>
  {
    (set r | r in rows && r.descendant == ancestorId :: Row(r.ancestor, descendantId, r.distance + 1))
    + {Row(descendantId, descendantId, 0)}
  }

  /** An INSERT of `added` into `rows` violates the primary key
      `(ancestor, descendant)`: a new row repeats the key of a stored row, or
      two new rows share a key. */
  predicate Clash(rows: set<Row>, added: set<Row>)
  {
    || (exists r, s | r in added && s in rows :: SameKey(r, s))
    || (exists r, s | r in added && s in added && r != s :: SameKey(r, s))
  }

  /** detachSelfRelation: the rows of the chosen scope. */
  function ScopeRows(rows: set<Row>, key: Id, scope: Scope): set<Row>
  {
    match scope
    case AncestorScope => set r | r in rows && r.descendant == key
    case DescendantScope => set r | r in rows && r.ancestor == key
    case BothScope => set r | r in rows && (r.descendant == key || r.ancestor == key)
  }

  /** The descendant ids recorded for `key` (itself included). */
  function SubtreeIds(rows: set<Row>, key: Id): set<Id>
  {
    set r | r in rows && r.ancestor == key :: r.descendant
  }

  /** The ancestor ids recorded for `key`, `key` itself excluded. */
  function ProperAncestorIds(rows: set<Row>, key: Id): set<Id>
  {
    set r | r in rows && r.descendant == key && r.ancestor != key :: r.ancestor
  }

  /** detachRelationships: the rows from a proper ancestor of `key` into
      `key`'s subtree. */
  function CrossRows(rows: set<Row>, key: Id): set<Row>
  {
    set r | r in rows && r.descendant in SubtreeIds(rows, key) && r.ancestor in ProperAncestorIds(rows, key)
  }

  /** The relation after detachRelationships. */
  function Detached(rows: set<Row>, key: Id): set<Row>
  {
    rows - CrossRows(rows, key)
  }

  /** attachTreeTo: the cross join of the rows ending at `parentKey` with the
      rows starting at `key`. */
  function AttachSelect(rows: set<Row>, key: Id, parentKey: Id): set<Row>
  {
    set x, y | x in rows && y in rows && x.descendant == parentKey && y.ancestor == key
      :: Row(x.ancestor, y.descendant, x.distance + y.distance + 1)
  }

  /** The relation after updateClosure's detach and attach. */
  function Moved(rows: set<Row>, key: Id, parentKey: Id): set<Row>
  {
    Detached(rows, key) + AttachSelect(Detached(rows, key), key, parentKey)
  }

  /** deleteRelationships: every row ending inside `key`'s subtree. */
  function SubtreeRows(rows: set<Row>, key: Id): set<Row>
  {
    set r | r in rows && r.descendant in SubtreeIds(rows, key)
  }

  /** The relation after perfectNode's detach of the ancestor scope and its
      insertClosure. */
  function Perfected(rows: set<Row>, key: Id, parentKey: Id): set<Row>
  {
    var kept := rows - ScopeRows(rows, key, AncestorScope);
    kept + InsertSelect(kept, key, parentKey)
  }

  /** perfectNode's transaction on `key` with parent column read from `p`
      (a missing parent reads as 0): the relation afterwards, or None when
      the insert breaks the primary key and the transaction rolls back. */
  function PerfectNodeRows(p: Parents, rows: set<Row>, key: Id): Option<set<Row>>
  {
    var kept := rows - ScopeRows(rows, key, AncestorScope);
    if Clash(kept, InsertSelect(kept, key, Pid(p, key))) then None
    else Some(Perfected(rows, key, Pid(p, key)))
  }

  /** deleteRedundancies: the ids found dead in each column by the LEFT JOIN,
      and the rows that name one of them in that column. */
  function PrunedRows(rows: set<Row>, live: set<Id>): set<Row>
  {
    var deadDescendants := set r | r in rows && r.descendant !in live :: r.descendant;
    var deadAncestors := set r | r in rows && r.ancestor !in live :: r.ancestor;
    set r | r in rows && (r.descendant in deadDescendants || r.ancestor in deadAncestors)
  }

  // ---------------------------------------------------------------------
  // Properties every relation has

  /** Attaching below the sentinel, with no row ending at it, adds only the
      self row. */
  lemma {:induction false} InsertSelectAtSentinel(rows: set<Row>, descendantId: Id)
    requires NoSentinelRows(rows)
    ensures InsertSelect(rows, descendantId, 0) == {Row(descendantId, descendantId, 0)}
  {
    forall x | x in InsertSelect(rows, descendantId, 0)
      ensures x == Row(descendantId, descendantId, 0)
    {
      InsertSelectShape(rows, descendantId, 0, x);
    }
  }

  /** insertClosure adds rows ending at the new node only, one per row ending
      at the ancestor plus the self row. */
  lemma {:induction false} InsertSelectShape(rows: set<Row>, descendantId: Id, ancestorId: Id, r: Row)
    ensures r in InsertSelect(rows, descendantId, ancestorId)
        <==> r.descendant == descendantId
             && (r == Row(descendantId, descendantId, 0)
                 || (r.distance > 0 && Row(r.ancestor, ancestorId, r.distance - 1) in rows))
  {
    if r.descendant == descendantId && r.distance > 0 && Row(r.ancestor, ancestorId, r.distance - 1) in rows {
      var s := Row(r.ancestor, ancestorId, r.distance - 1);
      assert r == Row(s.ancestor, descendantId, s.distance + 1);
    }
  }

  /** detachRelationships leaves every row starting at `key` in place, the
      self row included, and removes rows ending in the subtree only. */
  lemma {:induction false} DetachKeepsSubtreeRoot(rows: set<Row>, key: Id)
    ensures Outgoing(Detached(rows, key), key) == Outgoing(rows, key)
    ensures forall r | r in rows - Detached(rows, key) ::
              r.descendant in SubtreeIds(rows, key) && r.ancestor != key
  {
    assert key !in ProperAncestorIds(rows, key);
  }

  /** A move keeps every row starting at `key` when the new parent is not in
      the recorded subtree and no row ends at the sentinel. */
  lemma {:induction false} MovedKeepsSubtree(rows: set<Row>, key: Id, parentKey: Id)
    requires parentKey !in SubtreeIds(rows, key)
    ensures Outgoing(Moved(rows, key, parentKey), key) == Outgoing(rows, key)
  {
    DetachKeepsSubtreeRoot(rows, key);
    var kept := Detached(rows, key);
    forall r | r in AttachSelect(kept, key, parentKey)
      ensures r.ancestor != key
    {
      var x, y :| x in kept && y in kept && x.descendant == parentKey && y.ancestor == key
        && r == Row(x.ancestor, y.descendant, x.distance + y.distance + 1);
      assert x.ancestor == key ==> parentKey in SubtreeIds(rows, key);
    }
  }

  /** perfectNode rewrites the ancestor edges of `key` from those of its
      parent and touches no other descendant's edges. */
  lemma {:induction false} PerfectedIncoming(rows: set<Row>, key: Id, parentKey: Id)
    requires parentKey != key
    ensures Incoming(Perfected(rows, key, parentKey), key)
         == {Row(key, key, 0)} + set r | r in Incoming(rows, parentKey) :: Row(r.ancestor, key, r.distance + 1)
    ensures forall d | d != key :: Incoming(Perfected(rows, key, parentKey), d) == Incoming(rows, d)
  {
    var kept := rows - ScopeRows(rows, key, AncestorScope);
    assert Incoming(kept, parentKey) == Incoming(rows, parentKey);
    assert Incoming(kept, key) == {};
  }

  /** perfectNode run twice gives what it gives once. */
  lemma {:induction false} PerfectedIdempotent(rows: set<Row>, key: Id, parentKey: Id)
    ensures Perfected(Perfected(rows, key, parentKey), key, parentKey) == Perfected(rows, key, parentKey)
    ensures Clash(Perfected(rows, key, parentKey) - ScopeRows(Perfected(rows, key, parentKey), key, AncestorScope),
                  InsertSelect(Perfected(rows, key, parentKey) - ScopeRows(Perfected(rows, key, parentKey), key, AncestorScope), key, parentKey))
         == Clash(rows - ScopeRows(rows, key, AncestorScope),
                  InsertSelect(rows - ScopeRows(rows, key, AncestorScope), key, parentKey))
  {
    var kept := rows - ScopeRows(rows, key, AncestorScope);
    var once := Perfected(rows, key, parentKey);
    forall r | r in InsertSelect(kept, key, parentKey) ensures r.descendant == key {
      InsertSelectShape(kept, key, parentKey, r);
    }
    assert once - ScopeRows(once, key, AncestorScope) == kept;
  }

  /** deleteRedundancies keeps exactly the rows whose two ends are live. */
  lemma {:induction false} PrunedKeepsLive(rows: set<Row>, live: set<Id>)
    ensures rows - PrunedRows(rows, live) == set r | r in rows && r.ancestor in live && r.descendant in live
  {
  }

  /** A second sweep deletes nothing. */
  lemma {:induction false} PrunedIdempotent(rows: set<Row>, live: set<Id>)
    ensures PrunedRows(rows - PrunedRows(rows, live), live) == {}
  {
    PrunedKeepsLive(rows, live);
    var kept := rows - PrunedRows(rows, live);
    var deadDescendants := set r | r in kept && r.descendant !in live :: r.descendant;
    var deadAncestors := set r | r in kept && r.ancestor !in live :: r.ancestor;
    assert deadDescendants == {};
    assert deadAncestors == {};
  }

  /** An INSERT the primary key accepts keeps the key. */
  lemma {:induction false} NoClashKeepsKeyed(rows: set<Row>, added: set<Row>)
    requires Keyed(rows) && !Clash(rows, added)
    ensures Keyed(rows + added)
  {
    forall r, s | r in rows + added && s in rows + added && SameKey(r, s) ensures r == s {
      assert SameKey(s, r);
    }
  }
}
