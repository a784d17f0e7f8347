/** The closure-table trait as a store holding the entity table's parent
    column and the closure table.  Each trait method is a method here; the
    ORM lifecycle hooks are explicit calls: `Save` runs the before-update
    hook, `Create` the after-insert hook and `Delete` the before-delete
    hook.  A database transaction is a snapshot restored on failure. */
module ClosureTable {
  import opened Forest
  import opened Statements
  import opened Maintenance
  import opened Queries
  import opened Attributes

  /** The exceptions that stop an operation. */
  datatype Error =
    | NotFound         // findOrFail / find misses, or the model does not exist
    | NotANode         // the model has no self row
    | MoveIntoSubtree  // updateClosure: the new parent is in the subtree
    | ChildIsAncestor  // addChild: a child is an ancestor of the model
    | DuplicateKey     // an INSERT violates the closure table's primary key

  datatype Outcome = Ok | Fail(error: Error)

  /** The default parent column name. */
  const ParentColumn: string := "pid"

  /** updateClosure's two checks pass: the new parent is 0 or a node, and
      it is not among `key`'s descendants-and-self. */
  predicate MoveAllowed(p: Parents, rows: set<Row>, key: Id, q: Id)
  {
    (q == 0 || q in p) && q !in JoinRelationBy(p, rows, key, DescendantColumn, true)
  }

  /** The parent column after deleteObservers: `key`'s children become roots. */
  function Orphaned(p: Parents, key: Id): (p': Parents)
    ensures p'.Keys == p.Keys
    ensures forall x | x in p :: p'[x] == (if p[x] == key then 0 else p[x])
  {
    map x | x in p :: if p[x] == key then 0 else p[x]
  }

  /** On an exact closure the recorded subtree is the descendants-and-self
      query. */
  lemma {:induction false} SubtreeIsDescendantsAndSelf(p: Parents, rows: set<Row>, key: Id)
    requires IsForest(p) && IsClosure(p, rows)
    ensures SubtreeIds(rows, key) == JoinRelationBy(p, rows, key, DescendantColumn, true)
  {
    forall d | d in SubtreeIds(rows, key) ensures d in p {
      var r :| r in rows && r.ancestor == key && r.descendant == d;
      assert OnPath(p, r);
    }
  }

  /** The checks updateClosure makes, on an exact closure, are exactly what
      the move theorem needs. */
  lemma {:induction false} MoveChecksSuffice(p: Parents, rows: set<Row>, key: Id, q: Id)
    requires IsForest(p) && IsClosure(p, rows) && key in p
    requires q == 0 || q in p
    requires q !in JoinRelationBy(p, rows, key, DescendantColumn, true)
    ensures MovePre(p, rows, key, q)
  {
    SubtreeIsDescendantsAndSelf(p, rows, key);
    ClosureIsKeyed(p, rows);
  }

  /** Moving a node that is not an ancestor-or-self of `key` leaves `key`'s
      ancestors where they were. */
  lemma {:induction false} MoveKeepsOtherAncestors(p: Parents, rows: set<Row>, c: Id, q: Id, key: Id)
    requires MovePre(p, rows, c, q) && key in p
    requires c !in JoinRelationBy(p, rows, key, AncestorColumn, true)
    ensures JoinRelationBy(p[c := q], Moved(rows, c, q), key, AncestorColumn, true)
         == JoinRelationBy(p, rows, key, AncestorColumn, true)
  {
    MoveIsExact(p, rows, c, q);
    SubtreeIsDescendantsAndSelf(p, rows, c);
    AncestorsMirrorDescendants(p, rows, c, key, true);
    forall a ensures a in JoinRelationBy(p[c := q], Moved(rows, c, q), key, AncestorColumn, true)
                 <==> a in JoinRelationBy(p, rows, key, AncestorColumn, true)
    {
      AncestorsAreChain(p, rows, key, a, true);
      AncestorsAreChain(p[c := q], Moved(rows, c, q), key, a, true);
      forall j: nat ensures Up(p[c := q], key, j) == Up(p, key, j) {
        MovedChainOutside(p, rows, c, q, key, j);
      }
    }
  }

  /** The rows of an id query in the order the database returns them, which
      is left open. */
  method ListIds(ids: set<Id>) returns (order: seq<Id>)
    ensures Elems(order) == ids
    ensures |order| == |ids|
  {
    order := [];
    var todo := ids;
    while todo != {}
      invariant todo <= ids
      invariant Elems(order) == ids - todo
      invariant |order| == |Elems(order)|
      decreases todo
    {
      var x :| x in todo;
      assert Elems(order + [x]) == Elems(order) + {x};
      order := order + [x];
      todo := todo - {x};
    }
  }

  class ClosureStore {
    /** The entity table's parent column, by primary key. */
    var parent: Parents
    /** The closure table. */
    var rows: set<Row>

    /** What the database guarantees in every state: ids are positive and the
        closure table's primary key holds. */
    ghost predicate Consistent()
      reads this
    {
      0 !in parent && Keyed(rows)
    }

    /** The closure table is exact for a forest. */
    ghost predicate Valid()
      reads this
    {
      IsForest(parent) && IsClosure(parent, rows)
    }

    /** An empty entity table with an empty closure table. */
    constructor ()
      ensures parent == map[] && rows == {}
      ensures Consistent() && Valid()
    {
      parent := map[];
      rows := {};
    }

    /** One INSERT into the closure table: refused as a whole when it would
        break the primary key. */
    method InsertRows(added: set<Row>) returns (r: Outcome)
      requires Consistent()
      modifies this
      ensures Consistent() && parent == old(parent)
      ensures r == (if Clash(old(rows), added) then Fail(DuplicateKey) else Ok)
      ensures rows == (if r.Ok? then old(rows) + added else old(rows))
    {
      if Clash(rows, added) {
        r := Fail(DuplicateKey);
      } else {
        NoClashKeepsKeyed(rows, added);
        rows := rows + added;
        r := Ok;
      }
    }

    /** insertClosure: the self row of `descendantId` and its edges through
        `ancestorId`. */
    method InsertClosure(descendantId: Id, ancestorId: Id) returns (r: Outcome)
      requires Consistent()
      modifies this
      ensures Consistent() && parent == old(parent)
      ensures r == (if Clash(old(rows), InsertSelect(old(rows), descendantId, ancestorId)) then Fail(DuplicateKey) else Ok)
      ensures rows == (if r.Ok? then old(rows) + InsertSelect(old(rows), descendantId, ancestorId) else old(rows))
    {
      r := InsertRows(InsertSelect(rows, descendantId, ancestorId));
    }

    /** detachSelfRelation: delete the rows of one scope. */
    method DetachSelfRelation(key: Id, scope: Scope)
      requires Consistent()
      modifies this
      ensures Consistent() && parent == old(parent)
      ensures rows == old(rows) - ScopeRows(old(rows), key, scope)
    {
      rows := rows - ScopeRows(rows, key, scope);
    }

    /** detachRelationships: cut `key`'s subtree from `key`'s ancestors. */
    method DetachRelationships(key: Id) returns (r: Outcome)
      requires Consistent()
      modifies this
      ensures Consistent() && parent == old(parent)
      ensures r == (if key in old(parent) then Ok else Fail(NotFound))
      ensures rows == (if r.Ok? then Detached(old(rows), key) else old(rows))
    {
      if key !in parent {
        return Fail(NotFound);
      }
      rows := Detached(rows, key);
      r := Ok;
    }

    /** attachTreeTo: link `key`'s subtree below `parentKey` (None reads as 0). */
    method AttachTreeTo(key: Id, parentKey: Option<Id>) returns (r: Outcome)
      requires Consistent()
      modifies this
      ensures Consistent() && parent == old(parent)
      ensures var q := if parentKey.Some? then parentKey.value else 0;
              var added := AttachSelect(old(rows), key, q);
              && (key !in old(parent) ==> r == Fail(NotFound) && rows == old(rows))
              && (key in old(parent) ==> r == (if Clash(old(rows), added) then Fail(DuplicateKey) else Ok))
              && (key in old(parent) ==> rows == (if r.Ok? then old(rows) + added else old(rows)))
    {
      if key !in parent {
        return Fail(NotFound);
      }
      var q := if parentKey.Some? then parentKey.value else 0;
      r := InsertRows(AttachSelect(rows, key, q));
    }

    /** deleteRelationships: delete every row ending in `key`'s subtree. */
    method DeleteRelationships(key: Id) returns (r: Outcome)
      requires Consistent()
      modifies this
      ensures Consistent() && parent == old(parent)
      ensures r == (if key in old(parent) then Ok else Fail(NotFound))
      ensures rows == (if r.Ok? then old(rows) - SubtreeRows(old(rows), key) else old(rows))
      ensures old(Valid()) && r.Ok? ==>
        IsForest(parent - SubtreeIds(old(rows), key)) && IsClosure(parent - SubtreeIds(old(rows), key), rows)
    {
      if key !in parent {
        return Fail(NotFound);
      }
      if Valid() {
        DeleteSubtreeIsExact(parent, rows, key);
      }
      rows := rows - SubtreeRows(rows, key);
      r := Ok;
    }

    /** deleteRedundancies: delete every row naming an id missing from the
        entity table or, with soft deletes, trashed. */
    method DeleteRedundancies(trashed: set<Id>, softDeletes: bool)
      requires Consistent()
      modifies this
      ensures Consistent() && parent == old(parent)
      ensures var live := parent.Keys - (if softDeletes then trashed else {});
              && rows == old(rows) - PrunedRows(old(rows), live)
              && (forall r | r in rows :: r.ancestor in live && r.descendant in live)
              && (forall r | r in old(rows) && r.ancestor in live && r.descendant in live :: r in rows)
    {
      var live := parent.Keys - (if softDeletes then trashed else {});
      PrunedKeepsLive(rows, live);
      rows := rows - PrunedRows(rows, live);
    }

    /** updateClosure for `key` whose parent column is about to become `pid`:
        refuse a missing parent or a parent inside the subtree, otherwise
        detach and attach in one transaction. */
    method UpdateClosure(key: Id, pid: Id) returns (r: Outcome)
      requires Consistent()
      modifies this
      ensures Consistent() && parent == old(parent)
      ensures r == (if pid != 0 && pid !in parent then Fail(NotFound)
                    else if pid in JoinRelationBy(parent, old(rows), key, DescendantColumn, true) then Fail(MoveIntoSubtree)
                    else if key !in parent then Fail(NotFound)
                    else if Clash(Detached(old(rows), key), AttachSelect(Detached(old(rows), key), key, pid))
                    then Fail(DuplicateKey) else Ok)
      ensures rows == (if r.Ok? then Moved(old(rows), key, pid) else old(rows))
      ensures r.Ok? ==> key in parent && MoveAllowed(parent, old(rows), key, pid)
      ensures old(Valid()) && key in parent && MoveAllowed(parent, old(rows), key, pid) ==> r == Ok
      ensures old(Valid()) && r.Ok? ==> IsForest(parent[key := pid]) && IsClosure(parent[key := pid], rows)
    {
      var parentKey := 0;
      if pid != 0 {
        if pid !in parent {
          return Fail(NotFound);
        }
        parentKey := pid;
      }
      var ids := JoinRelationBy(parent, rows, key, DescendantColumn, true);
      if parentKey in ids {
        return Fail(MoveIntoSubtree);
      }
      if Valid() && key in parent {
        MoveChecksSuffice(parent, rows, key, parentKey);
        MoveIsExact(parent, rows, key, parentKey);
      }
      var snapshot := rows;
      r := DetachRelationships(key);
      if r.Ok? {
        r := AttachTreeTo(key, Some(parentKey));
      }
      if r.Fail? {
        rows := snapshot;
      }
    }

    /** `setParentKey(pid)` and `save()` on the entity `key`; the
        before-update hook runs updateClosure when the parent column
        changed, and its failure aborts the save. */
    method Save(key: Id, pid: Id) returns (r: Outcome)
      requires Consistent()
      modifies this
      ensures Consistent()
      ensures r.Fail? ==> parent == old(parent) && rows == old(rows)
      ensures r.Ok? ==> key in old(parent) && parent == old(parent)[key := pid]
      ensures r.Ok? && old(parent)[key] == pid ==> rows == old(rows)
      ensures r.Ok? && old(parent)[key] != pid ==> rows == Moved(old(rows), key, pid)
      ensures old(Valid()) ==>
        (r.Ok? <==> key in old(parent) && (old(parent)[key] == pid || MoveAllowed(old(parent), old(rows), key, pid)))
      ensures old(Valid()) && r.Ok? ==> Valid()
    {
      if key !in parent {
        return Fail(NotFound);
      }
      var changes: set<string> := if parent[key] != pid then {ParentColumn} else {};
      var changed := HasChanges(changes, [ParentColumn]);
      assert changed <==> parent[key] != pid by {
        assert [ParentColumn][0] == ParentColumn;
      }
      if !changed {
        assert parent[key := pid] == parent;
        return Ok;
      }
      r := UpdateClosure(key, pid);
      if r.Fail? {
        return;
      }
      parent := parent[key := pid];
    }

    /** `create` of a new entity `key` with parent column `pid`; the
        after-insert hook runs insertClosure.  The entity row stays when the
        hook fails. */
    method Create(key: Id, pid: Id) returns (r: Outcome)
      requires Consistent()
      requires key != 0 && key !in parent
      modifies this
      ensures Consistent()
      ensures parent == old(parent)[key := pid]
      ensures r == (if Clash(old(rows), InsertSelect(old(rows), key, pid)) then Fail(DuplicateKey) else Ok)
      ensures rows == (if r.Ok? then old(rows) + InsertSelect(old(rows), key, pid) else old(rows))
      ensures old(Valid()) && (pid == 0 || pid in old(parent)) ==> r == Ok && Valid()
    {
      if Valid() && (pid == 0 || pid in parent) {
        InsertIsExact(parent, rows, key, pid);
      }
      parent := parent[key := pid];
      r := InsertClosure(key, pid);
    }

    /** createChild: refuse a model without its self row, else create the
        new entity below it. */
    method CreateChild(key: Id, newKey: Id) returns (r: Outcome)
      requires Consistent()
      requires newKey != 0 && newKey !in parent
      modifies this
      ensures Consistent()
      ensures key !in old(parent) || Row(key, key, 0) !in old(rows) ==>
        r == Fail(NotANode) && parent == old(parent) && rows == old(rows)
      ensures key in old(parent) && Row(key, key, 0) in old(rows) ==> parent == old(parent)[newKey := key]
      ensures old(Valid()) && key in old(parent) ==> r == Ok && Valid() && parent[newKey] == key
    {
      if key !in parent || Row(key, key, 0) !in rows {
        return Fail(NotANode);
      }
      r := Create(newKey, key);
    }

    /** makeRoot: nothing to do for a root, otherwise save with parent 0. */
    method MakeRoot(key: Id) returns (r: Outcome)
      requires Consistent()
      modifies this
      ensures Consistent()
      ensures r.Fail? ==> parent == old(parent) && rows == old(rows)
      ensures r.Ok? ==> parent == (if key in old(parent) then old(parent)[key := 0] else old(parent))
      ensures old(Valid()) ==> r == Ok && Valid()
    {
      if IsRoot(parent, key) {
        assert key in parent ==> parent[key := 0] == parent;
        return Ok;
      }
      if Valid() {
        ClosureIsKeyed(parent, rows);
      }
      r := Save(key, 0);
    }

    /** moveTo: the target must exist; then save with it as parent. */
    method MoveTo(key: Id, target: Id) returns (r: Outcome)
      requires Consistent()
      modifies this
      ensures Consistent()
      ensures r.Fail? ==> parent == old(parent) && rows == old(rows)
      ensures target !in old(parent) ==> r == Fail(NotFound)
      ensures r.Ok? ==> parent == old(parent)[key := target]
      ensures old(Valid()) && key in old(parent) && target in old(parent) ==>
        (r.Ok? <==> target !in JoinRelationBy(old(parent), old(rows), key, DescendantColumn, true))
      ensures old(Valid()) && r.Ok? ==> Valid()
    {
      if target !in parent {
        return Fail(NotFound);
      }
      if Valid() && key in parent && target in JoinRelationBy(parent, rows, key, DescendantColumn, true) {
        MoveChecksFail(parent, rows, key, target);
      }
      r := Save(key, target);
    }

    /** perfectNode: rewrite `key`'s ancestor edges from its parent's, in
        one transaction. */
    method PerfectNode(key: Id) returns (r: Outcome)
      requires Consistent()
      modifies this
      ensures Consistent() && parent == old(parent)
      ensures r.Ok? <==> PerfectNodeRows(parent, old(rows), key).Some?
      ensures rows == (if r.Ok? then PerfectNodeRows(parent, old(rows), key).value else old(rows))
      ensures old(Valid()) && key in parent ==> r == Ok && rows == old(rows)
    {
      if Valid() && key in parent {
        PerfectedOnExact(parent, rows, key);
      }
      var parentKey := Pid(parent, key);
      var snapshot := rows;
      DetachSelfRelation(key, AncestorScope);
      r := InsertClosure(key, parentKey);
      if r.Fail? {
        rows := snapshot;
      }
    }

    /** perfectTree: perfectNode on each strict descendant of `key`, in the
        order the query returns them (`order`); the first failure stops the
        walk and the nodes before it stay committed. */
    method PerfectTree(key: Id) returns (r: Outcome, order: seq<Id>)
      requires Consistent()
      modifies this
      ensures Consistent() && parent == old(parent)
      ensures Elems(order) == JoinRelationBy(parent, old(rows), key, DescendantColumn, false)
      ensures |order| == |Elems(order)|
      ensures rows == PerfectSweep(parent, old(rows), order).rows
      ensures r.Ok? <==> PerfectSweep(parent, old(rows), order).complete
      ensures old(Valid()) ==> r == Ok && rows == old(rows)
    {
      var ids := JoinRelationBy(parent, rows, key, DescendantColumn, false);
      order := ListIds(ids);
      if Valid() {
        PerfectSweepOnExact(parent, rows, order);
      }
      ghost var sweep := PerfectSweep(parent, rows, order);
      r := Ok;
      var i := 0;
      while i < |order|
        invariant 0 <= i <= |order|
        invariant Consistent() && parent == old(parent)
        invariant sweep == PerfectSweep(parent, rows, order[i..])
        invariant r.Ok?
      {
        assert order[i..] == [order[i]] + order[i + 1..];
        PerfectSweepHead(parent, rows, order[i], order[i + 1..]);
        r := PerfectNode(order[i]);
        if r.Fail? {
          return;
        }
        i := i + 1;
      }
    }

    /** _initClosure called on the top level of the nested array: when the
        array lists every node below its parent and every stored row ends at
        a node, the walk rebuilds the exact closure. */
    method InitClosure(data: seq<TreeNode>) returns (r: Outcome)
      requires Consistent()
      modifies this
      ensures Consistent() && parent == old(parent)
      ensures rows == PerfectSweep(parent, old(rows), Flatten(data)).rows
      ensures r.Ok? <==> PerfectSweep(parent, old(rows), Flatten(data)).complete
      ensures IsForest(parent) && Agrees(parent, data, 0) && (forall n | n in parent :: n in Flatten(data))
              && (forall x | x in old(rows) :: x.descendant in parent)
              ==> r == Ok && Valid()
    {
      if IsForest(parent) && Agrees(parent, data, 0) && (forall n | n in parent :: n in Flatten(data))
         && (forall x | x in rows :: x.descendant in parent) {
        FlattenOrdered(parent, data, 0, {});
        RebuildIsClosure(parent, rows, Flatten(data));
      }
      r := InitLevel(data);
    }

    /** _initClosure: perfectNode on every node of `data`, each node before
        its children; a missing id or a failed node stops the walk. */
    method InitLevel(data: seq<TreeNode>) returns (r: Outcome)
      requires Consistent()
      modifies this
      ensures Consistent() && parent == old(parent)
      ensures rows == PerfectSweep(parent, old(rows), Flatten(data)).rows
      ensures r.Ok? <==> PerfectSweep(parent, old(rows), Flatten(data)).complete
      decreases data
    {
      ghost var sweep := PerfectSweep(parent, rows, Flatten(data));
      assert data[0..] == data;
      r := Ok;
      var i := 0;
      while i < |data|
        invariant 0 <= i <= |data|
        invariant Consistent() && parent == old(parent)
        invariant sweep == PerfectSweep(parent, rows, Flatten(data[i..]))
        invariant r.Ok?
      {
        var v := data[i];
        assert Flatten(data[i..]) == [v.id] + (Flatten(v.children) + Flatten(data[i + 1..])) by {
          assert data[i..][0] == v && data[i..][1..] == data[i + 1..];
        }
        PerfectSweepNode(parent, rows, v.id, Flatten(v.children), Flatten(data[i + 1..]));
        if v.id !in parent {
          return Fail(NotFound);
        }
        r := PerfectNode(v.id);
        if r.Fail? {
          return;
        }
        if |v.children| > 0 {
          r := InitLevel(v.children);
          if r.Fail? {
            return;
          }
        }
        i := i + 1;
      }
    }

    /** deleteObservers: the model must exist; each child is saved with
        parent 0 (re-entering the update hook), then `key`'s rows are
        removed.  A failed child save stops it; earlier saves stay. */
    method DeleteObservers(key: Id) returns (r: Outcome)
      requires Consistent()
      modifies this
      ensures Consistent()
      ensures key !in old(parent) ==> r == Fail(NotFound) && parent == old(parent) && rows == old(rows)
      ensures r.Ok? ==> parent == Orphaned(old(parent), key)
      ensures r.Ok? ==> forall x | x in rows :: x.ancestor != key && x.descendant != key
      ensures old(Valid()) && key in old(parent) ==>
        r == Ok && IsForest(parent - {key}) && IsClosure(parent - {key}, rows)
    {
      if key !in parent {
        return Fail(NotFound);
      }
      ghost var valid0 := Valid();
      ghost var p0 := parent;
      var children := Children(parent, key);
      var todo := children;
      while todo != {}
        invariant todo <= children
        invariant Consistent()
        invariant parent.Keys == p0.Keys
        invariant forall x | x in parent :: parent[x] == (if x in children - todo then 0 else p0[x])
        invariant valid0 ==> Valid()
        decreases todo
      {
        var c :| c in todo;
        if Valid() {
          ClosureIsKeyed(parent, rows);
        }
        r := Save(c, 0);
        if r.Fail? {
          return;
        }
        todo := todo - {c};
      }
      assert parent == Orphaned(p0, key);
      if valid0 {
        assert forall c | c in parent :: parent[c] != key;
        RemoveLeafIsExact(parent, rows, key);
      }
      r := DetachRelationships(key);
      DetachSelfRelation(key, BothScope);
    }

    /** `delete()` of the entity `key`: the before-delete hook, then the
        entity row goes. */
    method Delete(key: Id) returns (r: Outcome)
      requires Consistent()
      modifies this
      ensures Consistent()
      ensures key !in old(parent) ==> r == Fail(NotFound) && parent == old(parent) && rows == old(rows)
      ensures r.Ok? ==> parent == Orphaned(old(parent), key) - {key}
      ensures r.Ok? ==> forall x | x in rows :: x.ancestor != key && x.descendant != key
      ensures old(Valid()) && key in old(parent) ==> r == Ok && Valid()
    {
      r := DeleteObservers(key);
      if r.Fail? {
        return;
      }
      parent := parent - {key};
    }

    /** addChild: the model must be a node; its ancestors-and-self are read
        once, then the children are saved below it in one transaction: any
        failure restores both tables. */
    method AddChild(key: Id, children: seq<Id>) returns (r: Outcome)
      requires Consistent()
      modifies this
      ensures Consistent()
      ensures r.Fail? ==> parent == old(parent) && rows == old(rows)
      ensures key !in old(parent) || Row(key, key, 0) !in old(rows) ==> r == Fail(NotANode)
      ensures r.Ok? ==> parent.Keys == old(parent).Keys
      ensures r.Ok? ==> forall x | x in parent :: parent[x] == (if x in children then key else old(parent)[x])
      ensures old(Valid()) ==>
        (r.Ok? <==> key in old(parent)
                    && forall c | c in children ::
                         c in old(parent) && c !in JoinRelationBy(old(parent), old(rows), key, AncestorColumn, true))
      ensures old(Valid()) && r.Ok? ==> Valid()
    {
      if key !in parent || Row(key, key, 0) !in rows {
        if Valid() && key in parent {
          assert OnPath(parent, Row(key, key, 0));
        }
        return Fail(NotANode);
      }
      var ids := JoinRelationBy(parent, rows, key, AncestorColumn, true);
      var snapParent, snapRows := parent, rows;
      r := SaveChildren(key, children, ids);
      if r.Fail? {
        parent, rows := snapParent, snapRows;
      }
    }

    /** The loop inside addChild's transaction: each child must exist and
        must not be in `ids`, the ancestors-and-self read before the loop;
        it is then saved below `key`.  The first failure stops the loop and
        leaves the earlier saves for the caller to roll back. */
    method SaveChildren(key: Id, children: seq<Id>, ids: set<Id>) returns (r: Outcome)
      requires Consistent() && key in parent
      modifies this
      ensures Consistent() && parent.Keys == old(parent).Keys
      ensures r.Ok? ==> forall x | x in parent :: parent[x] == (if x in children then key else old(parent)[x])
      ensures old(Valid()) && ids == JoinRelationBy(old(parent), old(rows), key, AncestorColumn, true) ==>
        (r.Ok? <==> forall c | c in children :: c in old(parent) && c !in ids)
      ensures old(Valid()) && r.Ok? ==> Valid()
    {
      ghost var exact := Valid() && ids == JoinRelationBy(parent, rows, key, AncestorColumn, true);
      ghost var valid0 := Valid();
      ghost var p0 := parent;
      r := Ok;
      var i := 0;
      while i < |children|
        invariant 0 <= i <= |children|
        invariant Consistent() && r.Ok?
        invariant key in parent
        invariant parent.Keys == p0.Keys
        invariant forall x | x in parent :: parent[x] == (if x in children[..i] then key else p0[x])
        invariant forall j | 0 <= j < i :: children[j] in p0 && children[j] !in ids
        invariant valid0 ==> Valid()
        invariant exact ==> JoinRelationBy(parent, rows, key, AncestorColumn, true) == ids
      {
        var c := children[i];
        if c !in parent {
          return Fail(NotFound);
        }
        if c in ids {
          return Fail(ChildIsAncestor);
        }
        if exact {
          AdoptAllowed(parent, rows, key, c);
        }
        r := Save(c, key);
        if r.Fail? {
          return;
        }
        assert children[..i + 1] == children[..i] + [c];
        i := i + 1;
      }
      assert children[..i] == children;
    }
  }

  /** addChild's step on an exact closure: a child that exists and is not
      among the model's ancestors-and-self may move below the model, and the
      move leaves the model's ancestors-and-self as they were. */
  lemma {:induction false} AdoptAllowed(p: Parents, rows: set<Row>, key: Id, c: Id)
    requires IsForest(p) && IsClosure(p, rows) && key in p && c in p
    requires c !in JoinRelationBy(p, rows, key, AncestorColumn, true)
    ensures MoveAllowed(p, rows, c, key)
    ensures p[c] != key ==>
      JoinRelationBy(p[c := key], Moved(rows, c, key), key, AncestorColumn, true)
        == JoinRelationBy(p, rows, key, AncestorColumn, true)
  {
    AncestorsMirrorDescendants(p, rows, c, key, true);
    MoveChecksSuffice(p, rows, c, key);
    if p[c] != key {
      MoveKeepsOtherAncestors(p, rows, c, key, key);
    }
  }

  /** On an exact closure updateClosure refuses exactly the parents inside
      the subtree. */
  lemma {:induction false} MoveChecksFail(p: Parents, rows: set<Row>, key: Id, q: Id)
    requires IsForest(p) && IsClosure(p, rows)
    requires q in JoinRelationBy(p, rows, key, DescendantColumn, true)
    ensures q in p && Pid(p, key) != q
  {
    DescendantsAreChain(p, rows, key, q, true);
    var j: nat :| Up(p, q, j) == key;
    if key in p && Pid(p, key) == q {
      UpAdd(p, q, j, 1);
    }
  }
}
