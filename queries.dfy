/** The read side of the closure-table trait: every query is a function of
    the parent column and the closure relation.  A query that goes through
    parameter2Model or a parent lookup answers None where the source throws
    because the row is not found. */
module Queries {
  import opened Forest

  /** Which column of the closure relation the entity table is joined on. */
  datatype Column = AncestorColumn | DescendantColumn

  /** joinRelationBy: the entities joined on `column` of the rows whose other
      end is `key`, at distance > 0, or >= 0 with self. */
  function JoinRelationBy(p: Parents, rows: set<Row>, key: Id, column: Column, withSelf: bool): (ids: set<Id>)
    ensures forall x | x in ids :: x in p
    ensures column == AncestorColumn ==>
      forall r | r in rows && r.descendant == key && r.ancestor in p && (withSelf || r.distance > 0) :: r.ancestor in ids
    ensures column == DescendantColumn ==>
      forall r | r in rows && r.ancestor == key && r.descendant in p && (withSelf || r.distance > 0) :: r.descendant in ids
  {
    match column
    case AncestorColumn =>
      set r | r in rows && r.descendant == key && r.ancestor in p && (withSelf || r.distance > 0) :: r.ancestor
    case DescendantColumn =>
      set r | r in rows && r.ancestor == key && r.descendant in p && (withSelf || r.distance > 0) :: r.descendant
  }

  /** `a` is reached from `d` by climbing the parent map, at least one hop
      unless `withSelf`. */
  ghost predicate Above(p: Parents, d: Id, a: Id, withSelf: bool)
  {
    exists j: nat :: (withSelf || j > 0) && Up(p, d, j) == a
  }

  /** The ancestor and descendant queries are mirror images: `a` is an
      ancestor of `d` exactly when `d` is a descendant of `a`. */
  lemma {:induction false} AncestorsMirrorDescendants(p: Parents, rows: set<Row>, a: Id, d: Id, withSelf: bool)
    ensures d in p && a in JoinRelationBy(p, rows, d, AncestorColumn, withSelf)
        <==> a in p && d in JoinRelationBy(p, rows, a, DescendantColumn, withSelf)
  {
    if a in JoinRelationBy(p, rows, d, AncestorColumn, withSelf) {
      var r :| r in rows && r.descendant == d && r.ancestor in p && (withSelf || r.distance > 0) && r.ancestor == a;
    }
    if d in JoinRelationBy(p, rows, a, DescendantColumn, withSelf) {
      var r :| r in rows && r.ancestor == a && r.descendant in p && (withSelf || r.distance > 0) && r.descendant == d;
    }
  }

  /** On an exact closure the ancestor query is the parent chain. */
  lemma {:induction false} AncestorsAreChain(p: Parents, rows: set<Row>, key: Id, a: Id, withSelf: bool)
    requires IsForest(p) && IsClosure(p, rows)
    ensures a in JoinRelationBy(p, rows, key, AncestorColumn, withSelf)
        <==> key in p && a in p && Above(p, key, a, withSelf)
  {
    if key in p && a in p && Above(p, key, a, withSelf) {
      var j: nat :| (withSelf || j > 0) && Up(p, key, j) == a;
      assert OnPath(p, Row(a, key, j));
    }
    if a in JoinRelationBy(p, rows, key, AncestorColumn, withSelf) {
      var r :| r in rows && r.descendant == key && r.ancestor in p && (withSelf || r.distance > 0) && r.ancestor == a;
      assert OnPath(p, r);
    }
  }

  /** On an exact closure the descendant query is the set of nodes whose
      parent chain passes through `key`. */
  lemma {:induction false} DescendantsAreChain(p: Parents, rows: set<Row>, key: Id, d: Id, withSelf: bool)
    requires IsForest(p) && IsClosure(p, rows)
    ensures d in JoinRelationBy(p, rows, key, DescendantColumn, withSelf)
        <==> key in p && d in p && Above(p, d, key, withSelf)
  {
    if key in p && d in p && Above(p, d, key, withSelf) {
      var j: nat :| (withSelf || j > 0) && Up(p, d, j) == key;
      assert OnPath(p, Row(key, d, j));
    }
    if d in JoinRelationBy(p, rows, key, DescendantColumn, withSelf) {
      var r :| r in rows && r.ancestor == key && r.descendant in p && (withSelf || r.distance > 0) && r.descendant == d;
      assert OnPath(p, r);
      UpStays(p, d, r.distance);
    }
  }

  // ---------------------------------------------------------------------
  // Parent-column queries

  /** onlyRoot / getRoots: the entities whose parent column is 0 (or null). */
  function Roots(p: Parents): (roots: set<Id>)
    ensures forall x :: x in roots <==> x in p && p[x] == 0
  {
    set x | x in p && p[x] == 0
  }

  /** queryChildren: the entities whose parent column is `key`. */
  function Children(p: Parents, key: Id): (children: set<Id>)
    ensures forall x :: x in children <==> x in p && p[x] == key
  {
    set x | x in p && p[x] == key
  }

  /** getParents: the entity whose key is `key`'s parent column, if any. */
  function ParentOf(p: Parents, key: Id): (parent: Option<Id>)
    ensures parent.Some? <==> Pid(p, key) in p
    ensures parent.Some? ==> parent.value in p && parent.value == Pid(p, key)
  {
    if Pid(p, key) in p then Some(Pid(p, key)) else None
  }

  /** isRoot: the parent column is 0 (or null); a node is a root exactly
      when onlyRoot lists it. */
  predicate IsRoot(p: Parents, key: Id): (r: bool)
    ensures key in p ==> (r <==> key in Roots(p))
  {
    Pid(p, key) == 0
  }

  /** isLeaf: no entity names `key` in its parent column. */
  predicate IsLeaf(p: Parents, key: Id): (r: bool)
    ensures r <==> forall x | x in p :: IsParentOf(p, key, x) == Some(false)
  {
    Children(p, key) == {}
  }

  /** joinWithoutClosure / scopeIsolated: the entities with no row starting
      at them, not even the self row. */
  function Isolated(p: Parents, rows: set<Row>): (ids: set<Id>)
    ensures forall x | x in ids :: x in p && Row(x, x, 0) !in rows
    ensures forall x | x in p && x !in ids :: exists r :: r in rows && r.ancestor == x
  {
    set x | x in p && forall r | r in rows :: r.ancestor != x
  }

  /** isIsolated: `key` is among the isolated entities. */
  predicate IsIsolated(p: Parents, rows: set<Row>, key: Id): (r: bool)
    ensures r ==> key in p && Row(key, key, 0) !in rows
    ensures key in p && !r ==> exists row :: row in rows && row.ancestor == key
  {
    key in Isolated(p, rows)
  }

  /** On an exact closure a node is a root exactly when it has no strict
      ancestor. */
  lemma {:induction false} RootHasNoAncestors(p: Parents, rows: set<Row>, key: Id)
    requires IsForest(p) && IsClosure(p, rows) && key in p
    ensures IsRoot(p, key) <==> JoinRelationBy(p, rows, key, AncestorColumn, false) == {}
  {
    if IsRoot(p, key) {
      forall a | a in JoinRelationBy(p, rows, key, AncestorColumn, false) ensures false {
        AncestorsAreChain(p, rows, key, a, false);
        var j: nat :| j > 0 && Up(p, key, j) == a;
        UpAdd(p, key, 1, j - 1);
        UpSentinel(p, j - 1);
      }
    } else {
      assert Up(p, key, 1) == p[key];
      assert OnPath(p, Row(p[key], key, 1));
    }
  }

  /** On an exact closure a node is a leaf exactly when it has no strict
      descendant. */
  lemma {:induction false} LeafHasNoDescendants(p: Parents, rows: set<Row>, key: Id)
    requires IsForest(p) && IsClosure(p, rows) && key in p
    ensures IsLeaf(p, key) <==> JoinRelationBy(p, rows, key, DescendantColumn, false) == {}
  {
    forall d | d in JoinRelationBy(p, rows, key, DescendantColumn, false)
      ensures Up(p, d, 0) in p && exists c :: c in Children(p, key)
    {
      DescendantsAreChain(p, rows, key, d, false);
      var j: nat :| j > 0 && Up(p, d, j) == key;
      UpLast(p, d, j - 1);
      assert Up(p, d, j - 1) in Children(p, key);
    }
    forall c | c in Children(p, key)
      ensures c in JoinRelationBy(p, rows, key, DescendantColumn, false)
    {
      assert Up(p, c, 1) == key;
      DescendantsAreChain(p, rows, key, c, false);
    }
  }

  /** On an exact closure no entity is isolated. */
  lemma {:induction false} ExactHasNoIsolated(p: Parents, rows: set<Row>)
    requires IsForest(p) && IsClosure(p, rows)
    ensures Isolated(p, rows) == {}
  {
    forall x | x in p ensures Row(x, x, 0) in rows {
      assert OnPath(p, Row(x, x, 0));
    }
  }

  // ---------------------------------------------------------------------
  // getRoot and queryBesides

  /** The rows getRoot may return: strict ancestors whose parent column is 0. */
  function RootCandidates(p: Parents, rows: set<Row>, key: Id): (cands: set<Id>)
    ensures forall a | a in cands :: a in p && p[a] == 0
  {
    set a | a in JoinRelationBy(p, rows, key, AncestorColumn, false) && p[a] == 0
  }

  /** getRoot: one of the candidate rows (find() takes whichever comes
      first), or None when there is none. */
  ghost function GetRoot(p: Parents, rows: set<Row>, key: Id): (root: Option<Id>)
    ensures root.None? <==> RootCandidates(p, rows, key) == {}
    ensures root.Some? ==> root.value in RootCandidates(p, rows, key)
  {
    var cands := RootCandidates(p, rows, key);
    if cands == {} then None else var a :| a in cands; Some(a)
  }

  /** The top of a chain: the node `j` hops above `key` whose parent is 0. */
  ghost predicate TopAt(p: Parents, key: Id, j: nat)
  {
    Up(p, key, j) in p && p[Up(p, key, j)] == 0
  }

  /** A chain has at most one top. */
  lemma {:induction false} TopUnique(p: Parents, key: Id, i: nat, j: nat)
    requires Closed(p) && TopAt(p, key, i) && TopAt(p, key, j)
    ensures i == j
  {
    if i < j {
      UpLast(p, key, i);
      UpAdd(p, key, i + 1, j - i - 1);
      UpSentinel(p, j - i - 1);
    } else if j < i {
      UpLast(p, key, j);
      UpAdd(p, key, j + 1, i - j - 1);
      UpSentinel(p, i - j - 1);
    }
  }

  /** On an exact closure getRoot is determined: a root has no candidate, any
      other node at most one, the top of its chain. */
  lemma {:induction false} RootIsTop(p: Parents, rows: set<Row>, key: Id)
    requires IsForest(p) && IsClosure(p, rows) && key in p
    ensures IsRoot(p, key) ==> RootCandidates(p, rows, key) == {}
    ensures forall a | a in RootCandidates(p, rows, key) :: exists j: nat :: j > 0 && Up(p, key, j) == a && TopAt(p, key, j)
    ensures forall a, b | a in RootCandidates(p, rows, key) && b in RootCandidates(p, rows, key) :: a == b
  {
    RootHasNoAncestors(p, rows, key);
    forall a | a in RootCandidates(p, rows, key)
      ensures exists j: nat :: j > 0 && Up(p, key, j) == a && TopAt(p, key, j)
    {
      AncestorsAreChain(p, rows, key, a, false);
      var j: nat :| j > 0 && Up(p, key, j) == a;
      assert TopAt(p, key, j);
    }
    forall a, b | a in RootCandidates(p, rows, key) && b in RootCandidates(p, rows, key)
      ensures a == b
    {
      var i: nat :| i > 0 && Up(p, key, i) == a && TopAt(p, key, i);
      var j: nat :| j > 0 && Up(p, key, j) == b && TopAt(p, key, j);
      TopUnique(p, key, i, j);
    }
  }

  /** The root queryBesides starts from: getRoot, or the node itself. */
  ghost function BesidesRoot(p: Parents, rows: set<Row>, key: Id): Id
  {
    match GetRoot(p, rows, key)
    case None => key
    case Some(a) => a
  }

  /** queryBesides: the root's descendants-and-self minus `key`'s
      descendants-and-self. */
  ghost function Besides(p: Parents, rows: set<Row>, key: Id): (ids: set<Id>)
    ensures forall x | x in ids :: x in p && x !in JoinRelationBy(p, rows, key, DescendantColumn, true)
  {
    JoinRelationBy(p, rows, BesidesRoot(p, rows, key), DescendantColumn, true)
      - JoinRelationBy(p, rows, key, DescendantColumn, true)
  }

  /** Two nodes whose chains meet at a node lie in the same tree. */
  ghost predicate SameTree(p: Parents, x: Id, y: Id)
  {
    exists i: nat, j: nat :: Up(p, x, i) != 0 && Up(p, x, i) == Up(p, y, j)
  }

  /** Where a chain meets the chain of a node with top `jr`, it meets it at
      or below the top. */
  lemma {:induction false} MeetBelowTop(p: Parents, key: Id, jr: nat, j: nat)
    requires Closed(p) && TopAt(p, key, jr) && Up(p, key, j) != 0
    ensures j <= jr
  {
    if jr < j {
      UpLast(p, key, jr);
      UpAdd(p, key, jr + 1, j - jr - 1);
      UpSentinel(p, j - jr - 1);
    }
  }

  /** On an exact closure, when `key`'s chain reaches a top, queryBesides is
      everyone in `key`'s tree outside `key`'s subtree. */
  lemma {:induction false} BesidesIsRestOfTree(p: Parents, rows: set<Row>, key: Id, jr: nat, x: Id)
    requires IsForest(p) && IsClosure(p, rows) && key in p
    requires TopAt(p, key, jr)
    ensures x in Besides(p, rows, key)
        <==> x in p && SameTree(p, x, key) && !Above(p, x, key, true)
  {
    var top := Up(p, key, jr);
    RootIsTop(p, rows, key);
    assert BesidesRoot(p, rows, key) == top by {
      if jr > 0 {
        AncestorsAreChain(p, rows, key, top, false);
        assert top in RootCandidates(p, rows, key);
        var j: nat :| j > 0 && Up(p, key, j) == BesidesRoot(p, rows, key) && TopAt(p, key, j);
        TopUnique(p, key, j, jr);
      } else {
        assert IsRoot(p, key);
      }
    }
    DescendantsAreChain(p, rows, top, x, true);
    DescendantsAreChain(p, rows, key, x, true);
    if x in p && SameTree(p, x, key) {
      var i: nat, j: nat :| Up(p, x, i) != 0 && Up(p, x, i) == Up(p, key, j);
      MeetBelowTop(p, key, jr, j);
      UpAdd(p, key, j, jr - j);
      UpAdd(p, x, i, jr - j);
      assert Up(p, x, i + (jr - j)) == top;
    }
    if x in p && Above(p, x, top, true) {
      var i: nat :| Up(p, x, i) == top;
      assert Up(p, x, i) != 0 && Up(p, x, i) == Up(p, key, jr);
    }
  }

  // ---------------------------------------------------------------------
  // Siblings

  /** querySiblings as the source writes it: the parent's other children, or,
      for a root, every root. */
  function SiblingsAsWritten(p: Parents, key: Id): (sibs: Option<set<Id>>)
    ensures sibs.None? <==> !IsRoot(p, key) && Pid(p, key) !in p
    ensures IsRoot(p, key) ==> sibs == Some(Roots(p))
    ensures !IsRoot(p, key) ==> sibs == Siblings(p, key)
    ensures !IsRoot(p, key) && sibs.Some? ==>
      forall x :: x in sibs.value <==> x in p && x != key && Pid(p, x) == Pid(p, key)
  {
    if Pid(p, key) != 0 then
      match ParentOf(p, key)
      case None => None
      case Some(q) => Some(Children(p, q) - {key})
    else Some(Roots(p))
  }

  /** querySiblings with the root branch excluding the node itself, as the
      other branch does. */
  function Siblings(p: Parents, key: Id): (sibs: Option<set<Id>>)
    ensures sibs.None? <==> !IsRoot(p, key) && Pid(p, key) !in p
    ensures sibs.Some? ==> forall x :: x in sibs.value <==> x in p && x != key && Pid(p, x) == Pid(p, key)
  {
    if Pid(p, key) != 0 then
      match ParentOf(p, key)
      case None => None
      case Some(q) => Some(Children(p, q) - {key})
    else Some(Roots(p) - {key})
  }

  /** querySiblingsAndSelf: the parent's children, or every root. */
  function SiblingsAndSelf(p: Parents, key: Id): (sibs: Option<set<Id>>)
    ensures sibs.None? <==> !IsRoot(p, key) && Pid(p, key) !in p
    ensures sibs.Some? ==> forall x :: x in sibs.value <==> x in p && Pid(p, x) == Pid(p, key)
  {
    if Pid(p, key) != 0 then
      match ParentOf(p, key)
      case None => None
      case Some(q) => Some(Children(p, q))
    else Some(Roots(p))
  }

  /** For a node, siblings-and-self is exactly siblings plus the node. */
  lemma {:induction false} SiblingsAndSelfAddsSelf(p: Parents, key: Id)
    requires key in p
    ensures SiblingsAndSelf(p, key).Some? <==> Siblings(p, key).Some?
    ensures SiblingsAndSelf(p, key).Some? ==>
      SiblingsAndSelf(p, key).value == Siblings(p, key).value + {key}
  {
  }

  /** As written, a root is its own sibling, while no other node is. */
  lemma {:induction false} RootIsOwnSiblingAsWritten(p: Parents, key: Id)
    requires key in p
    ensures SiblingsAsWritten(p, key).Some? && key in SiblingsAsWritten(p, key).value <==> IsRoot(p, key)
    ensures Siblings(p, key).Some? ==> key !in Siblings(p, key).value
    ensures IsRoot(p, key) ==> IsSiblingOfAsWritten(p, key, key) == Some(true)
    ensures IsRoot(p, key) ==> IsSiblingOf(p, key, key) == Some(false)
  {
  }

  // ---------------------------------------------------------------------
  // Relationship predicates; None where parameter2Model throws

  /** isParentOf: `child`'s parent column names `key`. */
  function IsParentOf(p: Parents, key: Id, child: Id): (r: Option<bool>)
    ensures r.None? <==> child !in p
    ensures r == Some(true) <==> child in Children(p, key)
  {
    if child !in p then None else Some(key == p[child])
  }

  /** isChildOf: `key`'s parent column names `parent`. */
  function IsChildOf(p: Parents, key: Id, parent: Id): (r: Option<bool>)
    ensures r.None? <==> parent !in p
    ensures key in p && parent in p ==> r == IsParentOf(p, parent, key)
  {
    if parent !in p then None else Some(parent == Pid(p, key))
  }

  /** isAncestorOf: `d` is among `key`'s strict descendants. */
  function IsAncestorOf(p: Parents, rows: set<Row>, key: Id, d: Id): (r: Option<bool>)
    ensures r.None? <==> d !in p
    ensures key in p && d in p ==>
      (r == Some(true) <==> key in JoinRelationBy(p, rows, d, AncestorColumn, false))
  {
    if d !in p then None
    else
      var ids := JoinRelationBy(p, rows, key, DescendantColumn, false);
      AncestorsMirrorDescendants(p, rows, key, d, false);
      Some(d in ids)
  }

  /** isDescendantOf: `a` is among `key`'s strict ancestors. */
  function IsDescendantOf(p: Parents, rows: set<Row>, key: Id, a: Id): (r: Option<bool>)
    ensures r.None? <==> a !in p
    ensures key in p && a in p ==> r == IsAncestorOf(p, rows, a, key)
  {
    if a !in p then None
    else
      var ids := JoinRelationBy(p, rows, key, AncestorColumn, false);
      AncestorsMirrorDescendants(p, rows, a, key, false);
      Some(a in ids)
  }

  /** isSiblingOf as the source writes it: `s` is among the result of
      getSiblings, which for a root includes the root itself. */
  function IsSiblingOfAsWritten(p: Parents, key: Id, s: Id): (r: Option<bool>)
    ensures r.None? <==> s !in p || SiblingsAsWritten(p, key).None?
    ensures key in p && s in p && r.Some? ==>
      (r.value <==> (s != key || IsRoot(p, key)) && Pid(p, s) == Pid(p, key))
    ensures s != key ==> r == IsSiblingOf(p, key, s)
  {
    if s !in p then None
    else match SiblingsAsWritten(p, key)
      case None => None
      case Some(ids) => Some(s in ids)
  }

  /** isSiblingOf over the corrected querySiblings: a node is never its own
      sibling. */
  function IsSiblingOf(p: Parents, key: Id, s: Id): (r: Option<bool>)
    ensures r.None? <==> s !in p || Siblings(p, key).None?
    ensures key in p && s in p && r.Some? ==>
      (r.value <==> s != key && Pid(p, s) == Pid(p, key))
  {
    if s !in p then None
    else match Siblings(p, key)
      case None => None
      case Some(ids) => Some(s in ids)
  }

  /** isBesideOf as the source writes it: false for a root, otherwise true
      for anything outside `key`'s descendants-and-self. */
  function IsBesideOfAsWritten(p: Parents, rows: set<Row>, key: Id, b: Id): (r: Option<bool>)
    ensures IsRoot(p, key) ==> r == Some(false)
    ensures !IsRoot(p, key) ==> (r.None? <==> b !in p)
    ensures !IsRoot(p, key) && b in p ==>
      r == Some(b !in JoinRelationBy(p, rows, key, DescendantColumn, true))
  {
    if IsRoot(p, key) then Some(false)
    else if b !in p then None
    else Some(b !in JoinRelationBy(p, rows, key, DescendantColumn, true))
  }

  /** isBesideOf answering membership in queryBesides, as the other
      relationship predicates answer membership in their queries. */
  ghost function IsBesideOf(p: Parents, rows: set<Row>, key: Id, b: Id): (r: Option<bool>)
    ensures IsRoot(p, key) ==> r == Some(false)
    ensures !IsRoot(p, key) ==> (r.None? <==> b !in p)
    ensures r.Some? && !IsRoot(p, key) ==> (r.value <==> b in Besides(p, rows, key))
  {
    if IsRoot(p, key) then Some(false)
    else if b !in p then None
    else Some(b in Besides(p, rows, key))
  }

  /** On an exact closure the corrected isBesideOf agrees with queryBesides
      for a root as well: a root has nothing beside it. */
  lemma {:induction false} RootHasNothingBeside(p: Parents, rows: set<Row>, key: Id)
    requires IsForest(p) && IsClosure(p, rows) && key in p && IsRoot(p, key)
    ensures Besides(p, rows, key) == {}
  {
    RootIsTop(p, rows, key);
  }

  /** On an exact closure, for a node that is not a root, the as-written
      isBesideOf answers true for every node of another tree, where
      queryBesides, and so the corrected isBesideOf, answers false. */
  lemma {:induction false} BesideOfOtherTreeAsWritten(p: Parents, rows: set<Row>, key: Id, b: Id)
    requires IsForest(p) && IsClosure(p, rows) && key in p && !IsRoot(p, key)
    requires b in p && !SameTree(p, b, key)
    ensures IsBesideOfAsWritten(p, rows, key, b) == Some(true)
    ensures IsBesideOf(p, rows, key, b) == Some(false)
  {
    DescendantsAreChain(p, rows, key, b, true);
    AboveChainSameTree(p, b, key, 0);
    var top := BesidesRoot(p, rows, key);
    DescendantsAreChain(p, rows, top, b, true);
    if GetRoot(p, rows, key).Some? {
      RootIsTop(p, rows, key);
      var j: nat :| j > 0 && Up(p, key, j) == top && TopAt(p, key, j);
      AboveChainSameTree(p, b, key, j);
    }
  }

  /** A node below a node of `y`'s chain lies in `y`'s tree. */
  lemma {:induction false} AboveChainSameTree(p: Parents, x: Id, y: Id, j: nat)
    requires Closed(p) && Up(p, y, j) in p
    ensures Above(p, x, Up(p, y, j), true) ==> SameTree(p, x, y)
  {
    if Above(p, x, Up(p, y, j), true) {
      var i: nat :| Up(p, x, i) == Up(p, y, j);
    }
  }

  /** When `key`'s chain reaches a top, the as-written and the corrected
      isBesideOf agree exactly on the nodes of `key`'s own tree. */
  lemma {:induction false} BesideAsWrittenAgreesInTree(p: Parents, rows: set<Row>, key: Id, jr: nat, b: Id)
    requires IsForest(p) && IsClosure(p, rows) && key in p && !IsRoot(p, key)
    requires TopAt(p, key, jr) && b in p
    ensures IsBesideOfAsWritten(p, rows, key, b) == IsBesideOf(p, rows, key, b) <==> SameTree(p, b, key)
  {
    BesidesIsRestOfTree(p, rows, key, jr, b);
    DescendantsAreChain(p, rows, key, b, true);
    if !SameTree(p, b, key) {
      BesideOfOtherTreeAsWritten(p, rows, key, b);
    }
  }

  /** The forest of two trees {1 <- 3} and {2}, with its exact closure; the
      two trees share no node. */
  lemma {:induction false} TwoTreesExact(p: Parents, rows: set<Row>)
    requires p == map[1 := 0, 2 := 0, 3 := 1]
    requires rows == {Row(1, 1, 0), Row(2, 2, 0), Row(3, 3, 0), Row(1, 3, 1)}
    ensures IsForest(p) && IsClosure(p, rows)
    ensures !SameTree(p, 2, 3)
  {
    assert Up(p, 1, 1) == 0 && Up(p, 2, 1) == 0 && Up(p, 3, 2) == 0;
    forall n, j: nat | n in p && 0 < j ensures Up(p, n, j) != n {
      if n == 3 && j > 1 {
        UpAdd(p, 3, 2, j - 2);
        UpSentinel(p, j - 2);
      } else if n != 3 {
        UpAdd(p, n, 1, j - 1);
        UpSentinel(p, j - 1);
      }
    }
    forall r: Row ensures r in rows <==> OnPath(p, r) {
      if r.descendant in p && r.distance > 1 {
        UpAdd(p, r.descendant, 2, r.distance - 2);
        UpSentinel(p, r.distance - 2);
      }
    }
    forall i: nat, j: nat | Up(p, 2, i) != 0 ensures Up(p, 2, i) != Up(p, 3, j) {
      if i > 0 {
        UpAdd(p, 2, 1, i - 1);
        UpSentinel(p, i - 1);
      }
      if j > 1 {
        UpAdd(p, 3, 2, j - 2);
        UpSentinel(p, j - 2);
      }
    }
  }

  /** Two trees {1 <- 3} and {2}: as written, 3 reports 2 beside it although
      queryBesides for 3 does not contain 2. */
  lemma BesideOfOtherTree()
    ensures var p := map[1 := 0, 2 := 0, 3 := 1];
            var rows := {Row(1, 1, 0), Row(2, 2, 0), Row(3, 3, 0), Row(1, 3, 1)};
            IsForest(p) && IsClosure(p, rows)
            && IsBesideOfAsWritten(p, rows, 3, 2) == Some(true)
            && IsBesideOf(p, rows, 3, 2) == Some(false)
  {
    var p := map[1 := 0, 2 := 0, 3 := 1];
    var rows := {Row(1, 1, 0), Row(2, 2, 0), Row(3, 3, 0), Row(1, 3, 1)};
    TwoTreesExact(p, rows);
    assert 2 !in JoinRelationBy(p, rows, 3, DescendantColumn, true);
    assert Up(p, 3, 1) == 1;
    assert TopAt(p, 3, 1);
    BesidesIsRestOfTree(p, rows, 3, 1, 2);
  }
}
