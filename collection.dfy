/** The collection extension: position filters over a list of entities and
    the assembly of a flat list into a tree. */
module Collection {
  import opened Forest

  /** An entity row as the collection sees it: its primary key, its
      `parent_id` and `position` attributes, and the `children` list that
      tree assembly appends to. */
  class Entity {
    const key: Id
    const parentId: Id
    const position: int
    var children: seq<Entity>

    constructor (key: Id, parentId: Id, position: int)
      ensures this.key == key && this.parentId == parentId && this.position == position
      ensures children == []
    {
      this.key := key;
      this.parentId := parentId;
      this.position := position;
      children := [];
    }

    /** appendChild: the child goes at the end of `children`. */
    method AppendChild(child: Entity)
      modifies this
      ensures children == old(children) + [child]
    {
      children := children + [child];
    }
  }

  // ---------------------------------------------------------------------
  // filter: keep the items a test accepts, in their order

  function Filter(items: seq<Entity>, keep: Entity -> bool): (kept: seq<Entity>)
    ensures |kept| <= |items|
    decreases |items|
  {
    if items == [] then []
    else
      var n := |items| - 1;
      Filter(items[..n], keep) + (if keep(items[n]) then [items[n]] else [])
  }

  /** Filtering one more item. */
  lemma {:induction false} FilterSnoc(items: seq<Entity>, i: int, keep: Entity -> bool)
    requires 0 <= i < |items|
    ensures Filter(items[..i + 1], keep) == Filter(items[..i], keep) + (if keep(items[i]) then [items[i]] else [])
  {
    assert items[..i + 1][..i] == items[..i];
  }

  /** Each item is kept as often as it occurs when the test accepts it, and
      not at all otherwise. */
  lemma {:induction false} FilterCount(items: seq<Entity>, keep: Entity -> bool)
    ensures forall e :: multiset(Filter(items, keep))[e] == if keep(e) then multiset(items)[e] else 0
    decreases |items|
  {
    if items != [] {
      var n := |items| - 1;
      FilterCount(items[..n], keep);
      assert items == items[..n] + [items[n]];
    }
  }

  /** Two tests that never both hold split what a third test keeps, when
      the third holds exactly where one of them does. */
  lemma {:induction false} FilterSplit(items: seq<Entity>, keep: Entity -> bool, f: Entity -> bool, g: Entity -> bool)
    requires forall i | 0 <= i < |items| :: (keep(items[i]) <==> f(items[i]) || g(items[i])) && !(f(items[i]) && g(items[i]))
    ensures multiset(Filter(items, keep)) == multiset(Filter(items, f)) + multiset(Filter(items, g))
    decreases |items|
  {
    if items != [] {
      var n := |items| - 1;
      FilterSplit(items[..n], keep, f, g);
    }
  }

  /** A test that holds everywhere keeps everything. */
  lemma {:induction false} FilterAll(items: seq<Entity>, keep: Entity -> bool)
    requires forall i | 0 <= i < |items| :: keep(items[i])
    ensures Filter(items, keep) == items
    decreases |items|
  {
    if items != [] {
      var n := |items| - 1;
      FilterAll(items[..n], keep);
      assert items[..n] + [items[n]] == items;
    }
  }

  /** An item is kept exactly when it is there and the test accepts it. */
  lemma {:induction false} FilterMembers(items: seq<Entity>, keep: Entity -> bool, e: Entity)
    ensures e in Filter(items, keep) <==> e in items && keep(e)
  {
    FilterCount(items, keep);
    assert e in Filter(items, keep) <==> multiset(Filter(items, keep))[e] > 0;
    assert e in items <==> multiset(items)[e] > 0;
  }

  /** Filtering a concatenation filters each part, keeping their order. */
  lemma {:induction false} FilterAppend(a: seq<Entity>, b: seq<Entity>, keep: Entity -> bool)
    ensures Filter(a + b, keep) == Filter(a, keep) + Filter(b, keep)
    decreases |b|
  {
    if b == [] {
      assert a + b == a;
    } else {
      var n := |b| - 1;
      var ab := a + b;
      assert ab[..|ab| - 1] == a + b[..n];
      assert ab[|ab| - 1] == b[n];
      FilterAppend(a, b[..n], keep);
    }
  }

  /** The first item kept is the first item of the list the test accepts. */
  lemma {:induction false} FilterFirst(items: seq<Entity>, keep: Entity -> bool)
    ensures Filter(items, keep) != [] <==> exists i :: 0 <= i < |items| && keep(items[i])
    ensures Filter(items, keep) != [] ==>
      exists i :: 0 <= i < |items| && items[i] == Filter(items, keep)[0] && keep(items[i])
        && forall j :: 0 <= j < i ==> !keep(items[j])
    decreases |items|
  {
    if items != [] {
      var n := |items| - 1;
      var front := items[..n];
      FilterFirst(front, keep);
      assert forall i :: 0 <= i < n ==> front[i] == items[i];
      if Filter(front, keep) != [] {
        var i :| 0 <= i < n && front[i] == Filter(front, keep)[0] && keep(front[i])
              && forall j :: 0 <= j < i ==> !keep(front[j]);
        assert items[i] == Filter(items, keep)[0];
      } else if keep(items[n]) {
        assert items[n] == Filter(items, keep)[0];
      }
    }
  }

  // ---------------------------------------------------------------------
  // The position filters

  /** The tests the filters apply. */
  function AtPosition(position: int): Entity -> bool
  {
    (e: Entity) => e.position == position
  }

  function BeforePosition(position: int): Entity -> bool
  {
    (e: Entity) => e.position < position
  }

  function AfterPosition(position: int): Entity -> bool
  {
    (e: Entity) => e.position > position
  }

  function BesidePosition(position: int): Entity -> bool
  {
    (e: Entity) => e.position == position - 1 || e.position == position + 1
  }

  function Everything(): Entity -> bool
  {
    (e: Entity) => true
  }

  function InRange(from: int, to: Option<int>): Entity -> bool
  {
    (e: Entity) => from <= e.position && (to.None? || e.position <= to.value)
  }

  /** The items at `position`, the filter getChildAt takes the first of. */
  function Positioned(items: seq<Entity>, position: int): (at: seq<Entity>)
    ensures forall i | 0 <= i < |at| :: at[i] in items && at[i].position == position
    ensures forall i | 0 <= i < |items| :: items[i] in at <==> items[i].position == position
  {
    var at := Filter(items, AtPosition(position));
    forall i | 0 <= i < |at| ensures at[i] in items && at[i].position == position {
      FilterMembers(items, AtPosition(position), at[i]);
    }
    forall i | 0 <= i < |items| ensures items[i] in at <==> items[i].position == position {
      FilterMembers(items, AtPosition(position), items[i]);
    }
    at
  }

  /** getChildAt: the first item at `position`, or none. */
  function GetChildAt(items: seq<Entity>, position: int): (child: Option<Entity>)
    ensures child.None? <==> forall e | e in items :: e.position != position
    ensures child.Some? ==> exists i :: 0 <= i < |items| && items[i] == child.value
                                      && child.value.position == position
                                      && forall j :: 0 <= j < i ==> items[j].position != position
  {
    var at := Positioned(items, position);
    FilterFirst(items, AtPosition(position));
    if at == [] then None else Some(at[0])
  }

  /** getFirstChild: the first item at position 0. */
  function GetFirstChild(items: seq<Entity>): (child: Option<Entity>)
    ensures child.None? <==> forall e | e in items :: e.position != 0
    ensures child.Some? ==> exists i :: 0 <= i < |items| && items[i] == child.value
                                      && child.value.position == 0
                                      && forall j :: 0 <= j < i ==> items[j].position != 0
  {
    GetChildAt(items, 0)
  }

  /** getLastChild: the first item of the list sorted by descending
      position, which a stable sort makes the earliest item holding the
      largest position. */
  function GetLastChild(items: seq<Entity>): (child: Option<Entity>)
    ensures child.None? <==> items == []
    ensures child.Some? ==> exists i :: 0 <= i < |items| && items[i] == child.value
                                      && (forall j :: 0 <= j < i ==> items[j].position < child.value.position)
                                      && (forall j :: i <= j < |items| ==> items[j].position <= child.value.position)
    decreases |items|
  {
    if items == [] then None
    else
      var rest := GetLastChild(items[1..]);
      if rest.None? || items[0].position >= rest.value.position then
        assert forall j :: 1 <= j < |items| ==> items[j] == items[1..][j - 1];
        Some(items[0])
      else
        assert forall j :: 1 <= j < |items| ==> items[j] == items[1..][j - 1];
        rest
  }

  /** getRange: the items from `from` on, up to `to` when one is given. */
  function GetRange(items: seq<Entity>, from: int, to: Option<int>): (range: seq<Entity>)
    ensures forall i | 0 <= i < |range| :: range[i] in items && from <= range[i].position && (to.None? || range[i].position <= to.value)
    ensures forall i | 0 <= i < |items| :: items[i] in range <==> from <= items[i].position && (to.None? || items[i].position <= to.value)
  {
    var range := Filter(items, InRange(from, to));
    forall i | 0 <= i < |range| ensures range[i] in items && from <= range[i].position && (to.None? || range[i].position <= to.value) {
      FilterMembers(items, InRange(from, to), range[i]);
    }
    forall i | 0 <= i < |items| ensures items[i] in range <==> from <= items[i].position && (to.None? || items[i].position <= to.value) {
      FilterMembers(items, InRange(from, to), items[i]);
    }
    range
  }

  /** getNeighbors: the items one place to the left or right. */
  function GetNeighbors(items: seq<Entity>, position: int): (near: seq<Entity>)
    ensures forall i | 0 <= i < |near| :: near[i] in items && (near[i].position == position - 1 || near[i].position == position + 1)
    ensures forall i | 0 <= i < |items| :: items[i] in near <==> (items[i].position == position - 1 || items[i].position == position + 1)
  {
    var near := Filter(items, BesidePosition(position));
    forall i | 0 <= i < |near| ensures near[i] in items && (near[i].position == position - 1 || near[i].position == position + 1) {
      FilterMembers(items, BesidePosition(position), near[i]);
    }
    forall i | 0 <= i < |items| ensures items[i] in near <==> (items[i].position == position - 1 || items[i].position == position + 1) {
      FilterMembers(items, BesidePosition(position), items[i]);
    }
    near
  }

  /** getPrevSiblings: the items before `position`. */
  function GetPrevSiblings(items: seq<Entity>, position: int): (prev: seq<Entity>)
    ensures forall i | 0 <= i < |prev| :: prev[i] in items && prev[i].position < position
    ensures forall i | 0 <= i < |items| :: items[i] in prev <==> items[i].position < position
  {
    var prev := Filter(items, BeforePosition(position));
    forall i | 0 <= i < |prev| ensures prev[i] in items && prev[i].position < position {
      FilterMembers(items, BeforePosition(position), prev[i]);
    }
    forall i | 0 <= i < |items| ensures items[i] in prev <==> items[i].position < position {
      FilterMembers(items, BeforePosition(position), items[i]);
    }
    prev
  }

  /** getNextSiblings: the items after `position`. */
  function GetNextSiblings(items: seq<Entity>, position: int): (next: seq<Entity>)
    ensures forall i | 0 <= i < |next| :: next[i] in items && next[i].position > position
    ensures forall i | 0 <= i < |items| :: items[i] in next <==> items[i].position > position
  {
    var next := Filter(items, AfterPosition(position));
    forall i | 0 <= i < |next| ensures next[i] in items && next[i].position > position {
      FilterMembers(items, AfterPosition(position), next[i]);
    }
    forall i | 0 <= i < |items| ensures items[i] in next <==> items[i].position > position {
      FilterMembers(items, AfterPosition(position), items[i]);
    }
    next
  }

  /** hasChildren: an item sits at `position` and its children list is not
      empty. */
  predicate HasChildren(items: seq<Entity>, position: int): (r: bool)
    reads set e | e in items
    ensures r <==> exists i :: 0 <= i < |items| && items[i].position == position
                              && |items[i].children| > 0
                              && forall j :: 0 <= j < i ==> items[j].position != position
  {
    var item := GetChildAt(items, position);
    item.Some? && |item.value.children| > 0
  }

  /** getChildrenOf: the children of the item at `position`, or an empty
      list.  The guard changes nothing: an item without children yields its
      own empty list. */
  function GetChildrenOf(items: seq<Entity>, position: int): (children: seq<Entity>)
    reads set e | e in items
    ensures GetChildAt(items, position).None? ==> children == []
    ensures GetChildAt(items, position).Some? ==> children == GetChildAt(items, position).value.children
    ensures children != [] <==> HasChildren(items, position)
  {
    if !HasChildren(items, position) then [] else GetChildAt(items, position).value.children
  }

  // ---------------------------------------------------------------------
  // How the filters fit together

  /** Earlier, equal and later positions split the list: every item lands in
      exactly one part, as often as it occurs. */
  lemma {:induction false} SiblingsPartition(items: seq<Entity>, position: int)
    ensures multiset(GetPrevSiblings(items, position)) + multiset(Positioned(items, position))
          + multiset(GetNextSiblings(items, position)) == multiset(items)
  {
    FilterSplit(items, InRange(position, None), AtPosition(position), AfterPosition(position));
    FilterAll(items, Everything());
    FilterSplit(items, Everything(), BeforePosition(position), InRange(position, None));
  }

  /** The neighbours of `position` are the items at the two places beside it. */
  lemma {:induction false} NeighborsBesidePosition(items: seq<Entity>, position: int)
    ensures multiset(GetNeighbors(items, position))
         == multiset(Positioned(items, position - 1)) + multiset(Positioned(items, position + 1))
  {
    FilterSplit(items, BesidePosition(position), AtPosition(position - 1), AtPosition(position + 1));
  }

  /** A bounded range and the items after its upper bound make up the open
      range. */
  lemma {:induction false} RangeSplitsAtUpperBound(items: seq<Entity>, from: int, to: int)
    requires from <= to + 1
    ensures multiset(GetRange(items, from, Some(to))) + multiset(GetNextSiblings(items, to))
         == multiset(GetRange(items, from, None))
  {
    FilterSplit(items, InRange(from, None), InRange(from, Some(to)), AfterPosition(to));
  }

  /** getChildAt answers the first item of the matching filter. */
  lemma {:induction false} ChildAtIsFirstPositioned(items: seq<Entity>, position: int)
    ensures GetChildAt(items, position).Some? <==> Positioned(items, position) != []
    ensures GetChildAt(items, position).Some? ==> GetChildAt(items, position).value == Positioned(items, position)[0]
  {
  }

  // ---------------------------------------------------------------------
  // makeTree

  /** The first loop's `$result`: each key maps to the last item holding
      it. */
  function Index(items: seq<Entity>): map<Id, Entity>
    decreases |items|
  {
    if items == [] then map[]
    else
      var n := |items| - 1;
      Index(items[..n])[items[n].key := items[n]]
  }

  /** The index holds only items of the list, each under its own key, and
      every item's key. */
  lemma {:induction false} IndexMembers(items: seq<Entity>)
    ensures forall k | k in Index(items) :: Index(items)[k] in items && Index(items)[k].key == k
    ensures forall e | e in items :: e.key in Index(items)
    decreases |items|
  {
    if items != [] {
      var n := |items| - 1;
      IndexMembers(items[..n]);
      assert forall e | e in items[..n] :: e in items;
      assert forall e | e in items :: e in items[..n] || e == items[n];
    }
  }

  /** The item recorded for a key is the last one holding that key. */
  lemma {:induction false} IndexKeepsLast(items: seq<Entity>, i: int)
    requires 0 <= i < |items|
    requires forall j :: i < j < |items| ==> items[j].key != items[i].key
    ensures items[i].key in Index(items) && Index(items)[items[i].key] == items[i]
    decreases |items|
  {
    var n := |items| - 1;
    assert Index(items) == Index(items[..n])[items[n].key := items[n]];
    if i < n {
      var front := items[..n];
      assert front[i] == items[i];
      assert forall j :: i < j < n ==> front[j] == items[j];
      IndexKeepsLast(front, i);
      assert items[n].key != items[i].key;
    }
  }

  /** `parent_id` names no indexed item. */
  function Unparented(index: map<Id, Entity>): Entity -> bool
  {
    (e: Entity) => e.parentId !in index
  }

  /** `parent_id` names the indexed item `parent`. */
  function ChildOf(index: map<Id, Entity>, parent: Entity): Entity -> bool
  {
    (c: Entity) => c.parentId in index && index[c.parentId] == parent
  }

  /** The items whose `parent_id` names no item: the trees' tops, in
      input order. */
  function Tops(items: seq<Entity>, index: map<Id, Entity>): seq<Entity>
    decreases |items|
  {
    if items == [] then []
    else
      var n := |items| - 1;
      Tops(items[..n], index) + (if items[n].parentId in index then [] else [items[n]])
  }

  /** The items whose `parent_id` names the item `parent` in the index, in
      input order. */
  function Adopted(items: seq<Entity>, index: map<Id, Entity>, parent: Entity): seq<Entity>
    decreases |items|
  {
    if items == [] then []
    else
      var n := |items| - 1;
      Adopted(items[..n], index, parent)
        + (if items[n].parentId in index && index[items[n].parentId] == parent then [items[n]] else [])
  }

  /** The tops are the items the "names no item" test keeps. */
  lemma {:induction false} TopsIsFilter(items: seq<Entity>, index: map<Id, Entity>)
    ensures Tops(items, index) == Filter(items, Unparented(index))
    decreases |items|
  {
    if items != [] {
      TopsIsFilter(items[..|items| - 1], index);
    }
  }

  /** A parent's new children are the items the "names this parent" test
      keeps. */
  lemma {:induction false} AdoptedIsFilter(items: seq<Entity>, index: map<Id, Entity>, parent: Entity)
    ensures Adopted(items, index, parent) == Filter(items, ChildOf(index, parent))
    decreases |items|
  {
    if items != [] {
      AdoptedIsFilter(items[..|items| - 1], index, parent);
    }
  }

  /** The tops of one more item: the same tops, or that item appended. */
  lemma {:induction false} TopsStep(items: seq<Entity>, i: int, index: map<Id, Entity>)
    requires 0 <= i < |items|
    ensures items[i].parentId in index ==> Tops(items[..i + 1], index) == Tops(items[..i], index)
    ensures items[i].parentId !in index ==> Tops(items[..i + 1], index) == Tops(items[..i], index) + [items[i]]
  {
    assert items[..i + 1][..i] == items[..i];
  }

  /** The children adopted from one more item: the same, except that the
      item its `parent_id` names gets that item appended. */
  lemma {:induction false} AdoptedStep(items: seq<Entity>, i: int, index: map<Id, Entity>)
    requires 0 <= i < |items|
    ensures forall parent | !(items[i].parentId in index && index[items[i].parentId] == parent) ::
              Adopted(items[..i + 1], index, parent) == Adopted(items[..i], index, parent)
    ensures items[i].parentId in index ==>
              Adopted(items[..i + 1], index, index[items[i].parentId])
              == Adopted(items[..i], index, index[items[i].parentId]) + [items[i]]
  {
    assert items[..i + 1][..i] == items[..i];
  }

  /** makeTree's first loop: the items by key, a later item replacing an
      earlier one with the same key. */
  method IndexByKey(items: seq<Entity>) returns (result: map<Id, Entity>)
    ensures result == Index(items)
  {
    result := map[];
    var i := 0;
    while i < |items|
      invariant 0 <= i <= |items|
      invariant result == Index(items[..i])
    {
      assert items[..i + 1][..i] == items[..i];
      assert Index(items[..i + 1]) == Index(items[..i])[items[i].key := items[i]];
      result := result[items[i].key := items[i]];
      i := i + 1;
    }
    assert items[..i] == items;
  }

  /** makeTree: index the items by key, then append each item to the item
      its `parent_id` names or, when none does, to the tops. */
  method MakeTree(items: seq<Entity>) returns (tops: seq<Entity>)
    modifies set e | e in items
    ensures tops == Tops(items, Index(items))
    ensures forall e | e in items :: e.children == old(e.children) + Adopted(items, Index(items), e)
  {
    var result := IndexByKey(items);
    IndexMembers(items);
    tops := AttachAll(items, result);
  }

  /** makeTree's second loop over an index of items of the list. */
  method AttachAll(items: seq<Entity>, index: map<Id, Entity>) returns (tops: seq<Entity>)
    requires forall k | k in index :: index[k] in items
    modifies set e | e in items
    ensures tops == Tops(items, index)
    ensures forall e | e in items :: e.children == old(e.children) + Adopted(items, index, e)
  {
    ghost var objs: set<Entity> := set e | e in items;
    tops := [];
    var i := 0;
    while i < |items|
      invariant 0 <= i <= |items|
      invariant tops == Tops(items[..i], index)
      invariant forall e | e in objs :: e.children == old(e.children) + Adopted(items[..i], index, e)
    {
      var item := items[i];
      TopsStep(items, i, index);
      AdoptedStep(items, i, index);
      var parentId := item.parentId;
      if parentId in index {
        index[parentId].AppendChild(item);
      } else {
        tops := tops + [item];
      }
      i := i + 1;
    }
    assert items[..i] == items;
  }

  /** Every item is placed once: among the tops exactly when its `parent_id`
      names no item, otherwise among the children of the item that does and
      of no other. */
  lemma {:induction false} PlacedOnce(items: seq<Entity>, x: Entity, other: Entity)
    requires x in items
    ensures x in Tops(items, Index(items)) <==> forall e | e in items :: e.key != x.parentId
    ensures x.parentId in Index(items) ==> x in Adopted(items, Index(items), Index(items)[x.parentId])
    ensures x.parentId !in Index(items) || other != Index(items)[x.parentId] ==>
              x !in Adopted(items, Index(items), other)
  {
    var index := Index(items);
    IndexMembers(items);
    TopsIsFilter(items, index);
    AdoptedIsFilter(items, index, other);
    FilterMembers(items, Unparented(index), x);
    FilterMembers(items, ChildOf(index, other), x);
    if x.parentId in index {
      AdoptedIsFilter(items, index, index[x.parentId]);
      FilterMembers(items, ChildOf(index, index[x.parentId]), x);
    }
  }

  /** A child sits below the item whose key is its `parent_id`. */
  lemma {:induction false} AdoptedByParent(items: seq<Entity>, parent: Entity, c: Entity)
    requires c in Adopted(items, Index(items), parent)
    ensures parent in items && parent.key == c.parentId
  {
    var index := Index(items);
    IndexMembers(items);
    AdoptedIsFilter(items, index, parent);
    FilterMembers(items, ChildOf(index, parent), c);
  }
}
