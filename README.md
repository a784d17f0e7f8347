# Closure-table trees for ThinkPHP models, in Dafny

The library stores a forest of entities. There are two tables:

- **The entity table.** Each entity has a parent column (`pid`). The value 0 or null marks a root.
- **The closure table.** It holds one row `(ancestor, descendant, distance)` for every pair of nodes on a parent chain, the self row at distance 0 included. The pair `(ancestor, descendant)` is the table's primary key.

A trait keeps the closure table in step with the parent column:

- through three ORM hooks: before update, after insert and before delete;
- through explicit tree operations: add child, make root, move, repair.

A collection extension adds position filters over a list of sibling entities. It also adds `makeTree`, which turns a flat list into nested children lists.

## How the model is organised

- **`Forest`** (`forest.dfy`). The two tables as values:
  - the parent column is `Parents = map<Id, Id>`, with 0 as the root sentinel;
  - the closure table is `set<Row>`;
  - `Up(p, n, j)` is the node `j` hops above `n`;
  - `IsClosure(p, rows)` says the closure table is *exact*: a row is present exactly when it records a real parent chain of that length.
- **`Statements`** (`statements.dfy`). Each SQL statement the trait issues, as a set expression over the closure table.
- **`Maintenance`** (`maintenance.dfy`). The theorems that the statements keep the closure table exact:
  - the insert;
  - the move (detach, then attach);
  - removing a leaf;
  - removing a subtree;
  - the `perfectNode`/`perfectTree`/`_initClosure` repairs.
- **`Queries`** (`queries.dfy`). The read side: ancestor and descendant joins, roots, children, siblings, besides, `getRoot` and the `is*` predicates. These are pure functions of the two tables. Each query that throws when a model is not found answers `None` in that case.
- **`Attributes`** (`attributes.dfy`). The helpers `hasChanges` and `qualifyColumn`.
- **`ClosureTable`** (`closure_table.dfy`). The class `ClosureStore`, whose fields are the two tables.
  - Every mutating trait method is a method that reassigns those fields.
  - Every exception is an `Outcome` of `Fail(error)`.
  - A database transaction is a snapshot that the method restores on failure.
  - The ORM hooks are explicit calls: `Save` runs the before-update hook, `Create` the after-insert hook, and `Delete` the before-delete hook.
- **`Collection`** (`collection.dfy`). The collection extension:
  - entities are objects with a mutable `children` list;
  - the position filters are functions over a `seq<Entity>`;
  - `makeTree` is a method whose two loops mirror the source.

## Model

| member | source | states |
|---|---|---|
| Forest.ClosureIsKeyed | src/Generators/stubs/migrations/migration.php:15 | an exact closure never repeats an (ancestor, descendant) pair, so it satisfies the primary key, and no row names the root sentinel |
| Statements.InsertSelectShape | src/Traits/ClosureTable.php:357-380 | insertClosure adds exactly the self row plus `(a, d, k+1)` for every row `(a, ancestorId, k)`; every added row ends at the new node |
| Statements.InsertSelectAtSentinel | src/Traits/ClosureTable.php:357-380 | with ancestor 0 and no row naming 0, insertClosure adds only the self row |
| Statements.DetachKeepsSubtreeRoot | src/Traits/ClosureTable.php:425-455 | detachRelationships keeps every row starting at the key, its self row included; every row it removes ends in the key's subtree and starts elsewhere |
| Statements.MovedKeepsSubtree | src/Traits/ClosureTable.php:542-564 | when the new parent lies outside the recorded subtree, the move keeps every row starting at the key, so the subtree and its internal distances survive |
| Statements.PerfectedIncoming | src/Traits/ClosureTable.php:723-731 | after perfectNode the key's ancestor rows are its self row plus its parent's ancestor rows one hop further; the rows of every other descendant are unchanged |
| Statements.PerfectedIdempotent | src/Traits/ClosureTable.php:723-731 | running perfectNode twice gives the relation and the key check that one run gives |
| Statements.PrunedKeepsLive | src/Traits/ClosureTable.php:571-606 | deleteRedundancies keeps exactly the rows whose ancestor and descendant are both live |
| Statements.PrunedIdempotent | src/Traits/ClosureTable.php:571-606 | a second deleteRedundancies finds nothing to delete |
| Statements.NoClashKeepsKeyed | src/Generators/stubs/migrations/migration.php:15 | an INSERT that the primary key accepts leaves the table keyed |
| Maintenance.InsertIsExact | src/Traits/ClosureTable.php:357-380 | a new node below a node (or below 0), followed by insertClosure, gives the exact closure of the extended forest with no key clash |
| Maintenance.MoveKeepsForest | src/Traits/ClosureTable.php:542-564 | re-parenting a node to a parent outside its subtree keeps a forest (no cycle) |
| Maintenance.MoveRow | src/Traits/ClosureTable.php:542-564 | a row is in the relation after detach and attach exactly when it records a chain of the re-parented forest |
| Maintenance.MoveIsExact | src/Traits/ClosureTable.php:542-564 | detach followed by attach turns the exact closure into the exact closure of the re-parented forest, and the attach insert does not clash |
| Maintenance.RemoveLeafIsExact | src/Traits/ClosureTable.php:406-418 | once no node points at the key, detachRelationships and the default detachSelfRelation leave the exact closure of the forest without the key, and no row names the key |
| Maintenance.DeleteSubtreeIsExact | src/Traits/ClosureTable.php:495-517 | deleting every row that ends in the subtree leaves the exact closure of the forest without the subtree |
| Maintenance.PerfectedOnExact | src/Traits/ClosureTable.php:723-731 | on an exact closure perfectNode's insert does not clash and the relation is unchanged |
| Maintenance.PerfectStepExact | src/Traits/ClosureTable.php:723-731 | perfectNode on a node whose parent's ancestor rows are exact succeeds, makes that node's rows exact, and leaves the other nodes' rows alone |
| Maintenance.PerfectSweepNode | src/Traits/ClosureTable.php:1181-1191 | one node of `_initClosure`'s walk: stop on a missing node or a clash, otherwise sweep the nodes below it and, when that completes, the rest |
| Maintenance.PerfectSweepAppend | src/Traits/ClosureTable.php:738-748 | a sweep over two lists is the sweep over the first continued over the second, stopping at the first failure |
| Maintenance.PerfectSweepExact | src/Traits/ClosureTable.php:738-748 | a sweep whose nodes all come after their parents completes, makes every swept node exact, and leaves the other nodes' rows alone |
| Maintenance.PerfectSweepOnExact | src/Traits/ClosureTable.php:738-748 | on an exact closure a sweep over nodes completes and changes nothing |
| Maintenance.RebuildIsClosure | src/Traits/ClosureTable.php:1181-1191 | a parent-before-child sweep over every node rebuilds the exact closure from any rows whose descendants are nodes |
| Maintenance.FlattenOrdered | src/Traits/ClosureTable.php:1181-1191 | `_initClosure`'s depth-first walk over a nested array that agrees with the parent column visits every node after its parent |
| Maintenance.FlattenConcat | src/Traits/ClosureTable.php:1181-1191 | walking two lists of nested nodes one after the other visits the nodes of the first walk and then those of the second |
| Queries.JoinRelationBy | src/Traits/ClosureTable.php:246-278 | the join returns entities only, and every row at the right end, at distance > 0 (or >= 0 with self), contributes its other end |
| Queries.AncestorsMirrorDescendants | src/Traits/ClosureTable.php:246-278 | `a` is among `d`'s ancestors exactly when `d` is among `a`'s descendants |
| Queries.AncestorsAreChain | src/Traits/ClosureTable.php:246-278 | on an exact closure the ancestor query is the set of nodes up the key's parent chain |
| Queries.DescendantsAreChain | src/Traits/ClosureTable.php:246-278 | on an exact closure the descendant query is the set of nodes whose parent chain passes through the key |
| Queries.Roots | src/Traits/ClosureTable.php:1142-1145 | getRoots returns exactly the entities whose parent column is 0 |
| Queries.Children | src/Traits/ClosureTable.php:846-850 | queryChildren returns exactly the entities whose parent column is the key |
| Queries.ParentOf | src/Traits/ClosureTable.php:868-871 | getParents finds an entity exactly when the parent column names one, and that entity is the parent |
| Queries.Isolated | src/Traits/ClosureTable.php:309-320 | the isolated entities have no self row, and every other entity starts some row |
| Queries.IsRoot | src/Traits/ClosureTable.php:1100-1103 | isRoot: for an entity, true exactly when onlyRoot lists it |
| Queries.IsLeaf | src/Traits/ClosureTable.php:1110-1113 | isLeaf: true exactly when isParentOf is false for every entity, so no entity has the key as its parent |
| Queries.IsIsolated | src/Traits/ClosureTable.php:1119-1125 | isIsolated: an isolated entity has no self row, and an entity that is not isolated starts some row |
| Queries.RootHasNoAncestors | src/Traits/ClosureTable.php:1100-1103 | on an exact closure isRoot holds exactly when the ancestor query is empty |
| Queries.LeafHasNoDescendants | src/Traits/ClosureTable.php:1110-1113 | on an exact closure isLeaf holds exactly when the descendant query is empty |
| Queries.ExactHasNoIsolated | src/Traits/ClosureTable.php:1119-1125 | on an exact closure no entity is isolated |
| Queries.RootCandidates | src/Traits/ClosureTable.php:877-888 | every row getRoot may pick is a strict ancestor whose parent column is 0 |
| Queries.GetRoot | src/Traits/ClosureTable.php:877-888 | getRoot answers a candidate when there is one and nothing otherwise |
| Queries.RootIsTop | src/Traits/ClosureTable.php:877-888 | on an exact closure a root has no candidate, and any other node has at most one, the top of its chain |
| Queries.Besides | src/Traits/ClosureTable.php:823-832 | queryBesides returns entities outside the key's descendants-and-self |
| Queries.BesidesIsRestOfTree | src/Traits/ClosureTable.php:823-832 | on an exact closure queryBesides is every node of the key's tree outside the key's subtree |
| Queries.SiblingsAsWritten | src/Traits/ClosureTable.php:1041-1052 | querySiblings as written: not found when the parent is missing; for a root, every root including the node itself; for any other node, the other entities with the same parent column, which is the corrected `Siblings` |
| Queries.Siblings | src/Traits/ClosureTable.php:1041-1052 | corrected querySiblings: the other entities with the same parent column, never the node itself |
| Queries.SiblingsAndSelf | src/Traits/ClosureTable.php:1072-1081 | querySiblingsAndSelf: the entities with the same parent column, or not found when the parent is missing |
| Queries.SiblingsAndSelfAddsSelf | src/Traits/ClosureTable.php:1041-1081 | for a node, siblings-and-self is exactly the siblings plus the node |
| Queries.RootIsOwnSiblingAsWritten | src/Traits/ClosureTable.php:1041-1052 | as written, a node is its own sibling exactly when it is a root, so isSiblingOf of a root with itself is true; corrected, never, and isSiblingOf is false |
| Queries.IsParentOf | src/Traits/ClosureTable.php:894-898 | not found for a missing child; true exactly when the child is among the key's children |
| Queries.IsChildOf | src/Traits/ClosureTable.php:904-908 | not found for a missing parent; otherwise the mirror of isParentOf |
| Queries.IsAncestorOf | src/Traits/ClosureTable.php:914-920 | not found for a missing descendant; true exactly when the key is among that node's strict ancestors |
| Queries.IsDescendantOf | src/Traits/ClosureTable.php:941-947 | not found for a missing ancestor; otherwise the mirror of isAncestorOf |
| Queries.IsSiblingOfAsWritten | src/Traits/ClosureTable.php:956-962 | isSiblingOf over the as-written getSiblings: not found when either lookup fails; otherwise true exactly for an entity with the same parent column that is another node, or the key itself when the key is a root; for any entity other than the key it agrees with the corrected `IsSiblingOf` |
| Queries.IsSiblingOf | src/Traits/ClosureTable.php:956-962 | isSiblingOf over the corrected querySiblings: not found when either lookup fails; otherwise true exactly for another node with the same parent column |
| Queries.IsBesideOfAsWritten | src/Traits/ClosureTable.php:926-935 | isBesideOf as written: false for a root, not found for a missing entity, otherwise true exactly when the entity is outside the key's descendants-and-self |
| Queries.IsBesideOf | src/Traits/ClosureTable.php:926-935 | corrected isBesideOf: false for a root, otherwise membership in queryBesides |
| Queries.RootHasNothingBeside | src/Traits/ClosureTable.php:823-832 | on an exact closure queryBesides of a root is empty, so the root branch of isBesideOf agrees with it |
| Queries.BesideOfOtherTreeAsWritten | src/Traits/ClosureTable.php:926-935 | on any exact closure, for a non-root key, every entity of another tree is beside the key as written and not beside it when corrected |
| Queries.BesideAsWrittenAgreesInTree | src/Traits/ClosureTable.php:926-935 | when the key's chain reaches a root, the as-written and the corrected isBesideOf give the same answer exactly for the entities of the key's own tree |
| Queries.BesideOfOtherTree | src/Traits/ClosureTable.php:926-935 | a two-tree forest where, as written, a node reports a node of the other tree beside it, while queryBesides does not contain that node |
| Attributes.HasChanges | src/Traits/ClosureTable.php:23-36 | with no attribute names, true exactly when anything changed; otherwise true exactly when one of the names is among the changed keys |
| Attributes.QualifyColumn | src/Traits/ClosureTable.php:230-237 | the result holds a dot and ends with the column, and it is the column unchanged exactly when the column already holds a dot |
| Attributes.QualifyColumnIdempotent | src/Traits/ClosureTable.php:230-237 | qualifying an already qualified column, under any table, changes nothing |
| ClosureTable.Orphaned | src/Traits/ClosureTable.php:406-418 | deleteObservers' re-parenting keeps every entity and sets to 0 exactly the parent columns that named the key |
| ClosureTable.SubtreeIsDescendantsAndSelf | src/Traits/ClosureTable.php:542-564 | on an exact closure the subtree the statements use is the descendants-and-self query that updateClosure checks |
| ClosureTable.MoveChecksSuffice | src/Traits/ClosureTable.php:542-564 | updateClosure's two checks, on an exact closure, give everything the move theorem needs |
| ClosureTable.MoveChecksFail | src/Traits/ClosureTable.php:542-564 | a parent refused for lying in the subtree is an existing node other than the current parent, so the refusal is a real cycle check |
| ClosureTable.MoveKeepsOtherAncestors | src/Traits/ClosureTable.php:649-673 | moving a node that is not an ancestor-or-self of the key leaves the key's ancestors-and-self unchanged, so the list addChild reads once stays accurate |
| ClosureTable.ListIds | src/Traits/ClosureTable.php:738-748 | the ids of a query in some order, each exactly once |
| ClosureTable.ClosureStore.constructor | src/Generators/stubs/migrations/migration.php:15 | empty tables, consistent and exact |
| ClosureTable.ClosureStore.InsertRows | src/Generators/stubs/migrations/migration.php:15 | an INSERT either clashes with the primary key and changes nothing, or adds its rows |
| ClosureTable.ClosureStore.InsertClosure | src/Traits/ClosureTable.php:357-380 | adds insertClosure's rows unless they break the primary key; the parent column is untouched |
| ClosureTable.ClosureStore.DetachSelfRelation | src/Traits/ClosureTable.php:387-404 | deletes exactly the rows of the chosen scope: ending at the key, starting at it, or either |
| ClosureTable.ClosureStore.DetachRelationships | src/Traits/ClosureTable.php:425-455 | not found for a missing model, otherwise deletes exactly the cross rows from the key's proper ancestors into its subtree |
| ClosureTable.ClosureStore.AttachTreeTo | src/Traits/ClosureTable.php:463-488 | not found for a missing model; otherwise inserts the cross product of the rows ending at the parent (null read as 0) and the rows starting at the key, unless it clashes |
| ClosureTable.ClosureStore.DeleteRelationships | src/Traits/ClosureTable.php:495-517 | not found for a missing model; otherwise deletes every row ending in the subtree, leaving the exact closure of the forest without the subtree |
| ClosureTable.ClosureStore.DeleteRedundancies | src/Traits/ClosureTable.php:571-606 | afterwards every row's two ends are live (present and, with soft deletes, not trashed), and every row whose ends were both live is kept |
| ClosureTable.ClosureStore.UpdateClosure | src/Traits/ClosureTable.php:542-564 | refuses a missing parent, a parent in the subtree or a missing model before any write; on an exact closure it succeeds exactly when those checks pass and leaves the exact closure of the re-parented forest |
| ClosureTable.ClosureStore.Save | src/Traits/ClosureTable.php:45-51 | the before-update hook runs updateClosure only when the parent column changed; on an exact closure the save succeeds exactly when the model exists and the move is allowed, and the closure stays exact |
| ClosureTable.ClosureStore.Create | src/Traits/ClosureTable.php:60-64 | the after-insert hook adds the new node's rows; below 0 or an existing node on an exact closure it succeeds and the closure stays exact |
| ClosureTable.ClosureStore.CreateChild | src/Traits/ClosureTable.php:615-624 | refuses a model that is not a node; on an exact closure it creates the child below the model and the closure stays exact |
| ClosureTable.ClosureStore.MakeRoot | src/Traits/ClosureTable.php:631-639 | sets the parent column to 0 through the update hook; on an exact closure it always succeeds and the closure stays exact |
| ClosureTable.ClosureStore.MoveTo | src/Traits/ClosureTable.php:708-715 | not found for a missing target; on an exact closure it succeeds exactly when the target is outside the subtree, and the closure stays exact |
| ClosureTable.ClosureStore.PerfectNode | src/Traits/ClosureTable.php:723-731 | rewrites the key's ancestor rows in one transaction, rolled back on a clash; on an exact closure it succeeds and changes nothing |
| ClosureTable.ClosureStore.PerfectTree | src/Traits/ClosureTable.php:738-748 | runs perfectNode over every strict descendant, each exactly once, stopping at the first failure; on an exact closure it succeeds and changes nothing |
| ClosureTable.ClosureStore.InitClosure | src/Traits/ClosureTable.php:1181-1191 | `_initClosure` on the top level: when the array lists every node below its parent and every stored row ends at a node, it succeeds and leaves the exact closure |
| ClosureTable.ClosureStore.InitLevel | src/Traits/ClosureTable.php:1181-1191 | runs perfectNode over the nested array depth first, each node before its children; the relation afterwards is the sweep over that order, and it succeeds exactly when the sweep completes |
| ClosureTable.ClosureStore.DeleteObservers | src/Traits/ClosureTable.php:406-418 | saves every child with parent 0, then removes every row naming the key; on an exact closure it succeeds and leaves the exact closure of the forest without the key |
| ClosureTable.ClosureStore.Delete | src/Traits/ClosureTable.php:73-77 | the before-delete hook, then the entity row goes: the children become roots and, on an exact closure, the closure stays exact |
| ClosureTable.ClosureStore.SaveChildren | src/Traits/ClosureTable.php:661-671 | each child must exist and lie outside the ancestors-and-self read before the loop; on an exact closure the loop succeeds exactly when every child passes, the children end below the model, and the closure stays exact |
| ClosureTable.AdoptAllowed | src/Traits/ClosureTable.php:661-671 | a child outside the model's ancestors-and-self may move below the model, and the move leaves the model's ancestors-and-self unchanged |
| ClosureTable.ClosureStore.AddChild | src/Traits/ClosureTable.php:649-673 | refuses a model that is not a node; on an exact closure it succeeds exactly when every child exists and is not among the model's ancestors-and-self, with any failure restoring both tables |
| Collection.Entity.AppendChild | src/Extensions/Collection.php:170-174 | the child goes at the end of the parent's children |
| Collection.Filter | src/Extensions/Collection.php:22-27 | a filter keeps at most the items it is given |
| Collection.FilterMembers | src/Extensions/Collection.php:22-27 | an item is kept exactly when it is in the list and the test accepts it |
| Collection.FilterCount | src/Extensions/Collection.php:22-27 | a filter keeps each accepted item as often as it occurs and drops the others |
| Collection.FilterAppend | src/Extensions/Collection.php:22-27 | filtering a concatenation filters each part, in order |
| Collection.FilterFirst | src/Extensions/Collection.php:22-27 | the first kept item is the first item of the list the test accepts |
| Collection.Positioned | src/Extensions/Collection.php:22-27 | exactly the items at the position |
| Collection.GetChildAt | src/Extensions/Collection.php:22-27 | nothing exactly when no item is at the position, otherwise an item of the list |
| Collection.GetFirstChild | src/Extensions/Collection.php:34-37 | nothing exactly when no item is at position 0, otherwise an item of the list |
| Collection.GetLastChild | src/Extensions/Collection.php:44-49 | nothing exactly for the empty list; otherwise the earliest item holding the largest position: every earlier item lies strictly below it and no later item above it |
| Collection.GetRange | src/Extensions/Collection.php:59-68 | exactly the items with `from <= position`, and `position <= to` when an upper bound is given |
| Collection.RangeSplitsAtUpperBound | src/Extensions/Collection.php:59-68 | a bounded range and the items after its bound make up the open range |
| Collection.GetNeighbors | src/Extensions/Collection.php:77-83 | exactly the items at position - 1 and position + 1 |
| Collection.NeighborsBesidePosition | src/Extensions/Collection.php:77-83 | the neighbours are the items at the place before plus the items at the place after |
| Collection.GetPrevSiblings | src/Extensions/Collection.php:92-97 | exactly the items with a smaller position |
| Collection.GetNextSiblings | src/Extensions/Collection.php:106-111 | exactly the items with a greater position |
| Collection.SiblingsPartition | src/Extensions/Collection.php:92-111 | earlier, equal and later positions split the list: each item lands in exactly one part |
| Collection.HasChildren | src/Extensions/Collection.php:134-139 | hasChildren: the first item at the position exists and its children list is not empty |
| Collection.GetChildrenOf | src/Extensions/Collection.php:119-126 | empty when no item is at the position, otherwise that item's children; non-empty exactly when hasChildren holds |
| Collection.IndexMembers | src/Extensions/Collection.php:165-167 | the key map holds only items of the list, each under its own key, and every item's key is present |
| Collection.IndexKeepsLast | src/Extensions/Collection.php:165-167 | when keys repeat, the key map holds the last item with that key |
| Collection.IndexByKey | src/Extensions/Collection.php:165-167 | the first loop builds exactly the key map |
| Collection.TopsIsFilter | src/Extensions/Collection.php:169-177 | the tops are the items whose `parent_id` names no item, in input order |
| Collection.AdoptedIsFilter | src/Extensions/Collection.php:169-177 | the children appended to an item are the items whose `parent_id` names it in the key map, in input order |
| Collection.MakeTree | src/Extensions/Collection.php:159-180 | returns the tops, and appends to each item exactly the items its key map entry adopts, in input order |
| Collection.AttachAll | src/Extensions/Collection.php:169-177 | the second loop over any index of items of the list: the tops are the items it does not resolve, and each item gets appended exactly the items the index resolves to it, in input order |
| Collection.PlacedOnce | src/Extensions/Collection.php:159-180 | every item is a top exactly when its `parent_id` names no item; otherwise it is appended to the item its key maps to and to no other |
| Collection.AdoptedByParent | src/Extensions/Collection.php:169-177 | a child always sits below an item of the list whose key is its `parent_id` |

## Left out

- The SQL itself: query building, join and where precedence, field lists and fetching. Each statement is its set meaning over `set<Row>`.
- ClosureTable.ClosureStore.AttachTreeTo: the INSERT … SELECT of the cross join is a set here, so two join rows with the same values are one row. The database would report those as a duplicate key.
- Rows come back from a query in an order that is left open (`ListIds`, the `:|` choices in `DeleteObservers`). `getRoot` takes any candidate (`GetRoot`), and the model proves that on an exact closure there is at most one.
- Table, column and key names (`getClosureTable`, the column getters, `getParentKey`, `setParentKey`) are left out. The parent column is the constant `"pid"`, which `Save` passes to `hasChanges`.
- ClosureTable.ClosureStore.Save: `setParentKey` (ClosureTable.php:219-222) calls `settAttr`, which no file of this library defines, so as written the call falls through to the ORM's method forwarding, which is not part of this model. The model takes it to be `setAttr`: `Save` writes the parent column. The same reading holds wherever the source sets the parent column: `DeleteObservers` (:413), `MakeRoot` (:636), `AddChild` through `SaveChildren` (:667) and `MoveTo` (:711).
- `save()`, `create()` and `delete()` persistence, and the ORM event registration in `boot`, are left out. `Save`, `Create` and `Delete` write the parent column directly and call the hook code explicitly.
- The entity row written before the after-insert hook stays when that hook fails (`Create`), because the ORM that would undo it is not part of this model.
- `parameter2Model` and `findOrFail` become "the id must be in the entity table, else `NotFound`".
- PHP's loose and strict comparisons (`in_array`, `?:`) are left out. Ids are natural numbers, null reads as 0, and a `parent_id` of null is 0.
- The soft-delete trait and its trashed rows are inputs of `DeleteRedundancies`: the set of trashed ids and whether soft deletes apply.
- `getTree` and `getBesideTree` are left out: they sort by arbitrary columns and call a three-argument `toTree` of a collection class that is not part of this model. `initClosure` is left out for the same reason. Its `_initClosure` walk is modelled on a nested `TreeNode` value.
- The progress output of `_initClosure` is left out.
- `createSibling` and `addSiblings` are left out: they call `getParent`, which is not part of this model.
- `toTree` (Collection.php:146-151) only forwards its items to `makeTree`, so `MakeTree` covers it.
- The application's own entity model class lies outside the modelled files. `Collection.Entity` stands in for it: it holds a key, a `parent_id`, a position and a children list, and its `appendChild` is taken to append one child at the end.
- Collection.GetLastChild: `sortByDesc` is taken to be stable, so among items of equal maximal position the earliest is returned. An unstable sort could return another of them.
- `hasChildren` and `getChildrenOf` read children through the entity's children list. A lazily loaded relation is not modelled.
- The column name mismatch between the migration stub (`depth`) and the trait (`distance`) is left out.

## Findings

| source | as written | input that shows it | evidently intended | confidence | as-written member | corrected member |
|---|---|---|---|---|---|---|
| src/Traits/ClosureTable.php:1041-1052 | `querySiblings` of a root returns every root, the root itself included; the non-root branch excludes the node | any root, e.g. parent column `{1: 0}` and key 1: the siblings of 1 contain 1, and `isSiblingOf(1)` on 1 answers true | the other roots, excluding the node, as the non-root branch and the name "siblings" versus "siblingsAndSelf" say | high, not executed | Queries.SiblingsAsWritten, Queries.IsSiblingOfAsWritten, Queries.RootIsOwnSiblingAsWritten | Queries.Siblings, Queries.IsSiblingOf |
| src/Traits/ClosureTable.php:926-935 | `isBesideOf` of a non-root answers true for any entity outside its subtree, including entities in other trees | parent column `{1: 0, 2: 0, 3: 1}`, exact closure, key 3 and beside 2: true, although `queryBesides` of 3 does not contain 2 | membership in `queryBesides`, the key's tree minus its subtree | medium, not executed | Queries.IsBesideOfAsWritten, Queries.BesideOfOtherTreeAsWritten, Queries.BesideOfOtherTree | Queries.IsBesideOf, Queries.BesideAsWrittenAgreesInTree |
