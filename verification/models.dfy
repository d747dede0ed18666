/**
 * `AttributeEntity` and `Attribute` (rdmo/domain/models.py): entities with
 * a key, a parent, and the derived `path`, `uri` and `is_attribute` fields
 * that `save()` recomputes for the saved node and, recursively, for every
 * node below it.  The database is an arena of rows indexed by primary key.
 */
module Models {

  import opened Wrappers
  import opened PathText
  import opened Taxonomy

  /**
   * One row of the attribute/entity table.  `isAttribute` is `None` for a
   * flag that was never set; `uri` is `None` for a null column.
   */
  datatype Entity = Entity(
    key: string,
    parent: Option<NodeId>,
    uriPrefix: Option<string>,
    comment: Option<string>,
    isAttribute: Option<bool>,
    path: string,
    uri: Option<string>)

  type Store = seq<Entity>

  /**
   * The prefix a node's URI starts with, as a function of the node's own
   * `uri_prefix` (the configured default stands behind `None`).
   */
  type UriPrefix = Option<string> -> string

  /** The keys and parent pointers of the rows, which is all a path depends on. */
  function Links(s: Store): (l: seq<Link>)
    ensures |l| == |s|
    ensures forall i :: 0 <= i < |s| ==> l[i] == Link(s[i].key, s[i].parent)
  {
    seq(|s|, i requires 0 <= i < |s| => Link(s[i].key, s[i].parent))
  }

  /** `__str__`: the URI when it is set and non-empty, the key otherwise. */
  function Str(e: Entity): (r: string)
    ensures e.uri.Some? && e.uri.value != "" ==> r == e.uri.value
    ensures e.uri.None? || e.uri.value == "" ==> r == e.key
  {
    if e.uri.Some? && e.uri.value != "" then e.uri.value else e.key
  }

  /** The URI of a node with the given prefix setting and path. */
  function UriOf(prefix: UriPrefix, uriPrefix: Option<string>, path: string): string {
    prefix(uriPrefix) + "/domain/" + path
  }

  /**
   * A row whose derived fields agree with the current keys and parents:
   * its path is the root-first join of its key chain, its URI is the prefix,
   * `/domain/` and that path, and its attribute flag is set.
   */
  predicate Consistent(l: seq<Link>, e: Entity, prefix: UriPrefix)
    requires WellFormed(l)
  {
    && ValidRef(l, e.parent)
    && e.path == PathOf(l, e.key, e.parent)
    && e.uri == Some(UriOf(prefix, e.uriPrefix, e.path))
    && e.isAttribute.Some?
  }

  /** Every row of the store is consistent. */
  predicate StoreConsistent(s: Store, prefix: UriPrefix) {
    && WellFormed(Links(s))
    && forall i :: 0 <= i < |s| ==> Consistent(Links(s), s[i], prefix)
  }

  /**
   * The per-row part of `save()`: recompute the path from the key and the
   * parent chain, the URI from the path, and turn a missing or false
   * attribute flag into `false`.
   */
  function Derive(l: seq<Link>, e: Entity, prefix: UriPrefix): (r: Entity)
    requires WellFormed(l) && ValidRef(l, e.parent)
    ensures Consistent(l, r, prefix)
    ensures r.key == e.key && r.parent == e.parent
    ensures r.uriPrefix == e.uriPrefix && r.comment == e.comment
    ensures r.isAttribute == Some(true) <==> e.isAttribute == Some(true)
  {
    var p := PathOf(l, e.key, e.parent);
    e.(path := p,
       uri := Some(UriOf(prefix, e.uriPrefix, p)),
       isAttribute := Some(e.isAttribute == Some(true)))
  }

  /** The store with the in-memory instance `e` written as row `id`; `id == |s|` inserts. */
  function Stage(s: Store, id: NodeId, e: Entity): (t: Store)
    requires id <= |s|
    ensures |t| == if id == |s| then |s| + 1 else |s|
    ensures t[id] == e
    ensures forall i :: 0 <= i < |s| && i != id ==> t[i] == s[i]
  {
    if id == |s| then s + [e] else s[id := e]
  }

  /**
   * Save row `id` of `t`: derive its fields, write it, then save each of
   * its children in turn.
   */
  function SaveTree(t: Store, id: NodeId, prefix: UriPrefix): (r: Store)
    requires WellFormed(Links(t)) && id < |t|
    ensures |r| == |t| && Links(r) == Links(t)
    decreases |t| - Level(Links(t), id), 1
  {
    ParentRank(Links(t), id);
    var t1 := t[id := Derive(Links(t), t[id], prefix)];
    assert Links(t1) == Links(t);
    SaveChildren(t1, id, ChildrenOf(Links(t1), id), 0, prefix)
  }

  /** Save the children `cs[from..]` of `parent` one after the other. */
  function SaveChildren(t: Store, parent: NodeId, cs: seq<NodeId>, from: nat, prefix: UriPrefix): (r: Store)
    requires WellFormed(Links(t)) && parent < |t|
    requires forall k :: 0 <= k < |cs| ==> cs[k] < |t| && t[cs[k]].parent == Some(parent)
    ensures |r| == |t| && Links(r) == Links(t)
    decreases |t| - Level(Links(t), parent), 0, |cs| - from
  {
    if from >= |cs| then t
    else
      ParentRank(Links(t), cs[from]);
      var t1 := SaveTree(t, cs[from], prefix);
      ParentsKept(t, t1);
      SaveChildren(t1, parent, cs, from + 1, prefix)
  }

  /** Rewriting a row without touching its key or parent keeps the links. */
  lemma LinksKept(t: Store, id: NodeId, e: Entity)
    requires id < |t| && e.key == t[id].key && e.parent == t[id].parent
    ensures Links(t[id := e]) == Links(t)
  {
  }

  /** Equal links mean equal parent pointers. */
  lemma ParentsKept(t: Store, t': Store)
    requires Links(t) == Links(t')
    ensures forall i :: 0 <= i < |t| ==> t[i].parent == t'[i].parent
  {
    forall i | 0 <= i < |t| ensures t[i].parent == t'[i].parent {
      assert Links(t)[i] == Links(t')[i];
    }
  }

  /** What the recursive save leaves in row `i`: derived below `id`, untouched elsewhere. */
  lemma {:induction false} SaveTreeAt(t: Store, id: NodeId, prefix: UriPrefix, i: NodeId)
    requires WellFormed(Links(t)) && id < |t| && i < |t|
    ensures SaveTree(t, id, prefix)[i] ==
      if InSubtree(Links(t), id, i) then Derive(Links(t), t[i], prefix) else t[i]
    decreases |t| - Level(Links(t), id), 1
  {
    var l := Links(t);
    ParentRank(l, id);
    var t1 := t[id := Derive(l, t[id], prefix)];
    LinksKept(t, id, Derive(l, t[id], prefix));
    var cs := ChildrenOf(l, id);
    assert SaveTree(t, id, prefix) == SaveChildren(t1, id, cs, 0, prefix);
    SaveChildrenAt(t1, id, cs, 0, prefix, i);
    SubtreeSplit(l, id, i);
    NotBelowOwnChild(l, id);
  }

  /** What saving the siblings `cs[from..]` leaves in row `i`. */
  lemma {:induction false} SaveChildrenAt(t: Store, parent: NodeId, cs: seq<NodeId>, from: nat,
                                          prefix: UriPrefix, i: NodeId)
    requires WellFormed(Links(t)) && parent < |t| && i < |t|
    requires forall k :: 0 <= k < |cs| ==> cs[k] < |t| && t[cs[k]].parent == Some(parent)
    requires forall k, k' :: 0 <= k < k' < |cs| ==> cs[k] != cs[k']
    ensures SaveChildren(t, parent, cs, from, prefix)[i] ==
      if InAnySubtree(Links(t), cs, from, i) then Derive(Links(t), t[i], prefix) else t[i]
    decreases |t| - Level(Links(t), parent), 0, |cs| - from
  {
    var l := Links(t);
    if from < |cs| {
      ParentRank(l, cs[from]);
      var t1 := SaveTree(t, cs[from], prefix);
      ParentsKept(t, t1);
      SaveTreeAt(t, cs[from], prefix, i);
      SaveChildrenAt(t1, parent, cs, from + 1, prefix, i);
      SiblingsSplit(l, parent, cs, from, i);
    }
  }

  /**
   * The order in which the children are saved does not matter: any two
   * duplicate-free listings of the same siblings leave the same store.
   */
  lemma SiblingOrderIrrelevant(t: Store, parent: NodeId, cs: seq<NodeId>, cs': seq<NodeId>,
                               prefix: UriPrefix)
    requires WellFormed(Links(t)) && parent < |t|
    requires forall k :: 0 <= k < |cs| ==> cs[k] < |t| && t[cs[k]].parent == Some(parent)
    requires forall k :: 0 <= k < |cs'| ==> cs'[k] < |t| && t[cs'[k]].parent == Some(parent)
    requires forall k, k' :: 0 <= k < k' < |cs| ==> cs[k] != cs[k']
    requires forall k, k' :: 0 <= k < k' < |cs'| ==> cs'[k] != cs'[k']
    requires forall c :: c in cs <==> c in cs'
    ensures SaveChildren(t, parent, cs, 0, prefix) == SaveChildren(t, parent, cs', 0, prefix)
  {
    var l := Links(t);
    var r, r' := SaveChildren(t, parent, cs, 0, prefix), SaveChildren(t, parent, cs', 0, prefix);
    forall i | 0 <= i < |t| ensures r[i] == r'[i] {
      SaveChildrenAt(t, parent, cs, 0, prefix, i);
      SaveChildrenAt(t, parent, cs', 0, prefix, i);
      SameRootsSameSubtrees(l, cs, cs', i);
      SameRootsSameSubtrees(l, cs', cs, i);
    }
  }

  /** Every row's state after the recursive save of `id`. */
  lemma SaveTreeAll(t: Store, id: NodeId, prefix: UriPrefix)
    requires WellFormed(Links(t)) && id < |t|
    ensures forall i :: 0 <= i < |t| ==>
      SaveTree(t, id, prefix)[i] ==
        if InSubtree(Links(t), id, i) then Derive(Links(t), t[i], prefix) else t[i]
  {
    forall i | 0 <= i < |t|
      ensures SaveTree(t, id, prefix)[i] ==
        if InSubtree(Links(t), id, i) then Derive(Links(t), t[i], prefix) else t[i]
    {
      SaveTreeAt(t, id, prefix, i);
    }
  }

  /**
   * `AttributeEntity.save()` called on the in-memory instance `e` of row
   * `id` (`id == |s|` saves a new row).  Afterwards every row in the subtree
   * of `id` has a path and URI that agree with the current keys and parents
   * and a normalised attribute flag; keys, parents, prefixes and comments
   * are as written; rows outside the subtree are unchanged.  The edit must
   * not make a node its own ancestor, or the cascade would never end.
   */
  function Save(s: Store, id: NodeId, e: Entity, prefix: UriPrefix): (r: Store)
    requires id <= |s|
    requires WellFormed(Links(Stage(s, id, e)))
    ensures |r| == |Stage(s, id, e)|
    ensures Links(r) == Links(Stage(s, id, e))
    ensures r[id].key == e.key && r[id].parent == e.parent
    ensures forall i :: 0 <= i < |r| ==>
      r[i].uriPrefix == Stage(s, id, e)[i].uriPrefix && r[i].comment == Stage(s, id, e)[i].comment
    ensures forall i :: 0 <= i < |r| && InSubtree(Links(r), id, i) ==>
      && Consistent(Links(r), r[i], prefix)
      && (r[i].isAttribute == Some(true) <==> Stage(s, id, e)[i].isAttribute == Some(true))
    ensures forall i :: 0 <= i < |r| && !InSubtree(Links(r), id, i) ==> i < |s| && r[i] == s[i]
  {
    var t := Stage(s, id, e);
    SaveTreeAll(t, id, prefix);
    assert InSubtree(Links(t), id, id);
    SaveTree(t, id, prefix)
  }

  /**
   * `Attribute.save()`: mark the instance as an attribute, then save it as
   * an entity.  Row `id` ends up flagged; every other row is exactly what
   * saving the unmarked instance would leave.
   */
  function SaveAttribute(s: Store, id: NodeId, e: Entity, prefix: UriPrefix): (r: Store)
    requires id <= |s|
    requires WellFormed(Links(Stage(s, id, e)))
    ensures |r| == |Stage(s, id, e)| && Links(r) == Links(Stage(s, id, e))
    ensures r[id].isAttribute == Some(true)
    ensures Consistent(Links(r), r[id], prefix)
    ensures r[id] == Save(s, id, e, prefix)[id].(isAttribute := Some(true))
    ensures forall i :: 0 <= i < |r| && i != id ==> r[i] == Save(s, id, e, prefix)[i]
  {
    var marked := e.(isAttribute := Some(true));
    MarkingKeepsOthers(s, id, e, prefix);
    Save(s, id, marked, prefix)
  }

  /** Marking the saved instance changes no row but its own, and in its own row only the flag. */
  lemma MarkingKeepsOthers(s: Store, id: NodeId, e: Entity, prefix: UriPrefix)
    requires id <= |s|
    requires WellFormed(Links(Stage(s, id, e)))
    ensures Links(Stage(s, id, e.(isAttribute := Some(true)))) == Links(Stage(s, id, e))
    ensures Save(s, id, e.(isAttribute := Some(true)), prefix)[id] ==
      Save(s, id, e, prefix)[id].(isAttribute := Some(true))
    ensures forall i :: 0 <= i < |Stage(s, id, e)| && i != id ==>
      Save(s, id, e.(isAttribute := Some(true)), prefix)[i] == Save(s, id, e, prefix)[i]
  {
    var t := Stage(s, id, e.(isAttribute := Some(true)));
    var u := Stage(s, id, e);
    assert Links(t) == Links(u);
    SaveTreeAt(t, id, prefix, id);
    SaveTreeAt(u, id, prefix, id);
    assert InSubtree(Links(u), id, id);
    forall i | 0 <= i < |u| && i != id
      ensures SaveTree(t, id, prefix)[i] == SaveTree(u, id, prefix)[i]
    {
      SaveTreeAt(t, id, prefix, i);
      SaveTreeAt(u, id, prefix, i);
    }
  }

  /** The outcome of `clean()`: the instance with its new path, and the validator's verdict. */
  datatype Cleaned = Cleaned(entity: Entity, valid: bool)

  /**
   * `clean()`: assign the path from the key and the parent chain stored in
   * the database, then run the uniqueness validator on the updated instance.
   */
  function Clean(s: Store, e: Entity, unique: Entity -> bool): (r: Cleaned)
    requires WellFormed(Links(s)) && ValidRef(Links(s), e.parent)
    ensures r.entity == e.(path := r.entity.path)
    ensures r.valid <==> unique(r.entity)
  {
    var checked := e.(path := PathOf(Links(s), e.key, e.parent));
    Cleaned(checked, unique(checked))
  }

  /** `clean()` assigns exactly the path that `save()` then stores for the same instance. */
  lemma CleanAgreesWithSave(s: Store, id: NodeId, e: Entity, prefix: UriPrefix, unique: Entity -> bool)
    requires id <= |s| && WellFormed(Links(s))
    requires WellFormed(Links(Stage(s, id, e)))
    ensures ValidRef(Links(s), e.parent)
    ensures Clean(s, e, unique).entity.path == Save(s, id, e, prefix)[id].path
  {
    var t := Stage(s, id, e);
    var l, lt := Links(s), Links(t);
    NotOwnAncestor(lt, id);
    forall j | j in Ancestors(lt, e.parent) ensures j < |l| && l[j] == lt[j] {
      assert j != id;
    }
    PathOfFrame(l, lt, e.key, e.parent);
  }

  /** Deriving twice gives the same row as deriving once. */
  lemma DeriveIdempotent(l: seq<Link>, e: Entity, prefix: UriPrefix)
    requires WellFormed(l) && ValidRef(l, e.parent)
    ensures Derive(l, Derive(l, e, prefix), prefix) == Derive(l, e, prefix)
  {
  }

  /** Saving the saved row again changes nothing. */
  lemma SaveIdempotent(s: Store, id: NodeId, e: Entity, prefix: UriPrefix)
    requires id <= |s|
    requires WellFormed(Links(Stage(s, id, e)))
    ensures var r := Save(s, id, e, prefix);
      Stage(r, id, r[id]) == r && Save(r, id, r[id], prefix) == r
  {
    var t := Stage(s, id, e);
    var r := Save(s, id, e, prefix);
    assert Stage(r, id, r[id]) == r;
    var r2 := Save(r, id, r[id], prefix);
    forall i | 0 <= i < |r| ensures r2[i] == r[i] {
      ResaveRow(t, id, prefix, i);
    }
  }

  /** One row of a second recursive save over an already saved subtree. */
  lemma ResaveRow(t: Store, id: NodeId, prefix: UriPrefix, i: NodeId)
    requires WellFormed(Links(t)) && id < |t| && i < |t|
    ensures var r := SaveTree(t, id, prefix);
      SaveTree(r, id, prefix)[i] == r[i]
  {
    var r := SaveTree(t, id, prefix);
    SaveTreeAt(t, id, prefix, i);
    SaveTreeAt(r, id, prefix, i);
    if InSubtree(Links(t), id, i) {
      DeriveIdempotent(Links(t), t[i], prefix);
    }
  }

  /** A row outside the saved subtree stays consistent although its neighbours changed. */
  lemma ConsistentOutside(s: Store, id: NodeId, e: Entity, prefix: UriPrefix, i: NodeId)
    requires StoreConsistent(s, prefix) && id <= |s|
    requires WellFormed(Links(Stage(s, id, e)))
    requires i < |s| && i != id && !InSubtree(Links(Stage(s, id, e)), id, i)
    ensures Consistent(Links(Stage(s, id, e)), s[i], prefix)
  {
    var t := Stage(s, id, e);
    var l, lt := Links(s), Links(t);
    ParentRank(lt, i);
    assert Ancestors(lt, Some(i)) == Ancestors(lt, lt[i].parent) + [i];
    forall j | j in Ancestors(lt, s[i].parent) ensures j < |l| && l[j] == lt[j] {
      assert j in Ancestors(lt, Some(i));
    }
    PathOfFrame(l, lt, s[i].key, s[i].parent);
  }

  /**
   * Starting from a store whose every row is consistent, any save (a
   * rename, a move, an insert) leaves every row consistent again.
   */
  lemma SaveRestoresConsistency(s: Store, id: NodeId, e: Entity, prefix: UriPrefix)
    requires StoreConsistent(s, prefix) && id <= |s|
    requires WellFormed(Links(Stage(s, id, e)))
    ensures StoreConsistent(Save(s, id, e, prefix), prefix)
  {
    var r := Save(s, id, e, prefix);
    var lt := Links(Stage(s, id, e));
    forall i | 0 <= i < |r| ensures Consistent(Links(r), r[i], prefix) {
      if !InSubtree(lt, id, i) {
        ConsistentOutside(s, id, e, prefix, i);
      }
    }
  }

  /** After a save, every row in the subtree prints as its URI. */
  lemma StrOfSaved(s: Store, id: NodeId, e: Entity, prefix: UriPrefix, i: NodeId)
    requires id <= |s|
    requires WellFormed(Links(Stage(s, id, e)))
    requires i < |Stage(s, id, e)| && InSubtree(Links(Stage(s, id, e)), id, i)
    ensures var r := Save(s, id, e, prefix);
      Str(r[i]) == UriOf(prefix, r[i].uriPrefix, r[i].path)
  {
    var r := Save(s, id, e, prefix);
    assert r[i].uri.value != "" by {
      assert |UriOf(prefix, r[i].uriPrefix, r[i].path)| >= |"/domain/"|;
    }
  }
}
