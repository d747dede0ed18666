/**
 * The shape of the attribute/entity forest (rdmo/domain/models.py): every
 * node has a key and an optional parent, and its path is the `/`-joined
 * chain of keys from its root down to it.  Nodes are addressed by their
 * index in an arena; only keys and parent pointers matter here.
 */
module Taxonomy {

  import opened Wrappers
  import opened PathText

  type NodeId = nat

  /** What path derivation reads from a node: its key and its parent pointer. */
  datatype Link = Link(key: string, parent: Option<NodeId>)

  /** A parent reference that is either absent or names a node of `l`. */
  predicate ValidRef(l: seq<Link>, x: Option<NodeId>) {
    x.Some? ==> x.value < |l|
  }

  /**
   * The number of proper ancestors of `i`, when walking parent pointers from
   * `i` reaches a root within `fuel` steps without leaving `l`.
   */
  function Depth(l: seq<Link>, i: NodeId, fuel: nat): Option<nat>
    decreases fuel
  {
    if i >= |l| then None
    else match l[i].parent
      case None => Some(0)
      case Some(p) =>
        if fuel == 0 then None
        else match Depth(l, p, fuel - 1)
          case None => None
          case Some(d) => Some(d + 1)
  }

  /**
   * A forest: every parent pointer names a node, and every node reaches a
   * root, so the parent relation has no cycle.
   */
  predicate WellFormed(l: seq<Link>) {
    && (forall i :: 0 <= i < |l| ==> ValidRef(l, l[i].parent))
    && (forall i :: 0 <= i < |l| ==> Depth(l, i, |l|).Some?)
  }

  lemma {:induction false} DepthMonotone(l: seq<Link>, i: NodeId, f: nat, g: nat)
    requires f <= g && Depth(l, i, f).Some?
    ensures Depth(l, i, g) == Depth(l, i, f)
    decreases f
  {
    if l[i].parent.Some? {
      DepthMonotone(l, l[i].parent.value, f - 1, g - 1);
    }
  }

  lemma {:induction false} DepthBound(l: seq<Link>, i: NodeId, f: nat)
    requires Depth(l, i, f).Some?
    ensures Depth(l, i, f).value <= f
    decreases f
  {
    if l[i].parent.Some? {
      DepthBound(l, l[i].parent.value, f - 1);
    }
  }

  /** The level of a node: 0 for a root, one more than its parent's otherwise. */
  function Level(l: seq<Link>, i: NodeId): (r: nat)
    requires WellFormed(l) && i < |l|
    ensures r <= |l|
  {
    DepthBound(l, i, |l|);
    Depth(l, i, |l|).value
  }

  /** 0 for "no node", otherwise one more than the node's level. */
  function Rank(l: seq<Link>, x: Option<NodeId>): nat
    requires WellFormed(l) && ValidRef(l, x)
  {
    match x
    case None => 0
    case Some(i) => Level(l, i) + 1
  }

  /** Stepping to the parent lowers the rank by exactly one. */
  lemma ParentRank(l: seq<Link>, i: NodeId)
    requires WellFormed(l) && i < |l|
    ensures ValidRef(l, l[i].parent)
    ensures Rank(l, l[i].parent) == Level(l, i)
  {
    if l[i].parent.Some? {
      var p := l[i].parent.value;
      assert Depth(l, i, |l|).Some?;
      assert Depth(l, p, |l| - 1).Some?;
      DepthMonotone(l, p, |l| - 1, |l|);
    }
  }

  /**
   * The ancestor chain of `x`, root first and `x` itself last: what
   * `build_path` walks from the parent it is given.
   */
  function Ancestors(l: seq<Link>, x: Option<NodeId>): (r: seq<NodeId>)
    requires WellFormed(l) && ValidRef(l, x)
    ensures |r| == Rank(l, x)
    ensures forall k :: 0 <= k < |r| ==> r[k] < |l|
    ensures x.Some? ==> r[|r| - 1] == x.value
    ensures |r| > 0 ==> l[r[0]].parent.None?
    ensures forall k :: 0 < k < |r| ==> l[r[k]].parent == Some(r[k - 1])
    decreases Rank(l, x)
  {
    match x
    case None => []
    case Some(i) =>
      ParentRank(l, i);
      Ancestors(l, l[i].parent) + [i]
  }

  /** The keys of the nodes `ids`, in order. */
  function Keys(l: seq<Link>, ids: seq<NodeId>): seq<string>
    requires forall k :: 0 <= k < |ids| ==> ids[k] < |l|
  {
    seq(|ids|, k requires 0 <= k < |ids| => l[ids[k]].key)
  }

  /**
   * The path `build_path(key, parent)` denotes: the keys of the parent's
   * ancestor chain, root first, then `key`, joined by `/`.
   */
  function PathOf(l: seq<Link>, key: string, parent: Option<NodeId>): string
    requires WellFormed(l) && ValidRef(l, parent)
  {
    Join(Keys(l, Ancestors(l, parent)) + [key])
  }

  /** A root's path is its own key, unchanged. */
  lemma PathOfRoot(l: seq<Link>, key: string)
    requires WellFormed(l)
    ensures PathOf(l, key, None) == key
  {
    assert Keys(l, Ancestors(l, None)) + [key] == [key];
  }

  /** Below a parent `p`, the path is the parent's own path, `/`, then the key. */
  lemma PathOfStep(l: seq<Link>, key: string, p: NodeId)
    requires WellFormed(l) && p < |l|
    ensures PathOf(l, key, Some(p)) == PathOf(l, l[p].key, l[p].parent) + "/" + key
  {
    ParentRank(l, p);
    var xs := Keys(l, Ancestors(l, l[p].parent));
    var parts := Keys(l, Ancestors(l, Some(p))) + [key];
    assert parts == xs + [l[p].key, key];
    assert parts[..|parts| - 1] == xs + [l[p].key];
  }

  /**
   * `build_path`: starting from the key, prepend the key of each ancestor
   * while walking up the parent pointers.  It stops on every forest and
   * yields the root-first join of the chain.
   */
  method BuildPath(l: seq<Link>, key: string, parent: Option<NodeId>) returns (path: string)
    requires WellFormed(l) && ValidRef(l, parent)
    ensures path == PathOf(l, key, parent)
  {
    path := key;
    var cur := parent;
    while cur.Some?
      invariant ValidRef(l, cur)
      invariant Join(Keys(l, Ancestors(l, cur)) + [path]) == PathOf(l, key, parent)
      decreases Rank(l, cur)
    {
      var p := cur.value;
      ParentRank(l, p);
      var xs := Keys(l, Ancestors(l, l[p].parent));
      assert Keys(l, Ancestors(l, cur)) + [path] == xs + [l[p].key, path];
      MergeLastTwo(xs, l[p].key, path);
      path := l[p].key + "/" + path;
      cur := l[p].parent;
    }
    assert Keys(l, Ancestors(l, cur)) + [path] == [path];
  }

  /**
   * The nodes whose parent is `id`, in ascending order: what
   * `self.children.all()` yields.
   */
  function ChildrenOf(l: seq<Link>, id: NodeId): (r: seq<NodeId>)
    ensures forall k :: 0 <= k < |r| ==> r[k] < |l| && l[r[k]].parent == Some(id)
    ensures forall k, k' :: 0 <= k < k' < |r| ==> r[k] < r[k']
    ensures forall j :: 0 <= j < |l| && l[j].parent == Some(id) ==> j in r
  {
    ChildrenBelow(l, id, |l|)
  }

  function ChildrenBelow(l: seq<Link>, id: NodeId, n: nat): (r: seq<NodeId>)
    requires n <= |l|
    ensures forall k :: 0 <= k < |r| ==> r[k] < n && l[r[k]].parent == Some(id)
    ensures forall k, k' :: 0 <= k < k' < |r| ==> r[k] < r[k']
    ensures forall j :: 0 <= j < n && l[j].parent == Some(id) ==> j in r
  {
    if n == 0 then []
    else ChildrenBelow(l, id, n - 1) + (if l[n - 1].parent == Some(id) then [n - 1] else [])
  }

  /** `i` lies in the subtree rooted at `root`: `root` is on `i`'s ancestor chain. */
  predicate InSubtree(l: seq<Link>, root: NodeId, i: NodeId)
    requires WellFormed(l) && i < |l|
  {
    root in Ancestors(l, Some(i))
  }

  /** `i` lies in the subtree of one of the nodes `roots[from..]`. */
  predicate InAnySubtree(l: seq<Link>, roots: seq<NodeId>, from: nat, i: NodeId)
    requires WellFormed(l) && i < |l|
  {
    exists k :: from <= k < |roots| && InSubtree(l, roots[k], i)
  }

  /** Every prefix of an ancestor chain is the chain of its last node. */
  lemma {:induction false} AncestorsPrefix(l: seq<Link>, i: NodeId, k: nat)
    requires WellFormed(l) && i < |l|
    requires k < |Ancestors(l, Some(i))|
    ensures Ancestors(l, Some(i))[..k + 1] == Ancestors(l, Some(Ancestors(l, Some(i))[k]))
    decreases Level(l, i)
  {
    var a := Ancestors(l, Some(i));
    ParentRank(l, i);
    if k < |a| - 1 {
      var p := l[i].parent.value;
      assert a == Ancestors(l, Some(p)) + [i];
      assert a[..k + 1] == Ancestors(l, Some(p))[..k + 1];
      assert a[k] == Ancestors(l, Some(p))[k];
      AncestorsPrefix(l, p, k);
    }
  }

  /** The node at position `k` of an ancestor chain has level `k`. */
  lemma LevelIsPosition(l: seq<Link>, i: NodeId, k: nat)
    requires WellFormed(l) && i < |l|
    requires k < |Ancestors(l, Some(i))|
    ensures Level(l, Ancestors(l, Some(i))[k]) == k
  {
    AncestorsPrefix(l, i, k);
  }

  /** Sibling subtrees do not overlap. */
  lemma SiblingSubtreesDisjoint(l: seq<Link>, a: NodeId, b: NodeId, i: NodeId)
    requires WellFormed(l) && a < |l| && b < |l| && i < |l|
    requires l[a].parent.Some? && l[a].parent == l[b].parent
    requires InSubtree(l, a, i) && InSubtree(l, b, i)
    ensures a == b
  {
    var chain := Ancestors(l, Some(i));
    var ka :| 0 <= ka < |chain| && chain[ka] == a;
    var kb :| 0 <= kb < |chain| && chain[kb] == b;
    LevelIsPosition(l, i, ka);
    LevelIsPosition(l, i, kb);
    ParentRank(l, a);
    ParentRank(l, b);
  }

  /**
   * A subtree is its root together with the subtrees of the root's
   * children: the nodes the recursive save reaches are exactly the subtree.
   */
  lemma SubtreeSplit(l: seq<Link>, id: NodeId, i: NodeId)
    requires WellFormed(l) && id < |l| && i < |l|
    ensures InSubtree(l, id, i) <==> i == id || InAnySubtree(l, ChildrenOf(l, id), 0, i)
  {
    if InSubtree(l, id, i) && i != id {
      BelowSomeChild(l, id, i);
    }
    if InAnySubtree(l, ChildrenOf(l, id), 0, i) {
      BelowChildIsBelow(l, id, i);
    }
    if i == id {
      assert Ancestors(l, Some(i))[|Ancestors(l, Some(i))| - 1] == id;
    }
  }

  /** A proper descendant of `id` lies below one of `id`'s children. */
  lemma BelowSomeChild(l: seq<Link>, id: NodeId, i: NodeId)
    requires WellFormed(l) && id < |l| && i < |l|
    requires InSubtree(l, id, i) && i != id
    ensures InAnySubtree(l, ChildrenOf(l, id), 0, i)
  {
    var chain := Ancestors(l, Some(i));
    var cs := ChildrenOf(l, id);
    var k :| 0 <= k < |chain| && chain[k] == id;
    assert k < |chain| - 1;
    var c := chain[k + 1];
    assert l[c].parent == Some(id);
    var m :| 0 <= m < |cs| && cs[m] == c;
    assert InSubtree(l, cs[m], i);
  }

  /** A node below a child of `id` is below `id`. */
  lemma BelowChildIsBelow(l: seq<Link>, id: NodeId, i: NodeId)
    requires WellFormed(l) && id < |l| && i < |l|
    requires InAnySubtree(l, ChildrenOf(l, id), 0, i)
    ensures InSubtree(l, id, i)
  {
    var chain := Ancestors(l, Some(i));
    var cs := ChildrenOf(l, id);
    var m :| 0 <= m < |cs| && InSubtree(l, cs[m], i);
    var c := cs[m];
    var k :| 0 <= k < |chain| && chain[k] == c;
    AncestorsPrefix(l, i, k);
    ParentRank(l, c);
    assert Ancestors(l, Some(c)) == Ancestors(l, Some(id)) + [c];
    assert id in chain[..k + 1];
  }

  /** A node is not among its parent's ancestors: walking up never comes back. */
  lemma NotOwnAncestor(l: seq<Link>, i: NodeId)
    requires WellFormed(l) && i < |l|
    ensures ValidRef(l, l[i].parent)
    ensures i !in Ancestors(l, l[i].parent)
  {
    ParentRank(l, i);
    var up := Ancestors(l, l[i].parent);
    if i in up {
      var m :| 0 <= m < |up| && up[m] == i;
      assert Ancestors(l, Some(i)) == up + [i];
      assert Ancestors(l, Some(i))[m] == i;
      LevelIsPosition(l, i, m);
    }
  }

  /** A node never lies below one of its own children. */
  lemma NotBelowOwnChild(l: seq<Link>, id: NodeId)
    requires WellFormed(l) && id < |l|
    ensures !InAnySubtree(l, ChildrenOf(l, id), 0, id)
  {
    var cs := ChildrenOf(l, id);
    if InAnySubtree(l, cs, 0, id) {
      var k :| 0 <= k < |cs| && InSubtree(l, cs[k], id);
      var chain := Ancestors(l, Some(id));
      var m :| 0 <= m < |chain| && chain[m] == cs[k];
      LevelIsPosition(l, id, m);
      ParentRank(l, cs[k]);
    }
  }

  /**
   * Splitting a list of distinct siblings, in any order, at position `from`: a node lies
   * below `cs[from..]` when it lies below `cs[from]` or below the rest,
   * never both.
   */
  lemma SiblingsSplit(l: seq<Link>, parent: NodeId, cs: seq<NodeId>, from: nat, i: NodeId)
    requires WellFormed(l) && i < |l| && from < |cs|
    requires forall k :: 0 <= k < |cs| ==> cs[k] < |l| && l[cs[k]].parent == Some(parent)
    requires forall k, k' :: 0 <= k < k' < |cs| ==> cs[k] != cs[k']
    ensures InAnySubtree(l, cs, from, i) <==>
      InSubtree(l, cs[from], i) || InAnySubtree(l, cs, from + 1, i)
    ensures InSubtree(l, cs[from], i) ==> !InAnySubtree(l, cs, from + 1, i)
  {
    if InSubtree(l, cs[from], i) && InAnySubtree(l, cs, from + 1, i) {
      var k :| from + 1 <= k < |cs| && InSubtree(l, cs[k], i);
      SiblingSubtreesDisjoint(l, cs[from], cs[k], i);
    }
  }

  /** Lying below one of `roots` depends only on which nodes `roots` holds. */
  lemma SameRootsSameSubtrees(l: seq<Link>, roots: seq<NodeId>, roots': seq<NodeId>, i: NodeId)
    requires WellFormed(l) && i < |l|
    requires forall c :: c in roots ==> c in roots'
    ensures InAnySubtree(l, roots, 0, i) ==> InAnySubtree(l, roots', 0, i)
  {
    if InAnySubtree(l, roots, 0, i) {
      var k :| 0 <= k < |roots| && InSubtree(l, roots[k], i);
      assert roots[k] in roots';
      var k' :| 0 <= k' < |roots'| && roots'[k'] == roots[k];
    }
  }

  /**
   * The ancestor chain of `x` reads only the nodes on it: two forests that
   * agree on those nodes give the same chain.
   */
  lemma {:induction false} AncestorsFrame(l: seq<Link>, l': seq<Link>, x: Option<NodeId>)
    requires WellFormed(l) && WellFormed(l') && ValidRef(l', x)
    requires forall j :: j in Ancestors(l', x) ==> j < |l| && l[j] == l'[j]
    ensures ValidRef(l, x)
    ensures Ancestors(l, x) == Ancestors(l', x)
    decreases Rank(l', x)
  {
    if x.Some? {
      var i := x.value;
      ParentRank(l', i);
      assert i in Ancestors(l', x);
      ParentRank(l, i);
      assert Ancestors(l', x) == Ancestors(l', l'[i].parent) + [i];
      AncestorsFrame(l, l', l'[i].parent);
    }
  }

  /** Paths read only the keys on the ancestor chain. */
  lemma PathOfFrame(l: seq<Link>, l': seq<Link>, key: string, x: Option<NodeId>)
    requires WellFormed(l) && WellFormed(l') && ValidRef(l', x)
    requires forall j :: j in Ancestors(l', x) ==> j < |l| && l[j] == l'[j]
    ensures ValidRef(l, x)
    ensures PathOf(l, key, x) == PathOf(l', key, x)
  {
    AncestorsFrame(l, l', x);
    var a := Ancestors(l', x);
    forall k | 0 <= k < |a| ensures a[k] < |l| && l[a[k]] == l'[a[k]] {
      assert a[k] in a;
    }
    KeysFrame(l, l', a);
  }

  /** Keys read only the nodes they name. */
  lemma KeysFrame(l: seq<Link>, l': seq<Link>, ids: seq<NodeId>)
    requires forall k :: 0 <= k < |ids| ==> ids[k] < |l| && ids[k] < |l'| && l[ids[k]] == l'[ids[k]]
    ensures Keys(l, ids) == Keys(l', ids)
  {
  }
}
