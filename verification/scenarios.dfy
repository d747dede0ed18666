/**
 * Worked instances of the path rules on a three-level chain
 * `demographics` / `subject` / `gender`.
 */
module Scenarios {

  import opened Wrappers
  import opened PathText
  import opened Taxonomy
  import opened Models

  function Row(key: string, parent: Option<NodeId>): Entity {
    Entity(key, parent, None, None, None, "", None)
  }

  /** Rows 0, 1, 2: `demographics` is the root, `gender` the leaf. */
  function Demographics(): Store {
    [Row("demographics", None), Row("subject", Some(0)), Row("gender", Some(1))]
  }

  /** The shape of a three-node chain `0 <- 1 <- 2`, whatever its keys. */
  predicate IsChain(l: seq<Link>) {
    |l| == 3 && l[0].parent == None && l[1].parent == Some(0) && l[2].parent == Some(1)
  }

  /** Such a chain is a forest. */
  lemma ChainWellFormed(l: seq<Link>)
    requires IsChain(l)
    ensures WellFormed(l)
  {
    assert Depth(l, 0, 3) == Some(0);
    assert Depth(l, 1, 3) == Some(1);
    assert Depth(l, 2, 3) == Some(2);
  }

  /** In such a chain node 2 sits below node 1, and node 0 does not. */
  lemma ChainShape(l: seq<Link>)
    requires IsChain(l)
    ensures WellFormed(l)
    ensures InSubtree(l, 1, 2) && !InSubtree(l, 1, 0)
  {
    ChainWellFormed(l);
    ParentRank(l, 2);
    ParentRank(l, 1);
    ParentRank(l, 0);
    assert Ancestors(l, Some(0)) == [0];
    assert Ancestors(l, Some(1)) == [0, 1];
    assert Ancestors(l, Some(2)) == [0, 1, 2];
  }

  /** The leaf's path in a chain joins the three keys. */
  lemma ChainPath(l: seq<Link>)
    requires IsChain(l)
    ensures WellFormed(l)
    ensures PathOf(l, l[2].key, Some(1)) == l[0].key + "/" + l[1].key + "/" + l[2].key
  {
    ChainShape(l);
    PathOfRoot(l, l[0].key);
    PathOfStep(l, l[1].key, 0);
    PathOfStep(l, l[2].key, 1);
  }

  /** The leaf's path names its whole chain, root first. */
  lemma GenderPath()
    ensures WellFormed(Links(Demographics()))
    ensures PathOf(Links(Demographics()), "gender", Some(1)) == "demographics/subject/gender"
  {
    ChainPath(Links(Demographics()));
  }

  /**
   * Saving the middle node of a chain under a new key (renaming `subject`
   * to `person`, say) rewrites the leaf's path and URI from the new key and
   * leaves the root alone.
   */
  lemma SaveMiddleOfChain(s: Store, e: Entity, prefix: UriPrefix)
    requires |s| == 3 && IsChain(Links(Stage(s, 1, e)))
    ensures WellFormed(Links(Stage(s, 1, e)))
    ensures var r := Save(s, 1, e, prefix);
      && r[2].path == s[0].key + "/" + e.key + "/" + s[2].key
      && r[2].uri == Some(UriOf(prefix, s[2].uriPrefix, r[2].path))
      && r[0] == s[0]
  {
    var l := Links(Stage(s, 1, e));
    ChainShape(l);
    ChainPath(l);
    var r := Save(s, 1, e, prefix);
    assert Consistent(Links(r), r[2], prefix);
  }
}
