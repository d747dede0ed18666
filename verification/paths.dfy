/**
 * The textual shape of an attribute/entity path: keys joined with `/`,
 * root first (rdmo/domain/models.py, `build_path`).
 */
module PathText {

  import opened Wrappers

  /** True when `s` contains no path separator; every slug key satisfies this. */
  predicate NoSeparator(s: string) {
    forall k :: 0 <= k < |s| ==> s[k] != '/'
  }

  /** Keys joined by `/`, the first part leftmost. */
  function Join(parts: seq<string>): string
  {
    if |parts| == 0 then ""
    else if |parts| == 1 then parts[0]
    else Join(parts[..|parts| - 1]) + "/" + parts[|parts| - 1]
  }

  /** The index of the last separator in `s`, if any. */
  function LastSeparator(s: string): (r: Option<nat>)
    ensures r.Some? ==> r.value < |s| && s[r.value] == '/'
    ensures r.Some? ==> NoSeparator(s[r.value + 1..])
    ensures r.None? <==> NoSeparator(s)
  {
    if |s| == 0 then None
    else if s[|s| - 1] == '/' then Some(|s| - 1)
    else
      var r := LastSeparator(s[..|s| - 1]);
      assert r.Some? ==> s[r.value + 1..] == s[..|s| - 1][r.value + 1..] + [s[|s| - 1]];
      assert r.None? ==> NoSeparator(s[..|s| - 1]);
      r
  }

  /** Splits a path back into its keys at every `/`. */
  function Split(s: string): (r: seq<string>)
    ensures |r| >= 1
    ensures forall k :: 0 <= k < |r| ==> NoSeparator(r[k])
    decreases |s|
  {
    match LastSeparator(s)
    case None => [s]
    case Some(k) => Split(s[..k]) + [s[k + 1..]]
  }

  /** The last separator of `a + "/" + b` is the one put there when `b` has none. */
  lemma {:induction false} LastSeparatorOfJoin(a: string, b: string)
    requires NoSeparator(b)
    ensures LastSeparator(a + "/" + b) == Some(|a|)
    decreases |b|
  {
    var s := a + "/" + b;
    if |b| == 0 {
      assert s[|s| - 1] == '/';
    } else {
      assert s[|s| - 1] == b[|b| - 1] != '/';
      var b' := b[..|b| - 1];
      assert s[..|s| - 1] == a + "/" + b';
      assert NoSeparator(b') by {
        forall k | 0 <= k < |b'| ensures b'[k] != '/' {
          assert b'[k] == b[k];
        }
      }
      LastSeparatorOfJoin(a, b');
    }
  }

  /**
   * Round trip: splitting a joined path gives back the keys, so a path
   * determines the chain of keys it was built from, provided no key
   * contains a separator.
   */
  lemma {:induction false} SplitJoin(parts: seq<string>)
    requires |parts| >= 1
    requires forall k :: 0 <= k < |parts| ==> NoSeparator(parts[k])
    ensures Split(Join(parts)) == parts
  {
    if |parts| > 1 {
      var init, last := parts[..|parts| - 1], parts[|parts| - 1];
      var j := Join(init);
      var s := j + "/" + last;
      assert Join(parts) == s;
      LastSeparatorOfJoin(j, last);
      assert s[..|j|] == j;
      assert s[|j| + 1..] == last;
      assert Split(s) == Split(j) + [last];
      assert forall k :: 0 <= k < |init| ==> NoSeparator(init[k]) by {
        forall k | 0 <= k < |init| ensures NoSeparator(init[k]) {
          assert init[k] == parts[k];
        }
      }
      SplitJoin(init);
      assert init + [last] == parts;
    } else {
      assert LastSeparator(parts[0]) == None;
    }
  }

  /** Joining one more key onto a non-empty chain: `join(xs + [a, b]) == join(xs + [a + "/" + b])`. */
  lemma MergeLastTwo(xs: seq<string>, a: string, b: string)
    ensures Join(xs + [a, b]) == Join(xs + [a + "/" + b])
  {
    var ys := xs + [a, b];
    var zs := xs + [a + "/" + b];
    assert ys[..|ys| - 1] == xs + [a];
    assert zs[..|zs| - 1] == xs;
    if |xs| > 0 {
      assert (xs + [a])[..|xs|] == xs;
    }
  }
}
