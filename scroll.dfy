/**
  The scroll-convergence loop of skype_web_extractor.py: after a conversation is
  opened, the message nodes of the region are counted again and again, scrolling to
  the last node after every observation that grew, until one does not grow.

  The browser is abstracted as the sequence of node lists that successive
  `find_elements` calls return ("views"); the waits between them are left out.
*/
module ScrollLoader {
  import opened Strings

  /** Observation `k` holds more nodes than the previous count (0 before the first). */
  predicate Grew(views: seq<seq<string>>, k: nat)
    requires k < |views|
  {
    |views[k]| > (if k == 0 then 0 else |views[k - 1]|)
  }

  /** Some observation does not grow, so the loop ends. */
  predicate Stalls(views: seq<seq<string>>)
  {
    exists k :: 0 <= k < |views| && !Grew(views, k)
  }

  /** The first observation that does not grow. */
  function StallIndex(views: seq<seq<string>>): (k: nat)
    requires Stalls(views)
    ensures k < |views| && !Grew(views, k)
    ensures forall j :: 0 <= j < k ==> Grew(views, j)
  {
    FirstStallFrom(views, 0)
  }

  function FirstStallFrom(views: seq<seq<string>>, start: nat): (k: nat)
    requires start <= |views|
    requires exists k :: start <= k < |views| && !Grew(views, k)
    requires forall j :: 0 <= j < start ==> Grew(views, j)
    ensures start <= k < |views| && !Grew(views, k)
    ensures forall j :: 0 <= j < k ==> Grew(views, j)
    decreases |views| - start
  {
    if !Grew(views, start) then start else FirstStallFrom(views, start + 1)
  }

  /**
    The loop: returns the nodes of the first observation that did not grow, the number
    of scrolls made, and the node scrolled to each time (the last node of each growing
    observation, which is never empty).
  */
  method LoadHistory(views: seq<seq<string>>) returns (nodes: seq<string>, scrolls: nat, targets: seq<string>)
    requires Stalls(views)
    ensures scrolls == StallIndex(views)
    ensures nodes == views[scrolls]
    ensures forall j :: 0 <= j < scrolls ==> Grew(views, j)
    ensures !Grew(views, scrolls)
    ensures |targets| == scrolls
    ensures forall j :: 0 <= j < scrolls ==> views[j] != [] && targets[j] == Last(views[j])
  {
    var previous := 0;
    var k := 0;
    var stalled := false;
    nodes := [];
    targets := [];
    while !stalled
      invariant k <= StallIndex(views)
      invariant !stalled ==> previous == if k == 0 then 0 else |views[k - 1]|
      invariant stalled ==> k == StallIndex(views) && nodes == views[k]
      invariant |targets| == k
      invariant forall j :: 0 <= j < k ==> views[j] != [] && targets[j] == Last(views[j])
      decreases StallIndex(views) - k, if stalled then 0 else 1
    {
      var current := views[k];
      if |current| > previous {
        previous := |current|;
        targets := targets + [current[|current| - 1]];
        k := k + 1;
      } else {
        assert !Grew(views, k);
        stalled := true;
        nodes := current;
      }
    }
    scrolls := k;
  }

  /** Every scroll loaded at least one node, so there are no more scrolls than nodes seen. */
  lemma {:induction false} ScrollsBounded(views: seq<seq<string>>, k: nat)
    requires k < |views|
    requires forall j :: 0 <= j <= k ==> Grew(views, j)
    ensures |views[k]| >= k + 1
    decreases k
  {
    assert Grew(views, k);
    if k > 0 {
      ScrollsBounded(views, k - 1);
    }
  }

  /** The number of scrolls is at most the number of nodes of the last growing observation. */
  lemma ScrollsAtMostNodes(views: seq<seq<string>>)
    requires Stalls(views) && StallIndex(views) > 0
    ensures StallIndex(views) <= |views[StallIndex(views) - 1]|
  {
    ScrollsBounded(views, StallIndex(views) - 1);
  }

  /** An empty region stops the loop at once, with no scroll and no node. */
  lemma EmptyRegionNoScroll(views: seq<seq<string>>)
    requires |views| > 0 && views[0] == []
    ensures Stalls(views) && StallIndex(views) == 0
  {
    assert !Grew(views, 0);
  }

  /** Counts 3, 5, 5: two scrolls, and the five nodes of the third observation are read. */
  lemma ThreeFiveFive(views: seq<seq<string>>)
    requires |views| == 3 && |views[0]| == 3 && |views[1]| == 5 && |views[2]| == 5
    ensures Stalls(views) && StallIndex(views) == 2 && |views[StallIndex(views)]| == 5
  {
    assert !Grew(views, 2);
    assert Grew(views, 0) && Grew(views, 1);
  }

  /** A view that shrinks also ends the loop, and its (fewer) nodes are the ones read. */
  lemma ShrinkStops(views: seq<seq<string>>)
    requires |views| == 2 && |views[0]| == 4 && |views[1]| == 2
    ensures Stalls(views) && StallIndex(views) == 1 && |views[StallIndex(views)]| == 2
  {
    assert !Grew(views, 1);
    assert Grew(views, 0);
  }
}
