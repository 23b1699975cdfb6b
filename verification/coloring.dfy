/** Transitive colouring: a node takes the blend of the colours of every
    seed it depends on, and no colour when it depends on none. */
module Coloring {
  import opened Wrappers
  import opened Graphs
  import opened Colors

  /** A seed node with its colour, as read from the `[Coloring]` group. */
  type Seed = (Node, Rgb)

  /** One step of the loop over the seeds: blend the seed's colour in when
      `node` depends on the seed. */
  ghost function AddSeed(g: Graph, node: Node, acc: Option<Rgb>, seed: Seed): Option<Rgb> {
    if Depends(g, node, seed.0) then Blend(acc, seed.1) else acc
  }

  /** The colour of `node` after the loop over `seeds`, in order. It is
      absent exactly when `node` depends on none of the seeds. */
  ghost function SeedColor(g: Graph, node: Node, seeds: seq<Seed>): Option<Rgb>
    decreases |seeds|
  {
    if seeds == [] then None
    else AddSeed(g, node, SeedColor(g, node, seeds[..|seeds| - 1]), seeds[|seeds| - 1])
  }

  /** A node has no colour exactly when it depends on none of the seeds. */
  lemma {:induction false} NoColorWithoutSeed(g: Graph, node: Node, seeds: seq<Seed>)
    ensures SeedColor(g, node, seeds).None? <==> forall i :: 0 <= i < |seeds| ==> !Depends(g, node, seeds[i].0)
    decreases |seeds|
  {
    if seeds != [] {
      var init := seeds[..|seeds| - 1];
      NoColorWithoutSeed(g, node, init);
      assert forall i :: 0 <= i < |init| ==> init[i] == seeds[i];
    }
  }

  /** The loop of the node-colouring pass for one node: a dependency test
      against every seed, blending the colour of each seed that holds. */
  method ColorOf(g: Graph, node: Node, seeds: seq<Seed>) returns (color: Option<Rgb>)
    ensures color == SeedColor(g, node, seeds)
  {
    color := None;
    for i := 0 to |seeds|
      invariant color == SeedColor(g, node, seeds[..i])
    {
      assert seeds[..i + 1][..i] == seeds[..i];
      var (seed, c) := seeds[i];
      var depends := DependsOn(g, node, seed);
      if depends {
        color := Blend(color, c);
      }
    }
    assert seeds[..|seeds|] == seeds;
  }

  /** Two seed steps commute. */
  lemma AddSeedSwap(g: Graph, node: Node, acc: Option<Rgb>, a: Seed, b: Seed)
    ensures AddSeed(g, node, AddSeed(g, node, acc, a), b) == AddSeed(g, node, AddSeed(g, node, acc, b), a)
  {
    if Depends(g, node, a.0) && Depends(g, node, b.0) {
      BlendSwap(acc, a.1, b.1);
    }
  }

  /** Removing the element at `k`, before the last, keeps the last element
      last, after the rest with `k` removed. */
  lemma RemoveBeforeLast<T>(xs: seq<T>, k: nat)
    requires k < |xs| - 1
    ensures var without := xs[..k] + xs[k + 1..];
            var init := xs[..|xs| - 1];
            && without[..|without| - 1] == init[..k] + init[k + 1..]
            && without[|without| - 1] == xs[|xs| - 1]
  {
    var init := xs[..|xs| - 1];
    assert xs[k + 1..] == init[k + 1..] + [xs[|xs| - 1]];
    assert init[..k] == xs[..k];
  }

  /** Any one seed may be taken last. */
  lemma {:induction false} SeedColorRemoveAt(g: Graph, node: Node, seeds: seq<Seed>, k: nat)
    requires k < |seeds|
    ensures SeedColor(g, node, seeds) == AddSeed(g, node, SeedColor(g, node, seeds[..k] + seeds[k + 1..]), seeds[k])
    decreases |seeds|
  {
    var n := |seeds|;
    var without := seeds[..k] + seeds[k + 1..];
    if k == n - 1 {
      assert without == seeds[..n - 1];
    } else {
      var init := seeds[..n - 1];
      var last := seeds[n - 1];
      var rest := init[..k] + init[k + 1..];
      RemoveBeforeLast(seeds, k);
      var base := SeedColor(g, node, rest);
      SeedColorRemoveAt(g, node, init, k);
      assert init[k] == seeds[k];
      AddSeedSwap(g, node, base, seeds[k], last);
    }
  }

  /** The colour depends only on the seeds, not on the order they are
      visited in. */
  lemma {:induction false} SeedOrderIrrelevant(g: Graph, node: Node, seeds: seq<Seed>, other: seq<Seed>)
    requires multiset(seeds) == multiset(other)
    ensures SeedColor(g, node, seeds) == SeedColor(g, node, other)
    decreases |seeds|
  {
    if seeds == [] {
      assert |other| == |multiset(other)| == 0;
    } else {
      var n := |seeds|;
      var last := seeds[n - 1];
      assert seeds[n - 1] in multiset(other) by {
        assert seeds == seeds[..n - 1] + [last];
      }
      var k :| 0 <= k < |other| && other[k] == last;
      var rest := other[..k] + other[k + 1..];
      RemoveMatching(seeds, other, k);
      SeedOrderIrrelevant(g, node, seeds[..n - 1], rest);
      SeedColorRemoveAt(g, node, other, k);
    }
  }

  /** Taking the last seed from one list and the same seed from anywhere in
      a permutation of it leaves two permutations. */
  lemma RemoveMatching(seeds: seq<Seed>, other: seq<Seed>, k: nat)
    requires multiset(seeds) == multiset(other)
    requires seeds != [] && k < |other| && other[k] == seeds[|seeds| - 1]
    ensures multiset(seeds[..|seeds| - 1]) == multiset(other[..k] + other[k + 1..])
  {
    var n := |seeds|;
    var last := seeds[n - 1];
    assert seeds == seeds[..n - 1] + [last];
    assert other == other[..k] + [last] + other[k + 1..];
    assert multiset(other[..k] + other[k + 1..]) == multiset(other) - multiset{last};
    assert multiset(seeds[..n - 1]) == multiset(seeds) - multiset{last};
  }

  /** A seed the node depends on, when it is the only one, colours the node
      with exactly its own colour; in particular a seed colours itself so
      when it reaches no other seed. */
  lemma {:induction false} SingleSeed(g: Graph, node: Node, seeds: seq<Seed>, i: nat)
    requires i < |seeds| && Depends(g, node, seeds[i].0)
    requires forall j :: 0 <= j < |seeds| && j != i ==> !Depends(g, node, seeds[j].0)
    ensures SeedColor(g, node, seeds) == Some(seeds[i].1)
    decreases |seeds|
  {
    var n := |seeds|;
    var init := seeds[..n - 1];
    if i == n - 1 {
      NoColorWithoutSeed(g, node, init);
      assert forall j :: 0 <= j < |init| ==> !Depends(g, node, init[j].0) by {
        forall j | 0 <= j < |init| ensures !Depends(g, node, init[j].0) {
          assert init[j] == seeds[j];
        }
      }
    } else {
      assert init[i] == seeds[i];
      forall j | 0 <= j < |init| && j != i ensures !Depends(g, node, init[j].0) {
        assert init[j] == seeds[j];
      }
      SingleSeed(g, node, init, i);
    }
  }
}
