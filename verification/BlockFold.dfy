/** Folding a compression over a list of blocks; the compression and its types are arbitrary. */
module BlockFold {

  type Step<!S, !K> = (S, K) -> S

  function Fold<S, K>(f: Step<S, K>, state: S, blocks: seq<K>): S {
    if blocks == [] then state
    else f(Fold(f, state, blocks[..|blocks| - 1]), blocks[|blocks| - 1])
  }

  lemma FoldSnoc<S, K>(f: Step<S, K>, state: S, blocks: seq<K>, block: K)
    ensures Fold(f, state, blocks + [block]) == f(Fold(f, state, blocks), block)
  {
    assert (blocks + [block])[..|blocks|] == blocks;
  }

  // Folding over more blocks resumes from the state reached.
  lemma {:induction false} FoldResumes<S, K>(f: Step<S, K>, state: S, a: seq<K>, b: seq<K>)
    ensures Fold(f, state, a + b) == Fold(f, Fold(f, state, a), b)
    decreases |b|
  {
    if b == [] {
      assert a + b == a;
    } else {
      var n := |b| - 1;
      assert (a + b)[..|a + b| - 1] == a + b[..n];
      FoldResumes(f, state, a, b[..n]);
    }
  }

  // What `f` is applied to in a fold.
  ghost function Inputs<S, K>(f: Step<S, K>, state: S, blocks: seq<K>): set<(S, K)> {
    if blocks == [] then {}
    else Inputs(f, state, blocks[..|blocks| - 1]) + {LastInput(f, state, blocks)}
  }

  ghost function LastInput<S, K>(f: Step<S, K>, state: S, blocks: seq<K>): (S, K)
    requires blocks != []
  {
    (Fold(f, state, blocks[..|blocks| - 1]), blocks[|blocks| - 1])
  }

  // Two different inputs, among `xs`, with one output.
  ghost predicate Collides<S, K>(f: Step<S, K>, xs: set<(S, K)>) {
    exists x, y :: x in xs && y in xs && x != y && f(x.0, x.1) == f(y.0, y.1)
  }

  // Different lists with the same fold, of equal length or with different last blocks, show a
  // collision of the compression.
  lemma {:induction false} FoldCollision<S, K>(f: Step<S, K>, state: S, a: seq<K>, b: seq<K>, xs: set<(S, K)>)
    requires a != [] && b != [] && a != b && Fold(f, state, a) == Fold(f, state, b)
    requires |a| == |b| || a[|a| - 1] != b[|b| - 1]
    requires Inputs(f, state, a) <= xs && Inputs(f, state, b) <= xs
    ensures Collides(f, xs)
    decreases |a|
  {
    var x, y := LastInput(f, state, a), LastInput(f, state, b);
    assert x in xs && y in xs && f(x.0, x.1) == f(y.0, y.1);
    if x == y {
      var n := |a| - 1;
      assert a == a[..n] + [a[n]] && b == b[..n] + [b[n]];
      FoldCollision(f, state, a[..n], b[..n], xs);
    }
  }
}
