/** The signed file bundle: a Merkle tree over the sorted files of a directory. */
module Merkle {
  import opened Hashing
  import opened Orders
  import opened Powers

  datatype FileLeaf = FileLeaf(path: string, hash: Digest)

  const MAX_FILES := 8192

  const ZERO_BYTES := "\0\0\0\0\0\0\0\0\0\0\0\0\0\0\0\0\0\0\0\0\0\0\0\0\0\0\0\0\0\0\0\0"

  const ZERO_ROOT := Digest(ZERO_BYTES)

  // ---------- order of the leaves ----------

  predicate Below(c: char, d: char) {
    c < d
  }

  // `strcmp(a, b) < 0`.
  predicate PathLess(a: string, b: string) {
    Precedes(Below, a, b)
  }

  lemma PathLessTotal(a: string, b: string)
    ensures PathLess(a, b) || a == b || PathLess(b, a)
    ensures !(PathLess(a, b) && PathLess(b, a)) && (PathLess(a, b) ==> a != b)
  {
    PrecedesTotal(Below, a, b);
  }

  // The order of byte strings, place by place: up to some place they agree, and there the first ends or
  // has the smaller byte.
  ghost predicate BytesBefore(p: string, q: string) {
    exists k :: 0 <= k <= |p| && k < |q| && p[..k] == q[..k] && (k == |p| || p[k] < q[k])
  }

  lemma PathLessPointwise(a: string, b: string)
    ensures PathLess(a, b) <==> BytesBefore(a, b)
  {
    PrecedesPointwise(Below, a, b);
    assert forall k :: 0 <= k < |a| && k < |b| ==> (Below(a[k], b[k]) <==> a[k] < b[k]);
  }

  lemma PathLessTransitive(a: string, b: string, c: string)
    requires PathLess(a, b) && PathLess(b, c)
    ensures PathLess(a, c)
  {
    PrecedesTransitive(Below, a, b, c);
  }

  ghost predicate Distinct(s: seq<FileLeaf>) {
    forall i, j :: 0 <= i < j < |s| ==> s[i].path != s[j].path
  }

  ghost predicate Ascending(s: seq<FileLeaf>) {
    forall i, j :: 0 <= i < j < |s| ==> PathLess(s[i].path, s[j].path)
  }

  function Insert(l: FileLeaf, s: seq<FileLeaf>): (r: seq<FileLeaf>)
    ensures multiset(r) == multiset(s) + multiset{l}
  {
    if s == [] || PathLess(l.path, s[0].path) then [l] + s
    else
      assert s == [s[0]] + s[1..];
      [s[0]] + Insert(l, s[1..])
  }

  // What `qsort` leaves in the array.
  function Sorted(s: seq<FileLeaf>): (r: seq<FileLeaf>)
    ensures multiset(r) == multiset(s) && |r| == |s|
  {
    if s == [] then [] else
      assert s == [s[0]] + s[1..];
      assert multiset(s) == multiset{s[0]} + multiset(s[1..]);
      var r := Insert(s[0], Sorted(s[1..]));
      assert |multiset(r)| == |multiset(s)|;
      r
  }

  lemma SameElements<T>(s: seq<T>, t: seq<T>)
    requires multiset(s) == multiset(t)
    ensures forall x :: x in s <==> x in t
  {
    forall x ensures x in s <==> x in t {
      assert x in multiset(s) <==> x in multiset(t);
    }
  }

  lemma {:induction false} InsertAscending(l: FileLeaf, s: seq<FileLeaf>)
    requires Ascending(s) && forall x :: x in s ==> x.path != l.path
    ensures Ascending(Insert(l, s))
  {
    if s == [] {
    } else if PathLess(l.path, s[0].path) {
      forall j | 0 < j < |s| ensures PathLess(l.path, s[j].path) {
        PathLessTransitive(l.path, s[0].path, s[j].path);
      }
    } else {
      PathLessTotal(l.path, s[0].path);
      InsertAscending(l, s[1..]);
      var r := Insert(l, s[1..]);
      forall x | x in r ensures PathLess(s[0].path, x.path) {
        assert x in multiset(r);
        assert x in multiset(s[1..]) || x == l;
        if x != l {
          var j :| 0 <= j < |s[1..]| && s[1..][j] == x;
          assert x == s[j + 1];
        }
      }
    }
  }

  lemma {:induction false} SortedAscending(s: seq<FileLeaf>)
    requires Distinct(s)
    ensures Ascending(Sorted(s))
  {
    if s != [] {
      SortedAscending(s[1..]);
      var r := Sorted(s[1..]);
      forall x | x in r ensures x.path != s[0].path {
        SameElements(r, s[1..]);
        var j :| 0 <= j < |s[1..]| && s[1..][j] == x;
        assert x == s[j + 1];
      }
      InsertAscending(s[0], r);
    }
  }

  lemma AscendingBytes(s: seq<FileLeaf>)
    requires Ascending(s)
    ensures forall i, j :: 0 <= i < j < |s| ==> BytesBefore(s[i].path, s[j].path)
  {
    forall i, j | 0 <= i < j < |s| ensures BytesBefore(s[i].path, s[j].path) {
      PathLessPointwise(s[i].path, s[j].path);
    }
  }

  lemma AscendingHead(s: seq<FileLeaf>, t: seq<FileLeaf>)
    requires Ascending(s) && Ascending(t) && s != [] && t != []
    requires forall x :: x in s <==> x in t
    ensures s[0] == t[0]
  {
    assert s[0] in t && t[0] in s;
    var j :| 0 <= j < |t| && t[j] == s[0];
    var k :| 0 <= k < |s| && s[k] == t[0];
    if s[0] != t[0] {
      PathLessTotal(s[0].path, t[0].path);
    }
  }

  lemma {:induction false} AscendingUnique(s: seq<FileLeaf>, t: seq<FileLeaf>)
    requires Ascending(s) && Ascending(t) && forall x :: x in s <==> x in t
    ensures s == t
  {
    assert s != [] ==> s[0] in t;
    assert t != [] ==> t[0] in s;
    if s != [] {
      AscendingHead(s, t);
      forall x ensures x in s[1..] <==> x in t[1..] {
        TailMembership(s, x);
        TailMembership(t, x);
      }
      AscendingUnique(s[1..], t[1..]);
      assert s == [s[0]] + s[1..] && t == [t[0]] + t[1..];
    }
  }

  lemma TailMembership(s: seq<FileLeaf>, x: FileLeaf)
    requires Ascending(s) && s != []
    ensures x in s[1..] <==> x in s && x != s[0]
  {
    if x in s[1..] {
      var j :| 0 <= j < |s[1..]| && s[1..][j] == x;
      assert x == s[j + 1];
      PathLessTotal(s[0].path, x.path);
    }
    if x in s && x != s[0] {
      var j :| 0 <= j < |s| && s[j] == x;
      assert s[1..][j - 1] == x;
    }
  }

  // ---------- the level loop and the tree it stands for ----------

  function LeafInput(l: FileLeaf): string {
    l.path + l.hash.bytes
  }

  function Hashes(H: HashFn, leaves: seq<FileLeaf>): (r: seq<Digest>)
    ensures |r| == |leaves|
  {
    seq<Digest>(|leaves|, i requires 0 <= i < |leaves| => H(LeafInput(leaves[i])))
  }

  function Right(n: nat, i: nat): nat {
    if 2 * i + 1 < n then 2 * i + 1 else 2 * i
  }

  // What is hashed for the node over `l` and `r`.
  function Join(l: Digest, r: Digest): string {
    l.bytes + r.bytes
  }

  function PairInput(level: seq<Digest>, i: nat): string
    requires 2 * i < |level|
  {
    Join(level[2 * i], level[Right(|level|, i)])
  }

  function Parents(H: HashFn, level: seq<Digest>): (r: seq<Digest>)
    ensures |r| == (|level| + 1) / 2
  {
    seq<Digest>((|level| + 1) / 2, i requires 0 <= i < (|level| + 1) / 2 => H(PairInput(level, i)))
  }

  // The node left when the levels have been halved down to one.
  function LevelRoot(H: HashFn, level: seq<Digest>): Digest
    requires level != []
    decreases |level|
  {
    if |level| == 1 then level[0] else LevelRoot(H, Parents(H, level))
  }

  // Every string the level loop hashes.
  ghost function LevelInputs(H: HashFn, level: seq<Digest>): set<string>
    decreases |level|
  {
    if |level| <= 1 then {} else
      PairInputs(level) + LevelInputs(H, Parents(H, level))
  }

  ghost function PairInputs(level: seq<Digest>): set<string> {
    set i | 0 <= i < (|level| + 1) / 2 :: PairInput(level, i)
  }

  function Rounds(n: nat): nat {
    if n <= 1 then 0 else 1 + Rounds((n + 1) / 2)
  }

  lemma {:induction false} RoundsIsCeilLog2(n: nat)
    requires n > 0
    ensures n <= Pow2(Rounds(n))
    ensures Rounds(n) > 0 ==> Pow2(Rounds(n) - 1) < n
  {
    if n > 1 {
      RoundsIsCeilLog2((n + 1) / 2);
    }
  }

  // The places under the left and the right child of a node of height `h`: the first half goes
  // left and the rest right; where nothing is left for the right side, the left node stands on
  // both sides.
  function LeftPart(h: nat, level: seq<Digest>): (r: seq<Digest>)
    requires 0 < |level| <= Pow2(h) && h > 0
    ensures 0 < |r| <= Pow2(h - 1)
  {
    if |level| <= Pow2(h - 1) then level else level[..Pow2(h - 1)]
  }

  function RightPart(h: nat, level: seq<Digest>): (r: seq<Digest>)
    requires 0 < |level| <= Pow2(h) && h > 0
    ensures 0 < |r| <= Pow2(h - 1)
  {
    if |level| <= Pow2(h - 1) then level else level[Pow2(h - 1)..]
  }

  // The tree of height `h`, from the root down.
  function Tree(H: HashFn, h: nat, level: seq<Digest>): Digest
    requires 0 < |level| <= Pow2(h)
    decreases h, 1
  {
    if h == 0 then level[0] else H(RootInput(H, h, level))
  }

  function RootInput(H: HashFn, h: nat, level: seq<Digest>): string
    requires 0 < |level| <= Pow2(h) && h > 0
    decreases h, 0
  {
    Join(Tree(H, h - 1, LeftPart(h, level)), Tree(H, h - 1, RightPart(h, level)))
  }

  lemma PairInputsAt(level: seq<Digest>, k: nat, i: nat)
    requires 2 * k <= 2 * i < |level|
    ensures PairInput(level[2 * k..], i - k) == PairInput(level, i)
  {
  }

  lemma ParentsOfParts(H: HashFn, h: nat, level: seq<Digest>)
    requires 0 < |level| <= Pow2(h + 1) && h > 0
    ensures Parents(H, LeftPart(h + 1, level)) == LeftPart(h, Parents(H, level))
    ensures Parents(H, RightPart(h + 1, level)) == RightPart(h, Parents(H, level))
  {
    if |level| > Pow2(h) {
      var k, ps := Pow2(h - 1), Parents(H, level);
      assert Pow2(h) == 2 * k;
      forall i | 0 <= i < k
        ensures Parents(H, level[..2 * k])[i] == ps[i]
      {
        assert PairInput(level[..2 * k], i) == PairInput(level, i);
      }
      assert Parents(H, level[..2 * k]) == ps[..k];
      forall i | 0 <= i < (|level| + 1) / 2 - k
        ensures Parents(H, level[2 * k..])[i] == ps[k + i]
      {
        PairInputsAt(level, k, k + i);
      }
      assert Parents(H, level[2 * k..]) == ps[k..];
    }
  }

  lemma SmallestTree(H: HashFn, level: seq<Digest>)
    requires 0 < |level| <= 2
    ensures RootInput(H, 1, level) == PairInput(level, 0)
    ensures Tree(H, 1, level) == H(PairInput(level, 0)) == Tree(H, 0, Parents(H, level))
  {
    var l, r := LeftPart(1, level), RightPart(1, level);
    assert Pow2(0) == 1;
    assert |l| == 1 && l[0] == level[0];
    assert |r| == 1 && r[0] == level[Right(|level|, 0)];
    assert RootInput(H, 1, level) == Join(Tree(H, 0, l), Tree(H, 0, r));
  }

  lemma StoreyStep(H: HashFn, h: nat, level: seq<Digest>)
    requires h > 0 && 0 < |level| <= Pow2(h + 1)
    requires Tree(H, h, LeftPart(h + 1, level)) == Tree(H, h - 1, Parents(H, LeftPart(h + 1, level)))
    requires Tree(H, h, RightPart(h + 1, level)) == Tree(H, h - 1, Parents(H, RightPart(h + 1, level)))
    ensures RootInput(H, h + 1, level) == RootInput(H, h, Parents(H, level))
    ensures Tree(H, h + 1, level) == Tree(H, h, Parents(H, level))
  {
    ParentsOfParts(H, h, level);
  }

  // One round of the loop takes the lowest storey off the tree.
  lemma {:induction false} TreeLosesStorey(H: HashFn, h: nat, level: seq<Digest>)
    requires 0 < |level| <= Pow2(h + 1)
    ensures Tree(H, h + 1, level) == Tree(H, h, Parents(H, level))
  {
    if h == 0 {
      SmallestTree(H, level);
    } else {
      TreeLosesStorey(H, h - 1, LeftPart(h + 1, level));
      TreeLosesStorey(H, h - 1, RightPart(h + 1, level));
      StoreyStep(H, h, level);
    }
  }

  // The halving loop computes the root of the tree of height ceil(log2 n).
  lemma {:induction false} LevelRootIsTree(H: HashFn, level: seq<Digest>)
    requires level != []
    ensures |level| <= Pow2(Rounds(|level|))
    ensures LevelRoot(H, level) == Tree(H, Rounds(|level|), level)
    decreases |level|
  {
    var h := Rounds(|level|);
    RoundsIsCeilLog2(|level|);
    if h > 0 {
      LevelRootIsTree(H, Parents(H, level));
      LevelStep(H, h - 1, level);
    }
  }

  lemma LevelStep(H: HashFn, h: nat, level: seq<Digest>)
    requires 1 < |level| <= Pow2(h + 1) && |Parents(H, level)| <= Pow2(h)
    requires LevelRoot(H, Parents(H, level)) == Tree(H, h, Parents(H, level))
    ensures LevelRoot(H, level) == Tree(H, h + 1, level)
  {
    TreeLosesStorey(H, h, level);
  }

  // ---------- what equal roots mean ----------

  // The tree itself, of which the loop keeps only the hashes of one level.
  datatype Node = Leaf(file: FileLeaf) | Inner(left: Node, right: Node)

  function NodeHash(H: HashFn, t: Node): Digest
    decreases t, 1
  {
    H(NodeInput(H, t))
  }

  function NodeInput(H: HashFn, t: Node): string
    decreases t, 0
  {
    match t
    case Leaf(f) => LeafInput(f)
    case Inner(l, r) => Join(NodeHash(H, l), NodeHash(H, r))
  }

  ghost function FilesOf(t: Node): set<FileLeaf> {
    match t
    case Leaf(f) => {f}
    case Inner(l, r) => FilesOf(l) + FilesOf(r)
  }

  // Every leaf input of `t` is in `ls` and every inner-node input in `ns`.
  ghost predicate HashedIn(H: HashFn, t: Node, ls: set<string>, ns: set<string>) {
    match t
    case Leaf(f) => LeafInput(f) in ls
    case Inner(l, r) => NodeInput(H, t) in ns && HashedIn(H, l, ls, ns) && HashedIn(H, r, ls, ns)
  }

  lemma LeafInputInjective(l: FileLeaf, m: FileLeaf)
    requires LeafInput(l) == LeafInput(m)
    ensures l == m
  {
    assert l.path == LeafInput(l)[..|LeafInput(l)| - 32] == m.path;
    assert l.hash.bytes == LeafInput(l)[|LeafInput(l)| - 32..] == m.hash.bytes;
  }

  lemma JoinInjective(l: Digest, r: Digest, l': Digest, r': Digest)
    requires Join(l, r) == Join(l', r')
    ensures l == l' && r == r'
  {
    assert l.bytes == Join(l, r)[..32] == l'.bytes;
    assert r.bytes == Join(l, r)[32..] == r'.bytes;
  }

  // Equal hashes come from equal trees, whatever their heights, unless the strings hashed collide
  // or a leaf is taken for an inner node.
  lemma {:induction false} NodeBinding(H: HashFn, t: Node, u: Node, ls: set<string>, ns: set<string>)
    requires HashedIn(H, t, ls, ns) && HashedIn(H, u, ls, ns) && NodeHash(H, t) == NodeHash(H, u)
    ensures t == u || Collision(H, ls + ns) || ls * ns != {}
  {
    var x, y := NodeInput(H, t), NodeInput(H, u);
    assert x in ls + ns && y in ls + ns;
    if x == y {
      if t.Leaf? && u.Leaf? {
        LeafInputInjective(t.file, u.file);
      } else if t.Inner? && u.Inner? {
        JoinInjective(NodeHash(H, t.left), NodeHash(H, t.right), NodeHash(H, u.left), NodeHash(H, u.right));
        NodeBinding(H, t.left, u.left, ls, ns);
        NodeBinding(H, t.right, u.right, ls, ns);
      } else {
        assert x in ls * ns;
      }
    }
  }

  function Forest(leaves: seq<FileLeaf>): (f: seq<Node>)
    ensures |f| == |leaves|
  {
    seq(|leaves|, i requires 0 <= i < |leaves| => Leaf(leaves[i]))
  }

  function NodeHashes(H: HashFn, forest: seq<Node>): (r: seq<Digest>)
    ensures |r| == |forest|
  {
    seq<Digest>(|forest|, i requires 0 <= i < |forest| => NodeHash(H, forest[i]))
  }

  function PairUp(forest: seq<Node>): (r: seq<Node>)
    ensures |r| == (|forest| + 1) / 2
  {
    seq((|forest| + 1) / 2, i requires 0 <= i < (|forest| + 1) / 2 =>
      Inner(forest[2 * i], forest[Right(|forest|, i)]))
  }

  ghost predicate ForestHashedIn(H: HashFn, forest: seq<Node>, ls: set<string>, ns: set<string>) {
    forall i :: 0 <= i < |forest| ==> HashedIn(H, forest[i], ls, ns)
  }

  ghost predicate ForestHolds(forest: seq<Node>, files: set<FileLeaf>) {
    && (forall i :: 0 <= i < |forest| ==> FilesOf(forest[i]) <= files)
    && (forall f :: f in files ==> exists i :: 0 <= i < |forest| && f in FilesOf(forest[i]))
  }

  lemma PairUpHashes(H: HashFn, forest: seq<Node>)
    ensures NodeHashes(H, PairUp(forest)) == Parents(H, NodeHashes(H, forest))
  {
    var ds := NodeHashes(H, forest);
    forall i | 0 <= i < (|forest| + 1) / 2
      ensures NodeHash(H, PairUp(forest)[i]) == Parents(H, ds)[i]
    {
      var l, r := forest[2 * i], forest[Right(|forest|, i)];
      assert NodeInput(H, Inner(l, r)) == Join(NodeHash(H, l), NodeHash(H, r)) == PairInput(ds, i);
    }
  }

  lemma PairUpHashedIn(H: HashFn, forest: seq<Node>, ls: set<string>, ns: set<string>)
    requires ForestHashedIn(H, forest, ls, ns) && PairInputs(NodeHashes(H, forest)) <= ns
    ensures ForestHashedIn(H, PairUp(forest), ls, ns)
  {
    var ds := NodeHashes(H, forest);
    forall i | 0 <= i < (|forest| + 1) / 2 ensures HashedIn(H, PairUp(forest)[i], ls, ns) {
      assert Right(|forest|, i) < |forest|;
      assert NodeInput(H, PairUp(forest)[i]) == PairInput(ds, i);
      assert PairInput(ds, i) in PairInputs(ds);
    }
  }

  lemma PairUpHolds(forest: seq<Node>, files: set<FileLeaf>)
    requires ForestHolds(forest, files)
    ensures ForestHolds(PairUp(forest), files)
  {
    var up := PairUp(forest);
    forall f | f in files ensures exists i :: 0 <= i < |up| && f in FilesOf(up[i]) {
      var j :| 0 <= j < |forest| && f in FilesOf(forest[j]);
      assert j == 2 * (j / 2) || j == Right(|forest|, j / 2);
      assert f in FilesOf(up[j / 2]);
    }
  }

  // The tree whose root the level loop ends with.
  lemma {:induction false} Grow(H: HashFn, forest: seq<Node>, files: set<FileLeaf>,
                                ls: set<string>, ns: set<string>) returns (t: Node)
    requires forest != [] && ForestHolds(forest, files)
    requires ForestHashedIn(H, forest, ls, ns) && LevelInputs(H, NodeHashes(H, forest)) <= ns
    ensures NodeHash(H, t) == LevelRoot(H, NodeHashes(H, forest))
    ensures FilesOf(t) == files && HashedIn(H, t, ls, ns)
    decreases |forest|
  {
    if |forest| == 1 {
      t := forest[0];
    } else {
      PairUpHashes(H, forest);
      PairUpHashedIn(H, forest, ls, ns);
      PairUpHolds(forest, files);
      t := Grow(H, PairUp(forest), files, ls, ns);
    }
  }

  // ---------- the root of a directory ----------

  function MerkleRoot(H: HashFn, leaves: seq<FileLeaf>): Digest {
    if leaves == [] then ZERO_ROOT else LevelRoot(H, Hashes(H, Sorted(leaves)))
  }

  ghost function LeafInputs(leaves: seq<FileLeaf>): set<string> {
    set l | l in leaves :: LeafInput(l)
  }

  ghost function NodeInputs(H: HashFn, leaves: seq<FileLeaf>): set<string> {
    LevelInputs(H, Hashes(H, Sorted(leaves)))
  }

  // Every string hashed for the root of `leaves`.
  ghost function Hashed(H: HashFn, leaves: seq<FileLeaf>): set<string> {
    LeafInputs(leaves) + NodeInputs(H, leaves)
  }

  ghost function Files(leaves: seq<FileLeaf>): set<FileLeaf> {
    set l | l in leaves
  }

  // The root does not depend on the order in which the files were found.
  lemma OrderIndependent(H: HashFn, a: seq<FileLeaf>, b: seq<FileLeaf>)
    requires Distinct(a) && Distinct(b) && Files(a) == Files(b)
    ensures Sorted(a) == Sorted(b) && MerkleRoot(H, a) == MerkleRoot(H, b)
  {
    SortedAscending(a);
    SortedAscending(b);
    SameElements(Sorted(a), a);
    SameElements(Sorted(b), b);
    forall x ensures x in Sorted(a) <==> x in Sorted(b) {
      assert x in a <==> x in Files(a);
      assert x in b <==> x in Files(b);
    }
    AscendingUnique(Sorted(a), Sorted(b));
  }

  // It is the root of the tree of height ceil(log2 n) over the sorted leaves.
  lemma RootIsTree(H: HashFn, leaves: seq<FileLeaf>)
    requires leaves != []
    ensures |leaves| <= Pow2(Rounds(|leaves|))
    ensures Rounds(|leaves|) > 0 ==> Pow2(Rounds(|leaves|) - 1) < |leaves|
    ensures MerkleRoot(H, leaves) == Tree(H, Rounds(|leaves|), Hashes(H, Sorted(leaves)))
  {
    RoundsIsCeilLog2(|leaves|);
    LevelRootIsTree(H, Hashes(H, Sorted(leaves)));
  }

  lemma TreeOf(H: HashFn, leaves: seq<FileLeaf>, ls: set<string>, ns: set<string>) returns (t: Node)
    requires leaves != [] && LeafInputs(leaves) <= ls && NodeInputs(H, leaves) <= ns
    ensures NodeHash(H, t) == MerkleRoot(H, leaves) && FilesOf(t) == Files(leaves) && HashedIn(H, t, ls, ns)
  {
    var s := Sorted(leaves);
    var forest := Forest(s);
    SameElements(s, leaves);
    forall i | 0 <= i < |s| ensures NodeHashes(H, forest)[i] == Hashes(H, s)[i] {
      assert NodeInput(H, Leaf(s[i])) == LeafInput(s[i]);
    }
    assert NodeHashes(H, forest) == Hashes(H, s);
    forall i | 0 <= i < |s| ensures LeafInput(s[i]) in ls {
      assert s[i] in leaves;
      assert LeafInput(s[i]) in LeafInputs(leaves);
    }
    forall f | f in Files(leaves) ensures exists i :: 0 <= i < |forest| && f in FilesOf(forest[i]) {
      assert f in s;
      var i :| 0 <= i < |s| && s[i] == f;
      assert f in FilesOf(forest[i]);
    }
    t := Grow(H, forest, Files(leaves), ls, ns);
  }

  // A path of 32 bytes makes a leaf input as long as an inner-node input.
  ghost predicate NodeSizedPath(leaves: seq<FileLeaf>) {
    exists l :: l in leaves && |l.path| == 32
  }

  // Some string hashed for one of the two roots shows a weakness of the hash: two of them
  // collide, or one of them hashes to the root of the empty directory.
  ghost predicate HashBroken(H: HashFn, a: seq<FileLeaf>, b: seq<FileLeaf>) {
    || Collision(H, Hashed(H, a) + Hashed(H, b))
    || exists x :: x in Hashed(H, a) + Hashed(H, b) && H(x) == ZERO_ROOT
  }

  lemma {:induction false} LevelInputLengths(H: HashFn, level: seq<Digest>)
    ensures forall x :: x in LevelInputs(H, level) ==> |x| == 64
    decreases |level|
  {
    if |level| > 1 {
      LevelInputLengths(H, Parents(H, level));
    }
  }

  lemma LeavesAreNotNodes(H: HashFn, a: seq<FileLeaf>, b: seq<FileLeaf>)
    requires !NodeSizedPath(a)
    ensures LeafInputs(a) * NodeInputs(H, b) == {}
  {
    LevelInputLengths(H, Hashes(H, Sorted(b)));
    forall l | l in a ensures |LeafInput(l)| != 64 {
    }
  }

  lemma RootIsHashed(H: HashFn, leaves: seq<FileLeaf>)
    requires leaves != []
    ensures exists x :: x in Hashed(H, leaves) && H(x) == MerkleRoot(H, leaves)
  {
    var t := TreeOf(H, leaves, LeafInputs(leaves), NodeInputs(H, leaves));
    assert NodeInput(H, t) in Hashed(H, leaves);
  }

  // With no condition on the paths: the hash collides, or a leaf input is an inner-node input.
  lemma NonEmptyBinding(H: HashFn, a: seq<FileLeaf>, b: seq<FileLeaf>, ls: set<string>, ns: set<string>)
    requires a != [] && b != [] && MerkleRoot(H, a) == MerkleRoot(H, b)
    requires ls == LeafInputs(a) + LeafInputs(b) && ns == NodeInputs(H, a) + NodeInputs(H, b)
    ensures Files(a) == Files(b) || Collision(H, Hashed(H, a) + Hashed(H, b)) || ls * ns != {}
  {
    var t := TreeOf(H, a, ls, ns);
    var u := TreeOf(H, b, ls, ns);
    NodeBinding(H, t, u, ls, ns);
    assert ls + ns == Hashed(H, a) + Hashed(H, b);
  }

  // Changed, added or removed files change the root: equal roots mean equal sets of paths and
  // file hashes, for directories of any two sizes.
  lemma RootBinding(H: HashFn, a: seq<FileLeaf>, b: seq<FileLeaf>)
    requires MerkleRoot(H, a) == MerkleRoot(H, b)
    requires !NodeSizedPath(a) && !NodeSizedPath(b)
    ensures Files(a) == Files(b) || HashBroken(H, a, b)
  {
    if a == [] && b == [] {
    } else if a == [] {
      RootIsHashed(H, b);
    } else if b == [] {
      RootIsHashed(H, a);
    } else {
      NonEmptyBinding(H, a, b, LeafInputs(a) + LeafInputs(b), NodeInputs(H, a) + NodeInputs(H, b));
      LeavesAreNotNodes(H, a, a);
      LeavesAreNotNodes(H, a, b);
      LeavesAreNotNodes(H, b, a);
      LeavesAreNotNodes(H, b, b);
    }
  }

  // A file that can lie directly in a directory: its path is a file name, its hash that of some content.
  ghost predicate RealFile(H: HashFn, l: FileLeaf) {
    '\0' !in l.path && '/' !in l.path && exists content :: H(content) == l.hash
  }

  // Without that condition the root does not bind: over every hash, every directory of two or more
  // files has the root of a directory of one file, whose path is the 32 bytes of a hash met on the
  // way, and nothing new is hashed.  The one file is real if those bytes make a file name; its
  // content is then a string that was hashed.
  lemma NodeSizedPathSplices(H: HashFn, a: seq<FileLeaf>) returns (spliced: FileLeaf)
    requires |a| >= 2 && Distinct(a)
    ensures MerkleRoot(H, [spliced]) == MerkleRoot(H, a) && Files([spliced]) != Files(a)
    ensures NodeSizedPath([spliced]) && Hashed(H, [spliced]) <= Hashed(H, a)
    ensures HashOf(H, Hashed(H, a), spliced.hash)
    ensures RealFile(H, spliced) <==> '\0' !in spliced.path && '/' !in spliced.path
  {
    var level := Hashes(H, Sorted(a));
    LeavesAreHashed(H, a, level);
    var l, r := RootPair(H, level, Hashed(H, a));
    spliced := FileLeaf(l.bytes, r);
    assert spliced in [spliced];
    SplicedRoot(H, spliced);
    OneFileIsNotAll(a, spliced);
  }

  // `d` is the hash of one of these strings.
  ghost predicate HashOf(H: HashFn, hashed: set<string>, d: Digest) {
    exists x :: x in hashed && H(x) == d
  }

  lemma LeavesAreHashed(H: HashFn, a: seq<FileLeaf>, level: seq<Digest>)
    requires level == Hashes(H, Sorted(a))
    ensures forall i :: 0 <= i < |level| ==> HashOf(H, Hashed(H, a), level[i])
  {
    var s := Sorted(a);
    SameElements(s, a);
    forall i | 0 <= i < |level| ensures HashOf(H, Hashed(H, a), level[i]) {
      assert s[i] in a;
      assert LeafInput(s[i]) in Hashed(H, a) && H(LeafInput(s[i])) == level[i];
    }
  }

  // The root over two or more nodes is the hash of a pair; the right one is a hash itself.
  lemma {:induction false} RootPair(H: HashFn, level: seq<Digest>, hashed: set<string>) returns (l: Digest, r: Digest)
    requires |level| >= 2 && LevelInputs(H, level) <= hashed
    requires forall i :: 0 <= i < |level| ==> HashOf(H, hashed, level[i])
    ensures LevelRoot(H, level) == H(Join(l, r)) && Join(l, r) in hashed && HashOf(H, hashed, r)
    decreases |level|
  {
    var ps := Parents(H, level);
    forall i | 0 <= i < |ps| ensures HashOf(H, hashed, ps[i]) {
      assert PairInput(level, i) in PairInputs(level);
    }
    if |ps| == 1 {
      l, r := level[0], level[Right(|level|, 0)];
      assert PairInput(level, 0) in PairInputs(level);
    } else {
      l, r := RootPair(H, ps, hashed);
    }
  }

  lemma SplicedRoot(H: HashFn, f: FileLeaf)
    ensures MerkleRoot(H, [f]) == H(LeafInput(f)) && Hashed(H, [f]) == {LeafInput(f)}
  {
    assert Sorted([f]) == [f];
    assert Hashes(H, [f]) == [H(LeafInput(f))];
    assert LeafInputs([f]) == {LeafInput(f)};
    assert NodeInputs(H, [f]) == {};
  }

  lemma OneFileIsNotAll(a: seq<FileLeaf>, f: FileLeaf)
    requires |a| >= 2 && Distinct(a)
    ensures Files([f]) != Files(a)
  {
    assert a[0] in Files(a) && a[1] in Files(a);
    assert forall x :: x in Files([f]) ==> x == f;
  }

  // ---------- small directories, written out ----------

  // The root of no file is 32 zero bytes, and of one file the hash of its path and its file hash.
  lemma {:induction false} SmallRoots(H: HashFn, f: FileLeaf)
    ensures |MerkleRoot(H, []).bytes| == 32 && forall i :: 0 <= i < 32 ==> MerkleRoot(H, []).bytes[i] == '\0'
    ensures MerkleRoot(H, [f]) == H(f.path + f.hash.bytes)
  {
    ZeroRootIsZero();
    SplicedRoot(H, f);
  }

  lemma ZeroRootIsZero()
    ensures forall i :: 0 <= i < |ZERO_BYTES| ==> ZERO_BYTES[i] == '\0'
  {
  }

  lemma {:induction false} SortedPair(f: FileLeaf, g: FileLeaf)
    requires PathLess(f.path, g.path)
    ensures Sorted([f, g]) == [f, g] && Sorted([g, f]) == [f, g]
  {
    PathLessTotal(f.path, g.path);
    assert [f, g][1..] == [g] && [g, f][1..] == [f];
    assert Sorted([g]) == Insert(g, []) == [g] && Sorted([f]) == Insert(f, []) == [f];
    assert Insert(g, [f]) == [f] + Insert(g, []);
  }

  // Of two files, found in either order, the one whose path comes first by bytes stands on the left.
  lemma {:induction false} PairRoot(H: HashFn, f: FileLeaf, g: FileLeaf)
    requires BytesBefore(f.path, g.path)
    ensures MerkleRoot(H, [f, g]) == MerkleRoot(H, [g, f])
         == H(H(f.path + f.hash.bytes).bytes + H(g.path + g.hash.bytes).bytes)
  {
    PathLessPointwise(f.path, g.path);
    SortedPair(f, g);
    assert Hashes(H, [f, g]) == [H(LeafInput(f)), H(LeafInput(g))];
    TwoNodes(H, Hashes(H, [f, g]));
  }

  lemma {:induction false} TwoNodes(H: HashFn, level: seq<Digest>)
    requires |level| == 2
    ensures LevelRoot(H, level) == H(level[0].bytes + level[1].bytes)
  {
    assert PairInput(level, 0) == Join(level[0], level[1]);
    assert Parents(H, level) == [H(PairInput(level, 0))];
  }

  // The root written out: over any list that holds the files in the order of their path bytes, the hashes
  // of path and file hash are the first level;
  lemma {:induction false} RootOverOrdered(H: HashFn, a: seq<FileLeaf>, ordered: seq<FileLeaf>,
                                           level: seq<Digest>)
    requires a != [] && Distinct(a) && multiset(ordered) == multiset(a)
    requires forall i, j :: 0 <= i < j < |ordered| ==> BytesBefore(ordered[i].path, ordered[j].path)
    requires |level| == |ordered|
    requires forall i :: 0 <= i < |level| ==> level[i] == H(ordered[i].path + ordered[i].hash.bytes)
    ensures MerkleRoot(H, a) == LevelRoot(H, level)
  {
    forall i, j | 0 <= i < j < |ordered| ensures PathLess(ordered[i].path, ordered[j].path) {
      PathLessPointwise(ordered[i].path, ordered[j].path);
    }
    SortedAscending(a);
    SameElements(Sorted(a), ordered);
    AscendingUnique(Sorted(a), ordered);
    LevelIs(H, ordered, level);
  }

  lemma {:induction false} LevelIs(H: HashFn, ordered: seq<FileLeaf>, level: seq<Digest>)
    requires |level| == |ordered|
    requires forall i :: 0 <= i < |level| ==> level[i] == H(ordered[i].path + ordered[i].hash.bytes)
    ensures Hashes(H, ordered) == level
  {
    forall i | 0 <= i < |level| ensures Hashes(H, ordered)[i] == level[i] {
      assert LeafInput(ordered[i]) == ordered[i].path + ordered[i].hash.bytes;
    }
  }

  // each level is followed by the hashes of its pairs, a last one without a partner taken twice;
  lemma {:induction false} RootOverPairs(H: HashFn, level: seq<Digest>, next: seq<Digest>)
    requires |level| >= 2 && |next| == (|level| + 1) / 2
    requires forall i :: 0 <= i < |next| ==>
      next[i] == H(level[2 * i].bytes + level[if 2 * i + 1 < |level| then 2 * i + 1 else 2 * i].bytes)
    ensures LevelRoot(H, level) == LevelRoot(H, next)
  {
    forall i | 0 <= i < |next| ensures next[i] == Parents(H, level)[i] {
      assert PairInput(level, i) == Join(level[2 * i], level[Right(|level|, i)]);
    }
    assert Parents(H, level) == next;
  }

  // and the level of one node is the root.
  lemma {:induction false} RootOfOne(H: HashFn, d: Digest)
    ensures LevelRoot(H, [d]) == d
  {
  }

  // The files the directory walk records, of those it meets.
  function Taken(found: seq<FileLeaf>): seq<FileLeaf> {
    if |found| <= MAX_FILES then found else found[..MAX_FILES]
  }

  // Past the limit nothing is bound: files met later change nothing.
  lemma FilesPastLimitUnbound(H: HashFn, found: seq<FileLeaf>, more: seq<FileLeaf>)
    ensures MerkleRoot(H, Taken(found + more)) == MerkleRoot(H, Taken(found))
       <==  |found| >= MAX_FILES
    ensures Taken(found) == found <==> |found| <= MAX_FILES
  {
    if |found| >= MAX_FILES {
      assert (found + more)[..MAX_FILES] == found[..MAX_FILES];
      assert Taken(found + more) == Taken(found);
    }
  }

  // ---------- building and checking a bundle ----------

  class PinForge {
    const H: HashFn
    const leaves: array<FileLeaf>
    var leafCount: nat

    ghost predicate Valid()
      reads this
    {
      leaves.Length == MAX_FILES && leafCount <= MAX_FILES
    }

    ghost function Indexed(): seq<FileLeaf>
      reads this, leaves
      requires Valid()
    {
      leaves[..leafCount]
    }

    constructor (H: HashFn)
      ensures Valid() && this.H == H && Indexed() == [] && fresh(leaves)
    {
      this.H := H;
      leaves := new FileLeaf[MAX_FILES](_ => FileLeaf("", ZERO_ROOT));
      leafCount := 0;
    }

    // The directory walk met `found`, in this order; what does not fit is passed over.
    method Walk(found: seq<FileLeaf>)
      requires Valid()
      modifies this, leaves
      ensures Valid() && Indexed() == Taken(found)
      ensures leafCount == (if |found| <= 8192 then |found| else 8192) && Indexed() == found[..leafCount]
    {
      leafCount := 0;
      for i := 0 to |found|
        invariant Valid()
        invariant leafCount == if i <= MAX_FILES then i else MAX_FILES
        invariant leaves[..leafCount] == found[..leafCount]
      {
        if leafCount < MAX_FILES {
          leaves[leafCount] := found[i];
          leafCount := leafCount + 1;
        }
      }
    }

    // `qsort(leaves, leaf_count, sizeof(FileLeaf), cmp_leaf)`.
    method SortLeaves()
      requires Valid()
      modifies leaves
      ensures Valid() && Indexed() == Sorted(old(Indexed()))
      ensures multiset(Indexed()) == multiset(old(Indexed()))
      ensures old(Distinct(Indexed())) ==>
        forall i, j :: 0 <= i < j < leafCount ==> BytesBefore(leaves[i].path, leaves[j].path)
    {
      var sorted := Sorted(leaves[..leafCount]);
      if Distinct(leaves[..leafCount]) {
        SortedAscending(leaves[..leafCount]);
        AscendingBytes(sorted);
      }
      forall i | 0 <= i < leafCount {
        leaves[i] := sorted[i];
      }
      assert leaves[..leafCount] == sorted;
    }

    method HashLeaves() returns (level: array<Digest>)
      requires Valid()
      ensures fresh(level) && level[..] == Hashes(H, Indexed())
      ensures level.Length == leafCount
      ensures forall i :: 0 <= i < leafCount ==> level[i] == H(leaves[i].path + leaves[i].hash.bytes)
    {
      level := new Digest[leafCount];
      for i := 0 to leafCount
        invariant forall k :: 0 <= k < i ==> level[k] == H(LeafInput(leaves[k]))
      {
        level[i] := H(LeafInput(leaves[i]));
      }
    }

    method HalveLevel(level: array<Digest>) returns (nextLevel: array<Digest>)
      ensures fresh(nextLevel) && nextLevel[..] == Parents(H, level[..])
      ensures nextLevel.Length == (level.Length + 1) / 2
      ensures forall i :: 0 <= i < nextLevel.Length ==>
        nextLevel[i] == H(level[2 * i].bytes + level[if 2 * i + 1 < level.Length then 2 * i + 1 else 2 * i].bytes)
    {
      var n := level.Length;
      nextLevel := new Digest[(n + 1) / 2];
      for i := 0 to nextLevel.Length
        invariant forall k :: 0 <= k < i ==> nextLevel[k] == H(PairInput(level[..], k))
      {
        var right := if i * 2 + 1 < n then i * 2 + 1 else i * 2;
        nextLevel[i] := H(Join(level[i * 2], level[right]));
      }
    }

    method ComputeMerkleRoot() returns (root: Digest, ghost rounds: nat)
      requires Valid()
      modifies leaves
      ensures Valid() && Indexed() == Sorted(old(Indexed()))
      ensures root == MerkleRoot(H, old(Indexed()))
      ensures leafCount == 0 ==> forall i :: 0 <= i < 32 ==> root.bytes[i] == '\0'
      ensures leafCount > 0 ==> leafCount <= Pow2(rounds) && (rounds > 0 ==> Pow2(rounds - 1) < leafCount)
    {
      rounds := 0;
      if leafCount == 0 {
        ZeroRootIsZero();
        return ZERO_ROOT, 0;
      }
      SortLeaves();
      var level := HashLeaves();
      root, rounds := Climb(level);
      RoundsIsCeilLog2(leafCount);
    }

    // The while loop: level after level until one node is left.
    method Climb(leafLevel: array<Digest>) returns (root: Digest, ghost rounds: nat)
      requires leafLevel.Length > 0
      ensures root == LevelRoot(H, leafLevel[..]) && rounds == Rounds(leafLevel.Length)
    {
      var level, n := leafLevel, leafLevel.Length;
      ghost var bottom := leafLevel[..];
      rounds := 0;
      while n > 1
        invariant n == level.Length >= 1
        invariant LevelRoot(H, level[..]) == LevelRoot(H, bottom)
        invariant rounds + Rounds(n) == Rounds(leafLevel.Length)
        decreases n
      {
        level := HalveLevel(level);
        n := level.Length;
        rounds := rounds + 1;
      }
      root := level[0];
    }
  }

  // What the verifier exits with, for a bundle holding `storedRoot`; `sigOk` says of which bytes
  // the bundle's signature is valid under the bundle's public key.
  function PinVerify(H: HashFn, sigOk: string -> bool, storedRoot: string, found: seq<FileLeaf>): nat
  {
    if storedRoot == Hex(MerkleRoot(H, Taken(found)).bytes) && sigOk(Unhex(storedRoot)) then 0 else 1
  }

  // A bundle forged from the files `a` is accepted over the files `b` only if they are the same
  // files, and always if they are and the signature is valid.
  lemma PinVerifyExact(H: HashFn, sigOk: string -> bool, a: seq<FileLeaf>, b: seq<FileLeaf>)
    requires Distinct(a) && Distinct(b) && !NodeSizedPath(a) && !NodeSizedPath(b)
    requires |a| <= MAX_FILES && |b| <= MAX_FILES
    requires !HashBroken(H, a, b)
    ensures PinVerify(H, sigOk, Hex(MerkleRoot(H, a).bytes), b) == 0
       <==> Files(a) == Files(b) && sigOk(MerkleRoot(H, a).bytes)
  {
    UnhexUndoesHex(MerkleRoot(H, a).bytes);
    if Files(a) == Files(b) {
      OrderIndependent(H, a, b);
    } else if Hex(MerkleRoot(H, a).bytes) == Hex(MerkleRoot(H, b).bytes) {
      HexInjective(MerkleRoot(H, a).bytes, MerkleRoot(H, b).bytes);
      RootBinding(H, a, b);
    }
  }
}
