/** `visitChildren`: a depth-first walk that hands the callback every object with no
    children whose `type` is exactly "Mesh", children taken in array order. An object
    with children is never handed to the callback, whatever its type; the walk only
    descends into it. */
module Traversal {
  import opened SceneGraph

  function Prefix(i: nat, ps: seq<Path>): (r: seq<Path>)
    ensures |r| == |ps|
    ensures forall j :: 0 <= j < |ps| ==> r[j] == [i] + ps[j]
  {
    seq(|ps|, j requires 0 <= j < |ps| => [i] + ps[j])
  }

  // ---------------------------------------------------------------------------
  // The walk, by the paths of the objects it hands to the callback

  /** The paths of the objects `visitChildren(n, fn)` passes to `fn`, in call order. */
  function Visit(n: Node): seq<Path>
    decreases n, |n.children| + 1
  {
    if |n.children| > 0 then VisitChildren(n, |n.children|)
    else if n.kind == MeshKind then [[]]
    else []
  }

  /** The calls made by the loop over the first `k` children of `n`. */
  function VisitChildren(n: Node, k: nat): seq<Path>
    requires k <= |n.children|
    decreases n, k
  {
    if k == 0 then [] else VisitChildren(n, k - 1) + Prefix(k - 1, Visit(n.children[k - 1]))
  }

  /** The callback is handed only leaf meshes: objects with no children whose type is "Mesh". */
  lemma {:induction false} VisitSound(n: Node)
    ensures forall p :: p in Visit(n) ==> ValidPath(n, p) && IsLeafMesh(At(n, p))
    decreases n, |n.children| + 1
  {
    if |n.children| > 0 {
      VisitChildrenSound(n, |n.children|);
    }
  }

  lemma {:induction false} VisitChildrenSound(n: Node, k: nat)
    requires k <= |n.children|
    ensures forall p :: p in VisitChildren(n, k) ==> ValidPath(n, p) && IsLeafMesh(At(n, p))
    decreases n, k
  {
    if k > 0 {
      VisitChildrenSound(n, k - 1);
      VisitSound(n.children[k - 1]);
      PrefixSound(n, k - 1, Visit(n.children[k - 1]));
    }
  }

  /** Leaf meshes of child `i` become leaf meshes of `n` once `i` is put in front. */
  lemma PrefixSound(n: Node, i: nat, ps: seq<Path>)
    requires i < |n.children|
    requires forall p :: p in ps ==> ValidPath(n.children[i], p) && IsLeafMesh(At(n.children[i], p))
    ensures forall p :: p in Prefix(i, ps) ==> ValidPath(n, p) && IsLeafMesh(At(n, p))
  {
    var r := Prefix(i, ps);
    forall j | 0 <= j < |r|
      ensures ValidPath(n, r[j]) && IsLeafMesh(At(n, r[j]))
    {
      assert ps[j] in ps;
      ChildStep(n, i, ps[j]);
    }
  }

  /** Every leaf mesh of the tree is handed to the callback. */
  lemma {:induction false} VisitComplete(n: Node, p: Path)
    requires ValidPath(n, p) && IsLeafMesh(At(n, p))
    ensures p in Visit(n)
    decreases p
  {
    if p != [] {
      var i, q := p[0], p[1..];
      assert p == [i] + q;
      VisitComplete(n.children[i], q);
      VisitChildrenContains(n, |n.children|, i, q);
    }
  }

  lemma {:induction false} VisitChildrenContains(n: Node, k: nat, i: nat, q: Path)
    requires i < k <= |n.children|
    requires q in Visit(n.children[i])
    ensures [i] + q in VisitChildren(n, k)
    decreases k
  {
    if i < k - 1 {
      VisitChildrenContains(n, k - 1, i, q);
    } else {
      var ps := Visit(n.children[i]);
      var j :| 0 <= j < |ps| && ps[j] == q;
      assert Prefix(i, ps)[j] == [i] + q;
    }
  }

  /** `p` comes strictly before `q` in a pre-order walk that takes children left to
      right: `p` is an ancestor of `q`, or at the first index where they differ `p`
      takes the earlier child. */
  predicate Precedes(p: Path, q: Path)
    decreases p
  {
    |q| > 0 && (p == [] || p[0] < q[0] || (p[0] == q[0] && Precedes(p[1..], q[1..])))
  }

  lemma {:induction false} PrecedesIrreflexive(p: Path)
    ensures !Precedes(p, p)
    decreases p
  {
    if p != [] {
      PrecedesIrreflexive(p[1..]);
    }
  }

  lemma PrecedesUnderChild(i: nat, p: Path, q: Path)
    ensures Precedes([i] + p, [i] + q) <==> Precedes(p, q)
  {
    assert ([i] + p)[1..] == p && ([i] + q)[1..] == q;
  }

  /** Each path of `s` comes strictly before every later one. */
  predicate InWalkOrder(s: seq<Path>)
  {
    forall i, j :: 0 <= i < j < |s| ==> Precedes(s[i], s[j])
  }

  /** Callbacks happen in depth-first order, children left to right. */
  lemma {:induction false} VisitOrdered(n: Node)
    ensures InWalkOrder(Visit(n))
    decreases n, |n.children| + 1
  {
    if |n.children| > 0 {
      VisitChildrenOrdered(n, |n.children|);
    }
  }

  lemma {:induction false} VisitChildrenOrdered(n: Node, k: nat)
    requires k <= |n.children|
    ensures InWalkOrder(VisitChildren(n, k))
    decreases n, k
  {
    if k > 0 {
      VisitChildrenOrdered(n, k - 1);
      VisitOrdered(n.children[k - 1]);
      VisitChildrenOrderedStep(n, k);
    }
  }

  lemma VisitChildrenOrderedStep(n: Node, k: nat)
    requires 0 < k <= |n.children|
    requires InWalkOrder(VisitChildren(n, k - 1)) && InWalkOrder(Visit(n.children[k - 1]))
    ensures InWalkOrder(VisitChildren(n, k))
  {
    VisitChildrenHeads(n, k - 1);
    OrderedStep(VisitChildren(n, k - 1), Visit(n.children[k - 1]), k - 1);
  }

  /** The walk of the earlier children, then the walk of child `c`. */
  lemma OrderedStep(a: seq<Path>, ps: seq<Path>, c: nat)
    requires InWalkOrder(a) && InWalkOrder(ps)
    requires forall p :: p in a ==> |p| > 0 && p[0] < c
    ensures InWalkOrder(a + Prefix(c, ps))
  {
    PrefixOrdered(c, ps);
    PrefixHeads(c, ps);
    OrderedConcat(a, Prefix(c, ps), c);
  }

  /** The loop over the first `k` children only reaches into those children. */
  lemma {:induction false} VisitChildrenHeads(n: Node, k: nat)
    requires k <= |n.children|
    ensures forall p :: p in VisitChildren(n, k) ==> |p| > 0 && p[0] < k
    decreases k
  {
    if k > 0 {
      VisitChildrenHeads(n, k - 1);
      HeadsStep(VisitChildren(n, k - 1), Visit(n.children[k - 1]), k - 1);
    }
  }

  lemma HeadsStep(a: seq<Path>, ps: seq<Path>, c: nat)
    requires forall p :: p in a ==> |p| > 0 && p[0] < c
    ensures forall p :: p in a + Prefix(c, ps) ==> |p| > 0 && p[0] < c + 1
  {
    PrefixHeads(c, ps);
  }

  lemma PrefixHeads(i: nat, ps: seq<Path>)
    ensures forall q :: q in Prefix(i, ps) ==> |q| > 0 && q[0] == i
  {
    forall q | q in Prefix(i, ps)
      ensures |q| > 0 && q[0] == i
    {
      var j :| 0 <= j < |ps| && Prefix(i, ps)[j] == q;
    }
  }

  lemma PrefixOrdered(i: nat, ps: seq<Path>)
    requires InWalkOrder(ps)
    ensures InWalkOrder(Prefix(i, ps))
  {
    forall j, l | 0 <= j < l < |ps|
      ensures Precedes(Prefix(i, ps)[j], Prefix(i, ps)[l])
    {
      PrecedesUnderChild(i, ps[j], ps[l]);
    }
  }

  /** The walk of the earlier children, then that of child `c`. */
  lemma OrderedConcat(a: seq<Path>, b: seq<Path>, c: nat)
    requires InWalkOrder(a) && InWalkOrder(b)
    requires forall p :: p in a ==> |p| > 0 && p[0] < c
    requires forall q :: q in b ==> |q| > 0 && q[0] == c
    ensures InWalkOrder(a + b)
  {
    var r := a + b;
    forall i, j | 0 <= i < j < |r|
      ensures Precedes(r[i], r[j])
    {
      if j < |a| {
        assert r[i] == a[i] && r[j] == a[j];
      } else if i < |a| {
        assert r[i] == a[i] && a[i] in a;
        assert r[j] == b[j - |a|] && b[j - |a|] in b;
      } else {
        assert r[i] == b[i - |a|] && r[j] == b[j - |a|];
      }
    }
  }

  /** No object is handed to the callback twice. */
  lemma VisitDistinct(n: Node)
    ensures forall i, j :: 0 <= i < j < |Visit(n)| ==> Visit(n)[i] != Visit(n)[j]
  {
    VisitOrdered(n);
    forall i, j | 0 <= i < j < |Visit(n)|
      ensures Visit(n)[i] != Visit(n)[j]
    {
      PrecedesIrreflexive(Visit(n)[i]);
    }
  }

  /** An object reaches the callback exactly once if it is a leaf mesh, and never otherwise. */
  lemma VisitExactlyOnce(n: Node, p: Path)
    ensures multiset(Visit(n))[p] == if ValidPath(n, p) && IsLeafMesh(At(n, p)) then 1 else 0
  {
    VisitSound(n);
    VisitDistinct(n);
    DistinctOccurrences(Visit(n), p);
    if ValidPath(n, p) && IsLeafMesh(At(n, p)) {
      VisitComplete(n, p);
    }
  }

  lemma {:induction false} DistinctOccurrences(s: seq<Path>, x: Path)
    requires forall i, j :: 0 <= i < j < |s| ==> s[i] != s[j]
    ensures multiset(s)[x] == if x in s then 1 else 0
  {
    if s != [] {
      var t := s[..|s| - 1];
      assert s == t + [s[|s| - 1]];
      DistinctOccurrences(t, x);
      assert s[|s| - 1] !in t;
    }
  }

  lemma {:induction false} DistinctCard(s: seq<Path>)
    requires forall i, j :: 0 <= i < j < |s| ==> s[i] != s[j]
    ensures |set x | x in s| == |s|
  {
    if s != [] {
      var t := s[..|s| - 1];
      assert s == t + [s[|s| - 1]];
      DistinctCard(t);
      assert s[|s| - 1] !in t;
      assert (set x | x in s) == (set x | x in t) + {s[|s| - 1]};
    }
  }

  /** The number of callbacks equals the number of leaf meshes in the tree. */
  lemma VisitCount(n: Node)
    ensures |Visit(n)| == |LeafMeshPaths(n)|
  {
    VisitSound(n);
    VisitDistinct(n);
    DistinctCard(Visit(n));
    forall p | p in LeafMeshPaths(n)
      ensures p in Visit(n)
    {
      VisitComplete(n, p);
    }
    forall p | p in Visit(n)
      ensures p in LeafMeshPaths(n)
    {
      PathsAreValid(n, p);
    }
    assert (set x | x in Visit(n)) == LeafMeshPaths(n);
  }

  /** A node with children is never handed to the callback, whatever its type; every
      leaf mesh below it is. */
  lemma InteriorSkipped(n: Node, p: Path)
    requires ValidPath(n, p) && |At(n, p).children| > 0
    ensures p !in Visit(n)
    ensures forall q :: ValidPath(At(n, p), q) && IsLeafMesh(At(At(n, p), q)) ==> p + q in Visit(n)
  {
    VisitSound(n);
    forall q | ValidPath(At(n, p), q) && IsLeafMesh(At(At(n, p), q))
      ensures p + q in Visit(n)
    {
      AtConcat(n, p, q);
      VisitComplete(n, p + q);
    }
  }

  // ---------------------------------------------------------------------------
  // The walk, by the objects it hands to the callback

  /** The objects `visitChildren(n, fn)` passes to `fn`, in call order. */
  function Visited(n: Node): seq<Node>
    decreases n, |n.children| + 1
  {
    if |n.children| > 0 then VisitedChildren(n, |n.children|)
    else if n.kind == MeshKind then [n]
    else []
  }

  /** The objects passed by the loop over the first `k` children of `n`. */
  function VisitedChildren(n: Node, k: nat): seq<Node>
    requires k <= |n.children|
    decreases n, k
  {
    if k == 0 then [] else VisitedChildren(n, k - 1) + Visited(n.children[k - 1])
  }

  /** `vs` lists the objects of `n` at the paths `ps`, one for one. */
  predicate Matches(n: Node, vs: seq<Node>, ps: seq<Path>)
  {
    |vs| == |ps| && forall i :: 0 <= i < |ps| ==> ValidPath(n, ps[i]) && vs[i] == At(n, ps[i])
  }

  lemma MatchesConcat(n: Node, va: seq<Node>, a: seq<Path>, vb: seq<Node>, b: seq<Path>)
    requires Matches(n, va, a) && Matches(n, vb, b)
    ensures Matches(n, va + vb, a + b)
  {
    forall i | 0 <= i < |a| + |b|
      ensures ValidPath(n, (a + b)[i]) && (va + vb)[i] == At(n, (a + b)[i])
    {
      if i < |a| {
        assert (va + vb)[i] == va[i] && (a + b)[i] == a[i];
      } else {
        assert (va + vb)[i] == vb[i - |a|] && (a + b)[i] == b[i - |a|];
      }
    }
  }

  /** The `i`-th object handed to the callback is the one at the `i`-th visited path. */
  lemma {:induction false} VisitedAt(n: Node)
    ensures Matches(n, Visited(n), Visit(n))
    decreases n, |n.children| + 1
  {
    if |n.children| > 0 {
      VisitedChildrenAt(n, |n.children|);
    }
  }

  lemma {:induction false} VisitedChildrenAt(n: Node, k: nat)
    requires k <= |n.children|
    ensures Matches(n, VisitedChildren(n, k), VisitChildren(n, k))
    decreases n, k
  {
    if k > 0 {
      VisitedChildrenAt(n, k - 1);
      VisitedUnderChild(n, k - 1);
      VisitedChildrenStep(n, k);
    }
  }

  lemma VisitedChildrenStep(n: Node, k: nat)
    requires 0 < k <= |n.children|
    requires Matches(n, VisitedChildren(n, k - 1), VisitChildren(n, k - 1))
    requires Matches(n, Visited(n.children[k - 1]), Prefix(k - 1, Visit(n.children[k - 1])))
    ensures Matches(n, VisitedChildren(n, k), VisitChildren(n, k))
  {
    var c := n.children[k - 1];
    MatchesConcat(n, VisitedChildren(n, k - 1), VisitChildren(n, k - 1), Visited(c), Prefix(k - 1, Visit(c)));
  }

  /** The callbacks made inside child `i`, seen from `n`. */
  lemma {:induction false} VisitedUnderChild(n: Node, i: nat)
    requires i < |n.children|
    ensures Matches(n, Visited(n.children[i]), Prefix(i, Visit(n.children[i])))
    decreases n, i
  {
    var c := n.children[i];
    var ps := Visit(c);
    VisitedAt(c);
    forall j | 0 <= j < |ps|
      ensures ValidPath(n, Prefix(i, ps)[j]) && Visited(c)[j] == At(n, Prefix(i, ps)[j])
    {
      ChildStep(n, i, ps[j]);
    }
  }

  /** Every object the callback receives is a leaf mesh. */
  lemma VisitedAreLeafMeshes(n: Node)
    ensures forall i :: 0 <= i < |Visited(n)| ==> IsLeafMesh(Visited(n)[i])
  {
    VisitedAt(n);
    VisitSound(n);
    forall i | 0 <= i < |Visited(n)|
      ensures IsLeafMesh(Visited(n)[i])
    {
      assert Visit(n)[i] in Visit(n);
    }
  }

  // ---------------------------------------------------------------------------
  // The walk with an arbitrary callback

  /** Applies a callback to each object of `vs` in turn, threading its state. */
  function Replay<S>(f: (S, Node) -> S, s: S, vs: seq<Node>): S
    decreases |vs|
  {
    if vs == [] then s else Replay(f, f(s, vs[0]), vs[1..])
  }

  lemma {:induction false} ReplayConcat<S>(f: (S, Node) -> S, s: S, a: seq<Node>, b: seq<Node>)
    ensures Replay(f, s, a + b) == Replay(f, Replay(f, s, a), b)
    decreases |a|
  {
    if a != [] {
      assert (a + b)[0] == a[0] && (a + b)[1..] == a[1..] + b;
      ReplayConcat(f, f(s, a[0]), a[1..], b);
    } else {
      assert a + b == b;
    }
  }

  /** `visitChildren(n, fn)` as it runs, with the callback `fn` as a step on the state it changes. */
  function Traverse<S>(n: Node, f: (S, Node) -> S, s: S): S
    decreases n, |n.children| + 1
  {
    if |n.children| > 0 then TraverseChildren(n, |n.children|, f, s)
    else if n.kind == MeshKind then f(s, n)
    else s
  }

  /** The `for (const child of object.children)` loop over the first `k` children. */
  function TraverseChildren<S>(n: Node, k: nat, f: (S, Node) -> S, s: S): S
    requires k <= |n.children|
    decreases n, k
  {
    if k == 0 then s else Traverse(n.children[k - 1], f, TraverseChildren(n, k - 1, f, s))
  }

  /** Whatever the callback does, the walk's effect is the callback applied to each
      object of `Visited(n)` in that order, and nothing more. */
  lemma {:induction false} TraverseReplaysVisited<S>(n: Node, f: (S, Node) -> S, s: S)
    ensures Traverse(n, f, s) == Replay(f, s, Visited(n))
    decreases n, |n.children| + 1
  {
    if |n.children| > 0 {
      TraverseChildrenReplays(n, |n.children|, f, s);
    }
  }

  lemma {:induction false} TraverseChildrenReplays<S>(n: Node, k: nat, f: (S, Node) -> S, s: S)
    requires k <= |n.children|
    ensures TraverseChildren(n, k, f, s) == Replay(f, s, VisitedChildren(n, k))
    decreases n, k
  {
    if k > 0 {
      var c := n.children[k - 1];
      var before := VisitedChildren(n, k - 1);
      var mid := Replay(f, s, before);
      calc {
        TraverseChildren(n, k, f, s);
        Traverse(c, f, TraverseChildren(n, k - 1, f, s));
        { TraverseChildrenReplays(n, k - 1, f, s); }
        Traverse(c, f, mid);
        { TraverseReplaysVisited(c, f, mid); }
        Replay(f, mid, Visited(c));
        { ReplayConcat(f, s, before, Visited(c)); }
        Replay(f, s, VisitedChildren(n, k));
      }
    }
  }

  /** The walk changes nothing itself: with a callback that changes nothing, the state is untouched. */
  lemma TraverseOnlyCallbackChanges<S>(n: Node, f: (S, Node) -> S, s: S)
    requires forall t, m :: f(t, m) == t
    ensures Traverse(n, f, s) == s
  {
    TraverseReplaysVisited(n, f, s);
    ReplayIdentity(f, s, Visited(n));
  }

  lemma {:induction false} ReplayIdentity<S>(f: (S, Node) -> S, s: S, vs: seq<Node>)
    requires forall t, m :: f(t, m) == t
    ensures Replay(f, s, vs) == s
    decreases |vs|
  {
    if vs != [] {
      ReplayIdentity(f, f(s, vs[0]), vs[1..]);
    }
  }
}
