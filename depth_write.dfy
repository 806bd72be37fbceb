/** The pass the GLTF demo runs over the loaded scene: every mesh handed to the
    callback that has a material gets that material's `depthWrite` set to true.
    Materials are shared objects, so the pass changes a material, not a node. */
module GltfDepthWrite {
  import opened SceneGraph
  import opened Traversal

  /** The callback, on a table of depthWrite flags indexed by material. */
  function SetDepthWrite(dw: map<Material, bool>, mesh: Node): map<Material, bool>
  {
    if mesh.material.Some? then dw[mesh.material.value := true] else dw
  }

  /** `visitChildren(scene, callback)` on the table of flags. */
  function Pass(n: Node, dw: map<Material, bool>): map<Material, bool>
  {
    Traverse(n, SetDepthWrite, dw)
  }

  /** The materials of the meshes in `vs`. */
  function MaterialsIn(vs: seq<Node>): set<Material>
    decreases |vs|
  {
    if vs == [] then {}
    else (if vs[0].material.Some? then {vs[0].material.value} else {}) + MaterialsIn(vs[1..])
  }

  /** The materials the pass sets: those of the meshes the callback is handed. */
  function Targets(n: Node): set<Material>
  {
    MaterialsIn(Visited(n))
  }

  /** The depthWrite flags of a set of materials, read from the heap. */
  ghost function Flags(ms: set<Material>): map<Material, bool>
    reads ms
  {
    map m | m in ms :: m.depthWrite
  }

  lemma {:induction false} MaterialsInAt(vs: seq<Node>, m: Material)
    ensures m in MaterialsIn(vs) <==> exists i :: 0 <= i < |vs| && vs[i].material == Some(m)
    decreases |vs|
  {
    if vs != [] {
      MaterialsInAt(vs[1..], m);
      if exists i :: 0 <= i < |vs| && vs[i].material == Some(m) {
        var i :| 0 <= i < |vs| && vs[i].material == Some(m);
        if i > 0 {
          assert vs[1..][i - 1] == vs[i];
        }
      }
      if exists i :: 0 <= i < |vs[1..]| && vs[1..][i].material == Some(m) {
        var i :| 0 <= i < |vs[1..]| && vs[1..][i].material == Some(m);
        assert vs[i + 1] == vs[1..][i];
      }
    }
  }

  lemma MaterialsInOne(v: Node)
    ensures MaterialsIn([v]) == if v.material.Some? then {v.material.value} else {}
  {
    assert [v][1..] == [];
  }

  lemma {:induction false} MaterialsInConcat(a: seq<Node>, b: seq<Node>)
    ensures MaterialsIn(a + b) == MaterialsIn(a) + MaterialsIn(b)
    decreases |a|
  {
    if a == [] {
      assert a + b == b;
    } else {
      assert (a + b)[0] == a[0] && (a + b)[1..] == a[1..] + b;
      MaterialsInConcat(a[1..], b);
    }
  }

  /** A material is a target exactly when some leaf mesh of the tree holds it. */
  lemma TargetsCharacterized(n: Node, m: Material)
    ensures m in Targets(n) <==>
            exists p :: ValidPath(n, p) && IsLeafMesh(At(n, p)) && At(n, p).material == Some(m)
  {
    if m in Targets(n) {
      var p := TargetHolder(n, m);
    }
    if exists p :: ValidPath(n, p) && IsLeafMesh(At(n, p)) && At(n, p).material == Some(m) {
      var p :| ValidPath(n, p) && IsLeafMesh(At(n, p)) && At(n, p).material == Some(m);
      LeafMaterialIsTarget(n, p);
    }
  }

  /** A leaf mesh of the tree that holds the target `m`. */
  lemma TargetHolder(n: Node, m: Material) returns (p: Path)
    requires m in Targets(n)
    ensures ValidPath(n, p) && IsLeafMesh(At(n, p)) && At(n, p).material == Some(m)
  {
    var ps, vs := Visit(n), Visited(n);
    MaterialsInAt(vs, m);
    var i :| 0 <= i < |vs| && vs[i].material == Some(m);
    VisitedAt(n);
    VisitSound(n);
    p := ps[i];
    assert p in ps && vs[i] == At(n, p);
  }

  /** The material of a leaf mesh of the tree is a target. */
  lemma LeafMaterialIsTarget(n: Node, p: Path)
    requires ValidPath(n, p) && IsLeafMesh(At(n, p)) && At(n, p).material.Some?
    ensures At(n, p).material.value in Targets(n)
  {
    var ps, vs := Visit(n), Visited(n);
    VisitComplete(n, p);
    var i :| 0 <= i < |ps| && ps[i] == p;
    VisitedAt(n);
    assert i < |vs| && vs[i] == At(n, p);
    MaterialsInAt(vs, At(n, p).material.value);
  }

  lemma {:induction false} AtAllocated(n: Node, p: Path)
    requires ValidPath(n, p)
    ensures allocated(At(n, p))
    decreases p
  {
    if p != [] {
      AtAllocated(n.children[p[0]], p[1..]);
    }
  }

  /** The targets are objects the tree already refers to. */
  lemma TargetsAllocated(n: Node)
    ensures forall m :: m in Targets(n) ==> allocated(m)
  {
    forall m | m in Targets(n) ensures allocated(m) {
      TargetsCharacterized(n, m);
      var p :| ValidPath(n, p) && IsLeafMesh(At(n, p)) && At(n, p).material == Some(m);
      AtAllocated(n, p);
    }
  }

  lemma TargetsInTree(n: Node)
    ensures Targets(n) <= MaterialsOf(n)
  {
    forall m | m in Targets(n) ensures m in MaterialsOf(n) {
      TargetsCharacterized(n, m);
      var p :| ValidPath(n, p) && IsLeafMesh(At(n, p)) && At(n, p).material == Some(m);
      PathsAreValid(n, p);
    }
  }

  lemma {:induction false} ReplayEffect(dw: map<Material, bool>, vs: seq<Node>)
    ensures Replay(SetDepthWrite, dw, vs).Keys == dw.Keys + MaterialsIn(vs)
    ensures forall m :: m in Replay(SetDepthWrite, dw, vs) ==>
              Replay(SetDepthWrite, dw, vs)[m] == if m in MaterialsIn(vs) then true else dw[m]
    decreases |vs|
  {
    if vs != [] {
      ReplayEffect(SetDepthWrite(dw, vs[0]), vs[1..]);
    }
  }

  /** After the pass every target's flag is true and every other flag is as before;
      no material is added or dropped beyond the targets. */
  lemma PassEffect(n: Node, dw: map<Material, bool>)
    ensures Pass(n, dw).Keys == dw.Keys + Targets(n)
    ensures forall m :: m in Pass(n, dw) ==> Pass(n, dw)[m] == if m in Targets(n) then true else dw[m]
  {
    TraverseReplaysVisited(n, SetDepthWrite, dw);
    ReplayEffect(dw, Visited(n));
  }

  /** After the pass the material of every leaf mesh of the tree has depthWrite true. */
  lemma PassSetsLeafMeshes(n: Node, dw: map<Material, bool>, p: Path)
    requires ValidPath(n, p) && IsLeafMesh(At(n, p)) && At(n, p).material.Some?
    ensures At(n, p).material.value in Pass(n, dw) && Pass(n, dw)[At(n, p).material.value]
  {
    LeafMaterialIsTarget(n, p);
    PassEffect(n, dw);
  }

  /** A material that no leaf mesh holds keeps its flag, whoever else holds it. */
  lemma PassKeepsOthers(n: Node, dw: map<Material, bool>, m: Material)
    requires m in dw
    requires forall p :: ValidPath(n, p) && IsLeafMesh(At(n, p)) ==> At(n, p).material != Some(m)
    ensures m in Pass(n, dw) && Pass(n, dw)[m] == dw[m]
  {
    if m in Targets(n) {
      var p := TargetHolder(n, m);
    }
    PassEffect(n, dw);
  }

  /** Running the pass a second time changes nothing. */
  lemma PassIdempotent(n: Node, dw: map<Material, bool>)
    ensures Pass(n, Pass(n, dw)) == Pass(n, dw)
  {
    PassEffect(n, dw);
    PassEffect(n, Pass(n, dw));
  }

  /** The targets of the loop over the first `k` children of `n`. */
  function ChildTargets(n: Node, k: nat): set<Material>
    requires k <= |n.children|
  {
    MaterialsIn(VisitedChildren(n, k))
  }

  lemma ChildTargetsNext(n: Node, k: nat)
    requires 0 < k <= |n.children|
    ensures ChildTargets(n, k) == ChildTargets(n, k - 1) + Targets(n.children[k - 1])
  {
    MaterialsInConcat(VisitedChildren(n, k - 1), Visited(n.children[k - 1]));
  }

  lemma {:induction false} ChildTargetsGrow(n: Node, i: nat, k: nat)
    requires i < k <= |n.children|
    ensures Targets(n.children[i]) <= ChildTargets(n, k) && ChildTargets(n, i) <= ChildTargets(n, k)
    decreases k
  {
    ChildTargetsNext(n, k);
    if i < k - 1 {
      ChildTargetsGrow(n, i, k - 1);
    }
  }

  /** What one turn of the loop over the children needs: child `i`'s targets are
      targets of `n`, they are what this turn adds, and all of them already exist. */
  lemma ChildTargetsStep(n: Node, i: nat)
    requires i < |n.children|
    ensures ChildTargets(n, i + 1) == ChildTargets(n, i) + Targets(n.children[i])
    ensures Targets(n.children[i]) <= Targets(n) && ChildTargets(n, i) <= Targets(n)
    ensures forall m :: m in Targets(n) ==> allocated(m)
  {
    ChildTargetsNext(n, i + 1);
    ChildTargetsGrow(n, i, |n.children|);
    TargetsAllocated(n);
  }

  /** The table of flags a pass leaves behind, stated pointwise, is `Pass`'s. */
  lemma PassPointwise(n: Node, before: map<Material, bool>, after: map<Material, bool>)
    requires before.Keys == after.Keys && Targets(n) <= before.Keys
    requires forall m :: m in after ==> after[m] == if m in Targets(n) then true else before[m]
    ensures after == Pass(n, before)
  {
    PassEffect(n, before);
  }

  /** The callback body run on the heap, in place: `if (child.material)
      child.material.depthWrite = true`. */
  method SetMaterialDepthWrite(mesh: Node)
    modifies if mesh.material.Some? then {mesh.material.value} else {}
    ensures mesh.material.Some? ==> mesh.material.value.depthWrite
  {
    if mesh.material.Some? {
      mesh.material.value.depthWrite := true;
    }
  }

  /** `visitChildren(object, callback)` with the depthWrite callback run in place: it
      writes only the targets' flags and leaves each of them true. */
  method VisitSetDepthWrite(n: Node)
    modifies Targets(n)
    decreases n
    ensures forall m :: m in Targets(n) ==> m.depthWrite
  {
    if |n.children| > 0 {
      for i := 0 to |n.children|
        invariant forall m :: m in ChildTargets(n, i) ==> m.depthWrite
      {
        ChildTargetsStep(n, i);
        label BeforeChild:
        VisitSetDepthWrite(n.children[i]);
        forall m | m in ChildTargets(n, i + 1)
          ensures m.depthWrite
        {
          if m !in Targets(n.children[i]) {
            assert m in ChildTargets(n, i) && old@BeforeChild(m.depthWrite);
          }
        }
      }
    } else if n.kind == MeshKind {
      assert Visited(n) == [n];
      MaterialsInOne(n);
      SetMaterialDepthWrite(n);
    }
  }

  /** The pass over the loaded scene: the flags of the tree's materials become exactly
      what `Pass` computes from their old values, and no other object changes. */
  method DepthWritePass(scene: Node)
    modifies Targets(scene)
    ensures Flags(MaterialsOf(scene)) == Pass(scene, old(Flags(MaterialsOf(scene))))
  {
    ghost var ms := MaterialsOf(scene);
    ghost var before := Flags(ms);
    VisitSetDepthWrite(scene);
    TargetsInTree(scene);
    forall m | m in ms
      ensures Flags(ms)[m] == if m in Targets(scene) then true else before[m]
    {
      if m !in Targets(scene) {
        assert m.depthWrite == old(m.depthWrite);
      }
    }
    PassPointwise(scene, before, Flags(ms));
  }
}
