/** The part of a three.js scene graph that the traversal looks at: each object
    has a `type` tag, may hold a material, and owns an ordered list of children. */
module SceneGraph {

  datatype Option<T> = None | Some(value: T)

  /** A material object. Meshes hold it by reference, so several meshes may share one. */
  class Material {
    var depthWrite: bool

    constructor (depthWrite: bool)
      ensures this.depthWrite == depthWrite
    {
      this.depthWrite := depthWrite;
    }
  }

  /** A scene-graph object: its `type` string, its material if it has one, its children in order. */
  datatype Node = Node(kind: string, material: Option<Material>, children: seq<Node>)

  /** The `type` string that the traversal compares against. */
  const MeshKind: string := "Mesh"

  /** A node inside a tree, named by the child indices leading to it from the root. */
  type Path = seq<nat>

  predicate ValidPath(n: Node, p: Path)
    decreases p
  {
    p == [] || (p[0] < |n.children| && ValidPath(n.children[p[0]], p[1..]))
  }

  function At(n: Node, p: Path): Node
    requires ValidPath(n, p)
    decreases p
  {
    if p == [] then n else At(n.children[p[0]], p[1..])
  }

  /** An object the callback is handed: no children and `type` exactly "Mesh". */
  predicate IsLeafMesh(n: Node)
  {
    |n.children| == 0 && n.kind == MeshKind
  }

  /** Every path of the tree, as a finite set. */
  ghost function Paths(n: Node): set<Path>
    decreases n
  {
    {[]} + set i: nat, q | i < |n.children| && q in Paths(n.children[i]) :: [i] + q
  }

  /** The paths of all leaf meshes of the tree. */
  ghost function LeafMeshPaths(n: Node): set<Path>
  {
    set p | p in Paths(n) && ValidPath(n, p) && IsLeafMesh(At(n, p))
  }

  /** Every material held by some node of the tree, interior nodes included. */
  ghost function MaterialsOf(n: Node): set<Material>
  {
    set p | p in Paths(n) && ValidPath(n, p) && At(n, p).material.Some? :: At(n, p).material.value
  }

  /** Stepping into child `i` first. */
  lemma ChildStep(n: Node, i: nat, q: Path)
    ensures ValidPath(n, [i] + q) <==> i < |n.children| && ValidPath(n.children[i], q)
    ensures ValidPath(n, [i] + q) ==> At(n, [i] + q) == At(n.children[i], q)
  {
    assert ([i] + q)[0] == i && ([i] + q)[1..] == q;
  }

  /** `Paths` enumerates exactly the valid paths. */
  lemma {:induction false} PathsAreValid(n: Node, p: Path)
    ensures p in Paths(n) <==> ValidPath(n, p)
    decreases p
  {
    if p != [] {
      var i, q := p[0], p[1..];
      assert p == [i] + q;
      ChildStep(n, i, q);
      if i < |n.children| {
        PathsAreValid(n.children[i], q);
      }
      if p in Paths(n) {
        var i': nat, q' :| i' < |n.children| && q' in Paths(n.children[i']) && p == [i'] + q';
        assert i' == i && q' == q;
      }
    }
  }

  /** Following `p` and then `q` is following `p + q`. */
  lemma {:induction false} AtConcat(n: Node, p: Path, q: Path)
    requires ValidPath(n, p)
    ensures ValidPath(n, p + q) <==> ValidPath(At(n, p), q)
    ensures ValidPath(n, p + q) ==> At(n, p + q) == At(At(n, p), q)
    decreases p
  {
    if p != [] {
      var c := n.children[p[0]];
      assert p + q == [p[0]] + (p[1..] + q);
      ChildStep(n, p[0], p[1..] + q);
      AtConcat(c, p[1..], q);
      assert At(n, p) == At(c, p[1..]);
    } else {
      assert p + q == q;
    }
  }
}
