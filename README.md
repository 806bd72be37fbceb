# visitChildren: the leaf-mesh walk over a three.js scene graph

This project models `visitChildren(object, fn)`, the scene-graph walker these three.js demos
share, and the one pass built on it: the GLTF page, which sets `depthWrite = true` on the
material of every mesh the walk reaches.

The walk is a depth-first traversal:
- An object with a non-empty `children` array is never handed to `fn`. The walk only recurses
  into its children, in array order.
- An object without children is handed to `fn` exactly when its `type` is the string "Mesh".

The function appears three times with identical text: `src/utils/index.ts`, `src/app/gltf/page.tsx`
and `src/app/demo2/page.tsx`. One Dafny definition models all three, and the table cites
whichever copy a property is about.

Files:
- `scene_graph.dfy` (module `SceneGraph`) defines the tree.
  - `Node` is an immutable value: its `type` string, an optional material, and its ordered
    children.
  - `Material` is a class with a mutable `depthWrite` field. Materials are shared by reference,
    as in three.js, so several meshes (or an interior object) may hold the same one.
  - A node inside a tree is named by its `Path`, the child indices from the root. `ValidPath`,
    `At`, `Paths`, `LeafMeshPaths` and `MaterialsOf` are defined on paths.
- `traversal.dfy` (module `Traversal`) defines the walk in three equivalent forms:
  - `Visit(n)` gives the paths handed to the callback, in call order.
  - `Visited(n)` gives the objects themselves.
  - `Traverse(n, f, s)` runs the walk with an arbitrary callback, written as a step `f` on the
    state `s` that the callback changes.

  Each form mirrors the source. A node with children runs the loop over its children (the
  `...Children(n, k)` functions cover the first `k` children); a childless node with type "Mesh"
  makes one call; any other node makes none.
- `depth_write.dfy` (module `GltfDepthWrite`) defines the depthWrite pass twice:
  - on values, as `Pass(n, dw)`: the walk folded over a table of flags indexed by material;
  - in place on the heap, as the recursive method `VisitSetDepthWrite`, which has the source's
    `for` loop over the children.

  `DepthWritePass` ties the two together: after it runs, the flags of the tree's materials are
  exactly what `Pass` computes from their old values.

The loaded scene is a parameter: loading the GLTF file is not modelled.

## Model

| member | source | states |
|---|---|---|
| Traversal.Visit | src/utils/index.ts:1-14 | `visitChildren(n, fn)` by the paths it hands to `fn`, in call order; what it calls is pinned down by VisitSound, VisitComplete, VisitOrdered, VisitExactlyOnce and VisitCount |
| Traversal.VisitChildren | src/utils/index.ts:6-8 | the `for (const child of object.children)` loop over the first `k` children, by path; VisitChildrenSound, VisitChildrenContains and VisitChildrenOrdered state what it reaches and in what order |
| Traversal.Visited | src/app/gltf/page.tsx:12-25 | the same walk by the objects handed to `fn`; VisitedAt ties its `i`-th object to the `i`-th path of `Visit`, and VisitedAreLeafMeshes says each is a childless "Mesh" |
| Traversal.VisitedChildren | src/app/gltf/page.tsx:17-19 | the loop over the first `k` children, by object; VisitedChildrenAt ties it to `VisitChildren` |
| Traversal.Traverse | src/app/demo2/page.tsx:12-25 | the walk as it runs, with the callback as a step on the state it changes; TraverseReplaysVisited says its effect is that step applied to each object of `Visited` in order, and TraverseOnlyCallbackChanges that the walk adds no effect of its own |
| Traversal.TraverseChildren | src/app/demo2/page.tsx:17-19 | the loop over the first `k` children with the callback; TraverseChildrenReplays says it is the step folded over `VisitedChildren` |
| Traversal.VisitSound | src/utils/index.ts:5-12 | every path handed to the callback is a node of the tree that has no children and whose type is exactly "Mesh" |
| Traversal.VisitComplete | src/utils/index.ts:5-13 | every childless node of type "Mesh" in the tree is handed to the callback |
| Traversal.VisitOrdered | src/utils/index.ts:6-8 | calls happen in pre-order: each path handed to the callback comes, in the depth-first left-to-right order `Precedes`, before every later one |
| Traversal.VisitDistinct | src/app/gltf/page.tsx:16-19 | no node is handed to the callback twice |
| Traversal.VisitExactlyOnce | src/app/demo2/page.tsx:16-24 | a node reaches the callback exactly once if it is a childless "Mesh", and zero times otherwise (an interior node, a non-Mesh leaf, a path outside the tree) |
| Traversal.VisitCount | src/utils/index.ts:5-13 | the number of callbacks equals the number of childless "Mesh" nodes in the tree; with VisitExactlyOnce at the root path, a lone leaf "Mesh" gives exactly one callback and a leaf of any other type none |
| Traversal.InteriorSkipped | src/app/demo2/page.tsx:16-19 | a node with children, even one of type "Mesh", is never handed to the callback, while every leaf mesh below it is |
| Traversal.VisitedAt | src/app/gltf/page.tsx:16-24 | the `i`-th object handed to the callback is the node of the tree at the `i`-th visited path |
| Traversal.VisitedAreLeafMeshes | src/app/gltf/page.tsx:20-23 | every object the callback receives has no children and type "Mesh" |
| Traversal.TraverseReplaysVisited | src/utils/index.ts:1-14 | whatever the callback does, the walk's effect is the callback applied once to each visited object in visit order, and nothing else |
| Traversal.TraverseOnlyCallbackChanges | src/utils/index.ts:1-14 | the walk itself changes nothing: with a callback that changes nothing, the state after the walk is the state before it |
| GltfDepthWrite.SetDepthWrite | src/app/gltf/page.tsx:35-38 | the callback on a table of flags indexed by material: a mesh with a material sets that material's flag to true, one without leaves the table as it is; ReplayEffect gives the table after any sequence of such calls |
| GltfDepthWrite.Pass | src/app/gltf/page.tsx:34-39 | `visitChildren(gltf.scene, callback)` on the table of flags; PassEffect, TargetsCharacterized, PassSetsLeafMeshes, PassKeepsOthers and PassIdempotent state what it leaves behind |
| GltfDepthWrite.ReplayEffect | src/app/gltf/page.tsx:35-38 | applying the callback to each object of a sequence sets exactly the materials of those objects to true and leaves every other entry of the table as it was |
| GltfDepthWrite.TargetsCharacterized | src/app/gltf/page.tsx:34-36 | the pass writes a material exactly when some childless "Mesh" node of the scene holds it |
| GltfDepthWrite.TargetsInTree | src/app/gltf/page.tsx:34-37 | every material the pass writes is held by a node of the scene |
| GltfDepthWrite.PassEffect | src/app/gltf/page.tsx:34-39 | after the pass each written material has depthWrite true; every other material keeps its flag; no material is dropped |
| GltfDepthWrite.PassSetsLeafMeshes | src/app/gltf/page.tsx:34-39 | after the pass the material of every childless "Mesh" node that has one has depthWrite true |
| GltfDepthWrite.PassKeepsOthers | src/app/gltf/page.tsx:35-38 | a material held by no childless "Mesh" node keeps its flag, even if interior nodes or non-Mesh leaves hold it |
| GltfDepthWrite.PassIdempotent | src/app/gltf/page.tsx:34-39 | running the pass a second time changes nothing |
| GltfDepthWrite.SetMaterialDepthWrite | src/app/gltf/page.tsx:35-38 | the callback body, in place: if the mesh has a material, that material's depthWrite becomes true, and no other object is written |
| GltfDepthWrite.VisitSetDepthWrite | src/app/gltf/page.tsx:12-25 | the walk of these lines run in place with the callback of lines 34-39 writes only the materials of the leaf meshes, and leaves each of them true |
| GltfDepthWrite.DepthWritePass | src/app/gltf/page.tsx:34-39 | after the in-place pass, the flags of the scene's materials are exactly `Pass` applied to their flags before it; no other object changes |

## Left out

- The `object.children &&` half of the guard: `children` is always a sequence here, as it is on
  every three.js `Object3D`. An object whose `children` is missing is not representable.
- A material array: three.js lets `mesh.material` be a `Material[]`. The cast in the GLTF
  callback treats it as one material, and the model holds at most one material per node.
- Callbacks that change the tree while it is walked: nodes are immutable values, so a callback
  that adds or removes children during the walk is not modelled.
- The tree shape has no lemma of its own. `Node` is an immutable value, and the in-place pass's
  `modifies` clause names only `Material` objects, so kinds, child counts and order cannot
  change.
- Exceptions thrown from the callback, stack overflow on very deep trees, and a cyclic
  `children` graph (which three.js's `add` does not prevent when built by hand, and on which
  the source recursion never ends): `Node` is a finite inductive value, the model's recursion
  is unbounded, and the callback is total.
- Type strings are compared exactly, as `===` does. Subclasses with their own `type` (such as
  "SkinnedMesh" or "InstancedMesh") are therefore not handed to the callback. This is modelled
  behaviour, not an omission.
- GLTF loading, `scale.setScalar`, the camera, renderer, lights, controls, GUI, Stats, the
  animation loop, resize handling and the React lifecycle of both pages are foreign library
  calls and host I/O. `src/app/demo2/page.tsx` never calls its copy of the walk.
- The other pages are not part of this model: the Rapier physics and domino spiral, the point
  grid, the light demos, and the `directionalLight` callback that only calls the shared walker.
  They are floating-point, physics-engine or rendering code.
