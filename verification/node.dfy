/**
 * The node tree (`Node::from`): a copy of the scene's node tree in which each node
 * holds its meshes, resolved against the mesh table, and its transformation
 * accumulated from the root.
 */
module Nodes {
  import opened Wrappers
  import opened Linear
  import opened Assimp
  import opened Materials
  import opened Meshes

  /** The immutable tree of nodes; `transformation` is already multiplied by the
      transformations of all ancestors. */
  datatype Node = Node(meshes: seq<Mesh>, children: seq<Node>, transformation: Mat4)

  /** A node's local transformation as glm sees it. `glm::mat4` reads its sixteen
      arguments column by column, so the row-major aiMatrix4x4 arrives transposed,
      and the explicit transpose turns it back into the same matrix. */
  function LocalTransform(m: AiMatrix4x4): (t: Mat4)
    ensures forall r: nat, c: nat | r < 4 && c < 4 :: Entry(t, r, c) == RowMajor(m)[4 * r + c]
  {
    var columnMajor: Mat4 := RowMajor(m);
    Transpose(columnMajor)
  }

  /** The parent's transformation times the local one; the local one alone at the root. */
  function Compose(parent: Option<Mat4>, local: Mat4): Mat4
  {
    if parent.Some? then Mul(parent.value, local) else local
  }

  /** `node` is what `Node::from(source, table, parent)` builds: the same number of
      meshes, each resolved through the table in order, the composed transformation,
      and children that mirror the source's children in order, with this node as
      their parent. */
  ghost predicate Mirrors(node: Node, source: AiNode, table: seq<Mesh>, parent: Option<Mat4>)
    decreases source
  {
    && |node.meshes| == |source.meshes|
    && (forall i | 0 <= i < |source.meshes| ::
          source.meshes[i] < |table| && node.meshes[i] == table[source.meshes[i]])
    && node.transformation == Compose(parent, LocalTransform(source.transformation))
    && |node.children| == |source.children|
    && (forall i | 0 <= i < |source.children| ::
          Mirrors(node.children[i], source.children[i], table, Some(node.transformation)))
  }

  /** `Node::from(const aiNode*, meshes, parent)`: collects the node's meshes, composes
      its transformation with the parent's, and appends its children one by one. */
  method BuildNode(source: AiNode, table: seq<Mesh>, parent: Option<Mat4>) returns (node: Node)
    requires MeshRefsBelow(source, |table|)
    ensures Mirrors(node, source, table, parent)
    decreases source
  {
    var meshes: seq<Mesh> := [];
    for i := 0 to |source.meshes|
      invariant |meshes| == i
      invariant forall j | 0 <= j < i :: meshes[j] == table[source.meshes[j]]
    {
      meshes := meshes + [table[source.meshes[i]]];
    }

    var transformation := LocalTransform(source.transformation);
    if parent.Some? {
      transformation := Mul(parent.value, transformation);
    }

    var children: seq<Node> := [];
    for i := 0 to |source.children|
      invariant |children| == i
      invariant forall j | 0 <= j < i ::
        Mirrors(children[j], source.children[j], table, Some(transformation))
    {
      var child := BuildNode(source.children[i], table, Some(transformation));
      children := children + [child];
    }
    node := Node(meshes, children, transformation);
  }

  /** `Node::from(const aiScene*)`: the material table, then the mesh table, then
      the tree from the root node, which has no parent. */
  method ImportScene(scene: AiScene, assets: Assets) returns (r: Result<Node, string>)
    requires ResolvableUntilFailure(scene.materials, assets)
    requires MaterialTableOf(scene.materials, assets).Success? ==> WellFormedScene(scene)
    ensures r.Failure? <==> MaterialTableOf(scene.materials, assets).Failure?
    ensures r.Failure? ==> r.error == LoadImageError
    ensures r.Success? ==>
      Mirrors(r.value, scene.rootNode, MeshTable(scene.meshes, MaterialTableOf(scene.materials, assets).value), None)
  {
    var materials := BuildMaterials(scene, assets);
    if materials.Failure? {
      return Failure(materials.error);
    }
    var meshes := ConvertMeshes(scene, materials.value);
    assert meshes == MeshTable(scene.meshes, materials.value);
    var root := BuildNode(scene.rootNode, meshes, None);
    return Success(root);
  }

  /** A path of child indices that stays inside the tree below `n`. */
  predicate IsPath(n: Node, p: seq<nat>)
    decreases |p|
  {
    p == [] || (p[0] < |n.children| && IsPath(n.children[p[0]], p[1..]))
  }

  /** The node a path leads to. */
  function At(n: Node, p: seq<nat>): Node
    requires IsPath(n, p)
    decreases |p|
  {
    if p == [] then n else At(n.children[p[0]], p[1..])
  }

  /** A path of child indices that stays inside the source tree below `s`. */
  predicate IsSourcePath(s: AiNode, p: seq<nat>)
    decreases |p|
  {
    p == [] || (p[0] < |s.children| && IsSourcePath(s.children[p[0]], p[1..]))
  }

  /** The local transformations of the source nodes along a path, outermost first. */
  function LocalsAlong(s: AiNode, p: seq<nat>): (ls: seq<Mat4>)
    requires IsSourcePath(s, p)
    ensures |ls| == |p| + 1
    decreases |p|
  {
    [LocalTransform(s.transformation)]
      + (if p == [] then [] else LocalsAlong(s.children[p[0]], p[1..]))
  }

  /** The left-to-right product m0 * m1 * ... * mk. */
  function Product(ms: seq<Mat4>): Mat4
    requires |ms| > 0
    decreases |ms|
  {
    if |ms| == 1 then ms[0] else Mul(Product(ms[..|ms| - 1]), ms[|ms| - 1])
  }

  /** Appending one matrix to a product multiplies it on the right; a single
      matrix is its own product. */
  lemma ProductExtend(outer: seq<Mat4>, m: Mat4)
    ensures Product(outer + [m]) == Compose(if outer == [] then None else Some(Product(outer)), m)
  {
  }

  /** Inside a tree built below a parent whose transformation is the product of
      `outer`, the node a path leads to carries the product of `outer` and of the
      local transformations from the top of the tree down to that node. */
  lemma {:induction false} TransformAlongPath(
    n: Node, s: AiNode, table: seq<Mesh>, outer: seq<Mat4>, p: seq<nat>)
    requires IsSourcePath(s, p)
    requires Mirrors(n, s, table, if outer == [] then None else Some(Product(outer)))
    ensures IsPath(n, p)
    ensures At(n, p).transformation == Product(outer + LocalsAlong(s, p))
    decreases |p|
  {
    var here := outer + [LocalTransform(s.transformation)];
    ProductExtend(outer, LocalTransform(s.transformation));
    if p != [] {
      var i := p[0];
      TransformAlongPath(n.children[i], s.children[i], table, here, p[1..]);
      assert here + LocalsAlong(s.children[i], p[1..]) == outer + LocalsAlong(s, p);
    }
  }

  /** For a tree built from the root: every node's transformation is the product of
      the local transformations from the root down to it. */
  lemma WorldTransform(root: Node, s: AiNode, table: seq<Mesh>, p: seq<nat>)
    requires IsSourcePath(s, p)
    requires Mirrors(root, s, table, None)
    ensures IsPath(root, p)
    ensures At(root, p).transformation == Product(LocalsAlong(s, p))
  {
    TransformAlongPath(root, s, table, [], p);
    assert [] + LocalsAlong(s, p) == LocalsAlong(s, p);
  }

  /** The tree is fully determined by its source: two trees built from the same
      source node, mesh table and parent are equal. */
  lemma {:induction false} MirrorsUnique(a: Node, b: Node, s: AiNode, table: seq<Mesh>, parent: Option<Mat4>)
    requires Mirrors(a, s, table, parent) && Mirrors(b, s, table, parent)
    ensures a == b
    decreases s
  {
    forall i | 0 <= i < |s.children|
      ensures a.children[i] == b.children[i]
    {
      MirrorsUnique(a.children[i], b.children[i], s.children[i], table, Some(a.transformation));
    }
    assert a.meshes == b.meshes;
    assert a.children == b.children;
  }

  /** The number of meshes held in the tree below `n`, `n` included. */
  function MeshCount(n: Node): nat
    decreases n, 1
  {
    |n.meshes| + ChildMeshCount(n, |n.children|)
  }

  /** The meshes held by the first k children of `n` and their subtrees. */
  function ChildMeshCount(n: Node, k: nat): nat
    requires k <= |n.children|
    decreases n, 0, k
  {
    if k == 0 then 0 else ChildMeshCount(n, k - 1) + MeshCount(n.children[k - 1])
  }

  /** The built tree holds exactly as many meshes as the source tree has mesh
      references. */
  lemma {:induction false} MeshCountMatches(n: Node, s: AiNode, table: seq<Mesh>, parent: Option<Mat4>)
    requires Mirrors(n, s, table, parent)
    ensures MeshCount(n) == RefCount(s)
    decreases s
  {
    ChildMeshCountMatches(n, s, table, parent, |s.children|);
  }

  lemma {:induction false} ChildMeshCountMatches(
    n: Node, s: AiNode, table: seq<Mesh>, parent: Option<Mat4>, k: nat)
    requires Mirrors(n, s, table, parent) && k <= |s.children|
    ensures ChildMeshCount(n, k) == ChildRefCount(s, k)
    decreases s, k
  {
    if k > 0 {
      ChildMeshCountMatches(n, s, table, parent, k - 1);
      MeshCountMatches(n.children[k - 1], s.children[k - 1], table, Some(n.transformation));
    }
  }
}
