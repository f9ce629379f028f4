/**
 * The imported scene as the Assimp importer hands it over: materials, meshes and
 * the node tree. Only the fields the scene code reads are kept; the import itself
 * happens outside the model.
 */
module Assimp {
  import opened Native
  import opened Linear

  /** aiFace: the vertex indices of one face. */
  datatype AiFace = AiFace(indices: seq<uint32>)

  /** aiMesh: `vertices` is mVertices, `textureCoords` the first channel
      mTextureCoords[0], and `materialIndex` mMaterialIndex. */
  datatype AiMesh = AiMesh(
    vertices: seq<Vec3>,
    textureCoords: seq<Vec3>,
    faces: seq<AiFace>,
    materialIndex: uint32)

  /** aiMaterial, reduced to the paths of its diffuse textures, slot 0 first. */
  datatype AiMaterial = AiMaterial(diffuseTextures: seq<string>)

  /** aiMatrix4x4: row-major, a1..a4 being the first row. */
  datatype AiMatrix4x4 = AiMatrix4x4(
    a1: real, a2: real, a3: real, a4: real,
    b1: real, b2: real, b3: real, b4: real,
    c1: real, c2: real, c3: real, c4: real,
    d1: real, d2: real, d3: real, d4: real)

  /** aiNode: its local transformation, the indices of its meshes in the scene's
      mesh list, and its children in order. */
  datatype AiNode = AiNode(transformation: AiMatrix4x4, meshes: seq<uint32>, children: seq<AiNode>)

  /** aiScene. */
  datatype AiScene = AiScene(materials: seq<AiMaterial>, meshes: seq<AiMesh>, rootNode: AiNode)

  /** The sixteen entries of an aiMatrix4x4 in declaration order, row by row. */
  function RowMajor(m: AiMatrix4x4): (s: seq<real>)
    ensures |s| == 16
  {
    [m.a1, m.a2, m.a3, m.a4, m.b1, m.b2, m.b3, m.b4,
     m.c1, m.c2, m.c3, m.c4, m.d1, m.d2, m.d3, m.d4]
  }

  /** What the mesh conversion reads without checking: corners 0 to 2 of every face
      (the import is asked to triangulate), one texture coordinate per vertex, and
      counts whose `unsigned int` products do not wrap. */
  predicate WellFormedMesh(m: AiMesh)
  {
    && |m.vertices| < UINT32_LIMIT
    && |m.textureCoords| >= |m.vertices|
    && 3 * |m.faces| < UINT32_LIMIT
    && forall i | 0 <= i < |m.faces| :: |m.faces[i].indices| >= 3
  }

  /** Every mesh index in the tree below `n` is below `count`. */
  predicate MeshRefsBelow(n: AiNode, count: nat)
    decreases n
  {
    && (forall i | 0 <= i < |n.meshes| :: n.meshes[i] < count)
    && forall i | 0 <= i < |n.children| :: MeshRefsBelow(n.children[i], count)
  }

  /** What the tree build relies on: well-formed meshes and node mesh indices
      that name meshes of the scene. */
  predicate WellFormedScene(s: AiScene)
  {
    && (forall i | 0 <= i < |s.meshes| :: WellFormedMesh(s.meshes[i]))
    && MeshRefsBelow(s.rootNode, |s.meshes|)
  }

  /** The number of mesh references in the tree below `n`, `n` included. */
  function RefCount(n: AiNode): nat
    decreases n, 1
  {
    |n.meshes| + ChildRefCount(n, |n.children|)
  }

  /** The mesh references of the first k children of `n` and their subtrees. */
  function ChildRefCount(n: AiNode, k: nat): nat
    requires k <= |n.children|
    decreases n, 0, k
  {
    if k == 0 then 0 else ChildRefCount(n, k - 1) + RefCount(n.children[k - 1])
  }
}
