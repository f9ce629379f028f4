/**
 * Mesh conversion (`Mesh::from`): vertices copied one for one, triangle faces
 * flattened into an index array, and the mesh's material looked up with a
 * bounds check.
 */
module Meshes {
  import opened Wrappers
  import opened Native
  import opened Linear
  import opened Assimp
  import opened Materials

  /** The interleaved vertex record: position and texture mapping. */
  datatype Vertex = Vertex(position: Vec3, mapping: Vec2)

  /** A converted mesh. The vertex and index buffers are represented by the data
      uploaded into them; `indicesCount` is the element count its draw uses. */
  datatype Mesh = Mesh(
    vertexBuffer: seq<Vertex>,
    indexBuffer: seq<uint32>,
    indicesCount: nat,
    material: Option<Material>)

  /** The vertex array object of a mesh: the two buffers it binds. */
  datatype VertexArray = VertexArray(vertices: seq<Vertex>, indices: seq<uint32>)

  function VertexArrayOf(m: Mesh): VertexArray
  {
    VertexArray(m.vertexBuffer, m.indexBuffer)
  }

  /** Vertex i of a source mesh: its position, and its texture coordinate with the
      vertical axis flipped. */
  function VertexOf(source: AiMesh, i: nat): Vertex
    requires i < |source.vertices| <= |source.textureCoords|
  {
    var position := source.vertices[i];
    var mapping := source.textureCoords[i];
    Vertex(Vec3(position.x, position.y, position.z), Vec2(mapping.x, 1.0 - mapping.y))
  }

  /** The first three corners of each face, face after face. */
  function FlattenFaces(faces: seq<AiFace>): (r: seq<uint32>)
    requires forall i | 0 <= i < |faces| :: |faces[i].indices| >= 3
    ensures |r| == 3 * |faces|
    ensures forall i, k | 0 <= i < |faces| && 0 <= k < 3 :: r[3 * i + k] == faces[i].indices[k]
    decreases |faces|
  {
    if faces == [] then []
    else
      var init := faces[..|faces| - 1];
      var last := faces[|faces| - 1];
      var r := FlattenFaces(init) + last.indices[..3];
      assert forall i, k | 0 <= i < |init| && 0 <= k < 3 :: r[3 * i + k] == init[i].indices[k];
      r
  }

  /** `materials[index]` when the index is in range, null otherwise. */
  function SelectMaterial(materials: MaterialTable, index: nat): (r: Option<Material>)
    ensures index < |materials| ==> r == materials[index]
    ensures index >= |materials| ==> r == None
  {
    if index < |materials| then materials[index] else None
  }

  /** The mesh `Mesh::from` builds from one source mesh. */
  function MeshOf(source: AiMesh, materials: MaterialTable): (m: Mesh)
    requires WellFormedMesh(source)
    ensures |m.vertexBuffer| == |source.vertices|
    ensures forall i | 0 <= i < |source.vertices| ::
      && m.vertexBuffer[i].position == source.vertices[i]
      && m.vertexBuffer[i].mapping == Vec2(source.textureCoords[i].x, 1.0 - source.textureCoords[i].y)
    ensures m.indicesCount == |m.indexBuffer| == 3 * |source.faces|
    ensures forall i, k | 0 <= i < |source.faces| && 0 <= k < 3 ::
      m.indexBuffer[3 * i + k] == source.faces[i].indices[k]
    ensures m.material == SelectMaterial(materials, source.materialIndex)
  {
    var vertices := seq(|source.vertices|, i requires 0 <= i < |source.vertices| => VertexOf(source, i));
    var indices := FlattenFaces(source.faces);
    Mesh(vertices, indices, |indices|, SelectMaterial(materials, source.materialIndex))
  }

  /** `Mesh::from(const aiMesh*, materials)`: fills pre-sized vertex and index
      arrays by position, then takes the material. */
  method ConvertMesh(source: AiMesh, materials: MaterialTable) returns (mesh: Mesh)
    requires WellFormedMesh(source)
    ensures mesh == MeshOf(source, materials)
  {
    var vertexCount := |source.vertices|;
    var vertices := new Vertex[vertexCount];
    for i := 0 to vertexCount
      invariant forall j | 0 <= j < i :: vertices[j] == VertexOf(source, j)
    {
      var position := source.vertices[i];
      var mapping := source.textureCoords[i];
      vertices[i] := Vertex(Vec3(position.x, position.y, position.z), Vec2(mapping.x, 1.0 - mapping.y));
    }

    // glNamedBufferStorage copies the vertices into the vertex buffer
    var vertexBuffer := vertices[..];
    assert vertexBuffer == seq(vertexCount, i requires 0 <= i < vertexCount => VertexOf(source, i));

    var faceCount := |source.faces|;
    var indices := new uint32[faceCount * 3];
    for i := 0 to faceCount
      invariant forall j, k | 0 <= j < i && 0 <= k < 3 :: indices[3 * j + k] == source.faces[j].indices[k]
    {
      indices[i * 3 + 0] := source.faces[i].indices[0];
      indices[i * 3 + 1] := source.faces[i].indices[1];
      indices[i * 3 + 2] := source.faces[i].indices[2];
    }

    var faces := source.faces;
    forall n | 0 <= n < indices.Length
      ensures indices[n] == FlattenFaces(faces)[n]
    {
      var i, k := n / 3, n % 3;
      assert n == 3 * i + k;
      assert indices[3 * i + k] == faces[i].indices[k] == FlattenFaces(faces)[3 * i + k];
    }
    // and the indices into the index buffer
    var indexBuffer := indices[..];
    assert indexBuffer == FlattenFaces(faces);

    var material := if source.materialIndex < |materials| then materials[source.materialIndex] else None;
    mesh := Mesh(vertexBuffer, indexBuffer, indices.Length, material);
  }

  /** The mesh table: one converted mesh per scene mesh, in order. */
  function MeshTable(sources: seq<AiMesh>, materials: MaterialTable): (t: seq<Mesh>)
    requires forall i | 0 <= i < |sources| :: WellFormedMesh(sources[i])
  {
    seq(|sources|, i requires 0 <= i < |sources| => MeshOf(sources[i], materials))
  }

  /** `Mesh::from(const aiScene*, materials)`: pushes one mesh per scene mesh. */
  method ConvertMeshes(scene: AiScene, materials: MaterialTable) returns (meshes: seq<Mesh>)
    requires forall i | 0 <= i < |scene.meshes| :: WellFormedMesh(scene.meshes[i])
    ensures |meshes| == |scene.meshes|
    ensures forall i | 0 <= i < |meshes| :: meshes[i] == MeshOf(scene.meshes[i], materials)
    ensures forall i | 0 <= i < |meshes| :: meshes[i].indicesCount == |meshes[i].indexBuffer|
  {
    meshes := [];
    for i := 0 to |scene.meshes|
      invariant |meshes| == i
      invariant forall j | 0 <= j < i :: meshes[j] == MeshOf(scene.meshes[j], materials)
    {
      var mesh := ConvertMesh(scene.meshes[i], materials);
      meshes := meshes + [mesh];
    }
  }
}
