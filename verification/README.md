# Scene import and rendering of the depth-test example, modelled in Dafny

The depth-test program loads a glTF scene through Assimp and turns it into its own tree:

- a table of materials, one per scene material, each holding the texture loaded for its diffuse texture path or null;
- a table of meshes, each with its vertices and flattened triangle indices uploaded to GPU buffers and a material picked from the table;
- a tree of nodes, each holding its meshes and a transformation accumulated from the root.

Every frame it walks that tree to draw it. After the render loop it turns a pending OpenGL error code into the message it aborts with.

This project models those pieces with the GPU and image-library calls replaced by values:

- The scene the importer returns is a set of plain datatypes (`Assimp`).
- A GL buffer, vertex array or texture is represented by the data uploaded into it. Texture name 0 is `None`.
- The two foreign lookups the material build makes are function-valued inputs (`Materials.Assets`):
  - the file name of the embedded texture a material path names;
  - the outcome of reading a PNG file.
- Rendering produces the stream of GL calls it would make (`Rendering.Command`).
- A small model of the GL state those calls touch (`Rendering.Step`) replays the stream into draw records.

Modules, one per part of the program:

| file | module | what it holds |
|---|---|---|
| wrappers.dfy | `Wrappers`, `Native` | Option/Result, `uint8`/`uint32`/`int32` and the GLsizei conversion |
| linear.dfy | `Linear` | the glm vectors and 4x4 matrices used, over the reals |
| assimp.dfy | `Assimp` | the imported scene records and what the code assumes of them |
| material.dfy | `Materials` | `Material::from` |
| mesh.dfy | `Meshes` | both `Mesh::from` overloads |
| node.dfy | `Nodes` | both `Node::from` overloads and the transformation lemmas |
| render.dfy | `Rendering` | `Node::render`, the GL state model and the pre-order theorem |
| gl_error.dfy | `GlErrors` | the error-code-to-message chain at the end of `main` |

The loops of the C++ code stay loops. `BuildMaterials`, `ConvertMeshes` and `BuildNode` grow sequences the way the source uses `push_back`. `Render` appends to a sequence that records the GL calls it makes, in order. `ConvertMesh` fills pre-sized arrays by index. Each method is proved against a specification function or predicate, and the properties are proved about that specification.

The source reads some data without checking it, relying on the importer and the asset. The model states that reliance as preconditions:

- every face has at least three corners. This is an assumption about the asset: `aiProcess_Triangulate` leaves point and line primitives as they are, and the import does not ask for `aiProcess_SortByPType`, so a mesh with such faces would make the index loop read past the end of `mIndices`;
- there is one texture coordinate per vertex;
- `mNumFaces * 3` does not wrap in `unsigned int`;
- every node mesh index names a scene mesh;
- every non-empty diffuse path the build reaches names an embedded texture, because the result of `GetEmbeddedTexture` is dereferenced without a null check. The build stops at the first image that fails to load, so nothing is assumed of the materials after it;
- the mesh and node assumptions above are needed only when the material table builds, since the import stops before the meshes otherwise.

## Model

| member | source | states |
|---|---|---|
| `Materials.MaterialEntry` | depth_test/src/main.cpp:28-65 | The entry is null exactly when the diffuse path is empty. It fails, with "Failed to load image.", exactly when the path is non-empty and the PNG at media/<embedded name>.png does not open or decode. Otherwise it holds the decoded image. |
| `Materials.MaterialTableOf` | depth_test/src/main.cpp:22-69 | The table build succeeds exactly when every entry does. On success it has one entry per scene material, in order, and entry i is material i's entry. A failure always carries "Failed to load image.", and there is then a first failing material: all before it load. Only materials that the build reaches must have a resolvable path. |
| `Materials.BuildMaterials` | depth_test/src/main.cpp:22-69 | The push_back loop, returning early on a failed image, produces exactly `MaterialTableOf`. It needs a resolvable path only for materials reached before the first failure. |
| `Meshes.FlattenFaces` | depth_test/src/main.cpp:100-107 | The index array has 3 × faces entries. Entry 3i+k is corner k of face i, with faces in source order. |
| `Meshes.SelectMaterial` | depth_test/src/main.cpp:129 | The material is `materials[mMaterialIndex]` when the index is below the table size and null otherwise, so the lookup never reads past the table. |
| `Meshes.MeshOf` | depth_test/src/main.cpp:81-132 | The vertex buffer has one vertex per source vertex. Vertex i holds position i and texture coordinate i with its y flipped to 1 - y. The index buffer is the flattened faces, and `indicesCount` equals its length, 3 × faces. The material is the bounds-checked selection. |
| `Meshes.ConvertMesh` | depth_test/src/main.cpp:81-132 | Filling the pre-sized vertex and index arrays position by position yields exactly `MeshOf`. |
| `Meshes.ConvertMeshes` | depth_test/src/main.cpp:133-143 | One mesh per scene mesh, in order. Mesh i is the conversion of scene mesh i, and each mesh's indices count equals its index buffer's length. |
| `Nodes.LocalTransform` | depth_test/src/main.cpp:178-184 | glm reads the sixteen scalars column by column, and the explicit transpose then restores Assimp's row-major order. So entry (r, c) of the resulting glm matrix is entry (r, c) of the aiMatrix4x4. |
| `Nodes.BuildNode` | depth_test/src/main.cpp:169-196 | The built node mirrors its source. It has the same number of meshes, and mesh i is `source_meshes[mMeshes[i]]`. Its transformation is the parent's times the local one, or the local one without a parent. It has the same number of children, in order, each mirroring the matching source child with this node as parent. |
| `Nodes.ImportScene` | depth_test/src/main.cpp:197-203 | The import fails exactly when the material table fails, and then with "Failed to load image.". Otherwise the root mirrors the scene's root node against the mesh table, with no parent. The scene's meshes and nodes must be well formed only when the material table builds. |
| `Nodes.TransformAlongPath` | depth_test/src/main.cpp:178-192 | Below a parent whose transformation is a product of matrices, the node at any path carries that product extended by the local transformations from the subtree's top down to the node. |
| `Nodes.WorldTransform` | depth_test/src/main.cpp:186 | In a tree built from the root, every node's transformation is the left-to-right product of the local transformations from the root down to that node. The root's is its own local transformation. |
| `Nodes.MirrorsUnique` | depth_test/src/main.cpp:169-196 | Two trees built from the same source node, mesh table and parent are equal: the tree is determined by the source. |
| `Nodes.MeshCountMatches` | depth_test/src/main.cpp:173-176 | A built tree holds exactly as many meshes as its source tree has mesh references. |
| `Nodes.ChildMeshCountMatches` | depth_test/src/main.cpp:190-193 | The subtrees of the first k children hold as many meshes as the first k source subtrees have mesh references. |
| `Native.ToGLsizei` | depth_test/src/main.cpp:232 | The implicit conversion of the `size_t` count to GLsizei keeps the low 32 bits as a two's-complement value: it is the count itself below 2^31, it is non-negative exactly when the low 32 bits are below 2^31, and it agrees with the count modulo 2^32. |
| `Rendering.Render` | depth_test/src/main.cpp:214-239 | The recursive render, with its two loops, emits exactly the node's call stream. From any prior GL state, that stream issues exactly the pre-order draws. |
| `Rendering.RenderDraws` | depth_test/src/main.cpp:214-239 | Replaying a subtree's calls from any GL state issues the node's meshes in list order, then each child's subtree in order. Each draw carries vp × node transformation, the material's texture (or 0 without a material), the mesh's vertex array and `indices_count` converted to GLsizei. A mesh whose converted count is negative is skipped. |
| `Rendering.MeshListDraws` | depth_test/src/main.cpp:218-233 | Once the uniform is set, the mesh loop draws each drawable mesh in order under that uniform, whatever was bound before, and leaves the uniform unchanged. |
| `Rendering.OneMeshDraw` | depth_test/src/main.cpp:220-232 | The calls for one mesh bind its texture to unit 0 and its vertex array, then issue one draw of `indices_count` elements, narrowed to GLsizei, under the current uniform. When the narrowed count is negative, GL draws nothing and sets GL_INVALID_VALUE unless an error is already pending. |
| `Rendering.AllMeshesDrawn` | depth_test/src/main.cpp:218-233 | When every mesh of a list has a count that fits in a GLsizei, the list yields one draw per mesh, and draw j is mesh j's. |
| `Rendering.DrawCount` | depth_test/src/main.cpp:218-238 | When every mesh's count fits in a GLsizei, a render issues exactly one draw per mesh held in the tree. |
| `GlErrors.ErrorMessage` | depth_test/src/main.cpp:472-484 | There is no abort exactly when the code is GL_NO_ERROR. Each of the seven known codes aborts with its name. Any other code aborts with a message that starts with "Unknown OpenGL error: ". |
| `GlErrors.ErrorMessageInjective` | depth_test/src/main.cpp:474-483 | Distinct error codes abort with distinct messages. |
| `GlErrors.KnownNamesDistinct` | depth_test/src/main.cpp:475-481 | The seven known codes have seven different names. |
| `GlErrors.UnknownMessagesDistinct` | depth_test/src/main.cpp:483 | Two unknown codes with the same message are the same code. |
| `GlErrors.Decimal` | depth_test/src/main.cpp:483 | `std::to_string` of the code is a non-empty string of decimal digits without a leading zero. |
| `GlErrors.DecimalRoundTrip` | depth_test/src/main.cpp:483 | The decimal text of a code reads back as that code. |

## Left out

- The GLFW, GLEW and OpenGL calls themselves, as foreign calls: window and context setup, shader compile/link/validate, the creation of buffers, vertex arrays, textures and samplers, and teardown. A GL object is represented by the data uploaded into it. Two objects with equal contents are therefore indistinguishable, and GL name allocation is not modelled.
- libpng decoding is a foreign library. It is an input function returning an image or one of the two failures. The RGBA format request and the pixel buffer size are not modelled.
- Assimp's import and its `GetEmbeddedTexture` lookup are foreign code. The scene is an input datatype, and the embedded-texture lookup is an input function.
- Floating point: coordinates and matrices are reals, so 32-bit rounding is not modelled. The texture flip is stated exactly, as 1 - y over the reals. The camera rotation and projection matrices and the key-driven angle updates in the render loop are not modelled.
- The interactive render loop of `main` is driven by window events and I/O. Only one call of `Node::render` per frame is modelled, and the GL state it starts from is arbitrary.
- `Rendering.Render`: the `program` argument is dropped. The uniform is modelled as location 0 of the single program in use.
- `Nodes.BuildNode`: the `shared_ptr` ownership and the parent pointer are replaced by an immutable tree. The child list is assembled first and the node is built after it. The C++ code builds the node first and appends to its child vector, with the same resulting tree.
- `GlErrors.ErrorMessage`: its contract gives only the prefix of the unknown-code message. The digits that follow are pinned down by `GlErrors.UnknownMessagesDistinct` and `GlErrors.DecimalRoundTrip`.
- The other seven programs of the repository (window, clear_screen, hello_triangle, colored_triangle, uniform_buffer_triangle, texture, perspective) contain only GL/GLFW bootstrap and constant geometry. Their error-code chains repeat the one modelled here.
