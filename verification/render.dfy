/**
 * The render traversal (`Node::render`). The GL calls it makes are recorded as a
 * command stream; replaying that stream on a model of the GL state it touches
 * yields the draws, which come out in pre-order.
 */
module Rendering {
  import opened Wrappers
  import opened Native
  import opened Linear
  import opened Materials
  import opened Meshes
  import opened Nodes
  import opened GlErrors

  /** The GL calls `render` issues. A texture or vertex array is represented by its
      contents; `None` stands for the name 0. The uniform is location 0 of the one
      program in use. */
  datatype Command =
    | SetTransformation(matrix: Mat4)           // glProgramUniformMatrix4fv(program, 0, ...)
    | ActiveTexture(unit: nat)                  // glActiveTexture(GL_TEXTURE0 + unit)
    | BindTexture(texture: Option<Image>)       // glBindTexture(GL_TEXTURE_2D, ...)
    | BindVertexArray(vertexArray: VertexArray) // glBindVertexArray
    | DrawElements(count: int32)                // glDrawElements(GL_TRIANGLES, count, ...)

  /** The GL state those calls read and write. Texture units missing from `units`
      have texture 0 bound; `error` is the pending error flag `glGetError` reports. */
  datatype GlState = GlState(
    transformation: Mat4,
    activeUnit: nat,
    units: map<nat, Option<Image>>,
    vertexArray: Option<VertexArray>,
    error: uint32)

  /** One draw call with the state it sees: the transformation uniform, the texture
      on unit 0 (which the fragment shader samples), the bound vertex array and the
      element count. */
  datatype Draw = Draw(
    transformation: Mat4,
    texture: Option<Image>,
    vertexArray: Option<VertexArray>,
    count: nat)

  function TextureOnUnit(st: GlState, unit: nat): Option<Image>
  {
    if unit in st.units then st.units[unit] else None
  }

  /** The effect of one command on the GL state. */
  function Step(st: GlState, c: Command): GlState
  {
    match c
    case SetTransformation(m) => st.(transformation := m)
    case ActiveTexture(u) => st.(activeUnit := u)
    case BindTexture(t) => st.(units := st.units[st.activeUnit := t])
    case BindVertexArray(v) => st.(vertexArray := Some(v))
    case DrawElements(count) =>
      // a negative count is rejected with GL_INVALID_VALUE; the first error stays pending
      if count < 0 && st.error == GL_NO_ERROR then st.(error := GL_INVALID_VALUE) else st
  }

  /** The state after running a command stream. */
  function Run(cmds: seq<Command>, st: GlState): GlState
    decreases |cmds|
  {
    if cmds == [] then st else Run(cmds[1..], Step(st, cmds[0]))
  }

  /** The draws a command stream issues when run from `st`. */
  function Draws(cmds: seq<Command>, st: GlState): seq<Draw>
    decreases |cmds|
  {
    if cmds == [] then []
    else
      (if cmds[0].DrawElements? && cmds[0].count >= 0
       then [Draw(st.transformation, TextureOnUnit(st, 0), st.vertexArray, cmds[0].count)]
       else [])
      + Draws(cmds[1..], Step(st, cmds[0]))
  }

  /** Running a concatenation draws what the first part draws, then what the second
      part draws from where the first left off. */
  lemma {:induction false} DrawsAppend(a: seq<Command>, b: seq<Command>, st: GlState)
    ensures Draws(a + b, st) == Draws(a, st) + Draws(b, Run(a, st))
    ensures Run(a + b, st) == Run(b, Run(a, st))
    decreases |a|
  {
    if a != [] {
      assert (a + b)[0] == a[0];
      assert (a + b)[1..] == a[1..] + b;
      DrawsAppend(a[1..], b, Step(st, a[0]));
    } else {
      assert a + b == b;
    }
  }

  /** The texture a mesh's draw binds: its material's, or 0 without one. */
  function TextureOf(m: Mesh): Option<Image>
  {
    if m.material.Some? then Some(m.material.value.texture) else None
  }

  /** The calls for one mesh: select unit 0, bind the texture, bind the vertex
      array, draw the mesh's elements. The `size_t` count is passed where GL takes
      a GLsizei. */
  function MeshCommands(m: Mesh): seq<Command>
  {
    [ActiveTexture(0), BindTexture(TextureOf(m)), BindVertexArray(VertexArrayOf(m)),
     DrawElements(ToGLsizei(m.indicesCount))]
  }

  /** A mesh whose count survives the conversion to GLsizei as a non-negative value;
      GL refuses to draw the others. */
  predicate Drawable(m: Mesh)
  {
    ToGLsizei(m.indicesCount) >= 0
  }

  /** Every mesh in the tree below `n` is drawable. */
  predicate AllDrawable(n: Node)
    decreases n
  {
    && (forall i | 0 <= i < |n.meshes| :: Drawable(n.meshes[i]))
    && forall i | 0 <= i < |n.children| :: AllDrawable(n.children[i])
  }

  /** The calls for a list of meshes, in list order. */
  function MeshListCommands(ms: seq<Mesh>): seq<Command>
    decreases |ms|
  {
    if ms == [] then [] else MeshListCommands(ms[..|ms| - 1]) + MeshCommands(ms[|ms| - 1])
  }

  /** The calls `render` makes on a subtree: the uniform, the node's meshes, then
      each child's subtree. */
  function NodeCommands(n: Node, vp: Mat4): seq<Command>
    decreases n, 1
  {
    [SetTransformation(Mul(vp, n.transformation))] + MeshListCommands(n.meshes)
      + ChildCommands(n, vp, |n.children|)
  }

  /** The calls for the subtrees of the first k children of `n`. */
  function ChildCommands(n: Node, vp: Mat4, k: nat): seq<Command>
    requires k <= |n.children|
    decreases n, 0, k
  {
    if k == 0 then [] else ChildCommands(n, vp, k - 1) + NodeCommands(n.children[k - 1], vp)
  }

  /** `Node::render`: sets the node's uniform, draws its meshes in order, then
      renders each child, appending every GL call it makes to the stream. */
  method Render(node: Node, vp: Mat4) returns (cmds: seq<Command>)
    ensures cmds == NodeCommands(node, vp)
    ensures forall st: GlState :: Draws(cmds, st) == PreOrderDraws(node, vp)
    decreases node
  {
    cmds := [SetTransformation(Mul(vp, node.transformation))];
    for i := 0 to |node.meshes|
      invariant cmds == [SetTransformation(Mul(vp, node.transformation))] + MeshListCommands(node.meshes[..i])
    {
      var mesh := node.meshes[i];
      var texture := if mesh.material.Some? then Some(mesh.material.value.texture) else None;
      cmds := cmds + [ActiveTexture(0), BindTexture(texture)];
      cmds := cmds + [BindVertexArray(VertexArrayOf(mesh)), DrawElements(ToGLsizei(mesh.indicesCount))];
      assert node.meshes[..i + 1][..i] == node.meshes[..i];
    }
    assert node.meshes[..|node.meshes|] == node.meshes;
    for i := 0 to |node.children|
      invariant cmds == [SetTransformation(Mul(vp, node.transformation))] + MeshListCommands(node.meshes)
                        + ChildCommands(node, vp, i)
    {
      var childCmds := Render(node.children[i], vp);
      cmds := cmds + childCmds;
    }
    forall st: GlState
      ensures Draws(cmds, st) == PreOrderDraws(node, vp)
    {
      RenderDraws(node, vp, st);
    }
  }

  /** The draw of a drawable mesh m under transformation t. */
  function DrawOf(m: Mesh, t: Mat4): Draw
    requires Drawable(m)
  {
    Draw(t, TextureOf(m), Some(VertexArrayOf(m)), ToGLsizei(m.indicesCount))
  }

  /** The draws of a list of meshes under one transformation, in list order,
      skipping the meshes GL refuses to draw. */
  function MeshDraws(ms: seq<Mesh>, t: Mat4): (ds: seq<Draw>)
    decreases |ms|
  {
    if ms == [] then []
    else
      var last := ms[|ms| - 1];
      MeshDraws(ms[..|ms| - 1], t) + (if Drawable(last) then [DrawOf(last, t)] else [])
  }

  /** The reference order: a node's own meshes under vp times its transformation,
      then each child's subtree in order. */
  function PreOrderDraws(n: Node, vp: Mat4): seq<Draw>
    decreases n, 1
  {
    MeshDraws(n.meshes, Mul(vp, n.transformation)) + ChildDraws(n, vp, |n.children|)
  }

  /** The pre-order draws of the subtrees of the first k children of `n`. */
  function ChildDraws(n: Node, vp: Mat4, k: nat): seq<Draw>
    requires k <= |n.children|
    decreases n, 0, k
  {
    if k == 0 then [] else ChildDraws(n, vp, k - 1) + PreOrderDraws(n.children[k - 1], vp)
  }

  /** When every mesh of the list is drawable, the list is drawn mesh by mesh. */
  lemma {:induction false} AllMeshesDrawn(ms: seq<Mesh>, t: Mat4)
    requires forall j | 0 <= j < |ms| :: Drawable(ms[j])
    ensures |MeshDraws(ms, t)| == |ms|
    ensures forall j | 0 <= j < |ms| :: MeshDraws(ms, t)[j] == DrawOf(ms[j], t)
    decreases |ms|
  {
    if ms != [] {
      AllMeshesDrawn(ms[..|ms| - 1], t);
    }
  }

  /** The calls for one mesh draw it under the current transformation, with its own
      texture on unit 0 and its own vertex array, and keep the transformation. A
      mesh whose count turns negative draws nothing and leaves GL_INVALID_VALUE
      pending unless an error already was. */
  lemma OneMeshDraw(m: Mesh, st: GlState)
    ensures Draws(MeshCommands(m), st) == if Drawable(m) then [DrawOf(m, st.transformation)] else []
    ensures Run(MeshCommands(m), st).transformation == st.transformation
    ensures Run(MeshCommands(m), st).error ==
      if !Drawable(m) && st.error == GL_NO_ERROR then GL_INVALID_VALUE else st.error
  {
    var cmds := MeshCommands(m);
    var s1 := Step(st, cmds[0]);
    var s2 := Step(s1, cmds[1]);
    var s3 := Step(s2, cmds[2]);
    var last := cmds[1..][1..][1..];
    assert TextureOnUnit(s3, 0) == TextureOf(m);
    assert last == [DrawElements(ToGLsizei(m.indicesCount))];
    assert Draws(last, s3) == if Drawable(m) then [DrawOf(m, st.transformation)] else [];
    assert Run(last, s3) == Step(s3, last[0]);
    assert Draws(cmds[1..][1..], s2) == Draws(last, s3);
    assert Draws(cmds[1..], s1) == Draws(cmds[1..][1..], s2);
    assert Draws(cmds, st) == Draws(cmds[1..], s1);
    assert Run(cmds[1..][1..], s2) == Run(last, s3);
    assert Run(cmds[1..], s1) == Run(cmds[1..][1..], s2);
    assert Run(cmds, st) == Run(cmds[1..], s1);
  }

  /** Once the transformation uniform holds t, the calls for a mesh list draw each
      mesh under t with its own texture and vertex array, whatever was bound
      before, and leave the uniform at t. */
  lemma {:induction false} MeshListDraws(ms: seq<Mesh>, st: GlState)
    ensures Draws(MeshListCommands(ms), st) == MeshDraws(ms, st.transformation)
    ensures Run(MeshListCommands(ms), st).transformation == st.transformation
    decreases |ms|
  {
    if ms != [] {
      var init, last := ms[..|ms| - 1], ms[|ms| - 1];
      MeshListDraws(init, st);
      DrawsAppend(MeshListCommands(init), MeshCommands(last), st);
      OneMeshDraw(last, Run(MeshListCommands(init), st));
    }
  }

  /** Replaying the calls for a subtree, from any GL state, issues exactly the
      pre-order draws: each node's meshes in order under vp times the node's
      transformation, binding the material's texture or 0, before its children. */
  lemma {:induction false} RenderDraws(n: Node, vp: Mat4, st: GlState)
    ensures Draws(NodeCommands(n, vp), st) == PreOrderDraws(n, vp)
    decreases n, 1
  {
    var uniform := [SetTransformation(Mul(vp, n.transformation))];
    var meshes := MeshListCommands(n.meshes);
    var children := ChildCommands(n, vp, |n.children|);
    assert NodeCommands(n, vp) == uniform + (meshes + children);
    DrawsAppend(uniform, meshes + children, st);
    var s1 := Run(uniform, st);
    assert s1 == Step(st, uniform[0]);
    DrawsAppend(meshes, children, s1);
    MeshListDraws(n.meshes, s1);
    ChildrenDraws(n, vp, |n.children|, Run(meshes, s1));
  }

  lemma {:induction false} ChildrenDraws(n: Node, vp: Mat4, k: nat, st: GlState)
    requires k <= |n.children|
    ensures Draws(ChildCommands(n, vp, k), st) == ChildDraws(n, vp, k)
    decreases n, 0, k
  {
    if k > 0 {
      ChildrenDraws(n, vp, k - 1, st);
      DrawsAppend(ChildCommands(n, vp, k - 1), NodeCommands(n.children[k - 1], vp), st);
      RenderDraws(n.children[k - 1], vp, Run(ChildCommands(n, vp, k - 1), st));
    }
  }

  /** Rendering a tree whose meshes are all drawable issues one draw per mesh it holds. */
  lemma {:induction false} DrawCount(n: Node, vp: Mat4)
    requires AllDrawable(n)
    ensures |PreOrderDraws(n, vp)| == MeshCount(n)
    decreases n, 1
  {
    AllMeshesDrawn(n.meshes, Mul(vp, n.transformation));
    ChildDrawCount(n, vp, |n.children|);
  }

  lemma {:induction false} ChildDrawCount(n: Node, vp: Mat4, k: nat)
    requires AllDrawable(n) && k <= |n.children|
    ensures |ChildDraws(n, vp, k)| == ChildMeshCount(n, k)
    decreases n, 0, k
  {
    if k > 0 {
      ChildDrawCount(n, vp, k - 1);
      DrawCount(n.children[k - 1], vp);
    }
  }
}
