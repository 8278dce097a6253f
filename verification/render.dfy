/** The draw loop of the world renderer: three alpha passes, each walking every scene graph,
    skipping nodes without a drawable mesh, and drawing a mesh's primitives whose material
    belongs to the pass. GL state changes and draws are emitted as a command list. */
module Render {
  import opened Wrappers
  import opened Scene
  import opened Gl
  import MaterialUpload

  /** A scene-graph node: its index in the graph and the entity it wraps. */
  datatype Node = Node(index: nat, entity: Entity)

  /** The world as the draw loop reads it. A graph is given by the sequence of nodes its
      depth-first walk visits. `meshRenders` holds the live entities, each with the mesh name of
      its mesh component if it has one. `defaultMaterial` is the material used for primitives
      without one; `textureCount` is the size of the renderer's texture table. */
  datatype RenderWorld = RenderWorld(
    graphs: seq<seq<Node>>,
    meshRenders: map<Entity, Option<string>>,
    meshes: map<string, Mesh>,
    materials: seq<Material>,
    defaultMaterial: Material,
    textureCount: nat)

  /** Why a frame is not drawn. The first two are errors the renderer returns, which the
      application's event loop reports and survives. `TexturePanic` is not an error value in
      the program: indexing the texture table out of range aborts the process. */
  datatype RenderError =
    | EntityNotFound(entity: Entity)
    | MaterialNotFound(index: nat)
    | TexturePanic(error: UploadError)

  datatype Command =
    | SetBlend(enabled: bool)
    | SetModel(graph: nat, node: nat)
    | UploadMaterial(calls: seq<Call>)
    | DrawElements(count: nat, byteOffset: nat)

  /** What happens at the first primitive whose material belongs to another pass: the code
      stops drawing the mesh; the evident intent is to skip just that primitive. */
  datatype PrimitivePolicy = StopAtMismatch | SkipMismatch

  /** Size in bytes of one u32 index. */
  const IndexSize: nat := 4

  /** The draw of a primitive: its index count, at the byte offset of its first index. */
  function DrawOf(p: Primitive): Command {
    DrawElements(p.numberOfIndices, p.firstIndex * IndexSize)
  }

  predicate MaterialResolves(w: RenderWorld, p: Primitive) {
    p.materialIndex.None? || p.materialIndex.value < |w.materials|
  }

  function MaterialOf(w: RenderWorld, p: Primitive): Material
    requires MaterialResolves(w, p)
  {
    match p.materialIndex
    case None => w.defaultMaterial
    case Some(i) => w.materials[i]
  }

  /** A primitive is drawn in a pass when it has no material or its material's alpha mode is
      the pass's. */
  predicate Drawable(w: RenderWorld, mode: AlphaMode, p: Primitive) {
    p.materialIndex.None? || (p.materialIndex.value < |w.materials| && w.materials[p.materialIndex.value].alphaMode == mode)
  }

  predicate StrictlyIncreasing(s: seq<nat>) {
    forall a, b :: 0 <= a < b < |s| ==> s[a] < s[b]
  }

  lemma ConsIncreasing(j: nat, rest: seq<nat>)
    requires StrictlyIncreasing(rest)
    requires forall i :: 0 <= i < |rest| ==> j < rest[i]
    ensures StrictlyIncreasing([j] + rest)
  {
    var r := [j] + rest;
    forall a, b | 0 <= a < b < |r| ensures r[a] < r[b] {
      assert r[b] == rest[b - 1];
      if a > 0 {
        assert r[a] == rest[a - 1];
      }
    }
  }

  /** The indices, from `j` on, of the primitives a pass draws under `policy`. */
  function DrawnFrom(w: RenderWorld, mode: AlphaMode, prims: seq<Primitive>, j: nat, policy: PrimitivePolicy): (r: seq<nat>)
    requires j <= |prims|
    ensures forall i :: 0 <= i < |r| ==> j <= r[i] < |prims| && Drawable(w, mode, prims[r[i]])
    ensures StrictlyIncreasing(r)
    ensures policy == SkipMismatch ==>
      forall x :: j <= x < |prims| && Drawable(w, mode, prims[x]) ==> x in r
    decreases |prims| - j
  {
    if j == |prims| then []
    else if Drawable(w, mode, prims[j]) then
      var rest := DrawnFrom(w, mode, prims, j + 1, policy);
      var r := [j] + rest;
      assert forall i :: 1 <= i < |r| ==> r[i] == rest[i - 1];
      assert forall x :: x in r <==> x == j || x in rest;
      ConsIncreasing(j, rest);
      r
    else if policy == StopAtMismatch then []
    else DrawnFrom(w, mode, prims, j + 1, policy)
  }

  /** Under the code's policy a pass draws the primitives from `j` up to, not including, the
      first one that does not belong to it. */
  lemma {:induction false} StopDrawsPrefix(w: RenderWorld, mode: AlphaMode, prims: seq<Primitive>, j: nat)
    requires j <= |prims|
    ensures var r := DrawnFrom(w, mode, prims, j, StopAtMismatch);
      && (forall i :: 0 <= i < |r| ==> r[i] == j + i)
      && (j + |r| < |prims| ==> !Drawable(w, mode, prims[j + |r|]))
    decreases |prims| - j
  {
    if j < |prims| && Drawable(w, mode, prims[j]) {
      StopDrawsPrefix(w, mode, prims, j + 1);
      var rest := DrawnFrom(w, mode, prims, j + 1, StopAtMismatch);
      var r := DrawnFrom(w, mode, prims, j, StopAtMismatch);
      assert r == [j] + rest;
      assert forall i :: 1 <= i < |r| ==> r[i] == rest[i - 1];
    }
  }

  /** Under the code's policy a pass draws primitive `k` exactly when it and every primitive
      before it belong to the pass. */
  lemma StopDrawnIff(w: RenderWorld, mode: AlphaMode, prims: seq<Primitive>, k: nat)
    requires k < |prims|
    ensures k in DrawnFrom(w, mode, prims, 0, StopAtMismatch) <==>
      forall j :: 0 <= j <= k ==> Drawable(w, mode, prims[j])
  {
    var d := DrawnFrom(w, mode, prims, 0, StopAtMismatch);
    StopDrawsPrefix(w, mode, prims, 0);
    if k < |d| {
      assert d[k] == k;
      forall j | 0 <= j <= k ensures Drawable(w, mode, prims[j]) {
        assert d[j] == j;
      }
    } else {
      assert !Drawable(w, mode, prims[|d|]);
      assert forall i :: 0 <= i < |d| ==> d[i] < k;
    }
  }

  /** Under the code's policy, a primitive preceded by one whose material has another alpha
      mode is drawn in no pass at all. */
  lemma StopHidesPrimitive(w: RenderWorld, prims: seq<Primitive>, j: nat, k: nat)
    requires j < k < |prims|
    requires prims[j].materialIndex.Some? && prims[j].materialIndex.value < |w.materials|
    requires prims[k].materialIndex.Some? && prims[k].materialIndex.value < |w.materials|
    requires w.materials[prims[j].materialIndex.value].alphaMode != w.materials[prims[k].materialIndex.value].alphaMode
    ensures forall mode :: k !in DrawnFrom(w, mode, prims, 0, StopAtMismatch)
  {
    forall mode ensures k !in DrawnFrom(w, mode, prims, 0, StopAtMismatch) {
      StopDrawnIff(w, mode, prims, k);
    }
  }

  /** The same situation as a concrete mesh: a blended primitive followed by an opaque one. */
  lemma BlendThenOpaqueMeshLosesOpaquePrimitive(w: RenderWorld, prims: seq<Primitive>)
    requires |w.materials| == 2 && w.materials[0].alphaMode == Blend && w.materials[1].alphaMode == Opaque
    requires prims == [Primitive(0, 3, Some(0)), Primitive(3, 3, Some(1))]
    ensures forall mode :: 1 !in DrawnFrom(w, mode, prims, 0, StopAtMismatch)
    ensures 1 in DrawnFrom(w, Opaque, prims, 0, SkipMismatch)
  {
    StopHidesPrimitive(w, prims, 0, 1);
  }

  /** Under the intended policy a pass draws a primitive exactly when the primitive belongs to
      the pass, so every primitive with a known material is drawn in the pass of its alpha mode,
      and one without a material in every pass. */
  lemma SkipDrawnIff(w: RenderWorld, mode: AlphaMode, prims: seq<Primitive>, k: nat)
    requires k < |prims|
    ensures k in DrawnFrom(w, mode, prims, 0, SkipMismatch) <==> Drawable(w, mode, prims[k])
    ensures MaterialResolves(w, prims[k]) ==>
      k in DrawnFrom(w, MaterialOf(w, prims[k]).alphaMode, prims, 0, SkipMismatch)
  {
    var d := DrawnFrom(w, mode, prims, 0, SkipMismatch);
    if k in d {
      var i :| 0 <= i < |d| && d[i] == k;
    }
  }

  /** A mesh whose materials all exist and whose textures all lie in the texture table is
      drawn without error. */
  lemma {:induction false} RenderMeshSucceeds(w: RenderWorld, mode: AlphaMode, prims: seq<Primitive>, j: nat, policy: PrimitivePolicy)
    requires j <= |prims|
    requires forall i :: j <= i < |prims| ==>
      MaterialResolves(w, prims[i]) && MaterialUpload.TexturesInRange(MaterialOf(w, prims[i]), w.textureCount)
    ensures RenderMeshFrom(w, mode, prims, j, policy).Ok?
    decreases |prims| - j
  {
    if j < |prims| {
      var p := prims[j];
      RenderMeshSucceeds(w, mode, prims, j + 1, policy);
      var upload := MaterialUpload.UpdateMaterial(MaterialOf(w, p), w.textureCount);
      assert upload.Ok?;
      if !(p.materialIndex.Some? && w.materials[p.materialIndex.value].alphaMode != mode) {
        var rest := RenderMeshFrom(w, mode, prims, j + 1, policy);
        assert RenderMeshFrom(w, mode, prims, j, policy) == Ok([UploadMaterial(upload.value), DrawOf(p)] + rest.value);
      }
    }
  }

  /** `cmds` uploads the material of and then draws each primitive listed in `idx`, in order. */
  ghost predicate MeshMatches(w: RenderWorld, prims: seq<Primitive>, cmds: seq<Command>, idx: seq<nat>) {
    MeshShape(prims, cmds, idx) && MeshUploads(w, prims, cmds, idx)
  }

  /** `cmds` is an upload followed by the draw of each primitive listed in `idx`, in order. */
  ghost predicate MeshShape(prims: seq<Primitive>, cmds: seq<Command>, idx: seq<nat>)
    decreases |idx|
  {
    if |idx| == 0 then cmds == []
    else
      && |cmds| >= 2
      && idx[0] < |prims|
      && cmds[0].UploadMaterial?
      && cmds[1] == DrawOf(prims[idx[0]])
      && MeshShape(prims, cmds[2..], idx[1..])
  }

  /** Each upload in `cmds` carries the calls that upload the material of its primitive. */
  ghost predicate MeshUploads(w: RenderWorld, prims: seq<Primitive>, cmds: seq<Command>, idx: seq<nat>)
    decreases |idx|
  {
    if |idx| == 0 then true
    else
      && |cmds| >= 2
      && idx[0] < |prims|
      && MaterialResolves(w, prims[idx[0]])
      && cmds[0].UploadMaterial?
      && MaterialUpload.UpdateMaterial(MaterialOf(w, prims[idx[0]]), w.textureCount) == Ok(cmds[0].calls)
      && MeshUploads(w, prims, cmds[2..], idx[1..])
  }

  /** A mesh's commands are material uploads and draws only. */
  lemma {:induction false} MeshCommandsKinds(prims: seq<Primitive>, cmds: seq<Command>, idx: seq<nat>)
    requires MeshShape(prims, cmds, idx)
    ensures forall c :: c in cmds ==> c.UploadMaterial? || c.DrawElements?
    decreases |idx|
  {
    if |idx| > 0 {
      MeshCommandsKinds(prims, cmds[2..], idx[1..]);
      assert cmds == [cmds[0], cmds[1]] + cmds[2..];
    }
  }

  /** `render_mesh` from primitive `j` on. A primitive whose material index is unknown fails
      the frame. */
  function RenderMeshFrom(w: RenderWorld, mode: AlphaMode, prims: seq<Primitive>, j: nat, policy: PrimitivePolicy): (r: Result<seq<Command>, RenderError>)
    requires j <= |prims|
    ensures r.Ok? ==> MeshMatches(w, prims, r.value, DrawnFrom(w, mode, prims, j, policy))
    decreases |prims| - j
  {
    if j == |prims| then Ok([])
    else
      var p := prims[j];
      if !MaterialResolves(w, p) then Err(MaterialNotFound(p.materialIndex.value))
      else if p.materialIndex.Some? && w.materials[p.materialIndex.value].alphaMode != mode then
        (if policy == StopAtMismatch then Ok([]) else RenderMeshFrom(w, mode, prims, j + 1, policy))
      else
        match MaterialUpload.UpdateMaterial(MaterialOf(w, p), w.textureCount)
        case Err(e) => Err(TexturePanic(e))
        case Ok(calls) =>
          var rest :- RenderMeshFrom(w, mode, prims, j + 1, policy);
          var r := [UploadMaterial(calls), DrawOf(p)] + rest;
          assert r[2..] == rest;
          Ok(r)
  }

  /** Every blend switch in `cmds` sets blending to `enabled`. */
  predicate BlendsAre(cmds: seq<Command>, enabled: bool) {
    forall c :: c in cmds && c.SetBlend? ==> c.enabled == enabled
  }

  lemma BlendsAppend(a: seq<Command>, b: seq<Command>, enabled: bool)
    requires BlendsAre(a, enabled) && BlendsAre(b, enabled)
    ensures BlendsAre(a + b, enabled)
  {
  }

  /** The mesh of the node's entity, if the entity has a mesh component whose mesh is loaded. */
  function NodeMesh(w: RenderWorld, node: Node): Option<Mesh> {
    if node.entity in w.meshRenders && w.meshRenders[node.entity].Some? &&
       w.meshRenders[node.entity].value in w.meshes
    then Some(w.meshes[w.meshRenders[node.entity].value])
    else None
  }

  /** One node of a walk in one pass. A dead entity fails the frame; a node without a drawable
      mesh produces nothing and no error. */
  function RenderNode(w: RenderWorld, mode: AlphaMode, g: nat, node: Node, policy: PrimitivePolicy): (r: Result<seq<Command>, RenderError>)
    ensures node.entity !in w.meshRenders ==> r == Err(EntityNotFound(node.entity))
    ensures node.entity in w.meshRenders && NodeMesh(w, node).None? ==> r == Ok([])
    ensures r.Ok? && NodeMesh(w, node).Some? ==>
      var prims := NodeMesh(w, node).value.primitives;
      && |r.value| >= 2
      && r.value[0] == SetBlend(mode == Blend)
      && r.value[1] == SetModel(g, node.index)
      && MeshMatches(w, prims, r.value[2..], DrawnFrom(w, mode, prims, 0, policy))
    ensures r.Ok? ==> BlendsAre(r.value, mode == Blend)
    ensures r.Ok? ==> NodeMatches(w, mode, g, node, policy, r.value)
  {
    if node.entity !in w.meshRenders then Err(EntityNotFound(node.entity))
    else match NodeMesh(w, node)
      case None => Ok([])
      case Some(mesh) =>
        var cmds :- RenderMeshFrom(w, mode, mesh.primitives, 0, policy);
        MeshCommandsKinds(mesh.primitives, cmds, DrawnFrom(w, mode, mesh.primitives, 0, policy));
        var prefix := [SetBlend(mode == Blend), SetModel(g, node.index)];
        var r := prefix + cmds;
        assert r[2..] == cmds;
        BlendsAppend(prefix, cmds, mode == Blend);
        Ok(r)
  }

  // ---------------------------------------------------------------------------
  // The draws a frame issues, as a reference independent of the command stream
  // ---------------------------------------------------------------------------

  function DrawsOf(cmds: seq<Command>): (r: seq<Command>)
    decreases |cmds|
  {
    if |cmds| == 0 then []
    else (if cmds[0].DrawElements? then [cmds[0]] else []) + DrawsOf(cmds[1..])
  }

  lemma {:induction false} DrawsOfAppend(a: seq<Command>, b: seq<Command>)
    ensures DrawsOf(a + b) == DrawsOf(a) + DrawsOf(b)
    decreases |a|
  {
    if |a| == 0 {
      assert a + b == b;
    } else {
      assert (a + b)[0] == a[0];
      assert (a + b)[1..] == a[1..] + b;
      DrawsOfAppend(a[1..], b);
    }
  }

  function PrimDraws(prims: seq<Primitive>, idx: seq<nat>): seq<Command>
    requires forall i :: 0 <= i < |idx| ==> idx[i] < |prims|
    decreases |idx|
  {
    if |idx| == 0 then [] else [DrawOf(prims[idx[0]])] + PrimDraws(prims, idx[1..])
  }

  lemma {:induction false} DrawsOfMeshShape(prims: seq<Primitive>, cmds: seq<Command>, idx: seq<nat>)
    requires forall i :: 0 <= i < |idx| ==> idx[i] < |prims|
    requires MeshShape(prims, cmds, idx)
    ensures DrawsOf(cmds) == PrimDraws(prims, idx)
    decreases |idx|
  {
    if |idx| > 0 {
      var rest := cmds[2..];
      DrawsOfMeshShape(prims, rest, idx[1..]);
      assert cmds == [cmds[0], cmds[1]] + rest;
      DrawsOfAppend([cmds[0], cmds[1]], rest);
      var pair := [cmds[0], cmds[1]];
      assert !pair[0].DrawElements? && pair[1].DrawElements?;
      assert pair[1..] == [cmds[1]];
      assert [cmds[1]][1..] == [];
      assert DrawsOf(pair) == [cmds[1]];
      assert PrimDraws(prims, idx) == [DrawOf(prims[idx[0]])] + PrimDraws(prims, idx[1..]);
    }
  }

  /** The draws a node contributes to a pass: its mesh's selected primitives, in order. */
  function NodeDraws(w: RenderWorld, mode: AlphaMode, node: Node, policy: PrimitivePolicy): seq<Command> {
    match NodeMesh(w, node)
    case None => []
    case Some(mesh) => PrimDraws(mesh.primitives, DrawnFrom(w, mode, mesh.primitives, 0, policy))
  }

  function NodesDraws(w: RenderWorld, mode: AlphaMode, nodes: seq<Node>, policy: PrimitivePolicy): seq<Command>
    decreases |nodes|
  {
    if |nodes| == 0 then [] else NodeDraws(w, mode, nodes[0], policy) + NodesDraws(w, mode, nodes[1..], policy)
  }

  function GraphsDraws(w: RenderWorld, mode: AlphaMode, g: nat, policy: PrimitivePolicy): seq<Command>
    requires g <= |w.graphs|
    decreases |w.graphs| - g
  {
    if g == |w.graphs| then [] else NodesDraws(w, mode, w.graphs[g], policy) + GraphsDraws(w, mode, g + 1, policy)
  }

  /** The draws of one pass: every graph, every node in walk order. */
  function PassDraws(w: RenderWorld, mode: AlphaMode, policy: PrimitivePolicy): seq<Command> {
    GraphsDraws(w, mode, 0, policy)
  }

  // ---------------------------------------------------------------------------
  // The full command stream, node by node
  // ---------------------------------------------------------------------------

  /** `cmds` is exactly what one live node contributes to a pass: nothing when it has no
      loaded mesh; otherwise the pass's blend switch, the node's model matrix, then each
      selected primitive's material upload and draw. */
  ghost predicate NodeMatches(w: RenderWorld, mode: AlphaMode, g: nat, node: Node, policy: PrimitivePolicy, cmds: seq<Command>) {
    && node.entity in w.meshRenders
    && match NodeMesh(w, node)
       case None => cmds == []
       case Some(mesh) =>
         && |cmds| >= 2
         && cmds[0] == SetBlend(mode == Blend)
         && cmds[1] == SetModel(g, node.index)
         && MeshMatches(w, mesh.primitives, cmds[2..], DrawnFrom(w, mode, mesh.primitives, 0, policy))
  }

  /** How many commands a node contributes to a pass. */
  function NodeLength(w: RenderWorld, mode: AlphaMode, node: Node, policy: PrimitivePolicy): nat {
    match NodeMesh(w, node)
    case None => 0
    case Some(mesh) => 2 + 2 * |DrawnFrom(w, mode, mesh.primitives, 0, policy)|
  }

  function NodesLength(w: RenderWorld, mode: AlphaMode, nodes: seq<Node>, policy: PrimitivePolicy): nat
    decreases |nodes|
  {
    if |nodes| == 0 then 0 else NodeLength(w, mode, nodes[0], policy) + NodesLength(w, mode, nodes[1..], policy)
  }

  function GraphsLength(w: RenderWorld, mode: AlphaMode, g: nat, policy: PrimitivePolicy): nat
    requires g <= |w.graphs|
    decreases |w.graphs| - g
  {
    if g == |w.graphs| then 0 else NodesLength(w, mode, w.graphs[g], policy) + GraphsLength(w, mode, g + 1, policy)
  }

  function PassLength(w: RenderWorld, mode: AlphaMode, policy: PrimitivePolicy): nat {
    GraphsLength(w, mode, 0, policy)
  }

  /** `cmds` is the walk's nodes' contributions, one chunk per node, in walk order. */
  ghost predicate NodesMatch(w: RenderWorld, mode: AlphaMode, g: nat, nodes: seq<Node>, policy: PrimitivePolicy, cmds: seq<Command>)
    decreases |nodes|
  {
    if |nodes| == 0 then cmds == []
    else
      var n := NodeLength(w, mode, nodes[0], policy);
      && n <= |cmds|
      && NodeMatches(w, mode, g, nodes[0], policy, cmds[..n])
      && NodesMatch(w, mode, g, nodes[1..], policy, cmds[n..])
  }

  /** `cmds` is the walks of graphs `g` and later, one chunk per graph, in graph order. */
  ghost predicate GraphsMatch(w: RenderWorld, mode: AlphaMode, g: nat, policy: PrimitivePolicy, cmds: seq<Command>)
    requires g <= |w.graphs|
    decreases |w.graphs| - g
  {
    if g == |w.graphs| then cmds == []
    else
      var n := NodesLength(w, mode, w.graphs[g], policy);
      && n <= |cmds|
      && NodesMatch(w, mode, g, w.graphs[g], policy, cmds[..n])
      && GraphsMatch(w, mode, g + 1, policy, cmds[n..])
  }

  /** `cmds` is the opaque pass, then the mask pass, then the blend pass. */
  ghost predicate FrameMatches(w: RenderWorld, policy: PrimitivePolicy, cmds: seq<Command>) {
    var a, b := PassLength(w, Opaque, policy), PassLength(w, Mask, policy);
    && |cmds| == a + b + PassLength(w, Blend, policy)
    && GraphsMatch(w, Opaque, 0, policy, cmds[..a])
    && GraphsMatch(w, Mask, 0, policy, cmds[a..a + b])
    && GraphsMatch(w, Blend, 0, policy, cmds[a + b..])
  }

  lemma {:induction false} MeshShapeLength(prims: seq<Primitive>, cmds: seq<Command>, idx: seq<nat>)
    requires MeshShape(prims, cmds, idx)
    ensures |cmds| == 2 * |idx|
    decreases |idx|
  {
    if |idx| > 0 {
      MeshShapeLength(prims, cmds[2..], idx[1..]);
    }
  }

  lemma NodeMatchesLength(w: RenderWorld, mode: AlphaMode, g: nat, node: Node, policy: PrimitivePolicy, cmds: seq<Command>)
    requires NodeMatches(w, mode, g, node, policy, cmds)
    ensures |cmds| == NodeLength(w, mode, node, policy)
  {
    if NodeMesh(w, node).Some? {
      var prims := NodeMesh(w, node).value.primitives;
      MeshShapeLength(prims, cmds[2..], DrawnFrom(w, mode, prims, 0, policy));
    }
  }

  lemma {:induction false} NodesMatchLength(w: RenderWorld, mode: AlphaMode, g: nat, nodes: seq<Node>, policy: PrimitivePolicy, cmds: seq<Command>)
    requires NodesMatch(w, mode, g, nodes, policy, cmds)
    ensures |cmds| == NodesLength(w, mode, nodes, policy)
    decreases |nodes|
  {
    if |nodes| > 0 {
      var n := NodeLength(w, mode, nodes[0], policy);
      NodeMatchesLength(w, mode, g, nodes[0], policy, cmds[..n]);
      NodesMatchLength(w, mode, g, nodes[1..], policy, cmds[n..]);
    }
  }

  lemma {:induction false} GraphsMatchLength(w: RenderWorld, mode: AlphaMode, g: nat, policy: PrimitivePolicy, cmds: seq<Command>)
    requires g <= |w.graphs|
    requires GraphsMatch(w, mode, g, policy, cmds)
    ensures |cmds| == GraphsLength(w, mode, g, policy)
    decreases |w.graphs| - g
  {
    if g < |w.graphs| {
      var n := NodesLength(w, mode, w.graphs[g], policy);
      NodesMatchLength(w, mode, g, w.graphs[g], policy, cmds[..n]);
      GraphsMatchLength(w, mode, g + 1, policy, cmds[n..]);
    }
  }

  // ---------------------------------------------------------------------------
  // Walks, passes and the frame
  // ---------------------------------------------------------------------------

  predicate HasDeadEntity(w: RenderWorld, nodes: seq<Node>) {
    exists i :: 0 <= i < |nodes| && nodes[i].entity !in w.meshRenders
  }

  /** The walk of one graph in one pass; the first error ends the walk. */
  function RenderNodes(w: RenderWorld, mode: AlphaMode, g: nat, nodes: seq<Node>, policy: PrimitivePolicy): (r: Result<seq<Command>, RenderError>)
    ensures r.Ok? ==> DrawsOf(r.value) == NodesDraws(w, mode, nodes, policy)
    ensures r.Ok? ==> BlendsAre(r.value, mode == Blend)
    ensures HasDeadEntity(w, nodes) ==> r.Err?
    ensures r.Ok? ==> NodesMatch(w, mode, g, nodes, policy, r.value)
    decreases |nodes|
  {
    if |nodes| == 0 then Ok([])
    else
      var head :- RenderNode(w, mode, g, nodes[0], policy);
      var rest :- RenderNodes(w, mode, g, nodes[1..], policy);
      NodeMatchesLength(w, mode, g, nodes[0], policy, head);
      assert (head + rest)[..|head|] == head && (head + rest)[|head|..] == rest;
      NodeDrawsMatch(w, mode, g, nodes[0], policy, head);
      DrawsOfAppend(head, rest);
      BlendsAppend(head, rest, mode == Blend);
      HasDeadEntityCons(w, nodes);
      Ok(head + rest)
  }

  lemma HasDeadEntityCons(w: RenderWorld, nodes: seq<Node>)
    ensures |nodes| > 0 ==>
      (HasDeadEntity(w, nodes) <==> nodes[0].entity !in w.meshRenders || HasDeadEntity(w, nodes[1..]))
  {
    if |nodes| > 0 && HasDeadEntity(w, nodes) && nodes[0].entity in w.meshRenders {
      var i :| 0 <= i < |nodes| && nodes[i].entity !in w.meshRenders;
      assert nodes[1..][i - 1] == nodes[i];
    }
    if |nodes| > 0 && HasDeadEntity(w, nodes[1..]) {
      var i :| 0 <= i < |nodes[1..]| && nodes[1..][i].entity !in w.meshRenders;
      assert nodes[i + 1] == nodes[1..][i];
    }
  }

  lemma NodeDrawsMatch(w: RenderWorld, mode: AlphaMode, g: nat, node: Node, policy: PrimitivePolicy, cmds: seq<Command>)
    requires NodeMatches(w, mode, g, node, policy, cmds)
    ensures DrawsOf(cmds) == NodeDraws(w, mode, node, policy)
  {
    if NodeMesh(w, node).Some? {
      var prims := NodeMesh(w, node).value.primitives;
      HeadedMeshDraws(prims, DrawnFrom(w, mode, prims, 0, policy), cmds);
    }
  }

  /** Two non-draw commands followed by a mesh's commands draw what the mesh draws. */
  lemma HeadedMeshDraws(prims: seq<Primitive>, idx: seq<nat>, cmds: seq<Command>)
    requires forall i :: 0 <= i < |idx| ==> idx[i] < |prims|
    requires |cmds| >= 2 && !cmds[0].DrawElements? && !cmds[1].DrawElements?
    requires MeshShape(prims, cmds[2..], idx)
    ensures DrawsOf(cmds) == PrimDraws(prims, idx)
  {
    var body := cmds[2..];
    DrawsOfMeshShape(prims, body, idx);
    assert cmds[1..][1..] == body;
  }

  /** One pass over graphs `g` and later, in `scene.graphs` order. */
  function RenderGraphs(w: RenderWorld, mode: AlphaMode, g: nat, policy: PrimitivePolicy): (r: Result<seq<Command>, RenderError>)
    requires g <= |w.graphs|
    ensures r.Ok? ==> DrawsOf(r.value) == GraphsDraws(w, mode, g, policy)
    ensures r.Ok? ==> BlendsAre(r.value, mode == Blend)
    ensures (exists k :: g <= k < |w.graphs| && HasDeadEntity(w, w.graphs[k])) ==> r.Err?
    ensures r.Ok? ==> GraphsMatch(w, mode, g, policy, r.value)
    decreases |w.graphs| - g
  {
    if g == |w.graphs| then Ok([])
    else
      var head :- RenderNodes(w, mode, g, w.graphs[g], policy);
      var rest :- RenderGraphs(w, mode, g + 1, policy);
      NodesMatchLength(w, mode, g, w.graphs[g], policy, head);
      assert (head + rest)[..|head|] == head && (head + rest)[|head|..] == rest;
      DrawsOfAppend(head, rest);
      BlendsAppend(head, rest, mode == Blend);
      Ok(head + rest)
  }

  function RenderPass(w: RenderWorld, mode: AlphaMode, policy: PrimitivePolicy): (r: Result<seq<Command>, RenderError>)
    ensures r.Ok? ==> DrawsOf(r.value) == PassDraws(w, mode, policy)
    ensures r.Ok? ==> BlendsAre(r.value, mode == Blend)
    ensures r.Ok? ==> GraphsMatch(w, mode, 0, policy, r.value) && |r.value| == PassLength(w, mode, policy)
  {
    var r := RenderGraphs(w, mode, 0, policy);
    if r.Ok? then GraphsMatchLength(w, mode, 0, policy, r.value); r else r
  }

  /** The frame's draw commands: the opaque pass, then the mask pass, then the blend pass.
      A node whose entity is not alive fails the frame. */
  function RenderFrame(w: RenderWorld, policy: PrimitivePolicy): (r: Result<seq<Command>, RenderError>)
    ensures r.Ok? ==>
      (DrawsOf(r.value) == PassDraws(w, Opaque, policy) + PassDraws(w, Mask, policy) + PassDraws(w, Blend, policy))
    ensures (exists k :: 0 <= k < |w.graphs| && HasDeadEntity(w, w.graphs[k])) ==> r.Err?
    ensures r.Ok? ==> FrameMatches(w, policy, r.value)
    ensures r.Ok? ==>
      var a, b := PassLength(w, Opaque, policy), PassLength(w, Mask, policy);
      && |r.value| == a + b + PassLength(w, Blend, policy)
      && BlendsAre(r.value[..a + b], false)
      && BlendsAre(r.value[a + b..], true)
  {
    var opaquePass :- RenderPass(w, Opaque, policy);
    var mask :- RenderPass(w, Mask, policy);
    var blend :- RenderPass(w, Blend, policy);
    PassesMatch(w, policy, opaquePass, mask, blend);
    Ok(opaquePass + mask + blend)
  }

  // ---------------------------------------------------------------------------
  // When a frame is drawn without error
  // ---------------------------------------------------------------------------

  /** Every primitive's material exists and keeps its textures inside the texture table. */
  predicate PrimitivesRender(w: RenderWorld, prims: seq<Primitive>) {
    forall i :: 0 <= i < |prims| ==>
      MaterialResolves(w, prims[i]) && MaterialUpload.TexturesInRange(MaterialOf(w, prims[i]), w.textureCount)
  }

  /** A node is drawable without error: its entity is alive, and a loaded mesh of it has only
      primitives that render. */
  predicate NodeRenders(w: RenderWorld, node: Node) {
    && node.entity in w.meshRenders
    && (NodeMesh(w, node).Some? ==> PrimitivesRender(w, NodeMesh(w, node).value.primitives))
  }

  /** Every node of every graph is drawable without error. */
  predicate FrameRenders(w: RenderWorld) {
    forall g, i :: 0 <= g < |w.graphs| && 0 <= i < |w.graphs[g]| ==> NodeRenders(w, w.graphs[g][i])
  }

  lemma RenderNodeSucceeds(w: RenderWorld, mode: AlphaMode, g: nat, node: Node, policy: PrimitivePolicy)
    requires NodeRenders(w, node)
    ensures RenderNode(w, mode, g, node, policy).Ok?
  {
    if NodeMesh(w, node).Some? {
      RenderMeshSucceeds(w, mode, NodeMesh(w, node).value.primitives, 0, policy);
    }
  }

  lemma {:induction false} RenderNodesSucceeds(w: RenderWorld, mode: AlphaMode, g: nat, nodes: seq<Node>, policy: PrimitivePolicy)
    requires forall i :: 0 <= i < |nodes| ==> NodeRenders(w, nodes[i])
    ensures RenderNodes(w, mode, g, nodes, policy).Ok?
    decreases |nodes|
  {
    if |nodes| > 0 {
      RenderNodeSucceeds(w, mode, g, nodes[0], policy);
      assert forall i :: 0 <= i < |nodes[1..]| ==> nodes[1..][i] == nodes[i + 1];
      RenderNodesSucceeds(w, mode, g, nodes[1..], policy);
    }
  }

  lemma {:induction false} RenderGraphsSucceeds(w: RenderWorld, mode: AlphaMode, g: nat, policy: PrimitivePolicy)
    requires g <= |w.graphs|
    requires FrameRenders(w)
    ensures RenderGraphs(w, mode, g, policy).Ok?
    decreases |w.graphs| - g
  {
    if g < |w.graphs| {
      RenderNodesSucceeds(w, mode, g, w.graphs[g], policy);
      RenderGraphsSucceeds(w, mode, g + 1, policy);
    }
  }

  /** A frame whose every node is alive and whose every loaded mesh has existing materials
      with textures inside the table is drawn without error, under either policy. */
  lemma RenderFrameSucceeds(w: RenderWorld, policy: PrimitivePolicy)
    requires FrameRenders(w)
    ensures RenderFrame(w, policy).Ok?
  {
    RenderGraphsSucceeds(w, Opaque, 0, policy);
    RenderGraphsSucceeds(w, Mask, 0, policy);
    RenderGraphsSucceeds(w, Blend, 0, policy);
  }

  /** The three passes, laid end to end, form the frame's command stream. */
  lemma PassesMatch(w: RenderWorld, policy: PrimitivePolicy, opaquePass: seq<Command>, mask: seq<Command>, blend: seq<Command>)
    requires GraphsMatch(w, Opaque, 0, policy, opaquePass) && |opaquePass| == PassLength(w, Opaque, policy)
    requires GraphsMatch(w, Mask, 0, policy, mask) && |mask| == PassLength(w, Mask, policy)
    requires GraphsMatch(w, Blend, 0, policy, blend) && |blend| == PassLength(w, Blend, policy)
    requires BlendsAre(opaquePass, false) && BlendsAre(mask, false) && BlendsAre(blend, true)
    ensures FrameMatches(w, policy, opaquePass + mask + blend)
    ensures DrawsOf(opaquePass + mask + blend) == DrawsOf(opaquePass) + DrawsOf(mask) + DrawsOf(blend)
    ensures var r, a, b := opaquePass + mask + blend, |opaquePass|, |mask|;
      BlendsAre(r[..a + b], false) && BlendsAre(r[a + b..], true)
  {
    var r := opaquePass + mask + blend;
    var a, b := |opaquePass|, |mask|;
    assert r[..a] == opaquePass && r[a..a + b] == mask && r[a + b..] == blend;
    assert r[..a + b] == opaquePass + mask;
    BlendsAppend(opaquePass, mask, false);
    DrawsOfAppend(opaquePass, mask);
    DrawsOfAppend(opaquePass + mask, blend);
  }
}
