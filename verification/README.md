# Dragonglass input, camera and draw-selection model

A Dafny model of the self-contained logic of the dragonglass engine's application and
OpenGL render layers:

- **Input** (`input.dfy`): the per-event updates of the mouse record, the key-state map and
  the window record (`Mouse`, `Input`, `System` in the application crate). Wheel and cursor
  deltas are reset at each frame start unless they were touched since the previous one.
  Keyboard events are last-write-wins. The window centre is half the window size.
- **Orbit camera** (`camera.rs` → `camera.dfy`): the `Orientation` record with its clamped zoom
  radius, its pitch clamped to [10°, 170°], pan and position. The orbit and free-look
  controllers' orientation updates are included. Trigonometry and normalisation are function
  parameters (`Trig`), so every result holds for any choice of them.
- **Viewport** (`viewport.dfy`): the renderer's viewport and its guarded aspect ratio.
- **Lights** (`lights.dfy`, with decimal index printing in `names.dfy`): the conversion of a
  world light into the shader's light record, and the upload of all lights as uniforms.
- **Textures** (`textures.dfy`): the 22-entry table from world pixel formats to OpenGL
  formats. The format codes are the enumerant values of the Khronos OpenGL header.
- **Material upload** (`material.dfy`): the seven scalar material uniforms and the five fixed
  texture slots.
- **Draw selection** (`render.dfy`): three alpha passes in order. Each pass walks every
  scene graph and silently skips nodes without a loaded mesh. Within a mesh, primitives are
  selected per pass. GL calls are emitted as a command list.

Floats are modelled as `real` and `u32` as `nat`. The shared types live in `scene.dfy`
(world data), `gl.dfy` (GL calls as data), `geometry.dfy` (vectors and quaternions) and
`wrappers.dfy` (`Option`, `Result`).

## Model

| member | source | states |
|---|---|---|
| Input.NewEventsMouse | crates/dragonglass_app/src/state.rs:152-162 | At a frame start, the wheel delta survives only if a wheel event happened since the last frame start; otherwise it becomes zero. The same holds for the cursor delta. Both flags end false and nothing else changes. |
| Input.CursorMovedMouse | crates/dragonglass_app/src/state.rs:164-171 | The position becomes the new point, and old position plus delta equals the new point. The new point plus the offset from centre equals the window centre. `moved` is set and nothing else changes. |
| Input.MouseWheelMouse | crates/dragonglass_app/src/state.rs:173-176 | The wheel delta becomes exactly (h_lines, v_lines) and `scrolled` is set. Nothing else changes. |
| Input.MouseInputMouse | crates/dragonglass_app/src/state.rs:178-185 | Left or right button: that flag becomes "state is Pressed" (both directions) and nothing else changes. Any other button leaves the record unchanged. |
| Input.ClickedIffLastPressed | crates/dragonglass_app/src/state.rs:134-185 | After any event sequence, the left (or right) button counts as clicked iff its last button event was a press. Without such an event its flag is what it was before. |
| Input.HandleMouseEvent | crates/dragonglass_app/src/state.rs:134-150 | Each mouse event is routed to its update: a frame start to the frame-start reset, a button event to the button update, cursor motion (with the window centre) to the cursor update, and a line wheel delta to the wheel update. Pixel wheel deltas, keyboard, close, resize and non-window events leave the mouse unchanged. |
| Input.WheelWithinFrame | crates/dragonglass_app/src/state.rs:134-176 | Between frame starts, the wheel delta is the last line-wheel event's delta and `scrolled` is set. Without such an event both are untouched. |
| Input.NoMoveWithinFrame | crates/dragonglass_app/src/state.rs:134-171 | Between frame starts, without cursor motion, the position delta and `moved` are untouched. |
| Input.WheelSeenAfterTwoFrames | crates/dragonglass_app/src/state.rs:152-176 | After two frames, the wheel delta is the second frame's last wheel event. Failing that, it is the first frame's last wheel event, so a wheel event is seen by two updates. Otherwise it is zero, whatever the starting state. |
| Input.PositionDeltaClearedAfterStillFrames | crates/dragonglass_app/src/state.rs:152-171 | Two consecutive frames without cursor motion leave a zero position delta with `moved` false. |
| Input.DefaultInput | crates/dragonglass_app/src/state.rs:86-94 | The default input has no key pressed, the default mouse and input allowed. |
| Input.HandleInputEvent | crates/dragonglass_app/src/state.rs:101-118 | A keyboard event with a key code overwrites that key's state. Every other event leaves the map unchanged. The mouse receives every event and `allowed` is untouched. |
| Input.KeyPressedIffLastPressed | crates/dragonglass_app/src/state.rs:97-118 | After any event sequence, a key is pressed iff its last keyboard event was a press. If it had no keyboard event, it is pressed iff it was pressed before. |
| Input.NewSystem | crates/dragonglass_app/src/state.rs:196-203 | A new window record has the given size, a 0.01 s frame time and no exit request. |
| Input.HandleSystemEvent | crates/dragonglass_app/src/state.rs:218-235 | Close sets the exit request and a resize replaces the dimensions. A frame start sets the frame time to the elapsed microseconds / 10^6. Nothing else changes, and the exit request never clears. |
| Input.WindowCenter | crates/dragonglass_app/src/state.rs:211-216 | Twice the centre is the window size. |
| Input.SystemAspectRatio | crates/dragonglass_app/src/state.rs:205-209 | With a positive height the result is width/height. With zero height it is not finite, because `max(height, 0)` does not guard. |
| Input.GuardedAspectRatio | crates/dragonglass_app/src/state.rs:205-209 | The corrected ratio: width/height for a positive height, the bare width for zero height, and never negative. |
| Input.ZeroHeightWindowAspectRatio | crates/dragonglass_app/src/state.rs:205-209 | After a resize to 800x0 the unguarded ratio is +infinity and the guarded one is 800. For 0x0 they are NaN and 0. |
| Camera.DefaultOrientation | crates/dragonglass_app/src/camera.rs:134-144 | The default has radius bounds [1, 100] and radius 5, zero offset, unit sensitivity, yaw 0 and pitch 45°. It is within all clamps. |
| Camera.Rotate | crates/dragonglass_app/src/camera.rs:84-92 | The yaw grows by delta.x·sensitivity.x, unbounded. The pitch is the unclamped sum when that lies in [10°, 170°], 10° below it and 170° above it. Radius, offset and sensitivity are unchanged. |
| Camera.Pan | crates/dragonglass_app/src/camera.rs:102-109 | Only the offset changes: it moves by delta.x along the camera's right vector plus delta.y along its up vector. The position moves by exactly the offset's change. |
| Camera.PanComposes | crates/dragonglass_app/src/camera.rs:94-105 | Two pans equal one pan by the summed delta, because panning does not change the right/up frame. |
| Camera.PanZero | crates/dragonglass_app/src/camera.rs:102-105 | Panning by zero changes nothing. |
| Camera.Zoom | crates/dragonglass_app/src/camera.rs:111-119 | Only the radius changes. With min ≤ max it is radius − distance when that is in range, min below it and max above it. With min > max it is always max, because the minimum is checked first. |
| Camera.ZoomZeroInBounds | crates/dragonglass_app/src/camera.rs:111-119 | Zooming by zero leaves an in-bounds orientation unchanged. |
| Camera.ZoomComposes | crates/dragonglass_app/src/camera.rs:111-119 | Two zooms that need no clamping equal one zoom by the summed distance. |
| Camera.StepsPreserveValid | crates/dragonglass_app/src/camera.rs:84-119 | Rotate, pan and zoom each keep the radius within bounds and the pitch within [10°, 170°]. |
| Camera.OrbitTurn | crates/dragonglass_app/src/camera.rs:15-21 | With the left button down only the angles change: the yaw falls by the frame's horizontal cursor motion times the sensitivity (the x delta is negated) and the pitch is the clamped sum. Without it nothing changes. |
| Camera.OrbitStep | crates/dragonglass_app/src/camera.rs:11-37 | The radius is the result of zooming by 0.3 times the vertical wheel delta. With the left button the yaw falls by cursor x motion · frame time · sensitivity and the pitch is clamped; without it the angles are unchanged. With the right button the offset is panned by the frame's cursor motion; without it the offset is unchanged. The orientation stays valid and the camera translation is the new position. |
| Camera.LookStep | crates/dragonglass_app/src/camera.rs:46-63 | Only the angles change: the yaw grows by the cursor's offset from centre · frame time · sensitivity and the pitch is the clamped sum. Validity is kept, and with the cursor at the centre nothing changes. |
| Viewport.DefaultViewport | crates/dragonglass_render/src/renderer.rs:15-23 | Every field of the default viewport is zero. |
| Viewport.SafeHeight | crates/dragonglass_render/src/renderer.rs:27 | The divisor is always positive: the height when positive, otherwise 1. |
| Viewport.AspectRatio | crates/dragonglass_render/src/renderer.rs:26-29 | Ratio times height equals width for a positive height. Otherwise the ratio is the width. |
| Viewport.DefaultAspectRatioIsZero | crates/dragonglass_render/src/renderer.rs:15-29 | The default viewport's aspect ratio is 0. |
| Viewport.AspectRatioScaleInvariant | crates/dragonglass_render/src/renderer.rs:26-29 | Scaling width and height by the same positive factor keeps the ratio. |
| Lights.FromNode | crates/dragonglass_render/src/opengl/world.rs:28-54 | The kind codes are Directional 0, Point 1 and Spot 2, each an iff. Non-spot cones are 0; spot cones copy the angles with no cosine taken. Position is the translation, and range, colour and intensity are copied. The direction is −(rotation applied to +z) and the padding is zero. |
| Lights.KindRoundTrip | crates/dragonglass_render/src/opengl/world.rs:31-42 | The kind code and cone fields recover the light kind exactly, cone angles included. |
| Lights.UnrotatedLightPointsAlongNegativeZ | crates/dragonglass_render/src/opengl/world.rs:44 | An unrotated light's direction is (0, 0, −1). |
| Names.NatToString | crates/dragonglass_render/src/opengl/pbr.rs:37 | The printed light index is a non-empty string of decimal digits with no leading zero (only 0 starts with '0'), one digit exactly below ten. |
| Names.NatToStringInjective | crates/dragonglass_render/src/opengl/pbr.rs:37 | Distinct light indices print differently. |
| Lights.LightCalls | crates/dragonglass_render/src/opengl/pbr.rs:37-53 | One light writes eight uniforms `lights[i].<key>` in the key order direction, range, color, intensity, position, innerConeCos, outerConeCos, kind, each with the matching field. |
| Lights.LightCallsRoundTrip | crates/dragonglass_render/src/opengl/pbr.rs:165-175 | Looking up each field of the shader's `Light` struct by its uniform name `lights[i].<field>` in one light's writes recovers the light, with only the unwritten padding lost. |
| Lights.UploadedLightRoundTrip | crates/dragonglass_render/src/opengl/pbr.rs:31-53 | For a converted world light, whose padding is zero, the shader struct read back by name from its uniforms is exactly the converted light. |
| Lights.LightsCalls | crates/dragonglass_render/src/opengl/pbr.rs:36-54 | Light i's eight uniforms occupy positions 8i to 8i+7, with its index in their names. |
| Lights.ToShaderLights | crates/dragonglass_render/src/opengl/pbr.rs:31-35 | Every world light is converted, index for index: the kind code of each shader light identifies the world light's kind and its position is the node's translation. |
| Lights.UploadLights | crates/dragonglass_render/src/opengl/pbr.rs:30-58 | The upload is 8n + 1 uniform writes: eight per light in order, then `numberOfLights` = n. |
| Lights.LightUniformNameInjective | crates/dragonglass_render/src/opengl/pbr.rs:37 | Two `lights[i].key` names coincide only for the same index and key. |
| Lights.UploadNamesDistinct | crates/dragonglass_render/src/opengl/pbr.rs:36-56 | No uniform is written twice in one light upload. |
| Lights.CountNotCapped | crates/dragonglass_render/src/opengl/pbr.rs:55-56 | With five lights the count uploaded is 5, above the shader's array size of 4 (line 177 of the same file). |
| Textures.PixelFormatRoundTrip | crates/dragonglass_render/src/opengl/world.rs:95-118 | Every one of the 22 formats is mapped, and the format is recovered from its GL code. |
| Textures.WorldFormatOfSound | crates/dragonglass_render/src/opengl/world.rs:95-118 | The inverse table only accepts codes that are the image of the format it returns. |
| Textures.PixelFormatInjective | crates/dragonglass_render/src/opengl/world.rs:95-118 | Distinct formats get distinct GL formats. |
| Textures.MapWorldTexture | crates/dragonglass_render/src/opengl/world.rs:92-128 | The GL texture keeps the width, height and pixels, and the world texture is recovered from it. |
| Textures.MapWorldTextures | crates/dragonglass_render/src/opengl/world.rs:77-81 | The renderer's texture table has one entry per world texture, and each entry converts back to the world texture at the same index. |
| MaterialUpload.DescriptorsResolve | crates/dragonglass_render/src/opengl/pbr.rs:104-115 | Every descriptor in the slot list resolves, so the lookup-error branch is unreachable. |
| MaterialUpload.SlotTable | crates/dragonglass_render/src/opengl/pbr.rs:104-115 | The slots are Diffuse 0 (colour), Physical 1 (metallic-roughness), Normal 2, Occlusion 3 and Emissive 4. |
| MaterialUpload.ScalarCalls | crates/dragonglass_render/src/opengl/pbr.rs:79-102 | The upload starts with one write per leading field of the shader's `Material` struct (lines 180-187 of the same file), in declaration order, each with its material value. The emissive factor is widened with w = 0 and the alpha mode goes as its discriminant. `isUnlit` is never written. |
| MaterialUpload.SlotCalls | crates/dragonglass_render/src/opengl/pbr.rs:108-126 | A slot writes `has<D>Texture` = (index > −1) and `<D>Texture` = its unit, and issues nothing but these and bindings. It binds to its own unit exactly the texture at the material's index. It fails exactly when a present index is past the table. |
| MaterialUpload.UpdateMaterial | crates/dragonglass_render/src/opengl/pbr.rs:78-130 | The upload succeeds iff every present index is inside the texture table. Then texture t is bound to unit u iff slot u's index is t and is > −1, and all five flags and sampler units are written. |
| MaterialUpload.UpdateMaterialWritesExactly | crates/dragonglass_render/src/opengl/pbr.rs:78-130 | With every present texture index inside the table the upload succeeds. Every scalar, flag and sampler uniform is written, and every write of it carries its own value, so no later write contradicts it. After the seven scalar writes, every call is a flag, sampler or binding of some slot. |
| MaterialUpload.UniformNamesDistinct | crates/dragonglass_render/src/opengl/pbr.rs:79-122 | Scalar, flag and sampler uniform names never coincide, and no two slots share a flag or a sampler name. |
| Render.DrawnFrom | crates/dragonglass_render/src/opengl/world.rs:172-182 | The selected primitives are in order, all belong to the pass, and none is repeated. With per-primitive skipping, every matching primitive is selected. |
| Render.StopDrawsPrefix | crates/dragonglass_render/src/opengl/world.rs:172-182 | As written, a pass selects a prefix of the primitives that ends just before the first primitive belonging to another pass. |
| Render.StopDrawnIff | crates/dragonglass_render/src/opengl/world.rs:172-182 | As written, a pass draws primitive k iff every primitive up to k belongs to the pass. |
| Render.StopHidesPrimitive | crates/dragonglass_render/src/opengl/world.rs:172-182 | As written, a primitive after one with a different alpha mode is drawn in no pass. |
| Render.BlendThenOpaqueMeshLosesOpaquePrimitive | crates/dragonglass_render/src/opengl/world.rs:172-182 | In a mesh of one blended then one opaque primitive, the opaque one is never drawn as written. With per-primitive skipping it is drawn in the opaque pass. |
| Render.SkipDrawnIff | crates/dragonglass_render/src/opengl/world.rs:172-182 | With per-primitive skipping, a pass draws a primitive iff the primitive belongs to it. A primitive with a known material is drawn in its material's pass. |
| Render.RenderMeshFrom | crates/dragonglass_render/src/opengl/world.rs:171-199 | Each selected primitive gets its material upload (the default material when it has none), then a draw of `number_of_indices` at byte offset `first_index`·4. Nothing else is emitted. |
| Render.RenderMeshSucceeds | crates/dragonglass_render/src/opengl/world.rs:171-199 | A mesh whose materials exist and whose textures are in range is drawn without error. |
| Render.RenderNode | crates/dragonglass_render/src/opengl/world.rs:135-151 | A dead entity is an error. A node without a mesh component, or whose mesh is not loaded, yields nothing and no error. Otherwise blending is set for the pass (on only for Blend), then the node's model matrix, then its mesh. |
| Render.RenderNodes | crates/dragonglass_render/src/opengl/world.rs:135-152 | A successful walk is the nodes' command chunks laid end to end in walk order: for each live node with a loaded mesh, the pass's blend switch, that node's own model matrix in graph g, then each selected primitive's material upload and draw; nothing for a node without one. Its draws are the nodes' draws, and a dead entity anywhere fails the walk. |
| Render.RenderGraphs | crates/dragonglass_render/src/opengl/world.rs:134-153 | A pass over graphs g and later is each graph's walk, in graph order, with each node's model matrix naming its own graph and node. Its draws are the graphs' draws concatenated, and a dead entity in any of them fails it. |
| Render.RenderPass | crates/dragonglass_render/src/opengl/world.rs:133-153 | A pass is the walks of all graphs, node by node, with exactly the pass's length; its draws are its reference draws and every blend switch is the pass's. |
| Render.RenderFrame | crates/dragonglass_render/src/opengl/world.rs:130-157 | A frame is the opaque, then mask, then blend pass, each walked node by node with its blend switch, model matrices and material uploads. Blending is off in the first two passes and on in the third. Its draws are the three passes' draws, and a dead entity in any graph fails the frame. |
| Render.RenderNodeSucceeds | crates/dragonglass_render/src/opengl/world.rs:135-151 | A live node whose loaded mesh has existing materials with textures inside the table renders without error. |
| Render.RenderNodesSucceeds | crates/dragonglass_render/src/opengl/world.rs:135-152 | A walk of such nodes renders without error. |
| Render.RenderGraphsSucceeds | crates/dragonglass_render/src/opengl/world.rs:134-153 | A pass over graphs whose nodes all render renders without error. |
| Render.RenderFrameSucceeds | crates/dragonglass_render/src/opengl/world.rs:130-157 | A frame whose every node renders is drawn without error, under either primitive policy. |

## Findings

| source | as written | input that shows it | evidently intended | confidence | as-written member | corrected member |
|---|---|---|---|---|---|---|
| crates/dragonglass_app/src/state.rs:205-209 | `cmp::max(height as u32, 0)` does not change an unsigned height, so the division can be by zero | a resize to 800x0 gives +infinity; 0x0 gives NaN | `max(height, 1)`, the guard the OpenGL device uses at crates/dragonglass_render/src/opengl/device.rs:61-62 | high; not executed | Input.SystemAspectRatio | Input.GuardedAspectRatio |
| crates/dragonglass_render/src/opengl/world.rs:176-178 | `return Ok(())` at the first primitive whose alpha mode differs from the pass ends the whole mesh | mesh [blend primitive, opaque primitive]: the opaque primitive is drawn in no pass | skip only that primitive (`continue`), so every primitive is drawn in its own pass | medium; not executed | Render.BlendThenOpaqueMeshLosesOpaquePrimitive | Render.SkipDrawnIff |

The draw loop takes a `PrimitivePolicy`. `StopAtMismatch` is the code as written and
`SkipMismatch` is the corrected selection; every property of `Render.RenderFrame` and the
functions under it holds under both policies.

## Left out

- The entity store, scene graph, transform resolver, physics bridge and picking: the world
  crate's `world`, `physics` and `gltf` modules are not part of this model. A scene graph is
  represented only by the node sequence its `walk` visits. Entity liveness and mesh components
  are a map.
- Global transforms and entity model matrices: `SetModel(graph, node)` stands for the matrix
  upload, and failures of those unseen calls are not modelled.
- The abort on an out-of-range texture index: `textures[texture_index as usize]` panics and
  ends the process, whereas the application's event loop only reports returned errors and
  carries on. The model returns `Render.TexturePanic` as a value and does not model the
  process ending.
- GL calls issued before a failing node: the program has already issued them when the error
  is returned, but the model's failed frame carries no command list.
- `world.lights()` failing: the light upload is modelled from the list of lights onward, and
  the failure of that unseen call is not modelled.
- `SceneGraph::walk`: its source is not part of this model. The walk is taken to visit nodes
  in depth-first order and to stop at the first node whose closure returns an error,
  returning that error.
- Render.RenderFrameSucceeds: only the success direction is stated. A frame can also succeed
  when a primitive after a mismatch (under the as-written policy) has a bad material,
  because that primitive is never reached.
- `PbrShader::update_uniforms`: the camera matrices come from the unseen world. The frame is
  modelled from the geometry bind onward.
- `material_at_index`: its source is not part of this model. It is taken to fail exactly for
  an index past the material list. `Material::default()` is a field of the render world
  because its values are not visible.
- The numeric value of the alpha-mode discriminant: the enumeration is not visible, so the
  uniform carries the mode symbolically.
- Camera.OrbitStep: does not model the rotation written to the camera transform
  (`look_at_offset`), because quaternion look-at is left abstract, nor the failure when the
  camera entity has no transform.
- Camera.LookStep: does not model the look-forward rotation or the cursor recentring, for
  the same reasons.
- `direction`, `right` and `up` of `Orientation`: the direction and vector normalisation are
  parameters, so trigonometric values are not computed.
- The frame clock: the elapsed microseconds are a parameter of `Input.HandleSystemEvent`.
- Input.WheelWithinFrame, Input.WheelSeenAfterTwoFrames: the event sequences are processed
  with one window centre. In the application the centre follows resizes, but the wheel and
  key properties do not depend on it.
- Cursor grab and visibility, fullscreen, GUI event capture, the event loop, the renderer
  trait and backend creation, texture data upload and blend-function parameters are calls
  into windowing and GL libraries.
- GLSL shader sources and lighting math.
- f32 and f64 rounding: floats are reals. Pi is the f32 value of pi.
