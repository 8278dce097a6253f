/** The world data the renderer reads: transforms, lights, materials, meshes and textures.
    Only their shape is modelled; the world that owns them is not part of this model. */
module Scene {
  import opened Wrappers
  import opened Geometry

  /** An entity handle of the component store. */
  type Entity = nat

  datatype Transform = Transform(translation: Vec3, rotation: Quat, scale: Vec3)

  /** Spot cone angles are in radians. */
  datatype LightKind = Directional | Point | Spot(innerConeAngle: real, outerConeAngle: real)

  datatype Light = Light(kind: LightKind, range: real, color: Vec3, intensity: real)

  datatype AlphaMode = Opaque | Mask | Blend

  /** A PBR material. Texture indices are i32 values; a negative index means "no texture". */
  datatype Material = Material(
    baseColorFactor: Vec4,
    emissiveFactor: Vec3,
    alphaMode: AlphaMode,
    alphaCutoff: real,
    occlusionStrength: real,
    metallicFactor: real,
    roughnessFactor: real,
    colorTextureIndex: int,
    metallicRoughnessTextureIndex: int,
    normalTextureIndex: int,
    occlusionTextureIndex: int,
    emissiveTextureIndex: int)

  /** A primitive addresses `numberOfIndices` u32 indices starting at `firstIndex` in the shared
      index buffer. */
  datatype Primitive = Primitive(firstIndex: nat, numberOfIndices: nat, materialIndex: Option<nat>)

  datatype Mesh = Mesh(primitives: seq<Primitive>)

  /** The 22 pixel formats a world texture can have. */
  datatype TextureFormat =
    | R8 | R8G8 | R8G8B8 | R8G8B8A8 | B8G8R8 | B8G8R8A8
    | R16 | R16G16 | R16G16B16 | R16G16B16A16
    | R16F | R16G16F | R16G16B16F | R16G16B16A16F
    | R32 | R32G32 | R32G32B32 | R32G32B32A32
    | R32F | R32G32F | R32G32B32F | R32G32B32A32F

  datatype Texture = Texture(pixels: seq<bv8>, format: TextureFormat, width: nat, height: nat)
}
