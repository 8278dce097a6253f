/** The OpenGL calls the renderer issues, as data: uniform writes and texture bindings. */
module Gl {
  import opened Geometry
  import Scene

  datatype UniformValue =
    | FloatValue(f: real)
    | IntValue(i: int)
    | BoolValue(b: bool)
    | Vec3Value(v3: Vec3)
    | Vec4Value(v4: Vec4)
      /** The integer discriminant of an alpha mode; the enumeration's numbering is not part of
          this model, so the value is kept symbolic. */
    | AlphaModeValue(mode: Scene.AlphaMode)

  datatype Call =
    | SetUniform(name: string, value: UniformValue)
    | BindTexture(unit: nat, texture: nat)

  /** Failures of a material upload: the descriptor lookup error and an out-of-range texture
      index (a panic in the code). */
  datatype UploadError = UnknownDescriptor(descriptor: string) | TextureIndexOutOfRange(unit: nat, index: int)
}
