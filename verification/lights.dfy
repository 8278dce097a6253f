/** Conversion of world lights into the shader's light records, and their upload as uniforms. */
module Lights {
  import opened Wrappers
  import opened Geometry
  import opened Scene
  import opened Gl
  import Names

  /** The shader-side light record (the GLSL `Light` struct). */
  datatype ShaderLight = ShaderLight(
    direction: Vec3,
    range: real,
    color: Vec3,
    intensity: real,
    position: Vec3,
    innerConeCos: real,
    outerConeCos: real,
    kind: int,
    padding: Vec2)

  /** The shader declares room for this many lights. */
  const MaxShaderLights: nat := 4

  /** Number of uniforms written per light. */
  const UniformsPerLight: nat := 8

  const LightKeys: seq<string> :=
    ["direction", "range", "color", "intensity", "position", "innerConeCos", "outerConeCos", "kind"]

  /** Build the shader record for a light at a node. The spot cone fields receive the cone
      angles themselves, not their cosines. */
  function FromNode(t: Transform, l: Light): (r: ShaderLight)
    ensures r.kind == 0 <==> l.kind.Directional?
    ensures r.kind == 1 <==> l.kind.Point?
    ensures r.kind == 2 <==> l.kind.Spot?
    ensures !l.kind.Spot? ==> r.innerConeCos == 0.0 && r.outerConeCos == 0.0
    ensures l.kind.Spot? ==> r.innerConeCos == l.kind.innerConeAngle && r.outerConeCos == l.kind.outerConeAngle
    ensures r.position == t.translation
    ensures r.range == l.range && r.color == l.color && r.intensity == l.intensity
    ensures r.padding == Zero2
    ensures r.direction == Scale3(QuatRotate(t.rotation, ZAxis), -1.0)
  {
    var (kind, inner, outer) :=
      match l.kind
      case Directional => (0, 0.0, 0.0)
      case Point => (1, 0.0, 0.0)
      case Spot(innerAngle, outerAngle) => (2, innerAngle, outerAngle);
    ShaderLight(
      Scale3(QuatRotate(t.rotation, ZAxis), -1.0),
      l.range, l.color, l.intensity, t.translation,
      inner, outer, kind, Vec2(0.0, 0.0))
  }

  /** What the shader can recover of the light kind from a record. */
  function KindOf(r: ShaderLight): Option<LightKind> {
    if r.kind == 0 then Some(Directional)
    else if r.kind == 1 then Some(Point)
    else if r.kind == 2 then Some(Spot(r.innerConeCos, r.outerConeCos))
    else None
  }

  /** The kind encoding loses nothing: the light kind, cone angles included, is recovered. */
  lemma KindRoundTrip(t: Transform, l: Light)
    ensures KindOf(FromNode(t, l)) == Some(l.kind)
  {
  }

  /** An unrotated light shines down the negative z axis. */
  lemma UnrotatedLightPointsAlongNegativeZ(l: Light, translation: Vec3, scale: Vec3)
    ensures FromNode(Transform(translation, Quat(0.0, 0.0, 0.0, 1.0), scale), l).direction == Vec3(0.0, 0.0, -1.0)
  {
    QuatRotateByIdentity(ZAxis);
  }

  /** `lights[<index>].<key>` */
  function LightUniformName(index: nat, key: string): string {
    "lights[" + Names.NatToString(index) + "]." + key
  }

  /** The value written under the key with position `k` in `LightKeys`. */
  function LightUniformValue(l: ShaderLight, k: nat): UniformValue
    requires k < UniformsPerLight
  {
    match k
    case 0 => Vec3Value(l.direction)
    case 1 => FloatValue(l.range)
    case 2 => Vec3Value(l.color)
    case 3 => FloatValue(l.intensity)
    case 4 => Vec3Value(l.position)
    case 5 => FloatValue(l.innerConeCos)
    case 6 => FloatValue(l.outerConeCos)
    case _ => IntValue(l.kind)
  }

  /** The eight writes for light number `index`, in the order the upload issues them. Each
      write carries the key at the same position of `LightKeys` and the value of the record
      field of that name. */
  function LightCalls(index: nat, l: ShaderLight): (r: seq<Call>)
    ensures |r| == UniformsPerLight
    ensures forall k :: 0 <= k < UniformsPerLight ==>
      r[k] == SetUniform(LightUniformName(index, LightKeys[k]), LightUniformValue(l, k))
  {
    [ SetUniform(LightUniformName(index, "direction"), Vec3Value(l.direction)),
      SetUniform(LightUniformName(index, "range"), FloatValue(l.range)),
      SetUniform(LightUniformName(index, "color"), Vec3Value(l.color)),
      SetUniform(LightUniformName(index, "intensity"), FloatValue(l.intensity)),
      SetUniform(LightUniformName(index, "position"), Vec3Value(l.position)),
      SetUniform(LightUniformName(index, "innerConeCos"), FloatValue(l.innerConeCos)),
      SetUniform(LightUniformName(index, "outerConeCos"), FloatValue(l.outerConeCos)),
      SetUniform(LightUniformName(index, "kind"), IntValue(l.kind)) ]
  }

  /** The value of the first write of uniform `name` in `calls`, if there is one. */
  function ValueNamed(calls: seq<Call>, name: string): Option<UniformValue>
    decreases |calls|
  {
    if |calls| == 0 then None
    else if calls[0].SetUniform? && calls[0].name == name then Some(calls[0].value)
    else ValueNamed(calls[1..], name)
  }

  /** The value written to field `LightKeys[k]` of light number `index`. */
  function FieldWritten(calls: seq<Call>, index: nat, k: nat): Option<UniformValue>
    requires k < UniformsPerLight
  {
    ValueNamed(calls, LightUniformName(index, LightKeys[k]))
  }

  /** What a shader reads back as light number `index` from a list of writes: each field of the
      record is looked up by its uniform name, and the padding the upload never writes stays
      at zero. */
  function RecordFromCalls(index: nat, calls: seq<Call>): Option<ShaderLight> {
    match (FieldWritten(calls, index, 0), FieldWritten(calls, index, 1), FieldWritten(calls, index, 2),
           FieldWritten(calls, index, 3), FieldWritten(calls, index, 4), FieldWritten(calls, index, 5),
           FieldWritten(calls, index, 6), FieldWritten(calls, index, 7))
    case (Some(Vec3Value(direction)), Some(FloatValue(range)), Some(Vec3Value(color)), Some(FloatValue(intensity)),
          Some(Vec3Value(position)), Some(FloatValue(inner)), Some(FloatValue(outer)), Some(IntValue(kind))) =>
      Some(ShaderLight(direction, range, color, intensity, position, inner, outer, kind, Zero2))
    case _ => None
  }

  /** A write of `name` at position `k` with no earlier write of `name` is what a lookup finds. */
  lemma {:induction false} ValueNamedAt(calls: seq<Call>, name: string, k: nat, v: UniformValue)
    requires k < |calls| && calls[k] == SetUniform(name, v)
    requires forall j :: 0 <= j < k ==> !(calls[j].SetUniform? && calls[j].name == name)
    ensures ValueNamed(calls, name) == Some(v)
    decreases k
  {
    if k > 0 {
      assert !(calls[0].SetUniform? && calls[0].name == name);
      ValueNamedAt(calls[1..], name, k - 1, v);
    }
  }

  /** In one light's writes, field `k` is found by name and carries that field's value. */
  lemma FieldWrittenByLightCalls(index: nat, l: ShaderLight, k: nat)
    requires k < UniformsPerLight
    ensures FieldWritten(LightCalls(index, l), index, k) == Some(LightUniformValue(l, k))
  {
    var r := LightCalls(index, l);
    forall j | 0 <= j < k ensures !(r[j].SetUniform? && r[j].name == LightUniformName(index, LightKeys[k])) {
      if r[j].name == LightUniformName(index, LightKeys[k]) {
        LightUniformNameInjective(index, index, LightKeys[j], LightKeys[k]);
        LightKeysDistinct();
      }
    }
    ValueNamedAt(r, LightUniformName(index, LightKeys[k]), k, LightUniformValue(l, k));
  }

  /** One light's writes carry the whole record except its padding, each field under its own
      uniform name. */
  lemma LightCallsRoundTrip(index: nat, l: ShaderLight)
    ensures RecordFromCalls(index, LightCalls(index, l)) == Some(l.(padding := Zero2))
  {
    FieldWrittenByLightCalls(index, l, 0);
    FieldWrittenByLightCalls(index, l, 1);
    FieldWrittenByLightCalls(index, l, 2);
    FieldWrittenByLightCalls(index, l, 3);
    FieldWrittenByLightCalls(index, l, 4);
    FieldWrittenByLightCalls(index, l, 5);
    FieldWrittenByLightCalls(index, l, 6);
    FieldWrittenByLightCalls(index, l, 7);
  }

  /** A light built from a scene node reaches the shader unchanged. */
  lemma UploadedLightRoundTrip(index: nat, t: Transform, l: Light)
    ensures RecordFromCalls(index, LightCalls(index, FromNode(t, l))) == Some(FromNode(t, l))
  {
    LightCallsRoundTrip(index, FromNode(t, l));
  }

  lemma SplitLightIndex(i: nat, k: nat)
    requires k < UniformsPerLight
    ensures (UniformsPerLight * i + k) / UniformsPerLight == i
    ensures (UniformsPerLight * i + k) % UniformsPerLight == k
  {
  }

  /** The uniform writes for `ls`, the first of them being light number `base`. */
  function LightsCalls(ls: seq<ShaderLight>, base: nat): (r: seq<Call>)
    ensures |r| == UniformsPerLight * |ls|
    ensures forall i, k :: 0 <= i < |ls| && 0 <= k < UniformsPerLight ==>
      r[UniformsPerLight * i + k] == SetUniform(LightUniformName(base + i, LightKeys[k]), LightUniformValue(ls[i], k))
  {
    var r := seq(UniformsPerLight * |ls|, n requires 0 <= n < UniformsPerLight * |ls| =>
      SetUniform(LightUniformName(base + n / UniformsPerLight, LightKeys[n % UniformsPerLight]),
                 LightUniformValue(ls[n / UniformsPerLight], n % UniformsPerLight)));
    assert forall i, k :: 0 <= i < |ls| && 0 <= k < UniformsPerLight ==>
      r[UniformsPerLight * i + k] == SetUniform(LightUniformName(base + i, LightKeys[k]), LightUniformValue(ls[i], k))
    by {
      forall i, k | 0 <= i < |ls| && 0 <= k < UniformsPerLight
        ensures r[UniformsPerLight * i + k] == SetUniform(LightUniformName(base + i, LightKeys[k]), LightUniformValue(ls[i], k))
      {
        SplitLightIndex(i, k);
      }
    }
    r
  }

  function ToShaderLights(lights: seq<(Transform, Light)>): (r: seq<ShaderLight>)
    ensures |r| == |lights|
    ensures forall i :: 0 <= i < |lights| ==> r[i] == FromNode(lights[i].0, lights[i].1)
    ensures forall i :: 0 <= i < |lights| ==>
      KindOf(r[i]) == Some(lights[i].1.kind) && r[i].position == lights[i].0.translation
  {
    seq(|lights|, i requires 0 <= i < |lights| => FromNode(lights[i].0, lights[i].1))
  }

  /** Upload every world light, eight uniforms each, then the light count. The count is not
      capped at the shader's array size. */
  function UploadLights(lights: seq<(Transform, Light)>): (r: seq<Call>)
    ensures |r| == UniformsPerLight * |lights| + 1
    ensures r[|r| - 1] == SetUniform("numberOfLights", IntValue(|lights|))
    ensures forall i, k :: 0 <= i < |lights| && 0 <= k < UniformsPerLight ==>
      r[UniformsPerLight * i + k] ==
        SetUniform(LightUniformName(i, LightKeys[k]), LightUniformValue(FromNode(lights[i].0, lights[i].1), k))
  {
    var calls := LightsCalls(ToShaderLights(lights), 0);
    calls + [SetUniform("numberOfLights", IntValue(|lights|))]
  }

  /** Two light uniform names coincide only for the same light and the same key. */
  lemma LightUniformNameInjective(i: nat, j: nat, a: string, b: string)
    requires LightUniformName(i, a) == LightUniformName(j, b)
    ensures i == j && a == b
  {
    var s := Names.NatToString(i);
    var t := Names.NatToString(j);
    var x := LightUniformName(i, a);
    assert x == "lights[" + s + "]." + a;
    assert x == "lights[" + t + "]." + b;
    assert s + ("]." + a) == t + ("]." + b) by {
      assert x == "lights[" + (s + ("]." + a));
      assert x == "lights[" + (t + ("]." + b));
      assert x[7..] == s + ("]." + a);
      assert x[7..] == t + ("]." + b);
    }
    DigitPrefixUnique(s, t, "]." + a, "]." + b);
    Names.NatToStringInjective(i, j);
    assert ("]." + a)[2..] == a;
    assert ("]." + b)[2..] == b;
  }

  lemma ConcatAt(s: string, u: string, i: int)
    ensures 0 <= i < |s| ==> (s + u)[i] == s[i]
    ensures |s| <= i < |s| + |u| ==> (s + u)[i] == u[i - |s|]
  {
  }

  /** A digit string followed by a string that starts with a non-digit is split uniquely. */
  lemma DigitPrefixUnique(s: string, t: string, u: string, v: string)
    requires Names.AllDigits(s) && Names.AllDigits(t)
    requires |u| > 0 && |v| > 0 && !Names.IsDigit(u[0]) && !Names.IsDigit(v[0])
    requires s + u == t + v
    ensures s == t && u == v
  {
    if |s| < |t| {
      ConcatAt(s, u, |s|);
      ConcatAt(t, v, |s|);
      assert false;
    } else if |t| < |s| {
      ConcatAt(s, u, |t|);
      ConcatAt(t, v, |t|);
      assert false;
    }
    assert s == (s + u)[..|s|] == (t + v)[..|t|] == t;
    assert u == (s + u)[|s|..] == (t + v)[|t|..] == v;
  }

  lemma LightKeysDistinct()
    ensures forall k, l :: 0 <= k < l < |LightKeys| ==> LightKeys[k] != LightKeys[l]
  {
  }

  /** No uniform is written twice in one upload. */
  lemma UploadNamesDistinct(lights: seq<(Transform, Light)>)
    ensures var r := UploadLights(lights);
      forall a, b :: 0 <= a < b < |r| ==> r[a].SetUniform? && r[b].SetUniform? && r[a].name != r[b].name
  {
    var r := UploadLights(lights);
    forall a, b | 0 <= a < b < |r| ensures r[a].SetUniform? && r[b].SetUniform? && r[a].name != r[b].name {
      var i, k := a / UniformsPerLight, a % UniformsPerLight;
      assert a == UniformsPerLight * i + k;
      if b == |r| - 1 {
        assert r[a].name == LightUniformName(i, LightKeys[k]);
        assert r[a].name[0] == 'l' != 'n' == r[b].name[0];
      } else {
        var j, l := b / UniformsPerLight, b % UniformsPerLight;
        assert b == UniformsPerLight * j + l;
        if r[a].name == r[b].name {
          LightUniformNameInjective(i, j, LightKeys[k], LightKeys[l]);
          LightKeysDistinct();
          assert false;
        }
      }
    }
  }

  /** Five lights are all uploaded and counted, although the shader has room for four. */
  lemma CountNotCapped(lights: seq<(Transform, Light)>)
    requires |lights| == 5
    ensures UploadLights(lights)[UniformsPerLight * 5] == SetUniform("numberOfLights", IntValue(5))
    ensures 5 > MaxShaderLights
  {
  }
}
