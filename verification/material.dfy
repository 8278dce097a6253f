/** The material upload of the PBR shader: seven scalar uniforms, then five texture slots, each
    with a presence flag, a fixed sampler unit and, when present, a texture binding. */
module MaterialUpload {
  import opened Wrappers
  import opened Geometry
  import opened Scene
  import opened Gl

  /** The texture slots, in unit order. */
  const Descriptors: seq<string> := ["Diffuse", "Physical", "Normal", "Occlusion", "Emissive"]

  const SlotCount: nat := 5

  /** Number of uniforms written before the texture slots. */
  const ScalarUniformCount: nat := 7

  /** The material's texture index for a descriptor name; `None` is the lookup failure the code
      reports as an error. */
  function TextureIndexFor(m: Material, descriptor: string): Option<int> {
    if descriptor == "Diffuse" then Some(m.colorTextureIndex)
    else if descriptor == "Physical" then Some(m.metallicRoughnessTextureIndex)
    else if descriptor == "Normal" then Some(m.normalTextureIndex)
    else if descriptor == "Occlusion" then Some(m.occlusionTextureIndex)
    else if descriptor == "Emissive" then Some(m.emissiveTextureIndex)
    else None
  }

  /** The lookup failure cannot happen: every descriptor in the slot list resolves. */
  lemma DescriptorsResolve(m: Material)
    ensures forall slot :: 0 <= slot < SlotCount ==> TextureIndexFor(m, Descriptors[slot]).Some?
  {
  }

  /** The texture index read for a slot. */
  function SlotIndex(m: Material, slot: nat): int
    requires slot < SlotCount
  {
    match slot
    case 0 => m.colorTextureIndex
    case 1 => m.metallicRoughnessTextureIndex
    case 2 => m.normalTextureIndex
    case 3 => m.occlusionTextureIndex
    case _ => m.emissiveTextureIndex
  }

  /** The fixed slot table: Diffuse 0 (colour), Physical 1 (metallic-roughness), Normal 2,
      Occlusion 3, Emissive 4. */
  lemma SlotTable(m: Material)
    ensures forall slot :: 0 <= slot < SlotCount ==> TextureIndexFor(m, Descriptors[slot]) == Some(SlotIndex(m, slot))
  {
  }

  predicate HasTexture(index: int) { index > -1 }

  /** A material whose texture indices are all usable with `textureCount` textures. */
  predicate TexturesInRange(m: Material, textureCount: nat) {
    forall slot :: 0 <= slot < SlotCount && HasTexture(SlotIndex(m, slot)) ==> SlotIndex(m, slot) < textureCount
  }

  function HasUniformName(slot: nat): string
    requires slot < SlotCount
  {
    "material.has" + Descriptors[slot] + "Texture"
  }

  function SamplerUniformName(slot: nat): string
    requires slot < SlotCount
  {
    Descriptors[slot] + "Texture"
  }

  /** The leading scalar fields of the shader's `Material` struct, in declaration order. */
  const ShaderMaterialFields: seq<string> :=
    ["baseColorFactor", "emissiveFactor", "alphaMode", "alphaCutoff", "occlusionStrength",
     "metallicFactor", "roughnessFactor"]

  /** The uniform that sets shader material field `i`. */
  function ScalarUniformName(i: nat): string
    requires i < ScalarUniformCount
  {
    "material." + ShaderMaterialFields[i]
  }

  /** The scalar writes, one per leading field of the shader's material struct, in field order.
      The emissive factor is widened with w = 0; the alpha mode goes as its discriminant. */
  function ScalarCalls(m: Material): (r: seq<Call>)
    ensures |r| == ScalarUniformCount
    ensures forall i :: 0 <= i < ScalarUniformCount ==> r[i].SetUniform? && r[i].name == ScalarUniformName(i)
    ensures r[0].value == Vec4Value(m.baseColorFactor)
    ensures r[1].value == Vec4Value(Vec4(m.emissiveFactor.x, m.emissiveFactor.y, m.emissiveFactor.z, 0.0))
    ensures r[2].value == AlphaModeValue(m.alphaMode)
    ensures r[3].value == FloatValue(m.alphaCutoff)
    ensures r[4].value == FloatValue(m.occlusionStrength)
    ensures r[5].value == FloatValue(m.metallicFactor)
    ensures r[6].value == FloatValue(m.roughnessFactor)
  {
    [ SetUniform(ScalarUniformName(0), Vec4Value(m.baseColorFactor)),
      SetUniform(ScalarUniformName(1), Vec4Value(Extend(m.emissiveFactor))),
      SetUniform(ScalarUniformName(2), AlphaModeValue(m.alphaMode)),
      SetUniform(ScalarUniformName(3), FloatValue(m.alphaCutoff)),
      SetUniform(ScalarUniformName(4), FloatValue(m.occlusionStrength)),
      SetUniform(ScalarUniformName(5), FloatValue(m.metallicFactor)),
      SetUniform(ScalarUniformName(6), FloatValue(m.roughnessFactor)) ]
  }

  /** A call slot `slot` may issue: its flag, its sampler unit, or a texture binding. */
  predicate SlotCall(m: Material, slot: nat, c: Call)
    requires slot < SlotCount
  {
    || c == SetUniform(HasUniformName(slot), BoolValue(HasTexture(SlotIndex(m, slot))))
    || c == SetUniform(SamplerUniformName(slot), IntValue(slot))
    || c.BindTexture?
  }

  /** Every write of uniform `name` in `calls` writes `value`, and at least one does. */
  predicate WritesExactly(calls: seq<Call>, name: string, value: UniformValue) {
    && SetUniform(name, value) in calls
    && forall c :: c in calls && c.SetUniform? && c.name == name ==> c.value == value
  }

  /** One slot: the presence flag, the sampler unit, and the binding when a texture is present.
      An index at or past the end of the texture table fails the upload (the program panics
      on that index). */
  function SlotCalls(m: Material, textureCount: nat, slot: nat): (r: Result<seq<Call>, UploadError>)
    requires slot < SlotCount
    ensures r.Ok? <==> !HasTexture(SlotIndex(m, slot)) || SlotIndex(m, slot) < textureCount
    ensures r.Ok? ==> SetUniform(HasUniformName(slot), BoolValue(HasTexture(SlotIndex(m, slot)))) in r.value
    ensures r.Ok? ==> SetUniform(SamplerUniformName(slot), IntValue(slot)) in r.value
    ensures r.Ok? ==> forall unit: nat, texture: nat :: BindTexture(unit, texture) in r.value <==>
      unit == slot && HasTexture(SlotIndex(m, slot)) && texture == SlotIndex(m, slot)
    ensures r.Ok? ==> forall c :: c in r.value ==> SlotCall(m, slot, c)
    ensures r.Err? ==> r.error == TextureIndexOutOfRange(slot, SlotIndex(m, slot))
  {
    var descriptor := Descriptors[slot];
    match TextureIndexFor(m, descriptor)
    case None => Err(UnknownDescriptor(descriptor))
    case Some(index) =>
      var hasTexture := index > -1;
      var flags := [SetUniform(HasUniformName(slot), BoolValue(hasTexture)),
                    SetUniform(SamplerUniformName(slot), IntValue(slot))];
      if !hasTexture then Ok(flags)
      else if index < textureCount then Ok(flags + [BindTexture(slot, index as nat)])
      else Err(TextureIndexOutOfRange(slot, index))
  }

  /** `update_material`: upload the scalar factors, then the five texture slots. The upload
      succeeds exactly when every present texture index lies inside the texture table; a
      texture is then bound to unit `i` exactly when slot `i` has one. */
  function UpdateMaterial(m: Material, textureCount: nat): (r: Result<seq<Call>, UploadError>)
    ensures r.Ok? <==> TexturesInRange(m, textureCount)
    ensures r.Ok? ==> |r.value| >= ScalarUniformCount && r.value[..ScalarUniformCount] == ScalarCalls(m)
    ensures r.Ok? ==> forall slot :: 0 <= slot < SlotCount ==>
      SetUniform(HasUniformName(slot), BoolValue(SlotIndex(m, slot) > -1)) in r.value &&
      SetUniform(SamplerUniformName(slot), IntValue(slot)) in r.value
    ensures r.Ok? ==> forall unit: nat, texture: nat :: BindTexture(unit, texture) in r.value <==>
      unit < SlotCount && SlotIndex(m, unit) > -1 && texture == SlotIndex(m, unit)
    ensures r.Err? ==> r.error.TextureIndexOutOfRange?
  {
    InRangeIffEverySlot(m, textureCount);
    var diffuse :- SlotCalls(m, textureCount, 0);
    var physical :- SlotCalls(m, textureCount, 1);
    var normal :- SlotCalls(m, textureCount, 2);
    var occlusion :- SlotCalls(m, textureCount, 3);
    var emissive :- SlotCalls(m, textureCount, 4);
    var slots := diffuse + physical + normal + occlusion + emissive;
    SlotFlagsPresent(m, textureCount, diffuse, physical, normal, occlusion, emissive);
    SlotBindings(m, textureCount, diffuse, physical, normal, occlusion, emissive);
    var calls := ScalarCalls(m) + slots;
    assert calls[..ScalarUniformCount] == ScalarCalls(m);
    Ok(calls)
  }

  /** Every slot's flag and sampler uniform is among the uploaded calls. */
  lemma SlotFlagsPresent(m: Material, textureCount: nat, s0: seq<Call>, s1: seq<Call>, s2: seq<Call>, s3: seq<Call>, s4: seq<Call>)
    requires SlotCalls(m, textureCount, 0) == Ok(s0) && SlotCalls(m, textureCount, 1) == Ok(s1)
    requires SlotCalls(m, textureCount, 2) == Ok(s2) && SlotCalls(m, textureCount, 3) == Ok(s3)
    requires SlotCalls(m, textureCount, 4) == Ok(s4)
    ensures forall slot :: 0 <= slot < SlotCount ==>
      SetUniform(HasUniformName(slot), BoolValue(SlotIndex(m, slot) > -1)) in ScalarCalls(m) + (s0 + s1 + s2 + s3 + s4) &&
      SetUniform(SamplerUniformName(slot), IntValue(slot)) in ScalarCalls(m) + (s0 + s1 + s2 + s3 + s4)
  {
    var all := ScalarCalls(m) + (s0 + s1 + s2 + s3 + s4);
    forall slot | 0 <= slot < SlotCount
      ensures SetUniform(HasUniformName(slot), BoolValue(SlotIndex(m, slot) > -1)) in all
      ensures SetUniform(SamplerUniformName(slot), IntValue(slot)) in all
    {
      var own := SlotCalls(m, textureCount, slot).value;
      assert forall c :: c in own ==> c in all;
    }
  }

  /** A successful upload writes each scalar, flag and sampler uniform with its value and
      never with another, and after the scalars issues only slot calls. */
  lemma UpdateMaterialWritesExactly(m: Material, textureCount: nat)
    requires TexturesInRange(m, textureCount)
    ensures UpdateMaterial(m, textureCount).Ok?
    ensures forall slot :: 0 <= slot < SlotCount ==>
      && WritesExactly(UpdateMaterial(m, textureCount).value, HasUniformName(slot), BoolValue(SlotIndex(m, slot) > -1))
      && WritesExactly(UpdateMaterial(m, textureCount).value, SamplerUniformName(slot), IntValue(slot))
    ensures forall i :: 0 <= i < ScalarUniformCount ==>
      WritesExactly(UpdateMaterial(m, textureCount).value, ScalarUniformName(i), ScalarCalls(m)[i].value)
    ensures forall c :: c in UpdateMaterial(m, textureCount).value[ScalarUniformCount..] ==>
      exists slot :: 0 <= slot < SlotCount && SlotCall(m, slot, c)
  {
    var s0 := SlotCalls(m, textureCount, 0).value;
    var s1 := SlotCalls(m, textureCount, 1).value;
    var s2 := SlotCalls(m, textureCount, 2).value;
    var s3 := SlotCalls(m, textureCount, 3).value;
    var s4 := SlotCalls(m, textureCount, 4).value;
    SlotUniformsExact(m, textureCount, s0, s1, s2, s3, s4);
    ScalarUniformsExact(m, textureCount, s0, s1, s2, s3, s4);
    var r := UpdateMaterial(m, textureCount).value;
    assert r[ScalarUniformCount..] == s0 + s1 + s2 + s3 + s4;
    forall c | c in r[ScalarUniformCount..] ensures exists slot :: 0 <= slot < SlotCount && SlotCall(m, slot, c) {
      var j := if c in s0 then 0 else if c in s1 then 1 else if c in s2 then 2 else if c in s3 then 3 else 4;
      assert c in SlotCalls(m, textureCount, j).value;
      assert SlotCall(m, j, c);
    }
  }

  /** Across the whole upload, each scalar uniform is written once, with its value: no other
      scalar and no slot call shares its name. */
  lemma ScalarUniformsExact(m: Material, textureCount: nat, s0: seq<Call>, s1: seq<Call>, s2: seq<Call>, s3: seq<Call>, s4: seq<Call>)
    requires SlotCalls(m, textureCount, 0) == Ok(s0) && SlotCalls(m, textureCount, 1) == Ok(s1)
    requires SlotCalls(m, textureCount, 2) == Ok(s2) && SlotCalls(m, textureCount, 3) == Ok(s3)
    requires SlotCalls(m, textureCount, 4) == Ok(s4)
    ensures forall i :: 0 <= i < ScalarUniformCount ==>
      WritesExactly(ScalarCalls(m) + (s0 + s1 + s2 + s3 + s4), ScalarUniformName(i), ScalarCalls(m)[i].value)
  {
    var scalars := ScalarCalls(m);
    var all := scalars + (s0 + s1 + s2 + s3 + s4);
    forall i, c | 0 <= i < ScalarUniformCount && c in all && c.SetUniform?
      ensures c.name == ScalarUniformName(i) ==> c.value == scalars[i].value
    {
      if c in scalars {
        var k :| 0 <= k < |scalars| && scalars[k] == c;
        if k != i {
          ScalarNamesDistinct(k, i);
        }
      } else {
        assert c in s0 || c in s1 || c in s2 || c in s3 || c in s4;
        var j := if c in s0 then 0 else if c in s1 then 1 else if c in s2 then 2 else if c in s3 then 3 else 4;
        assert c in SlotCalls(m, textureCount, j).value;
        assert SlotCall(m, j, c);
        ScalarNameIsNotSlotName(j, i);
      }
    }
    forall i | 0 <= i < ScalarUniformCount ensures SetUniform(ScalarUniformName(i), scalars[i].value) in all {
      assert all[i] == scalars[i];
    }
  }

  /** The seven scalar uniform names differ pairwise: the field names differ at their sixth
      character. */
  lemma ScalarNamesDistinct(i: nat, j: nat)
    requires i < ScalarUniformCount && j < ScalarUniformCount && i != j
    ensures ScalarUniformName(i) != ScalarUniformName(j)
  {
    assert ScalarUniformName(i)[14] == ShaderMaterialFields[i][5];
    assert ScalarUniformName(j)[14] == ShaderMaterialFields[j][5];
  }

  /** Across the whole upload, each flag and sampler uniform is written, and only with its
      slot's value: no scalar write and no other slot's write shares its name. */
  lemma SlotUniformsExact(m: Material, textureCount: nat, s0: seq<Call>, s1: seq<Call>, s2: seq<Call>, s3: seq<Call>, s4: seq<Call>)
    requires SlotCalls(m, textureCount, 0) == Ok(s0) && SlotCalls(m, textureCount, 1) == Ok(s1)
    requires SlotCalls(m, textureCount, 2) == Ok(s2) && SlotCalls(m, textureCount, 3) == Ok(s3)
    requires SlotCalls(m, textureCount, 4) == Ok(s4)
    ensures forall slot :: 0 <= slot < SlotCount ==>
      && WritesExactly(ScalarCalls(m) + (s0 + s1 + s2 + s3 + s4), HasUniformName(slot), BoolValue(SlotIndex(m, slot) > -1))
      && WritesExactly(ScalarCalls(m) + (s0 + s1 + s2 + s3 + s4), SamplerUniformName(slot), IntValue(slot))
  {
    var scalars := ScalarCalls(m);
    var all := scalars + (s0 + s1 + s2 + s3 + s4);
    SlotFlagsPresent(m, textureCount, s0, s1, s2, s3, s4);
    UniformNamesDistinct();
    forall slot, c | 0 <= slot < SlotCount && c in all && c.SetUniform?
      ensures c.name == HasUniformName(slot) ==> c.value == BoolValue(SlotIndex(m, slot) > -1)
      ensures c.name == SamplerUniformName(slot) ==> c.value == IntValue(slot)
    {
      if c in scalars {
        var i :| 0 <= i < |scalars| && scalars[i] == c;
        ScalarNameIsNotSlotName(slot, i);
      } else {
        assert c in s0 || c in s1 || c in s2 || c in s3 || c in s4;
        var j := if c in s0 then 0 else if c in s1 then 1 else if c in s2 then 2 else if c in s3 then 3 else 4;
        assert c in SlotCalls(m, textureCount, j).value;
        SlotCallValue(m, slot, j, c);
      }
    }
  }

  /** A call slot `j` issues that carries the flag or sampler name of slot `slot` carries that
      slot's value. */
  lemma SlotCallValue(m: Material, slot: nat, j: nat, c: Call)
    requires slot < SlotCount && j < SlotCount
    requires SlotCall(m, j, c) && c.SetUniform?
    ensures c.name == HasUniformName(slot) ==> c.value == BoolValue(SlotIndex(m, slot) > -1)
    ensures c.name == SamplerUniformName(slot) ==> c.value == IntValue(slot)
  {
    UniformNamesDistinct();
    if j != slot {
      SlotNamesDistinct(j, slot);
    }
  }

  lemma SlotNamesDistinct(a: nat, b: nat)
    requires a < SlotCount && b < SlotCount && a != b
    ensures HasUniformName(a) != HasUniformName(b) && SamplerUniformName(a) != SamplerUniformName(b)
  {
    assert HasUniformName(a)[12] == Descriptors[a][0];
    assert HasUniformName(b)[12] == Descriptors[b][0];
    assert SamplerUniformName(a)[0] == Descriptors[a][0];
    assert SamplerUniformName(b)[0] == Descriptors[b][0];
  }

  lemma ScalarNameIsNotSlotName(slot: nat, i: nat)
    requires slot < SlotCount && i < ScalarUniformCount
    ensures HasUniformName(slot) != ScalarUniformName(i) && SamplerUniformName(slot) != ScalarUniformName(i)
  {
    assert HasUniformName(slot)[9] == 'h';
    assert ScalarUniformName(i)[9] == ShaderMaterialFields[i][0];
    assert SamplerUniformName(slot)[0] == Descriptors[slot][0];
    assert ScalarUniformName(i)[0] == 'm';
  }

  /** The uniform names of one material upload: scalar, flag and sampler names never meet, and
      no two slots share a flag or sampler name. */
  lemma UniformNamesDistinct()
    ensures forall slot, i :: 0 <= slot < SlotCount && 0 <= i < ScalarUniformCount ==>
      HasUniformName(slot) != ScalarUniformName(i) && SamplerUniformName(slot) != ScalarUniformName(i)
    ensures forall a, b :: 0 <= a < SlotCount && 0 <= b < SlotCount ==> HasUniformName(a) != SamplerUniformName(b)
    ensures forall a, b :: 0 <= a < b < SlotCount ==>
      HasUniformName(a) != HasUniformName(b) && SamplerUniformName(a) != SamplerUniformName(b)
  {
    forall slot, i | 0 <= slot < SlotCount && 0 <= i < ScalarUniformCount
      ensures HasUniformName(slot) != ScalarUniformName(i) && SamplerUniformName(slot) != ScalarUniformName(i)
    {
      ScalarNameIsNotSlotName(slot, i);
    }
    forall a, b | 0 <= a < SlotCount && 0 <= b < SlotCount ensures HasUniformName(a) != SamplerUniformName(b) {
      assert HasUniformName(a)[0] == 'm';
      assert SamplerUniformName(b)[0] == Descriptors[b][0];
    }
    forall a, b | 0 <= a < b < SlotCount
      ensures HasUniformName(a) != HasUniformName(b) && SamplerUniformName(a) != SamplerUniformName(b)
    {
      SlotNamesDistinct(a, b);
    }
  }

  /** Across the whole upload, a texture is bound to unit `u` exactly when slot `u` has one. */
  lemma SlotBindings(m: Material, textureCount: nat, s0: seq<Call>, s1: seq<Call>, s2: seq<Call>, s3: seq<Call>, s4: seq<Call>)
    requires SlotCalls(m, textureCount, 0) == Ok(s0) && SlotCalls(m, textureCount, 1) == Ok(s1)
    requires SlotCalls(m, textureCount, 2) == Ok(s2) && SlotCalls(m, textureCount, 3) == Ok(s3)
    requires SlotCalls(m, textureCount, 4) == Ok(s4)
    ensures forall unit: nat, texture: nat :: BindTexture(unit, texture) in ScalarCalls(m) + (s0 + s1 + s2 + s3 + s4) <==>
      unit < SlotCount && SlotIndex(m, unit) > -1 && texture == SlotIndex(m, unit)
  {
    var scalars := ScalarCalls(m);
    forall unit: nat, texture: nat
      ensures BindTexture(unit, texture) in scalars + (s0 + s1 + s2 + s3 + s4) <==>
        unit < SlotCount && SlotIndex(m, unit) > -1 && texture == SlotIndex(m, unit)
    {
      var b := BindTexture(unit, texture);
      assert b !in scalars;
      assert b in scalars + (s0 + s1 + s2 + s3 + s4) <==> b in s0 || b in s1 || b in s2 || b in s3 || b in s4;
    }
  }

  lemma InRangeIffEverySlot(m: Material, textureCount: nat)
    ensures TexturesInRange(m, textureCount) <==>
      SlotCalls(m, textureCount, 0).Ok? && SlotCalls(m, textureCount, 1).Ok? &&
      SlotCalls(m, textureCount, 2).Ok? && SlotCalls(m, textureCount, 3).Ok? &&
      SlotCalls(m, textureCount, 4).Ok?
  {
    if SlotCalls(m, textureCount, 0).Ok? && SlotCalls(m, textureCount, 1).Ok? &&
       SlotCalls(m, textureCount, 2).Ok? && SlotCalls(m, textureCount, 3).Ok? &&
       SlotCalls(m, textureCount, 4).Ok? {
      forall slot | 0 <= slot < SlotCount && HasTexture(SlotIndex(m, slot))
        ensures SlotIndex(m, slot) < textureCount
      {
        assert SlotCalls(m, textureCount, slot).Ok?;
      }
    }
  }
}
