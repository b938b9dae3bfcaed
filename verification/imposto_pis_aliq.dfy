/**
 * The descriptor of `ImpostoPisAliq`, the PIS tax group computed by rate: four fields,
 * each marked `[DFeElement]` and none with an `Ordem`. It shows the ordering rule of
 * `Serialize(object, ...)` on a real type: with equal keys everywhere, the stable order
 * keeps the declaration order CST, vBC, pPIS, vPIS.
 */
module ImpostoPisAliqFixture {
  import opened Wrappers
  import opened Descriptors
  import opened PropertyOrder
  import opened ObjectSerializer
  import opened ObjectSerializerFacts

  const TypeName: TypeName := "ImpostoPisAliq"

  /** A `[DFeElement]` field of the type, without `Ordem` (so its base `Ordem` is 0) and without namespace. */
  function Field(name: string, tag: string, propertyType: TypeName, ocorrencia: Ocorrencia): Property {
    Property(name, TypeName, propertyType, Some(0), false, true, true, Some(ElementTag(tag, None, ocorrencia)), None, None)
  }

  const Cst := Field("Cst", "CST", "string", Obrigatoria)
  const VBc := Field("VBc", "vBC", "decimal", Obrigatoria)
  const PPis := Field("PPis", "pPIS", "decimal", Obrigatoria)
  const VPis := Field("VPis", "vPIS", "decimal", MaiorQueZero)

  const Descriptor := TypeDesc(TypeName, [Cst, VBc, PPis, VPis], None)

  /**
   * An instance whose four fields all want to be written is emitted field by field in
   * declaration order: CST, vBC, pPIS, vPIS.
   */
  lemma DeclarationOrderOfTags(env: Env, value: Value)
    requires env.schema(TypeName) == Descriptor
    requires env.svc.shouldSerialize(Cst, value) && env.svc.shouldSerialize(VBc, value)
    requires env.svc.shouldSerialize(PPis, value) && env.svc.shouldSerialize(VPis, value)
    ensures VisibleProperties(env, TypeName, value) == [Cst, VBc, PPis, VPis]
  {
    DeclarationOrderKept(env, TypeName, value);
  }

  /**
   * An instance that declines to write one field loses only that field; the others keep
   * their declaration order.
   */
  lemma DeclinedFieldDropped(env: Env, value: Value)
    requires env.schema(TypeName) == Descriptor
    requires !env.svc.shouldSerialize(VBc, value)
    requires env.svc.shouldSerialize(Cst, value) && env.svc.shouldSerialize(PPis, value)
    requires env.svc.shouldSerialize(VPis, value)
    ensures VisibleProperties(env, TypeName, value) == [Cst, PPis, VPis]
  {
    var props := env.schema(TypeName).properties;
    var kept := Passing(env, props, value);
    assert props[1..][1..][1..][1..] == [];
    assert Passing(env, props[1..][1..][1..], value) == [VPis];
    assert Passing(env, props[1..][1..], value) == [PPis, VPis];
    assert Passing(env, props[1..], value) == [PPis, VPis];
    assert kept == [Cst, PPis, VPis];
    SameKeySorted(kept, 0);
    PassingOrderKept(env, TypeName, value);
  }
}
