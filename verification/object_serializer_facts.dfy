/**
 * What `ObjectSerializer` promises, proved about the functions that define it.
 */
module ObjectSerializerFacts {
  import opened Wrappers
  import opened Xml
  import opened Descriptors
  import opened Failures
  import opened PropertyOrder
  import opened ObjectSerializer

  // ------------------------------------------------------- property order

  /** The filter keeps exactly the properties that are not ignored and that the instance wants written. */
  lemma {:induction false} PassingMembers(env: Env, props: seq<Property>, value: Value)
    ensures forall p :: p in Passing(env, props, value) <==> p in props && Passes(env, p, value)
  {
    if props != [] {
      PassingMembers(env, props[1..], value);
      assert props == [props[0]] + props[1..];
    }
  }

  /**
   * `Serialize(object, ...)` visits exactly the declared properties that are not
   * ignored and that the instance wants written, in ascending `Ordem` (0 when there is
   * none), each as often as it is declared, and in declaration order among equal `Ordem`.
   * So the re-check inside the loop never skips a property.
   */
  lemma VisiblePropertiesOrder(env: Env, tipo: TypeName, value: Value)
    ensures forall p :: p in VisibleProperties(env, tipo, value) <==>
                        p in env.schema(tipo).properties && Passes(env, p, value)
    ensures Sorted(VisibleProperties(env, tipo, value))
    ensures multiset(VisibleProperties(env, tipo, value)) ==
            multiset(Passing(env, env.schema(tipo).properties, value))
    ensures forall k :: WithKey(VisibleProperties(env, tipo, value), k) ==
                        WithKey(Passing(env, env.schema(tipo).properties, value), k)
  {
    var declared := Passing(env, env.schema(tipo).properties, value);
    var r := VisibleProperties(env, tipo, value);
    PassingMembers(env, env.schema(tipo).properties, value);
    OrderByOrdemSorts(declared);
    forall p ensures p in r <==> p in declared {
      assert p in r <==> p in multiset(r);
      assert p in declared <==> p in multiset(declared);
    }
  }

  /** When every property of `props` passes the filter, filtering keeps them all, in order. */
  lemma {:induction false} PassingAll(env: Env, props: seq<Property>, value: Value)
    requires forall i :: 0 <= i < |props| ==> Passes(env, props[i], value)
    ensures Passing(env, props, value) == props
  {
    if props != [] {
      PassingAll(env, props[1..], value);
      assert [props[0]] + props[1..] == props;
    }
  }

  /**
   * A type whose properties are declared in ascending `Ordem` (in particular, one where
   * no property sets it) and all pass the filter is written in declaration order.
   */
  lemma DeclarationOrderKept(env: Env, tipo: TypeName, value: Value)
    requires Sorted(env.schema(tipo).properties)
    requires forall i :: 0 <= i < |env.schema(tipo).properties| ==> Passes(env, env.schema(tipo).properties[i], value)
    ensures VisibleProperties(env, tipo, value) == env.schema(tipo).properties
  {
    PassingAll(env, env.schema(tipo).properties, value);
    SortedInputUnchanged(env.schema(tipo).properties);
  }

  /** When the properties that pass are already in ascending `Ordem`, they are written as declared. */
  lemma PassingOrderKept(env: Env, tipo: TypeName, value: Value)
    requires Sorted(Passing(env, env.schema(tipo).properties, value))
    ensures VisibleProperties(env, tipo, value) == Passing(env, env.schema(tipo).properties, value)
  {
    SortedInputUnchanged(Passing(env, env.schema(tipo).properties, value));
  }

  // -------------------------------------------------------- node filing

  /**
   * The nodes the visible properties produce, one property after another; a property
   * that yields null contributes none.
   */
  function Contributions(env: Env, props: seq<Property>, value: Value): Result<seq<XNode>, Failure> {
    if props == [] then Ok([])
    else
      var head := if Passes(env, props[0], value) then SerializeProperty(env, props[0], value) else Ok(None);
      match head
      case Err(f) => Err(f)
      case Ok(produced) =>
        match Contributions(env, props[1..], value)
        case Err(f) => Err(f)
        case Ok(rest) => Ok((if produced.Some? then produced.value else []) + rest)
  }

  lemma NoTextAppend(a: seq<XNode>, b: seq<XNode>)
    ensures NoText(a + b) <==> NoText(a) && NoText(b)
  {
    assert forall x :: x in a + b <==> x in a || x in b;
  }

  /** A property that is skipped or yields null leaves both the loop and the contributions unchanged. */
  lemma EmitSkips(env: Env, props: seq<Property>, value: Value, acc: XElement)
    requires props != []
    requires !Passes(env, props[0], value) || SerializeProperty(env, props[0], value) == Ok(None)
    ensures Emit(env, props, value, acc) == Emit(env, props[1..], value, acc)
    ensures Contributions(env, props, value) == Contributions(env, props[1..], value)
  {
    var rest := Contributions(env, props[1..], value);
    if rest.Ok? {
      assert [] + rest.value == rest.value;
    }
  }

  /** A property that yields nodes files them before the loop goes on, and contributes them first. */
  lemma EmitFiles(env: Env, props: seq<Property>, value: Value, acc: XElement, nodes: seq<XNode>)
    requires props != [] && Passes(env, props[0], value)
    requires SerializeProperty(env, props[0], value) == Ok(Some(nodes))
    ensures File(acc, nodes).Err? ==> Emit(env, props, value, acc) == Err(File(acc, nodes).error)
    ensures File(acc, nodes).Ok? ==> Emit(env, props, value, acc) == Emit(env, props[1..], value, File(acc, nodes).value)
    ensures Contributions(env, props[1..], value).Err? ==>
            Contributions(env, props, value) == Err(Contributions(env, props[1..], value).error)
    ensures Contributions(env, props[1..], value).Ok? ==>
            Contributions(env, props, value) == Ok(nodes + Contributions(env, props[1..], value).value)
  {
  }

  /** The filing property of the loop, for one suffix of the properties and one accumulated element. */
  predicate FilesContributions(env: Env, props: seq<Property>, value: Value, acc: XElement) {
    var e := Emit(env, props, value, acc);
    var c := Contributions(env, props, value);
    (e.Ok? <==> c.Ok? && NoText(c.value)) &&
    (e.Ok? ==> e.value == Element(acc.name, acc.children + ElementNodes(c.value), acc.attrs + AttributeNodes(c.value)))
  }

  /** A property that is skipped or yields null keeps the filing property of the rest. */
  lemma SkipStep(env: Env, props: seq<Property>, value: Value, acc: XElement)
    requires props != []
    requires !Passes(env, props[0], value) || SerializeProperty(env, props[0], value) == Ok(None)
    requires FilesContributions(env, props[1..], value, acc)
    ensures FilesContributions(env, props, value, acc)
  {
    EmitSkips(env, props, value, acc);
  }

  /** A property that yields nodes files them, and the rest is filed onto the grown element. */
  lemma FilingStep(env: Env, props: seq<Property>, value: Value, acc: XElement, nodes: seq<XNode>)
    requires props != [] && Passes(env, props[0], value)
    requires SerializeProperty(env, props[0], value) == Ok(Some(nodes))
    requires File(acc, nodes).Ok? ==> FilesContributions(env, props[1..], value, File(acc, nodes).value)
    ensures FilesContributions(env, props, value, acc)
  {
    EmitFiles(env, props, value, acc, nodes);
    var rest := Contributions(env, props[1..], value);
    if rest.Ok? {
      NoTextAppend(nodes, rest.value);
    }
    var filed := File(acc, nodes);
    if filed.Ok? {
      FileAppends(acc, nodes);
      if rest.Ok? {
        ElementNodesAppend(nodes, rest.value);
        AttributeNodesAppend(nodes, rest.value);
      }
    }
  }

  /**
   * The loop of `Serialize(object, ...)` succeeds exactly when every visited property
   * succeeds and none produces a node that is neither element nor attribute; the
   * element then gains every produced element as a child and every produced attribute
   * as an attribute, both in production order.
   */
  lemma {:induction false} EmitFilesContributions(env: Env, props: seq<Property>, value: Value, acc: XElement)
    ensures Emit(env, props, value, acc).Ok? <==>
            Contributions(env, props, value).Ok? && NoText(Contributions(env, props, value).value)
    ensures Emit(env, props, value, acc).Ok? ==>
            Emit(env, props, value, acc).value ==
            Element(acc.name, acc.children + ElementNodes(Contributions(env, props, value).value),
                              acc.attrs + AttributeNodes(Contributions(env, props, value).value))
    decreases |props|
  {
    if props == [] {
      assert acc == Element(acc.name, acc.children, acc.attrs);
    } else if !Passes(env, props[0], value) || SerializeProperty(env, props[0], value) == Ok(None) {
      EmitFilesContributions(env, props[1..], value, acc);
      SkipStep(env, props, value, acc);
    } else if SerializeProperty(env, props[0], value).Ok? {
      var nodes := SerializeProperty(env, props[0], value).value.value;
      if File(acc, nodes).Ok? {
        EmitFilesContributions(env, props[1..], value, File(acc, nodes).value);
      }
      FilingStep(env, props, value, acc, nodes);
    }
  }

  /**
   * Element shape: `Serialize(object, tipo, name, nameSpace)` yields an element named
   * `name` in `nameSpace` (empty when null) whose children are the elements and whose
   * attributes are the attributes the visible properties produce, in order; it fails
   * exactly when a property fails or produces a node of another kind.
   */
  lemma ObjectElementContent(env: Env, value: Value, tipo: TypeName, name: string, ns: Option<string>)
    ensures var c := Contributions(env, VisibleProperties(env, tipo, value), value);
            ObjectElement(env, value, tipo, name, ns).Ok? <==> c.Ok? && NoText(c.value)
    ensures var c := Contributions(env, VisibleProperties(env, tipo, value), value);
            ObjectElement(env, value, tipo, name, ns).Ok? ==>
            ObjectElement(env, value, tipo, name, ns).value ==
            Element(XName(NsOrEmpty(ns), name), ElementNodes(c.value), AttributeNodes(c.value))
  {
    var start: XElement := Element(XName(NsOrEmpty(ns), name), [], []);
    var props := VisibleProperties(env, tipo, value);
    EmitFilesContributions(env, props, value, start);
    assert ObjectElement(env, value, tipo, name, ns).Ok? <==> Emit(env, props, value, start).Ok?;
  }

  // ------------------------------------------------ per-property serialize

  /** An interface- or abstract-classified property whose value is null contributes nothing. */
  lemma InterfaceNullSuppressed(env: Env, prop: Property, parent: Value)
    requires env.svc.classify(prop.propertyType) in {InterfaceType, AbstractType}
    requires GetValue(parent, prop) == Ok(Null)
    ensures SerializeProperty(env, prop, parent) == Ok(None)
  {
  }

  /**
   * A class-classified property with `[DFeElement]` contributes nothing exactly when
   * it is `NaoObrigatoria` and null; otherwise, on success, one element named and
   * namespaced by its `[DFeElement]`.
   */
  lemma ClassPropertyElement(env: Env, prop: Property, parent: Value, value: Value)
    requires env.svc.classify(prop.propertyType) == ClassType
    requires prop.element.Some?
    requires GetValue(parent, prop) == Ok(value)
    ensures SerializeProperty(env, prop, parent) == Ok(None) <==>
            prop.element.value.ocorrencia == NaoObrigatoria && value == Null
    ensures var r := SerializeProperty(env, prop, parent);
            r.Ok? && r.value.Some? ==>
              |r.value.value| == 1 && r.value.value[0].Element? &&
              r.value.value[0].name == XName(NsOrEmpty(prop.element.value.ns), prop.element.value.name)
  {
    var tag := prop.element.value;
    assert PropertyNodes(env, prop, parent) == TaggedElement(env, tag, prop.propertyType, value);
    var inner := ObjectElement(env, value, prop.propertyType, tag.name, tag.ns);
    if inner.Ok? && !(tag.ocorrencia == NaoObrigatoria && value == Null) {
      assert SerializeProperty(env, prop, parent) == Ok(Some([inner.value]));
    }
  }

  /** A class-classified property without `[DFeElement]` fails with a null reference once its value is read. */
  lemma ClassPropertyWithoutElementFails(env: Env, prop: Property, parent: Value)
    requires env.svc.classify(prop.propertyType) == ClassType
    requires prop.element.None?
    requires prop.gettable && HasProperty(parent, prop)
    ensures SerializeProperty(env, prop, parent).Err?
    ensures SerializeProperty(env, prop, parent).error.cause == NullReference
  {
  }

  /**
   * A property without a get accessor, read by every strategy except the dictionary
   * and collection ones, fails with an argument failure behind the property's frame.
   */
  lemma WriteOnlyPropertyFails(env: Env, prop: Property, parent: Value)
    requires env.svc.classify(prop.propertyType) !in {DictionaryType, ListType, ArrayType, EnumerableType}
    requires !prop.gettable
    ensures SerializeProperty(env, prop, parent) ==
            Err(Failure(Argument, [SerializingProperty(prop.declaringType, prop.name)]))
  {
    assert [SerializingProperty(prop.declaringType, prop.name)] + [] == [SerializingProperty(prop.declaringType, prop.name)];
  }

  /** A root-classified property that carries `[DFeElement]` is serialized by the class rule. */
  lemma RootWithElementIsClass(env: Env, prop: Property, parent: Value, value: Value)
    requires env.svc.classify(prop.propertyType) in {ClassType, RootType}
    requires prop.element.Some?
    requires GetValue(parent, prop) == Ok(value)
    ensures PropertyNodes(env, prop, parent) ==
            TaggedElement(env, prop.element.value, prop.propertyType, value)
  {
  }

  /**
   * A root-classified property without `[DFeElement]`: nothing for a null value; a
   * failure when the type has no `[DFeRoot]`; otherwise one element in the root
   * namespace, named by the root name, else `GetRootName(value)`, else the type name.
   */
  lemma RootPropertyNaming(env: Env, prop: Property, parent: Value, value: Value)
    requires env.svc.classify(prop.propertyType) == RootType
    requires prop.element.None?
    requires GetValue(parent, prop) == Ok(value)
    ensures value == Null ==> SerializeProperty(env, prop, parent) == Ok(None)
    ensures value != Null && env.schema(prop.propertyType).root.None? ==>
            SerializeProperty(env, prop, parent).Err? &&
            SerializeProperty(env, prop, parent).error.cause == NullReference
    ensures var r := SerializeProperty(env, prop, parent);
            var t := prop.propertyType;
            value != Null && r.Ok? ==>
              env.schema(t).root.Some? && r.value.Some? && |r.value.value| == 1 &&
              var rootTag := env.schema(t).root.value;
              r.value.value[0].Element? && r.value.value[0].name.ns == NsOrEmpty(rootTag.ns) &&
              r.value.value[0].name.local ==
                if rootTag.name != "" then rootTag.name
                else if env.svc.rootName(t, value) != "" then env.svc.rootName(t, value)
                else env.schema(t).name
  {
    var t := prop.propertyType;
    if value != Null {
      assert PropertyNodes(env, prop, parent) == RootElement(env, t, value);
      if env.schema(t).root.Some? {
        var rootTag := env.schema(t).root.value;
        var inner := ObjectElement(env, value, t, RootElementName(env, t, rootTag, value), rootTag.ns);
        if inner.Ok? {
          assert SerializeProperty(env, prop, parent) == Ok(Some([inner.value]));
        }
      }
    }
  }

  /**
   * Failures keep their place: a nested object that fails makes its class property
   * fail with the same cause and the nested context, behind one frame naming the
   * declaring type and the property.
   */
  lemma NestedFailureKeepsContext(env: Env, prop: Property, parent: Value, value: Value, f: Failure)
    requires env.svc.classify(prop.propertyType) == ClassType
    requires prop.element.Some?
    requires GetValue(parent, prop) == Ok(value)
    requires !(prop.element.value.ocorrencia == NaoObrigatoria && value == Null)
    requires ObjectElement(env, value, prop.propertyType, prop.element.value.name, prop.element.value.ns) == Err(f)
    ensures SerializeProperty(env, prop, parent) ==
            Err(Failure(f.cause, [SerializingProperty(prop.declaringType, prop.name)] + f.context))
    ensures f.context != [] && f.context[0] == SerializingObject(value)
  {
    assert TaggedElement(env, prop.element.value, prop.propertyType, value) == Err(f);
    assert PropertyNodes(env, prop, parent) == Err(f);
  }

  // ---------------------------------------------------- deserialize object

  /**
   * With no element, `Deserialize(type, null)` returns the instance the registered
   * factory builds if there is one, else the default-constructed one, untouched.
   */
  lemma AbsentElementYieldsBareInstance(env: Env, t: TypeName, x: Value)
    requires env.svc.factory(t) == Some(Ok(x)) || (env.svc.factory(t).None? && env.svc.activate(t) == Ok(x))
    ensures ObjectFromElement(env, t, None) == Ok(x)
  {
  }

  /**
   * With no element, a failed construction escapes as a bare null reference: the
   * handler reads the name of the null element, so the original cause and the type's
   * name are lost.
   */
  lemma AbsentElementLosesFailure(env: Env, t: TypeName, f: Failure)
    requires env.svc.factory(t) == Some(Err(f)) || (env.svc.factory(t).None? && env.svc.activate(t) == Err(f))
    ensures ObjectFromElement(env, t, None) == Err(Failure(NullReference, []))
  {
  }

  /** The names of the properties the loop of `Deserialize(type, ...)` assigns. */
  function AssignedNames(props: seq<Property>): set<string> {
    set p | p in props && !p.ignored :: p.name
  }

  /**
   * The loop of `Deserialize(type, ...)` assigns each property that is not ignored (so
   * the instance has it) and nothing else: the instance keeps its type and its set of
   * properties, and every property named by no assigned one keeps its constructed value.
   */
  lemma {:induction false} AssignKeepsUnassigned(env: Env, props: seq<Property>, element: XElement, ret: Value)
    requires Assign(env, props, element, ret).Ok?
    ensures var v := Assign(env, props, element, ret).value;
            AssignedNames(props) == {} ==> v == ret
    ensures forall p :: p in props && !p.ignored ==> HasProperty(ret, p)
    ensures var v := Assign(env, props, element, ret).value;
            AssignedNames(props) != {} ==>
              v.Instance? && ret.Instance? && v.typeName == ret.typeName && v.fields.Keys == ret.fields.Keys &&
              forall k :: k in ret.fields && k !in AssignedNames(props) ==> v.fields[k] == ret.fields[k]
    decreases |props|
  {
    if props != [] {
      assert forall p :: p in props <==> p == props[0] || p in props[1..];
      if props[0].ignored {
        AssignKeepsUnassigned(env, props[1..], element, ret);
        assert AssignedNames(props) == AssignedNames(props[1..]);
      } else {
        var value := DeserializeProperty(env, props[0], element, ret).value;
        var next := SetValue(ret, props[0], value).value;
        AssignKeepsUnassigned(env, props[1..], element, next);
        assert AssignedNames(props) == {props[0].name} + AssignedNames(props[1..]);
        forall p | p in props[1..] && !p.ignored ensures HasProperty(ret, p) {
          assert HasProperty(next, p);
        }
      }
    }
  }

  /**
   * The loop over a prefix and then over the rest is the loop over the whole: the
   * properties before position `i` are set first, and the rest see the instance they left.
   */
  lemma {:induction false} AssignSplit(env: Env, props: seq<Property>, element: XElement, ret: Value, i: nat)
    requires i <= |props|
    ensures Assign(env, props[..i], element, ret).Err? ==>
            Assign(env, props, element, ret) == Assign(env, props[..i], element, ret)
    ensures Assign(env, props[..i], element, ret).Ok? ==>
            Assign(env, props, element, ret) == Assign(env, props[i..], element, Assign(env, props[..i], element, ret).value)
    decreases i
  {
    if i == 0 {
      assert props[..0] == [] && props[0..] == props;
    } else {
      var tail := props[1..];
      assert props[..i][0] == props[0] && props[..i][1..] == tail[..i - 1] && tail[i - 1..] == props[i..];
      if props[0].ignored {
        AssignSplit(env, tail, element, ret, i - 1);
      } else {
        var read := DeserializeProperty(env, props[0], element, ret);
        if read.Ok? && SetValue(ret, props[0], read.value).Ok? {
          AssignSplit(env, tail, element, SetValue(ret, props[0], read.value).value, i - 1);
        }
      }
    }
  }

  /** `props[i]` is set by the loop and no later property sets the same name. */
  predicate AssignedLast(props: seq<Property>, i: int) {
    0 <= i < |props| && !props[i].ignored &&
    forall j :: i < j < |props| && !props[j].ignored ==> props[j].name != props[i].name
  }

  /**
   * What the loop of `Deserialize(type, ...)` sets: a property it assigns last under
   * its name ends up holding what `Deserialize(PropertyInfo, ...)` read for it from the
   * element, given the instance as the properties before it left it.
   */
  lemma AssignSetsEach(env: Env, props: seq<Property>, element: XElement, ret: Value, i: int)
    requires Assign(env, props, element, ret).Ok?
    requires AssignedLast(props, i)
    ensures Assign(env, props[..i], element, ret).Ok?
    ensures var before := Assign(env, props[..i], element, ret).value;
            var read := DeserializeProperty(env, props[i], element, before);
            var v := Assign(env, props, element, ret).value;
            read.Ok? && v.Instance? && props[i].name in v.fields && v.fields[props[i].name] == read.value
  {
    AssignSplit(env, props, element, ret, i);
    var before := Assign(env, props[..i], element, ret).value;
    var rest := props[i..];
    assert rest[0] == props[i] && rest[1..] == props[i + 1..];
    var read := DeserializeProperty(env, props[i], element, before);
    var next := SetValue(before, props[i], read.value).value;
    assert Assign(env, props, element, ret) == Assign(env, props[i + 1..], element, next);
    AssignKeepsUnassigned(env, props[i + 1..], element, next);
    assert props[i].name !in AssignedNames(props[i + 1..]);
  }

  /**
   * `Deserialize(type, element)`: on success the result is the constructed instance
   * with each non-ignored property set to what was read for it from the element (the
   * last such property, when several share a name) and every other property as constructed.
   */
  lemma DeserializeAssignsNonIgnored(env: Env, t: TypeName, element: XElement, ret: Value)
    requires Construct(env, t) == Ok(ret)
    requires ObjectFromElement(env, t, Some(element)).Ok?
    ensures var v := ObjectFromElement(env, t, Some(element)).value;
            var props := env.schema(t).properties;
            (forall p :: p in props && !p.ignored ==> HasProperty(ret, p)) &&
            (AssignedNames(props) == {} ==> v == ret) &&
            (AssignedNames(props) != {} ==>
              v.Instance? && ret.Instance? && v.typeName == ret.typeName && v.fields.Keys == ret.fields.Keys &&
              forall k :: k in ret.fields && k !in AssignedNames(props) ==> v.fields[k] == ret.fields[k])
    ensures var v := ObjectFromElement(env, t, Some(element)).value;
            var props := env.schema(t).properties;
            forall i :: AssignedLast(props, i) ==>
              Assign(env, props[..i], element, ret).Ok? &&
              var read := DeserializeProperty(env, props[i], element, Assign(env, props[..i], element, ret).value);
              read.Ok? && v.Instance? && props[i].name in v.fields && v.fields[props[i].name] == read.value
  {
    var props := env.schema(t).properties;
    assert ObjectFromElement(env, t, Some(element)) == Assign(env, props, element, ret);
    AssignKeepsUnassigned(env, props, element, ret);
    forall i | AssignedLast(props, i)
      ensures Assign(env, props[..i], element, ret).Ok? &&
              var read := DeserializeProperty(env, props[i], element, Assign(env, props[..i], element, ret).value);
              var v := Assign(env, props, element, ret).value;
              read.Ok? && v.Instance? && props[i].name in v.fields && v.fields[props[i].name] == read.value
    {
      AssignSetsEach(env, props, element, ret, i);
    }
  }

  /**
   * A failure while filling an element is the failure of construction or of the
   * property loop, with exactly one frame added that names the type and the element.
   */
  lemma DeserializeFailureContext(env: Env, t: TypeName, element: XElement)
    requires ObjectFromElement(env, t, Some(element)).Err?
    ensures var f := ObjectFromElement(env, t, Some(element)).error;
            var frame := DeserializingObject(env.schema(t).name, element.name);
            var made := Construct(env, t);
            (made.Err? ==> f == made.error.Within(frame)) &&
            (made.Ok? ==> Assign(env, env.schema(t).properties, element, made.value).Err? &&
                          f == Assign(env, env.schema(t).properties, element, made.value).error.Within(frame))
  {
  }

  /**
   * A property that is not ignored but has no set accessor makes the whole
   * deserialization fail as soon as it has been read, with the object's frame only.
   */
  lemma ReadOnlyPropertyFails(env: Env, t: TypeName, element: XElement, i: nat)
    requires Construct(env, t).Ok?
    requires i < |env.schema(t).properties|
    requires !env.schema(t).properties[i].ignored && !env.schema(t).properties[i].settable
    requires Assign(env, env.schema(t).properties[..i], element, Construct(env, t).value).Ok?
    requires DeserializeProperty(env, env.schema(t).properties[i], element,
                                 Assign(env, env.schema(t).properties[..i], element, Construct(env, t).value).value).Ok?
    ensures ObjectFromElement(env, t, Some(element)) ==
            Err(Failure(Argument, [DeserializingObject(env.schema(t).name, element.name)]))
  {
    var props := env.schema(t).properties;
    var ret := Construct(env, t).value;
    AssignSplit(env, props, element, ret, i);
    var before := Assign(env, props[..i], element, ret).value;
    var read := DeserializeProperty(env, props[i], element, before);
    assert props[i..][0] == props[i];
    assert SetValue(before, props[i], read.value) == Err(NoSetter);
    assert Assign(env, props[i..], element, before) == Err(Raise(Argument));
    assert Assign(env, props, element, ret) == Err(Raise(Argument));
    var frame := DeserializingObject(env.schema(t).name, element.name);
    assert [frame] + [] == [frame];
  }

  // ------------------------------------------------ per-property deserialize

  /**
   * A class property, or a root property with a tag, whose element is missing is set
   * to a freshly constructed instance, not to null.
   */
  lemma MissingChildYieldsConstructed(env: Env, prop: Property, parent: XElement, item: Value, d: Value)
    requires env.svc.classify(prop.propertyType) == ClassType ||
             (env.svc.classify(prop.propertyType) == RootType && TagName(prop).Some?)
    requires TagName(prop).Some? && ElementsAnyNs(parent, TagName(prop).value) == []
    requires Construct(env, prop.propertyType) == Ok(d)
    ensures DeserializeProperty(env, prop, parent, item) == Ok(d)
  {
    assert FirstChildAmong(parent, [TagName(prop).value]) == None;
    assert PropertyValue(env, prop, parent, item) == ObjectFromElement(env, prop.propertyType, None);
  }

  /**
   * A root property without a tag reads the first child element, in document order,
   * whose local name is any of the candidates; any list with the same candidates,
   * in any order, selects the same child.
   */
  lemma RootChildLookup(env: Env, prop: Property, parent: XElement, item: Value, names: seq<string>)
    requires env.svc.classify(prop.propertyType) == RootType
    requires TagName(prop).None?
    requires env.schema(prop.propertyType).root.Some?
    requires var rootTag := env.schema(prop.propertyType).root.value;
             var typeName := env.schema(prop.propertyType).name;
             forall s :: s in names <==>
               if rootTag.name != "" then s == rootTag.name || s == typeName
               else s in env.svc.rootNames(prop.propertyType) || s == typeName
    ensures PropertyValue(env, prop, parent, item) ==
            ObjectFromElement(env, prop.propertyType, FirstChildAmong(parent, names))
  {
    var rootTag := env.schema(prop.propertyType).root.value;
    CandidateOrderIrrelevant(parent.children, RootCandidates(env, prop.propertyType, rootTag), names);
  }

  /**
   * A primitive property is read by its tag (`[DFeElement]` first, else `[DFeAttribute]`)
   * from the first child element with that local name, and only when there is none,
   * from the first attribute of that name.
   */
  lemma PrimitiveLookup(env: Env, prop: Property, parent: XElement, item: Value)
    requires env.svc.classify(prop.propertyType) == PrimitiveType
    requires TagName(prop).Some?
    ensures var n := TagName(prop).value;
            PropertyValue(env, prop, parent, item) == env.svc.deserializePrimitive(prop, PrimitiveNode(parent, n), item)
    ensures var n := TagName(prop).value;
            (exists i :: 0 <= i < |parent.children| && IsElementAmong(parent.children[i], [n])) ==>
              PrimitiveNode(parent, n).Some? && PrimitiveNode(parent, n).value.Element?
    ensures var n := TagName(prop).value;
            (forall i :: 0 <= i < |parent.children| ==> !IsElementAmong(parent.children[i], [n])) ==>
              PrimitiveNode(parent, n) == FirstOrNone(AttributesNamed(parent.attrs, n))
  {
    var n := TagName(prop).value;
    FirstMatchIsEarliest(parent.children, [n]);
  }
}
