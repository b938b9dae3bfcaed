/**
 * The object <-> XML dispatcher of `ObjectSerializer`.
 *
 * Functions give the meaning of each operation: `ObjectElement` for
 * `Serialize(object, Type, name, ns, options)`, `SerializeProperty` for
 * `Serialize(PropertyInfo, parent, options)`, `ObjectFromElement` for
 * `Deserialize(Type, XElement, options)` and `DeserializeProperty` for
 * `Deserialize(PropertyInfo, XElement, item, options)`. The two object-level operations,
 * which loop and update the element or instance they build, are also written as
 * methods (`Serialize`, `Deserialize`) proved to compute those functions.
 *
 * Every collaborator whose code is not part of this model is a parameter in `Services`.
 */
module ObjectSerializer {
  import opened Wrappers
  import opened Xml
  import opened Descriptors
  import opened Failures
  import opened PropertyOrder

  /**
   * The collaborators. Each stands for code the engine calls but does not own; the
   * serializer options they receive in the source are taken to be fixed inside them.
   */
  datatype Services = Services(
    classify: TypeName -> ObjectType,                                    // ObjectType.From
    shouldSerialize: (Property, Value) -> bool,                          // ShouldSerializeProperty
    serializeDictionary: (Property, Value) -> Result<Option<seq<XNode>>, Failure>,
    serializeCollection: (Property, Value) -> Result<Option<seq<XNode>>, Failure>,
    serializeInterface: (Property, Value) -> Result<Option<seq<XNode>>, Failure>,
    serializePrimitive: (Property, Value) -> Result<XNode, Failure>,      // with the tag of GetTag
    rootName: (TypeName, Value) -> string,                                // GetRootName(value)
    rootNames: TypeName -> seq<string>,                                   // GetRootNames()
    factory: TypeName -> Option<Result<Value, Failure>>,                  // HasCreate / GetCreate().Invoke()
    activate: TypeName -> Result<Value, Failure>,                         // Activator.CreateInstance
    deserializeDictionary: (Property, Option<XElement>, Value) -> Result<Value, Failure>,
    deserializeCollection: (Property, ObjectType, seq<XElement>, Value) -> Result<Value, Failure>,
    deserializeInterface: (Property, XElement, Value) -> Result<Value, Failure>,
    deserializePrimitive: (Property, Option<XNode>, Value) -> Result<Value, Failure>)

  /** The descriptor table that replaces reflection, with the collaborators. */
  datatype Env = Env(schema: TypeName -> TypeDesc, svc: Services)

  /** `XNamespace aw = nameSpace ?? string.Empty`. */
  function NsOrEmpty(ns: Option<string>): string {
    if ns.Some? then ns.value else ""
  }

  // ---------------------------------------------------------------- Serialize

  /** The filter of `Serialize(object, ...)`: not ignored, and the instance wants it written. */
  predicate Passes(env: Env, p: Property, value: Value) {
    !p.ignored && env.svc.shouldSerialize(p, value)
  }

  function Passing(env: Env, props: seq<Property>, value: Value): (r: seq<Property>)
    ensures |r| <= |props|
  {
    if props == [] then []
    else (if Passes(env, props[0], value) then [props[0]] else []) + Passing(env, props[1..], value)
  }

  /** The properties `Serialize(object, ...)` visits: the filtered declared properties, ordered by `Ordem`. */
  function VisibleProperties(env: Env, tipo: TypeName, value: Value): (r: seq<Property>)
    ensures |r| <= |env.schema(tipo).properties|
  {
    OrderByOrdem(Passing(env, env.schema(tipo).properties, value))
  }

  /**
   * Adds the nodes one property produced to the element being built: an element
   * becomes the next child, an attribute the next attribute, and anything else fails
   * the cast to `XAttribute`.
   */
  function File(acc: XElement, nodes: seq<XNode>): (r: Result<XElement, Failure>)
    ensures r.Ok? <==> NoText(nodes)
    ensures r.Err? ==> r.error == Raise(InvalidCast)
    ensures r.Ok? ==> r.value.name == acc.name
    decreases |nodes|
  {
    if nodes == [] then Ok(acc)
    else
      assert nodes == [nodes[0]] + nodes[1..];
      if nodes[0].Element? then File(acc.(children := acc.children + [nodes[0]]), nodes[1..])
      else if nodes[0].Attribute? then File(acc.(attrs := acc.attrs + [nodes[0]]), nodes[1..])
      else Err(Raise(InvalidCast))
  }

  lemma NodesCons(nodes: seq<XNode>)
    requires nodes != []
    ensures NoText(nodes) <==> !nodes[0].Text? && NoText(nodes[1..])
    ensures ElementNodes(nodes) == (if nodes[0].Element? then [nodes[0]] else []) + ElementNodes(nodes[1..])
    ensures AttributeNodes(nodes) == (if nodes[0].Attribute? then [nodes[0]] else []) + AttributeNodes(nodes[1..])
  {
    assert nodes == [nodes[0]] + nodes[1..];
  }

  /**
   * Filing keeps both orders: the element's children grow by exactly the element
   * nodes, and its attributes by exactly the attribute nodes, each in production order.
   */
  lemma {:induction false} FileAppends(acc: XElement, nodes: seq<XNode>)
    requires File(acc, nodes).Ok?
    ensures File(acc, nodes).value.children == acc.children + ElementNodes(nodes)
    ensures File(acc, nodes).value.attrs == acc.attrs + AttributeNodes(nodes)
    decreases |nodes|
  {
    if nodes != [] {
      NodesCons(nodes);
      if nodes[0].Element? {
        FileAppends(acc.(children := acc.children + [nodes[0]]), nodes[1..]);
      } else {
        FileAppends(acc.(attrs := acc.attrs + [nodes[0]]), nodes[1..]);
      }
    }
  }

  /** Filing well-formed nodes into a well-formed element keeps it well formed. */
  lemma {:induction false} FileKeepsWellFormed(acc: XElement, nodes: seq<XNode>)
    requires WellFormed(acc) && forall n :: n in nodes ==> WellFormed(n)
    requires File(acc, nodes).Ok?
    ensures WellFormed(File(acc, nodes).value)
    decreases |nodes|
  {
    if nodes != [] {
      if nodes[0].Element? {
        FileKeepsWellFormed(acc.(children := acc.children + [nodes[0]]), nodes[1..]);
      } else {
        FileKeepsWellFormed(acc.(attrs := acc.attrs + [nodes[0]]), nodes[1..]);
      }
    }
  }

  /** `Serialize(object, tipo, name, nameSpace, options)`. */
  function ObjectElement(env: Env, value: Value, tipo: TypeName, name: string, ns: Option<string>)
    : (r: Result<XElement, Failure>)
    ensures r.Ok? ==> r.value.name == XName(NsOrEmpty(ns), name)
    ensures r.Err? ==> r.error.context != [] && r.error.context[0] == SerializingObject(value)
    decreases value, 4, 0
  {
    var start: XElement := Element(XName(NsOrEmpty(ns), name), [], []);
    match Emit(env, VisibleProperties(env, tipo, value), value, start)
    case Ok(e) => Ok(e)
    case Err(f) => Err(f.Within(SerializingObject(value)))
  }

  /**
   * The loop of `Serialize(object, ...)` over the ordered properties, from the element
   * built so far: skip a property that fails the (repeated) filter or yields null,
   * otherwise file what it yields; the first failure stops the loop.
   */
  function Emit(env: Env, props: seq<Property>, value: Value, acc: XElement): (r: Result<XElement, Failure>)
    ensures r.Ok? ==> r.value.name == acc.name
    decreases value, 3, |props|
  {
    if props == [] then Ok(acc)
    else if !Passes(env, props[0], value) then Emit(env, props[1..], value, acc)
    else match SerializeProperty(env, props[0], value)
      case Err(f) => Err(f)
      case Ok(None) => Emit(env, props[1..], value, acc)
      case Ok(Some(nodes)) =>
        match File(acc, nodes)
        case Err(f) => Err(f)
        case Ok(next) => Emit(env, props[1..], value, next)
  }

  /** `Serialize(PropertyInfo, parentObject, options)`: the dispatch, re-raised with the property's name. */
  function SerializeProperty(env: Env, prop: Property, parent: Value): (r: Result<Option<seq<XNode>>, Failure>)
    ensures r.Err? ==> r.error.context != [] &&
                       r.error.context[0] == SerializingProperty(prop.declaringType, prop.name)
    decreases parent, 2, 0
  {
    match PropertyNodes(env, prop, parent)
    case Ok(nodes) => Ok(nodes)
    case Err(f) => Err(f.Within(SerializingProperty(prop.declaringType, prop.name)))
  }

  /** The strategy chosen by the property's classification, in the source's order of tests. */
  function PropertyNodes(env: Env, prop: Property, parent: Value): (r: Result<Option<seq<XNode>>, Failure>)
    ensures (env.svc.classify(prop.propertyType) !in {DictionaryType, ListType, ArrayType, EnumerableType} &&
             !prop.gettable) ==> r == Err(Raise(Argument))
    ensures (env.svc.classify(prop.propertyType) !in {DictionaryType, ListType, ArrayType, EnumerableType} &&
             prop.gettable && !HasProperty(parent, prop)) ==> r == Err(Raise(Target))
    ensures env.svc.classify(prop.propertyType) in {ClassType, RootType} && r.Ok? && r.value.Some? ==>
              |r.value.value| == 1 && r.value.value[0].Element?
    ensures env.svc.classify(prop.propertyType) == PrimitiveType && r.Ok? ==>
              r.value.Some? && |r.value.value| == 1
    decreases parent, 1, 0
  {
    var objectType := env.svc.classify(prop.propertyType);
    if objectType == DictionaryType then env.svc.serializeDictionary(prop, parent)
    else if objectType in {ListType, ArrayType, EnumerableType} then env.svc.serializeCollection(prop, parent)
    else match GetValue(parent, prop)
      case Err(e) => Err(Raise(AccessCause(e)))
      case Ok(value) =>
        if objectType in {InterfaceType, AbstractType} then
          if value == Null then Ok(None) else env.svc.serializeInterface(prop, parent)
        else if objectType == ClassType then
          if prop.element.None? then Err(Raise(NullReference))   // attribute.Ocorrencia on null
          else TaggedElement(env, prop.element.value, prop.propertyType, value)
        else if objectType == RootType then
          if prop.element.Some? then TaggedElement(env, prop.element.value, prop.propertyType, value)
          else if value == Null then Ok(None)
          else RootElement(env, prop.propertyType, value)
        else
          match env.svc.serializePrimitive(prop, parent)
          case Err(f) => Err(f)
          case Ok(node) => Ok(Some([node]))
  }

  /** A nested object under its `[DFeElement]`: nothing for an optional null, else one element. */
  function TaggedElement(env: Env, tag: ElementTag, t: TypeName, value: Value)
    : (r: Result<Option<seq<XNode>>, Failure>)
    ensures r == Ok(None) <==> tag.ocorrencia == NaoObrigatoria && value == Null
    ensures r.Ok? && r.value.Some? ==>
              |r.value.value| == 1 && r.value.value[0].Element? &&
              r.value.value[0].name == XName(NsOrEmpty(tag.ns), tag.name)
    ensures r.Err? ==> r.error.context != [] && r.error.context[0] == SerializingObject(value)
    decreases value, 5, 0
  {
    if tag.ocorrencia == NaoObrigatoria && value == Null then Ok(None)
    else match ObjectElement(env, value, t, tag.name, tag.ns)
      case Ok(e) => Ok(Some([e]))
      case Err(f) => Err(f)
  }

  /**
   * The tag of a root-classified value without `[DFeElement]`: the `[DFeRoot]` name if
   * it is not empty, else `GetRootName(value)` if that is not empty, else the type's name.
   */
  function RootElementName(env: Env, t: TypeName, rootTag: RootTag, value: Value): (r: string)
    ensures r in {rootTag.name, env.svc.rootName(t, value), env.schema(t).name}
    ensures rootTag.name != "" ==> r == rootTag.name
    ensures r == "" ==> env.schema(t).name == ""
  {
    if rootTag.name != "" then rootTag.name
    else
      var root := env.svc.rootName(t, value);
      if root != "" then root else env.schema(t).name
  }

  /** A root-classified value without `[DFeElement]`, under its root name and root namespace. */
  function RootElement(env: Env, t: TypeName, value: Value): (r: Result<Option<seq<XNode>>, Failure>)
    ensures env.schema(t).root.None? ==> r == Err(Raise(NullReference))
    ensures r.Ok? ==>
              env.schema(t).root.Some? && r.value.Some? && |r.value.value| == 1 && r.value.value[0].Element? &&
              var rootTag := env.schema(t).root.value;
              r.value.value[0].name == XName(NsOrEmpty(rootTag.ns), RootElementName(env, t, rootTag, value))
    decreases value, 5, 0
  {
    match env.schema(t).root
    case None => Err(Raise(NullReference))   // rooTag.Name on null
    case Some(rootTag) =>
      match ObjectElement(env, value, t, RootElementName(env, t, rootTag, value), rootTag.ns)
      case Ok(e) => Ok(Some([e]))
      case Err(f) => Err(f)
  }

  /**
   * `Serialize(object, tipo, name, nameSpace, options)` as the source runs it: a fresh
   * element filled in place, property by property and node by node.
   */
  method Serialize(env: Env, value: Value, tipo: TypeName, name: string, ns: Option<string>)
    returns (r: Result<XElement, Failure>)
    ensures r == ObjectElement(env, value, tipo, name, ns)
  {
    var objectElement: XElement := Element(XName(NsOrEmpty(ns), name), [], []);
    var properties := VisibleProperties(env, tipo, value);
    ghost var start := objectElement;
    for i := 0 to |properties|
      invariant Emit(env, properties, value, start) == Emit(env, properties[i..], value, objectElement)
    {
      var prop := properties[i];
      assert properties[i..] == [prop] + properties[i + 1..];
      if prop.ignored || !env.svc.shouldSerialize(prop, value) {
        continue;
      }
      var elements := SerializeProperty(env, prop, value);
      if elements.Err? {
        return Err(elements.error.Within(SerializingObject(value)));
      }
      if elements.value.None? {
        continue;
      }
      var filed := AddNodes(objectElement, elements.value.value);
      if filed.Err? {
        return Err(filed.error.Within(SerializingObject(value)));
      }
      objectElement := filed.value;
    }
    assert properties[|properties|..] == [];
    return Ok(objectElement);
  }

  /** The inner loop of `Serialize(object, ...)`: `AddChild` or `AddAttribute` per node, in order. */
  method AddNodes(objectElement: XElement, nodes: seq<XNode>) returns (r: Result<XElement, Failure>)
    ensures r == File(objectElement, nodes)
  {
    var current: XElement := objectElement;
    for j := 0 to |nodes|
      invariant File(objectElement, nodes) == File(current, nodes[j..])
    {
      assert nodes[j..] == [nodes[j]] + nodes[j + 1..];
      var node := nodes[j];
      if node.Element? {
        current := current.(children := current.children + [node]);
      } else if node.Attribute? {
        current := current.(attrs := current.attrs + [node]);
      } else {
        return Err(Raise(InvalidCast));
      }
    }
    assert nodes[|nodes|..] == [];
    return Ok(current);
  }

  // -------------------------------------------------------------- Deserialize

  /** `type.HasCreate() ? type.GetCreate().Invoke() : Activator.CreateInstance(type)`. */
  function Construct(env: Env, t: TypeName): (r: Result<Value, Failure>)
    ensures env.svc.factory(t).Some? ==> r == env.svc.factory(t).value
    ensures env.svc.factory(t).None? ==> r == env.svc.activate(t)
  {
    if env.svc.factory(t).Some? then env.svc.factory(t).value else env.svc.activate(t)
  }

  /** The node standing for a possibly absent element in termination measures. */
  function NodeOr(el: Option<XElement>): XNode {
    if el.Some? then el.value else Text("")
  }

  /**
   * `Deserialize(type, element, options)`. When construction fails and the element is
   * null, the source's handler itself dereferences the null element, so what escapes
   * is a bare null-reference failure.
   */
  function ObjectFromElement(env: Env, t: TypeName, el: Option<XElement>): (r: Result<Value, Failure>)
    ensures r.Ok? ==> Construct(env, t).Ok?
    ensures el.None? && Construct(env, t).Ok? ==> r == Construct(env, t)
    ensures el.None? && r.Err? ==> r.error == Raise(NullReference)
    ensures el.Some? && r.Err? ==>
              r.error.context != [] && r.error.context[0] == DeserializingObject(env.schema(t).name, el.value.name)
    decreases if el.Some? then 1 else 0, NodeOr(el), 3, 0
  {
    match Construct(env, t)
    case Err(f) =>
      if el.None? then Err(Raise(NullReference))
      else Err(f.Within(DeserializingObject(env.schema(t).name, el.value.name)))
    case Ok(ret) =>
      if el.None? then Ok(ret)
      else match Assign(env, env.schema(t).properties, el.value, ret)
        case Ok(v) => Ok(v)
        case Err(f) => Err(f.Within(DeserializingObject(env.schema(t).name, el.value.name)))
  }

  /**
   * The loop of `Deserialize(type, ...)`: each property not ignored is read from the
   * element (the collaborators see the instance as filled so far) and set on the instance.
   */
  function Assign(env: Env, props: seq<Property>, element: XElement, ret: Value): (r: Result<Value, Failure>)
    ensures r.Err? ==> r.error == Raise(Target) || r.error == Raise(Argument) ||
                       (r.error.context != [] && r.error.context[0].DeserializingProperty?)
    decreases 1, element, 2, |props|
  {
    if props == [] then Ok(ret)
    else if props[0].ignored then Assign(env, props[1..], element, ret)
    else match DeserializeProperty(env, props[0], element, ret)
      case Err(f) => Err(f)
      case Ok(value) =>
        match SetValue(ret, props[0], value)
        case Err(e) => Err(Raise(AccessCause(e)))
        case Ok(next) => Assign(env, props[1..], element, next)
  }

  /** `Deserialize(PropertyInfo, parentElement, item, options)`, re-raised with the property's name. */
  function DeserializeProperty(env: Env, prop: Property, parent: XElement, item: Value): (r: Result<Value, Failure>)
    ensures r.Err? ==> r.error.context != [] &&
                       r.error.context[0] == DeserializingProperty(prop.declaringType, prop.name)
    decreases 1, parent, 1, 0
  {
    match PropertyValue(env, prop, parent, item)
    case Ok(v) => Ok(v)
    case Err(f) => Err(f.Within(DeserializingProperty(prop.declaringType, prop.name)))
  }

  /**
   * The candidate local names of a root-classified property without a tag: the
   * `[DFeRoot]` name and the type name, or, when the root name is empty, the type's
   * `GetRootNames()` followed by the type name.
   */
  function RootCandidates(env: Env, t: TypeName, rootTag: RootTag): (r: seq<string>)
    ensures env.schema(t).name in r
    ensures rootTag.name != "" ==> forall s :: s in r <==> s == rootTag.name || s == env.schema(t).name
    ensures rootTag.name == "" ==> forall s :: s in r <==> s in env.svc.rootNames(t) || s == env.schema(t).name
  {
    if rootTag.name != "" then [rootTag.name, env.schema(t).name]
    else env.svc.rootNames(t) + [env.schema(t).name]
  }

  /**
   * Where a primitive property's text is read: the first child element with the tag's
   * local name in any namespace, or failing that the first attribute of that name.
   */
  function PrimitiveNode(parent: XElement, local: string): (r: Option<XNode>)
    ensures ElementsAnyNs(parent, local) != [] ==> r == Some(ElementsAnyNs(parent, local)[0])
    ensures ElementsAnyNs(parent, local) == [] ==> r == FirstOrNone(AttributesNamed(parent.attrs, local))
  {
    var element := FirstOrNone(ElementsAnyNs(parent, local));
    if element.Some? then Some(element.value) else FirstOrNone(AttributesNamed(parent.attrs, local))
  }

  /** The strategy chosen by the property's classification, in the source's order of tests. */
  function PropertyValue(env: Env, prop: Property, parent: XElement, item: Value): (r: Result<Value, Failure>)
    ensures (env.svc.classify(prop.propertyType) !in {DictionaryType, InterfaceType, AbstractType, RootType} &&
             TagName(prop).None?) ==> r == Err(Raise(NullReference))
    ensures env.svc.classify(prop.propertyType) in {ClassType, RootType} && r.Err? ==>
              r.error == Raise(NullReference) || (r.error.context != [] && r.error.context[0].DeserializingObject?)
    decreases 1, parent, 0, 0
  {
    var tag := TagName(prop);
    var objectType := env.svc.classify(prop.propertyType);
    if objectType == DictionaryType then
      if prop.dictionary.None? then Err(Raise(NullReference))   // dicTag.Name on null
      else env.svc.deserializeDictionary(prop, FirstChildAmong(parent, [prop.dictionary.value.name]), item)
    else if objectType in {ArrayType, EnumerableType, ListType} then
      // The collaborator is told the classification: the source reads an ArrayList and
      // converts it for arrays and enumerables, and reads the list type directly otherwise.
      if tag.None? then Err(Raise(NullReference))
      else env.svc.deserializeCollection(prop, objectType, ElementsAnyNs(parent, tag.value), item)
    else if objectType in {InterfaceType, AbstractType} then
      env.svc.deserializeInterface(prop, parent, item)
    else if objectType == RootType then
      if tag.Some? then ObjectFromElement(env, prop.propertyType, FirstChildAmong(parent, [tag.value]))
      else match env.schema(prop.propertyType).root
        case None => Err(Raise(NullReference))   // rootTag.Name on null
        case Some(rootTag) =>
          ObjectFromElement(env, prop.propertyType,
            FirstChildAmong(parent, RootCandidates(env, prop.propertyType, rootTag)))
    else if objectType == ClassType then
      if tag.None? then Err(Raise(NullReference))
      else ObjectFromElement(env, prop.propertyType, FirstChildAmong(parent, [tag.value]))
    else
      if tag.None? then Err(Raise(NullReference))
      else env.svc.deserializePrimitive(prop, PrimitiveNode(parent, tag.value), item)
  }

  /**
   * `Deserialize(type, element, options)` as the source runs it: construct, then set
   * the properties of the new instance one after another.
   */
  method Deserialize(env: Env, t: TypeName, element: Option<XElement>) returns (r: Result<Value, Failure>)
    ensures r == ObjectFromElement(env, t, element)
  {
    var created := Construct(env, t);
    if created.Err? {
      if element.None? {
        return Err(Raise(NullReference));
      }
      return Err(created.error.Within(DeserializingObject(env.schema(t).name, element.value.name)));
    }
    var ret := created.value;
    if element.None? {
      return Ok(ret);
    }
    var e := element.value;
    var properties := env.schema(t).properties;
    for i := 0 to |properties|
      invariant Assign(env, properties, e, created.value) == Assign(env, properties[i..], e, ret)
    {
      var prop := properties[i];
      assert properties[i..] == [prop] + properties[i + 1..];
      if prop.ignored {
        continue;
      }
      var value := DeserializeProperty(env, prop, e, ret);
      if value.Err? {
        return Err(value.error.Within(DeserializingObject(env.schema(t).name, e.name)));
      }
      var updated := SetValue(ret, prop, value.value);
      if updated.Err? {
        return Err(Raise(AccessCause(updated.error)).Within(DeserializingObject(env.schema(t).name, e.name)));
      }
      ret := updated.value;
    }
    assert properties[|properties|..] == [];
    return Ok(ret);
  }
}
