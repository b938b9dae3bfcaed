/**
 * The metadata the engine reads off properties and types. In the source it is
 * found by reflection (`GetProperties`, `GetAttribute<T>`, `HasAttribute<T>`); here it
 * is an explicit descriptor per type, and the runtime objects are values.
 */
module Descriptors {
  import opened Wrappers

  /** An identifier of a .NET type; the table maps it to its descriptor. */
  type TypeName = string

  /** The closed classification `ObjectType.From` assigns to a property's declared type. */
  datatype ObjectType =
    | DictionaryType | ListType | ArrayType | EnumerableType
    | InterfaceType | AbstractType | ClassType | RootType | PrimitiveType

  /** The occurrence rule carried by a field attribute. */
  datatype Ocorrencia = Obrigatoria | NaoObrigatoria | MaiorQueZero

  /** `[DFeElement]`: tag name, namespace (None for a null namespace) and occurrence. */
  datatype ElementTag = ElementTag(name: string, ns: Option<string>, ocorrencia: Ocorrencia)

  /** `[DFeAttribute]`: the attribute's tag name. */
  datatype AttributeTag = AttributeTag(name: string)

  /** `[DFeDictionary]`: the wrapping element's tag name. */
  datatype DictionaryTag = DictionaryTag(name: string)

  /** `[DFeRoot]` on a type: root name ("" when null or empty) and namespace. */
  datatype RootTag = RootTag(name: string, ns: Option<string>)

  /**
   * One property as reflection shows it: its name, the simple name of its declaring
   * type, its declared type, the `Ordem` of its `DFeBaseAttribute` (None when it has
   * none), the `ShouldIgnoreProperty` verdict, whether it has a get and a set accessor,
   * and the attributes the engine consults.
   */
  datatype Property = Property(
    name: string,
    declaringType: string,
    propertyType: TypeName,
    ordem: Option<int>,
    ignored: bool,
    gettable: bool,
    settable: bool,
    element: Option<ElementTag>,
    attribute: Option<AttributeTag>,
    dictionary: Option<DictionaryTag>)

  /** A type: its simple `Name`, its properties in declaration order, its `[DFeRoot]`. */
  datatype TypeDesc = TypeDesc(name: string, properties: seq<Property>, root: Option<RootTag>)

  /** The sort key of `OrderBy(x => x.GetAttribute<DFeBaseAttribute>()?.Ordem ?? 0)`. */
  function OrdemKey(p: Property): int {
    if p.ordem.Some? then p.ordem.value else 0
  }

  /** The tag a property is read by: its `[DFeElement]` if present, else its `[DFeAttribute]`. */
  function TagName(p: Property): (r: Option<string>)
    ensures p.element.Some? ==> r == Some(p.element.value.name)
    ensures p.element.None? && p.attribute.Some? ==> r == Some(p.attribute.value.name)
    ensures r.None? <==> p.element.None? && p.attribute.None?
  {
    if p.element.Some? then Some(p.element.value.name)
    else if p.attribute.Some? then Some(p.attribute.value.name)
    else None
  }

  /**
   * A runtime value. Leaves, collections and dictionaries are opaque to the engine
   * (their codecs are collaborators); an instance maps property names to values.
   */
  datatype Value =
    | Null
    | Leaf(text: string)
    | Items(items: seq<Value>)
    | Entries(entries: seq<(Value, Value)>)
    | Instance(typeName: TypeName, fields: map<string, Value>)

  /**
   * What `PropertyInfo.GetValue` / `SetValue` throw: a target that is null or lacks the
   * property, or a property without the accessor the call needs.
   */
  datatype AccessError = TargetMismatch | NoGetter | NoSetter

  predicate HasProperty(target: Value, p: Property) {
    target.Instance? && p.name in target.fields
  }

  /**
   * `prop.GetValue(target, null)`. A property without a get accessor is refused before
   * the target is looked at.
   */
  function GetValue(target: Value, p: Property): (r: Result<Value, AccessError>)
    ensures r.Ok? <==> p.gettable && HasProperty(target, p)
    ensures r.Ok? ==> r.value == target.fields[p.name]
    ensures !p.gettable ==> r == Err(NoGetter)
    ensures p.gettable && !HasProperty(target, p) ==> r == Err(TargetMismatch)
  {
    if !p.gettable then Err(NoGetter)
    else if HasProperty(target, p) then Ok(target.fields[p.name])
    else Err(TargetMismatch)
  }

  /**
   * `prop.SetValue(target, v, null)`: only that property of the target changes. A
   * property without a set accessor is refused before the target is looked at.
   */
  function SetValue(target: Value, p: Property, v: Value): (r: Result<Value, AccessError>)
    ensures r.Ok? <==> p.settable && HasProperty(target, p)
    ensures !p.settable ==> r == Err(NoSetter)
    ensures p.settable && !HasProperty(target, p) ==> r == Err(TargetMismatch)
    ensures r.Ok? ==> r.value.Instance? && r.value.typeName == target.typeName
    ensures r.Ok? ==> r.value.fields.Keys == target.fields.Keys && r.value.fields[p.name] == v
    ensures r.Ok? ==> forall k :: k in target.fields && k != p.name ==> r.value.fields[k] == target.fields[k]
  {
    if !p.settable then Err(NoSetter)
    else if HasProperty(target, p) then Ok(Instance(target.typeName, target.fields[p.name := v]))
    else Err(TargetMismatch)
  }
}
