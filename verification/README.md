# ObjectSerializer of Vip.Sat, in Dafny

Vip.Sat writes and reads the XML documents of the SAT fiscal device. Its engine maps .NET objects to XML by reflection over attribute-annotated properties. `ObjectSerializer` is the centre of that engine, and this project models it:

- **Serialize an object.** `Serialize(object, Type, name, ns, options)` builds one element. It visits the properties that are not ignored and that the instance wants written, ordered by `Ordem`. It files each node they produce: an element becomes a child and an attribute becomes an attribute.
- **Serialize a property.** `Serialize(PropertyInfo, parent, options)` chooses a strategy from the property's classification: dictionary, collection, interface/abstract, class, root or primitive.
- **Deserialize an object.** `Deserialize(Type, XElement, options)` builds an instance, through a registered factory or by default construction. Then it sets every property that is not ignored.
- **Deserialize a property.** `Deserialize(PropertyInfo, XElement, item, options)` finds the node a property is read from and hands it to the right strategy.
- **The dictionary-value descriptor.** `[DFeDictionaryValue]` is modelled as a class. Its constructors fix the default field values.

Reflection becomes an explicit table, `Env.schema`, from type names to descriptors. A descriptor lists the properties, each with its attributes, in the order `GetProperties()` returns them. That order is taken to be declaration order. Runtime objects are `Value`s. Every collaborator whose code is not part of the model is a total function in `Services`:

- `ObjectType.From`;
- the dictionary, collection, interface and primitive serializers;
- `GetRootName`/`GetRootNames`;
- the type's factory;
- `Activator.CreateInstance`;
- `ShouldSerializeProperty`.

An exception becomes an `Err` carrying a `Failure`. A failure has a cause (null reference, target failure, a property without a getter or a setter, invalid cast, or a collaborator's own failure). It also has the context frames that each `catch`/re-throw level adds, outermost first.

Files:

- `wrappers.dfy`: `Option` and `Result`.
- `xml.dfy`: the XML tree, and the lookups the engine uses (`ElementsAnyNs`, `Elements()` filtered by local name, `Attributes(name)`, `FirstOrDefault`).
- `descriptors.dfy`: the classification, the attribute descriptors, properties, types, values, `GetValue`/`SetValue`.
- `failures.dfy`: failure causes and context frames.
- `property_order.dfy`: the stable sort by `Ordem` that LINQ `OrderBy` performs.
- `object_serializer.dfy`: the four operations as functions. The two object-level loops are also imperative methods, proved to compute those functions.
- `object_serializer_facts.dfy`: the properties of the four operations.
- `dictionary_value_attribute.dfy`: the `DFeDictionaryValueAttribute` class.
- `imposto_pis_aliq.dfy`: the descriptor of `ImpostoPisAliq`, used as a worked instance of the ordering rule.

## Model

| member | source | states |
|---|---|---|
| ObjectSerializer.ObjectElement | Vip.Sat.Shared/DFeCore/Serializer/ObjectSerializer.cs:17-49 | a successful result is named `name` in `nameSpace`, with a null namespace read as the empty one; a failure carries the "serializing object" frame for the value outermost |
| ObjectSerializer.Passing | Vip.Sat.Shared/DFeCore/Serializer/ObjectSerializer.cs:25 | the filter never yields more properties than it is given (`PassingMembers` states which ones it keeps) |
| ObjectSerializer.VisibleProperties | Vip.Sat.Shared/DFeCore/Serializer/ObjectSerializer.cs:24-26 | the visited properties are never more than the declared ones (`VisiblePropertiesOrder` states which ones and in what order) |
| ObjectSerializer.Serialize | Vip.Sat.Shared/DFeCore/Serializer/ObjectSerializer.cs:17-49 | the loop that grows `objectElement` property by property, with the re-check at line 30 and the catch that wraps failures, computes exactly `ObjectElement` |
| ObjectSerializer.Emit | Vip.Sat.Shared/DFeCore/Serializer/ObjectSerializer.cs:28-40 | filing never renames the element being built |
| ObjectSerializer.AddNodes | Vip.Sat.Shared/DFeCore/Serializer/ObjectSerializer.cs:35-39 | the inner loop that appends each produced node in place computes `File` |
| ObjectSerializer.File | Vip.Sat.Shared/DFeCore/Serializer/ObjectSerializer.cs:35-39 | filing succeeds exactly when every node is an element or an attribute; otherwise it fails with an invalid cast; the element keeps its name |
| ObjectSerializer.FileKeepsWellFormed | Vip.Sat.Shared/DFeCore/Serializer/ObjectSerializer.cs:35-39 | filing well-formed nodes into a well-formed element leaves it well formed: children are elements or text, attributes are attributes |
| ObjectSerializer.FileAppends | Vip.Sat.Shared/DFeCore/Serializer/ObjectSerializer.cs:35-39 | after filing, the children are the old children followed by the produced elements, and the attributes are the old attributes followed by the produced attributes, in production order |
| ObjectSerializer.SerializeProperty | Vip.Sat.Shared/DFeCore/Serializer/ObjectSerializer.cs:51-106 | every failure of a property's serialization carries, outermost, a frame naming the declaring type and the property |
| ObjectSerializer.PropertyNodes | Vip.Sat.Shared/DFeCore/Serializer/ObjectSerializer.cs:55-99 | every strategy except the dictionary and collection ones reads the value first, so a property without a getter fails as an argument failure and a parent without the property as a target failure; a class or root property yields at most one node, an element; a primitive property that succeeds yields exactly one node |
| ObjectSerializer.TaggedElement | Vip.Sat.Shared/DFeCore/Serializer/ObjectSerializer.cs:68-82 | a nested object under `[DFeElement]` yields nothing exactly when it is `NaoObrigatoria` and null; otherwise it yields one element named and namespaced by the tag, or the nested object's failure with its object frame outermost |
| ObjectSerializer.RootElementName | Vip.Sat.Shared/DFeCore/Serializer/ObjectSerializer.cs:85-92 | the name is the `[DFeRoot]` name, `GetRootName(value)` or the type's name; a non-empty `[DFeRoot]` name always wins; the name is empty only when the type's name is empty |
| ObjectSerializer.RootElement | Vip.Sat.Shared/DFeCore/Serializer/ObjectSerializer.cs:84-95 | a type without `[DFeRoot]` fails with a null reference; on success, one element under the root name, in the root namespace |
| ObjectSerializer.Construct | Vip.Sat.Shared/DFeCore/Serializer/ObjectSerializer.cs:116 | a registered factory takes precedence over default construction, which is used only when no factory is registered |
| ObjectSerializer.ObjectFromElement | Vip.Sat.Shared/DFeCore/Serializer/ObjectSerializer.cs:112-136 | no instance comes without a successful construction; with no element the constructed instance is returned as it is, and a failure is a bare null reference; with an element, every failure carries, outermost, a frame naming the type and the element |
| ObjectSerializer.Assign | Vip.Sat.Shared/DFeCore/Serializer/ObjectSerializer.cs:120-127 | the property loop fails only when a property cannot be set (a target failure, or an argument failure for a property without a setter) or when a property's read fails, which then carries that property's frame outermost |
| ObjectSerializer.PropertyValue | Vip.Sat.Shared/DFeCore/Serializer/ObjectSerializer.cs:142-208 | a collection, class or primitive property without a tag fails with a null reference; a class or root property fails only with a null reference or with a nested object's failure carrying its object frame |
| ObjectSerializer.DeserializeProperty | Vip.Sat.Shared/DFeCore/Serializer/ObjectSerializer.cs:138-215 | every failure of a property's deserialization carries, outermost, a frame naming the declaring type and the property |
| ObjectSerializer.RootCandidates | Vip.Sat.Shared/DFeCore/Serializer/ObjectSerializer.cs:179-190 | the candidates always include the type's name; with a non-empty `[DFeRoot]` name they are exactly that name and the type's name, otherwise exactly `GetRootNames()` and the type's name |
| ObjectSerializer.PrimitiveNode | Vip.Sat.Shared/DFeCore/Serializer/ObjectSerializer.cs:205-206 | the first child element with the tag's local name, in any namespace; only when there is none, the first attribute of that name |
| ObjectSerializer.Deserialize | Vip.Sat.Shared/DFeCore/Serializer/ObjectSerializer.cs:112-136 | the loop that constructs the instance and sets each non-ignored property in place, with its catch, computes exactly `ObjectFromElement` |
| Descriptors.TagName | Vip.Sat.Shared/DFeCore/Serializer/ObjectSerializer.cs:142-144 | a property's tag is its `[DFeElement]` name when present, otherwise its `[DFeAttribute]` name; it is absent exactly when it has neither |
| Descriptors.GetValue | Vip.Sat.Shared/DFeCore/Serializer/ObjectSerializer.cs:63 | reading succeeds exactly when the property has a getter and the instance has the property, and yields that property's value; a property without a getter is refused first, then a target without the property |
| Descriptors.SetValue | Vip.Sat.Shared/DFeCore/Serializer/ObjectSerializer.cs:126 | setting succeeds exactly when the property has a setter and the instance has the property; a property without a setter is refused first, then a target without the property; on success it keeps the type and the set of properties, sets that property and leaves every other property unchanged |
| Xml.ElementsAmong | Vip.Sat.Shared/DFeCore/Serializer/ObjectSerializer.cs:192-194 | the children kept are exactly the elements whose local name is a candidate |
| Xml.ElementsAnyNs | Vip.Sat.Shared/DFeCore/Serializer/ObjectSerializer.cs:201 | yields exactly the child elements that carry the requested local name, in any namespace |
| Xml.FirstOrNone | Vip.Sat.Shared/DFeCore/Serializer/ObjectSerializer.cs:175 | `FirstOrDefault` is absent exactly on an empty sequence, and is its first item otherwise |
| Xml.FirstChildAmong | Vip.Sat.Shared/DFeCore/Serializer/ObjectSerializer.cs:192-194 | a found node is a child of the parent whose local name is a candidate |
| Xml.FirstMatchIsEarliest | Vip.Sat.Shared/DFeCore/Serializer/ObjectSerializer.cs:192-194 | nothing is found exactly when no child matches; otherwise the result is the matching child with the smallest index |
| Xml.CandidateOrderIrrelevant | Vip.Sat.Shared/DFeCore/Serializer/ObjectSerializer.cs:192-194 | two candidate lists with the same members select the same children |
| Xml.AttributesNamed | Vip.Sat.Shared/DFeCore/Serializer/ObjectSerializer.cs:206 | yields exactly the attributes of the element named by that local name in no namespace |
| Xml.ElementNodesAppend | Vip.Sat.Shared/DFeCore/Serializer/ObjectSerializer.cs:35-37 | the elements of a concatenation are the elements of each part, in order |
| Xml.AttributeNodesAppend | Vip.Sat.Shared/DFeCore/Serializer/ObjectSerializer.cs:38-39 | the attributes of a concatenation are the attributes of each part, in order |
| PropertyOrder.Insert | Vip.Sat.Shared/DFeCore/Serializer/ObjectSerializer.cs:26 | inserting adds one property (`InsertSorted`, `InsertPermutes` and `InsertWithKey` state where it goes) |
| PropertyOrder.OrderByOrdem | Vip.Sat.Shared/DFeCore/Serializer/ObjectSerializer.cs:26 | the sort keeps the number of properties (`OrderByOrdemSorts` states that it is the stable sort by `Ordem`) |
| PropertyOrder.InsertSorted | Vip.Sat.Shared/DFeCore/Serializer/ObjectSerializer.cs:26 | inserting into a sequence sorted by `Ordem` keeps it sorted |
| PropertyOrder.InsertPermutes | Vip.Sat.Shared/DFeCore/Serializer/ObjectSerializer.cs:26 | inserting adds exactly the inserted property |
| PropertyOrder.InsertWithKey | Vip.Sat.Shared/DFeCore/Serializer/ObjectSerializer.cs:26 | the inserted property goes ahead of the properties with an equal `Ordem` |
| PropertyOrder.OrderByOrdemSorts | Vip.Sat.Shared/DFeCore/Serializer/ObjectSerializer.cs:26 | the sort orders by `Ordem` (a missing attribute counts as 0), permutes its input, and for every key keeps the input order, as a stable `OrderBy` does |
| PropertyOrder.SameKeySorted | Vip.Sat.Shared/DFeCore/Serializer/ObjectSerializer.cs:26 | properties that share one `Ordem` are already in order |
| PropertyOrder.SortedInputUnchanged | Vip.Sat.Shared/DFeCore/Serializer/ObjectSerializer.cs:26 | an input already in `Ordem` order is returned as it is |
| ObjectSerializerFacts.PassingMembers | Vip.Sat.Shared/DFeCore/Serializer/ObjectSerializer.cs:25 | the filter keeps exactly the properties that are not ignored and that the instance wants written |
| ObjectSerializerFacts.VisiblePropertiesOrder | Vip.Sat.Shared/DFeCore/Serializer/ObjectSerializer.cs:24-30 | the visited properties are exactly the declared ones that pass the filter (so the re-check at line 30 never skips one); they are sorted by `Ordem`, are a permutation of the filtered declaration, and keep declaration order among equal `Ordem` |
| ObjectSerializerFacts.PassingAll | Vip.Sat.Shared/DFeCore/Serializer/ObjectSerializer.cs:25 | when every property passes the filter, the filter keeps all of them, in order |
| ObjectSerializerFacts.DeclarationOrderKept | Vip.Sat.Shared/DFeCore/Serializer/ObjectSerializer.cs:24-26 | a type whose properties all pass the filter and are declared in `Ordem` order is visited in declaration order |
| ObjectSerializerFacts.PassingOrderKept | Vip.Sat.Shared/DFeCore/Serializer/ObjectSerializer.cs:24-26 | when the properties that pass are already in `Ordem` order, they are visited as declared |
| ObjectSerializerFacts.EmitSkips | Vip.Sat.Shared/DFeCore/Serializer/ObjectSerializer.cs:30-33 | a property that is skipped, or that yields null, changes neither the element nor what the properties contribute |
| ObjectSerializerFacts.EmitFiles | Vip.Sat.Shared/DFeCore/Serializer/ObjectSerializer.cs:32-39 | a property that yields nodes has them filed before the loop goes on, and they come first among the contributions |
| ObjectSerializerFacts.SkipStep | Vip.Sat.Shared/DFeCore/Serializer/ObjectSerializer.cs:30-33 | a skipped or null property keeps the filing property of the remaining loop |
| ObjectSerializerFacts.FilingStep | Vip.Sat.Shared/DFeCore/Serializer/ObjectSerializer.cs:32-39 | filing one property's nodes and then the rest satisfies the filing property |
| ObjectSerializerFacts.EmitFilesContributions | Vip.Sat.Shared/DFeCore/Serializer/ObjectSerializer.cs:28-40 | the loop succeeds exactly when every visited property succeeds and produces only elements and attributes; the element then gains every produced element as a child and every produced attribute as an attribute, in production order |
| ObjectSerializerFacts.ObjectElementContent | Vip.Sat.Shared/DFeCore/Serializer/ObjectSerializer.cs:17-42 | the result is the element named `name` in `nameSpace`; its children are exactly the produced elements and its attributes exactly the produced attributes, in order; it fails exactly when a property fails or yields another kind of node |
| ObjectSerializerFacts.InterfaceNullSuppressed | Vip.Sat.Shared/DFeCore/Serializer/ObjectSerializer.cs:65-66 | an interface or abstract property whose value is null contributes nothing |
| ObjectSerializerFacts.ClassPropertyElement | Vip.Sat.Shared/DFeCore/Serializer/ObjectSerializer.cs:68-73 | a class property contributes nothing exactly when it is `NaoObrigatoria` and null; otherwise, on success, it contributes one element named and namespaced by its `[DFeElement]` |
| ObjectSerializerFacts.ClassPropertyWithoutElementFails | Vip.Sat.Shared/DFeCore/Serializer/ObjectSerializer.cs:68-71 | a class property without `[DFeElement]` fails with a null reference |
| ObjectSerializerFacts.WriteOnlyPropertyFails | Vip.Sat.Shared/DFeCore/Serializer/ObjectSerializer.cs:55-105 | a property without a getter, outside the dictionary and collection strategies, fails with an argument failure behind the property's frame alone |
| ObjectSerializerFacts.RootWithElementIsClass | Vip.Sat.Shared/DFeCore/Serializer/ObjectSerializer.cs:75-82 | a root property that carries `[DFeElement]` is serialized exactly by the class rule |
| ObjectSerializerFacts.RootPropertyNaming | Vip.Sat.Shared/DFeCore/Serializer/ObjectSerializer.cs:84-95 | a root property without `[DFeElement]` contributes nothing when null, and fails when the type has no `[DFeRoot]`; otherwise, on success, it contributes one element in the `[DFeRoot]` namespace, named by the root name, else by `GetRootName(value)`, else by the type's name |
| ObjectSerializerFacts.NestedFailureKeepsContext | Vip.Sat.Shared/DFeCore/Serializer/ObjectSerializer.cs:101-105 | a nested object's failure reaches the class property with the same cause and the nested context, behind one frame for the property |
| ObjectSerializerFacts.AbsentElementYieldsBareInstance | Vip.Sat.Shared/DFeCore/Serializer/ObjectSerializer.cs:116-118 | with no element, the result is the factory's instance when a factory is registered, else the default-constructed instance, with no property set |
| ObjectSerializerFacts.AbsentElementLosesFailure | Vip.Sat.Shared/DFeCore/Serializer/ObjectSerializer.cs:131-134 | with no element, a failed construction escapes as a bare null reference, because the handler reads the null element's name |
| ObjectSerializerFacts.AssignKeepsUnassigned | Vip.Sat.Shared/DFeCore/Serializer/ObjectSerializer.cs:120-127 | the property loop sets only properties the instance has; it keeps the instance's type and set of properties; every property not named by a non-ignored one keeps its constructed value |
| ObjectSerializerFacts.AssignSplit | Vip.Sat.Shared/DFeCore/Serializer/ObjectSerializer.cs:120-127 | running the property loop over a prefix and then over the rest, from the instance the prefix left, is running it over the whole; a failure in the prefix is the failure of the whole |
| ObjectSerializerFacts.AssignSetsEach | Vip.Sat.Shared/DFeCore/Serializer/ObjectSerializer.cs:121-127 | a non-ignored property that no later property overwrites ends up holding exactly what `Deserialize(PropertyInfo, ...)` read for it from the element, given the instance as the earlier properties left it |
| ObjectSerializerFacts.DeserializeAssignsNonIgnored | Vip.Sat.Shared/DFeCore/Serializer/ObjectSerializer.cs:116-129 | a successful deserialization is the constructed instance in which each non-ignored property holds what was read for it from the element (the last one, when several share a name), and every other property is as constructed |
| ObjectSerializerFacts.DeserializeFailureContext | Vip.Sat.Shared/DFeCore/Serializer/ObjectSerializer.cs:131-134 | a failure while filling an element is construction's failure or the property loop's failure, with exactly one frame added naming the type and the element |
| ObjectSerializerFacts.ReadOnlyPropertyFails | Vip.Sat.Shared/DFeCore/Serializer/ObjectSerializer.cs:120-134 | a non-ignored property without a setter, once read, makes deserialization fail with an argument failure behind the object's frame alone |
| ObjectSerializerFacts.MissingChildYieldsConstructed | Vip.Sat.Shared/DFeCore/Serializer/ObjectSerializer.cs:171-203 | a class property, or a root property with a tag, whose child element is missing is set to a freshly constructed instance, not to null |
| ObjectSerializerFacts.RootChildLookup | Vip.Sat.Shared/DFeCore/Serializer/ObjectSerializer.cs:179-196 | a root property without a tag reads the first child, in document order, whose local name is a candidate; any list with the same candidates, in any order, selects the same child |
| ObjectSerializerFacts.PrimitiveLookup | Vip.Sat.Shared/DFeCore/Serializer/ObjectSerializer.cs:205-208 | a primitive property is read from an element whenever a child element carries its tag; only when none does is it read from the attribute of that name |
| DFeDictionaryValue.DFeDictionaryValueAttribute.constructor | Vip.Sat.Shared/DFeCore/Attributes/DFeDictionaryValueAttribute.cs:14-23 | `Tipo` is `Str`; `Id`, `Name` and `Descricao` are empty; `Min`, `Max` and `Ocorrencia` are 0; `Namespace` is unset |
| DFeDictionaryValue.DFeDictionaryValueAttribute.WithTag | Vip.Sat.Shared/DFeCore/Attributes/DFeDictionaryValueAttribute.cs:29-32 | `Name` is the tag; every other field keeps its default and `Namespace` is unset |
| DFeDictionaryValue.DFeDictionaryValueAttribute.WithTipoAndName | Vip.Sat.Shared/DFeCore/Attributes/DFeDictionaryValueAttribute.cs:39-43 | `Tipo` and `Name` are the arguments; `Id`, `Min`, `Max`, `Ocorrencia` and `Descricao` keep their defaults and `Namespace` is unset |
| DFeDictionaryValue.DFeDictionaryValueAttribute.Defaults | Vip.Sat.Shared/DFeCore/Attributes/DFeDictionaryValueAttribute.cs:14-23 | the body of the parameterless constructor sets every default and does not touch `Namespace` |
| DFeDictionaryValue.DFeDictionaryValueAttribute.SetNamespace | Vip.Sat.Shared/DFeCore/Attributes/DFeDictionaryValueAttribute.cs:53 | setting `Namespace` changes only `Namespace` |
| ImpostoPisAliqFixture.DeclarationOrderOfTags | source/Vip.Sat/Domain/Imposto/ImpostoPisAliq.cs:18-28 | an `ImpostoPisAliq` whose four fields all want to be written is visited as CST, vBC, pPIS, vPIS |
| ImpostoPisAliqFixture.DeclinedFieldDropped | source/Vip.Sat/Domain/Imposto/ImpostoPisAliq.cs:18-28 | when vBC declines to be written, only vBC is dropped; the rest keep declaration order |

## Left out

- Reflection (`GetProperties`, `GetAttribute`, `HasAttribute`, `PropertyType`, `DeclaringType`) is replaced by the descriptor table. A property's declaring type is always known. The message's fallback to the property type's name, used when `DeclaringType` is null, is therefore not modelled.
- `ObjectType.From`, `ShouldIgnoreProperty`, `ShouldSerializeProperty`, the dictionary, collection, interface and primitive serializers, `GetTag`, `GetRootName`/`GetRootNames`, `HasCreate`/`GetCreate` and `Activator.CreateInstance` are parameters. Their code is not part of this model. Nothing is assumed about their results beyond what functions give: each always returns, and returns the same answer for the same arguments. So `ShouldSerializeProperty` answers the re-check at line 30 as it answered the filter at line 25, and `GetRootName`, `GetRootNames` and `ObjectType.From` never fail and never return null. The dictionary, collection and interface serializers are taken to return a finished sequence or their failure. A lazy sequence that fails while line 35 enumerates it would, in the source, fail outside the per-property `try` and gain only the object frame; that case is not represented. `ShouldIgnoreProperty` is the descriptor's `ignored` flag.
- `ElementsAnyNs` and `ElementAnyNs` are extension methods whose code is not part of this model. They are taken as "the child elements with this local name, in any namespace" and "the first of them".
- `IsIn` is an extension method whose code is not part of this model. It is taken as plain membership in the listed values or names.
- `SerializerOptions` is not modelled: every collaborator that receives it is taken to hold it fixed.
- The conversions `ArrayList.ToArray(type)` and `Cast(type)` are left to the collection collaborator. So are the lookup of the element type by array element type or generic argument. The collaborator is told the classification.
- Exception messages, `Environment.NewLine` and the value's `ToString` are left out. A failure keeps its cause and the frames that name the object, type, element or property.
- XML namespace semantics beyond a (namespace, local name) pair are left out. So are the validation of local names by `XName` and how `XNamespace` combines with names.
- `AddChild` and `AddAttribute` are extension methods whose code is not part of this model. They are taken as appending a child or an attribute. Their effect on the element in place is modelled on values (`AddNodes` rebuilds the element).
- GetValue: a getter is taken to return the property's stored value without failing. A getter that throws, which .NET reports as a `TargetInvocationException`, is not modelled; a missing getter is.
- SetValue: every value read is taken to fit the property's type. Values carry no .NET type, so the failure of `prop.SetValue` on a value the property cannot hold is not modelled.
- `prop.SetValue` in place is modelled on values: `SetValue` returns the updated instance. Aliasing between the instance and what the collaborators hold is not captured.
- A null node from a serializer is not represented. The primitive serializer yields a node or a failure, and the dictionary, collection and interface serializers yield a sequence of nodes or a failure. In the source, a null node from any of the four would pass the `(XAttribute)` cast and reach `AddAttribute`.
- `Ocorrencia` and `TipoCampo` are modelled with only the values that `ObjectSerializer`, the dictionary-value descriptor and `ImpostoPisAliq` use. `ObjectSerializer` tests only `NaoObrigatoria`; `Obrigatoria` and `MaiorQueZero` are the values `ImpostoPisAliq` declares. `TipoCampo` names `Str` and keeps every other format apart by a code. The descriptor class holds `Ocorrencia` as the enumeration's underlying number, because its constructor assigns the number 0, and which named value that is belongs to the enumeration's declaration.
- `DFeBaseAttribute` is not part of this model. The fields its constructors assign (`Tipo`, `Id`, `Name`, `Min`, `Max`, `Ocorrencia`, `Descricao`) are declared on the class. Its other members, `Ordem` among them, are not: the `Ordem` that orders properties is read from a property's descriptor (`Property.ordem`). Only the setter of `Namespace` is modelled.
- `GetProperties()` is taken to return the properties in declaration order. .NET does not promise that order. `DeclarationOrderOfTags` and `DeclinedFieldDropped` hold for the order the descriptor lists.
- `Value` is a finite tree, so shared or cyclic object graphs are not represented. On a cyclic graph the source's recursion does not terminate.
- A null name (a tag, a root name, `GetRootName`'s result) is taken as the empty string, because every use in the engine either tests `IsNullOrEmpty` or builds a name from it. A null namespace is kept apart as `None`.
- A round trip across the whole engine is not stated, because it depends on the collaborators' codecs.
- `ImpostoPisAliq`'s `PropertyChanged` event and its decimal values are left out. Only its descriptor is modelled.
