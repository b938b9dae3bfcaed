/**
 * The metadata descriptor `[DFeDictionaryValue]`, which marks the value side of a
 * dictionary-typed property. Its fields (apart from `Namespace`) are inherited from the
 * shared base descriptor, whose definition is not part of this model; they are declared
 * here directly. Instances are built once by a constructor and then read, and the only
 * member this class adds is the settable `Namespace`.
 */
module DFeDictionaryValue {
  import opened Wrappers

  /**
   * The field format of a descriptor. Only `Str` is named by the constructors; the other
   * formats of the enumeration are kept apart by their code.
   */
  datatype TipoCampo = Str | Other(code: int)

  class DFeDictionaryValueAttribute {
    var Tipo: TipoCampo
    var Id: string
    var Name: string
    var Min: int
    var Max: int
    /** The occurrence rule, as the underlying number of the enumeration; the constructors assign 0. */
    var Ocorrencia: int
    var Descricao: string
    /** `null` until set: `None`. */
    var Namespace: Option<string>

    /** The parameterless constructor: every inherited field takes its default. */
    constructor ()
      ensures Tipo == Str && Id == "" && Name == "" && Descricao == ""
      ensures Min == 0 && Max == 0 && Ocorrencia == 0
      ensures Namespace == None
    {
      Namespace := None;
      new;
      Defaults();
    }

    /** The tag constructor: the defaults, then the tag as the name. */
    constructor WithTag(tag: string)
      ensures Name == tag
      ensures Tipo == Str && Id == "" && Descricao == ""
      ensures Min == 0 && Max == 0 && Ocorrencia == 0
      ensures Namespace == None
    {
      Namespace := None;
      new;
      Defaults();
      Name := tag;
    }

    /** The format-and-name constructor: the defaults, then the format and the name. */
    constructor WithTipoAndName(tipo: TipoCampo, name: string)
      ensures Tipo == tipo && Name == name
      ensures Id == "" && Descricao == ""
      ensures Min == 0 && Max == 0 && Ocorrencia == 0
      ensures Namespace == None
    {
      Namespace := None;
      new;
      Defaults();
      Tipo := tipo;
      Name := name;
    }

    /**
     * The body of the parameterless constructor, which the other two run first. It
     * leaves `Namespace` alone.
     */
    method Defaults()
      modifies this
      ensures Tipo == Str && Id == "" && Name == "" && Descricao == ""
      ensures Min == 0 && Max == 0 && Ocorrencia == 0
      ensures Namespace == old(Namespace)
    {
      Tipo := Str;
      Id := "";
      Name := "";
      Min := 0;
      Max := 0;
      Ocorrencia := 0;
      Descricao := "";
    }

    /** The `Namespace` setter: only the namespace changes. */
    method SetNamespace(ns: Option<string>)
      modifies this
      ensures Namespace == ns
      ensures Tipo == old(Tipo) && Id == old(Id) && Name == old(Name) && Descricao == old(Descricao)
      ensures Min == old(Min) && Max == old(Max) && Ocorrencia == old(Ocorrencia)
    {
      Namespace := ns;
    }
  }
}
