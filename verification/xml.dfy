/**
 * The in-memory XML tree the engine produces and consumes (System.Xml.Linq in the
 * source), reduced to what the engine looks at: qualified names, element children
 * in document order, attributes in the order they were added, and text nodes.
 */
module Xml {
  import opened Wrappers

  /** An expanded name: namespace URI ("" for none) and local name. */
  datatype XName = XName(ns: string, local: string)

  datatype XNode =
    | Element(name: XName, children: seq<XNode>, attrs: seq<XNode>)
    | Attribute(name: XName, text: string)
    | Text(text: string)

  type XElement = n: XNode | n.Element? witness Element(XName("", ""), [], [])

  /**
   * What a real tree looks like: an element's children are elements or text, all of
   * them well formed, and its attributes are attributes.
   */
  predicate WellFormed(n: XNode) {
    match n
    case Element(_, children, attrs) =>
      (forall c :: c in children ==> !c.Attribute? && WellFormed(c)) &&
      (forall a :: a in attrs ==> a.Attribute?)
    case _ => true
  }

  /** A child that `Elements()` yields and whose local name is one of `names`. */
  predicate IsElementAmong(n: XNode, names: seq<string>) {
    n.Element? && n.name.local in names
  }

  /** The element nodes of `nodes` whose local name is among `names`, in document order. */
  function ElementsAmong(nodes: seq<XNode>, names: seq<string>): (r: seq<XElement>)
    ensures forall x :: x in r ==> x in nodes && IsElementAmong(x, names)
    ensures forall x :: x in nodes && IsElementAmong(x, names) ==> x in r
  {
    if nodes == [] then []
    else (if IsElementAmong(nodes[0], names) then [nodes[0]] else []) + ElementsAmong(nodes[1..], names)
  }

  /** `parent.ElementsAnyNs(local)`: the child elements with that local name, in any namespace. */
  function ElementsAnyNs(parent: XElement, local: string): (r: seq<XElement>)
    ensures forall x :: x in r ==> x in parent.children && x.Element? && x.name.local == local
    ensures forall x :: x in parent.children && x.Element? && x.name.local == local ==> x in r
  {
    ElementsAmong(parent.children, [local])
  }

  /** `FirstOrDefault()` on a sequence of nodes. */
  function FirstOrNone<T>(s: seq<T>): (r: Option<T>)
    ensures r.Some? <==> s != []
    ensures r.Some? ==> r.value == s[0]
  {
    if s == [] then None else Some(s[0])
  }

  /** The first element of `parent.children` whose local name is among `names`, if any. */
  function FirstChildAmong(parent: XElement, names: seq<string>): (r: Option<XElement>)
    ensures r.Some? ==> r.value in parent.children && r.value.name.local in names
  {
    FirstOrNone(ElementsAmong(parent.children, names))
  }

  /** The attributes of `parent` named `local` with no namespace, as `Attributes(string)` selects them. */
  function AttributesNamed(attrs: seq<XNode>, local: string): (r: seq<XNode>)
    ensures forall x :: x in r ==> x in attrs && x.Attribute? && x.name == XName("", local)
    ensures forall x :: x in attrs && x.Attribute? && x.name == XName("", local) ==> x in r
  {
    if attrs == [] then []
    else
      var head := if attrs[0].Attribute? && attrs[0].name == XName("", local) then [attrs[0]] else [];
      head + AttributesNamed(attrs[1..], local)
  }

  /** The node kinds `XElement.Add` files as children (elements) and as attributes. */
  function ElementNodes(nodes: seq<XNode>): (r: seq<XNode>)
  {
    if nodes == [] then [] else (if nodes[0].Element? then [nodes[0]] else []) + ElementNodes(nodes[1..])
  }

  function AttributeNodes(nodes: seq<XNode>): (r: seq<XNode>)
  {
    if nodes == [] then [] else (if nodes[0].Attribute? then [nodes[0]] else []) + AttributeNodes(nodes[1..])
  }

  predicate NoText(nodes: seq<XNode>) {
    forall x :: x in nodes ==> !x.Text?
  }

  lemma {:induction false} ElementNodesAppend(a: seq<XNode>, b: seq<XNode>)
    ensures ElementNodes(a + b) == ElementNodes(a) + ElementNodes(b)
  {
    if a != [] {
      assert (a + b)[1..] == a[1..] + b;
      ElementNodesAppend(a[1..], b);
    } else {
      assert a + b == b;
    }
  }

  lemma {:induction false} AttributeNodesAppend(a: seq<XNode>, b: seq<XNode>)
    ensures AttributeNodes(a + b) == AttributeNodes(a) + AttributeNodes(b)
  {
    if a != [] {
      assert (a + b)[1..] == a[1..] + b;
      AttributeNodesAppend(a[1..], b);
    } else {
      assert a + b == b;
    }
  }

  /**
   * The earliest node of `nodes` that is an element named by one of `names` is what
   * `FirstOrNone(ElementsAmong(nodes, names))` picks, and it is absent exactly when no
   * node qualifies.
   */
  lemma {:induction false} FirstMatchIsEarliest(nodes: seq<XNode>, names: seq<string>)
    ensures FirstOrNone(ElementsAmong(nodes, names)).None? <==>
            forall i :: 0 <= i < |nodes| ==> !IsElementAmong(nodes[i], names)
    ensures FirstOrNone(ElementsAmong(nodes, names)).Some? ==>
            exists i :: 0 <= i < |nodes| && nodes[i] == FirstOrNone(ElementsAmong(nodes, names)).value &&
              IsElementAmong(nodes[i], names) && forall j :: 0 <= j < i ==> !IsElementAmong(nodes[j], names)
  {
    if nodes != [] {
      FirstMatchIsEarliest(nodes[1..], names);
      if !IsElementAmong(nodes[0], names) {
        assert ElementsAmong(nodes, names) == ElementsAmong(nodes[1..], names);
        if FirstOrNone(ElementsAmong(nodes, names)).Some? {
          var i :| 0 <= i < |nodes[1..]| && nodes[1..][i] == FirstOrNone(ElementsAmong(nodes, names)).value &&
              IsElementAmong(nodes[1..][i], names) && forall j :: 0 <= j < i ==> !IsElementAmong(nodes[1..][j], names);
          assert nodes[i + 1] == nodes[1..][i];
          forall j | 0 <= j < i + 1 ensures !IsElementAmong(nodes[j], names) {
            if j > 0 { assert nodes[j] == nodes[1..][j - 1]; }
          }
        } else {
          forall i | 0 <= i < |nodes| ensures !IsElementAmong(nodes[i], names) {
            if i > 0 { assert nodes[i] == nodes[1..][i - 1]; }
          }
        }
      }
    }
  }

  /** The scan depends only on which names are candidates, not on their order or repetition. */
  lemma {:induction false} CandidateOrderIrrelevant(nodes: seq<XNode>, a: seq<string>, b: seq<string>)
    requires forall s :: s in a <==> s in b
    ensures ElementsAmong(nodes, a) == ElementsAmong(nodes, b)
  {
    if nodes != [] {
      CandidateOrderIrrelevant(nodes[1..], a, b);
    }
  }
}
