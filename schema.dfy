/**
  The schema compiler's parse results: singly linked lists of parameters,
  enumerators and top-level elements, built by the parser in stack order
  (each new node is pushed in front) and reversed in place afterwards
  (TRAVERSE_AND_FLIP_LIST in mig.c).

  The three C structs that carry a `next` link share one generic node class;
  the rest of each struct is an immutable datatype value in `item`.
*/
module Schema {

  /** struct parameter, without its link */
  datatype ParamDecl = ParamDecl(name: string, id: int, typeName: string, optional: bool, repeated: bool)

  /** struct enumerator, without its link */
  datatype EnumeratorDecl = EnumeratorDecl(name: string, value: int)

  /** struct element, without its link: the tagged union of the four top-level
      definitions.  Message and group parameter lists are heads of node lists. */
  datatype Element =
    | Datatype(name: string, native: string, isVar: bool)
    | Message(name: string, id: int, parameters: Node?<ParamDecl>, nparameters: int)
    | Enumeration(name: string, enumerators: Node?<EnumeratorDecl>, nenumerators: int)
    | Group(name: string, parameters: Node?<ParamDecl>, nparameters: int)

  /** A list cell: the `next` link is the only field that is ever rewritten. */
  class Node<T> {
    var next: Node?<T>
    const item: T

    constructor (item: T)
      ensures this.item == item && next == null
    {
      this.item := item;
      next := null;
    }
  }

  predicate Distinct<T(==)>(s: seq<T>)
  {
    forall i, j :: 0 <= i < j < |s| ==> s[i] != s[j]
  }

  /** `head` starts a null-terminated chain that visits `nodes`, in order
      (the nodes of such a chain are distinct; `Distinct` is stated separately
      where a proof needs it). */
  ghost predicate IsList<T>(head: Node?<T>, nodes: seq<Node<T>>)
    reads nodes
  {
    && head == (if nodes == [] then null else nodes[0])
    && (forall i :: 0 <= i < |nodes| - 1 ==> nodes[i].next == nodes[i + 1])
    && (nodes != [] ==> nodes[|nodes| - 1].next == null)
  }

  /** The items a list of nodes carries, in list order. */
  function Items<T>(nodes: seq<Node<T>>): (s: seq<T>)
    ensures |s| == |nodes| && forall i :: 0 <= i < |nodes| ==> s[i] == nodes[i].item
  {
    if nodes == [] then [] else [nodes[0].item] + Items(nodes[1..])
  }

  function Reverse<T>(s: seq<T>): (r: seq<T>)
    ensures |r| == |s|
    ensures forall k :: 0 <= k < |s| ==> r[k] == s[|s| - 1 - k]
  {
    if s == [] then [] else Reverse(s[1..]) + [s[0]]
  }

  /** Reversing twice restores the original order. */
  lemma ReverseReverse<T>(s: seq<T>)
    ensures Reverse(Reverse(s)) == s
  {
  }

  lemma ItemsReverse<T>(nodes: seq<Node<T>>)
    ensures Items(Reverse(nodes)) == Reverse(Items(nodes))
  {
    forall k | 0 <= k < |nodes|
      ensures Items(Reverse(nodes))[k] == Reverse(Items(nodes))[k]
    {
    }
  }

  /** flip_parameters / flip_enumerators / flip_elements: reverses the list in
      place by rewriting every `next` link, and counts its nodes. */
  method Flip<T>(head: Node?<T>, ghost nodes: seq<Node<T>>) returns (prev: Node?<T>, n: int)
    requires IsList(head, nodes) && Distinct(nodes)
    modifies nodes
    ensures IsList(prev, Reverse(nodes)) && Distinct(Reverse(nodes))
    ensures n == |nodes|
  {
    n := 0;
    var pp := head;
    prev := null;
    while pp != null
      invariant 0 <= n <= |nodes|
      invariant pp == (if n < |nodes| then nodes[n] else null)
      invariant prev == (if n > 0 then nodes[n - 1] else null)
      invariant n > 0 ==> nodes[0].next == null
      invariant forall k :: 0 < k < n ==> nodes[k].next == nodes[k - 1]
      invariant forall k :: n <= k < |nodes| - 1 ==> nodes[k].next == nodes[k + 1]
      invariant n < |nodes| ==> nodes[|nodes| - 1].next == null
      decreases |nodes| - n
    {
      n := n + 1;
      var next := pp.next;
      pp.next := prev;
      prev := pp;
      pp := next;
    }
  }

  /** The parser pushes each declaration in front of the list built so far;
      flipping that list therefore yields the declarations in source order. */
  lemma FlipRestoresDeclarationOrder<T>(nodes: seq<Node<T>>, declared: seq<T>)
    requires Items(nodes) == Reverse(declared)
    ensures Items(Reverse(nodes)) == declared
  {
    ItemsReverse(nodes);
    ReverseReverse(declared);
  }

  /** mig_creat_parameter */
  method CreatParameter(typeName: string, name: string, id: int, optional: bool, repeated: bool)
    returns (p: Node<ParamDecl>)
    ensures fresh(p) && p.next == null
    ensures p.item == ParamDecl(name, id, typeName, optional, repeated)
  {
    p := new Node(ParamDecl(name, id, typeName, optional, repeated));
  }

  /** mig_creat_enumerator */
  method CreatEnumerator(name: string, value: int) returns (p: Node<EnumeratorDecl>)
    ensures fresh(p) && p.next == null
    ensures p.item == EnumeratorDecl(name, value)
  {
    p := new Node(EnumeratorDecl(name, value));
  }

  /** mig_creat_datatype */
  method CreatDatatype(name: string, native: string, isVar: bool) returns (ep: Node<Element>)
    ensures fresh(ep) && ep.next == null
    ensures ep.item == Datatype(name, native, isVar)
  {
    ep := new Node(Datatype(name, native, isVar));
  }

  /** mig_creat_message: the parameter list is flipped into declaration order and counted. */
  method CreatMessage(name: string, id: int, parameters: Node?<ParamDecl>, ghost nodes: seq<Node<ParamDecl>>)
    returns (ep: Node<Element>)
    requires IsList(parameters, nodes) && Distinct(nodes)
    modifies nodes
    ensures fresh(ep) && ep.next == null
    ensures ep.item.Message? && ep.item.name == name && ep.item.id == id
    ensures IsList(ep.item.parameters, Reverse(nodes)) && Distinct(Reverse(nodes)) && ep.item.nparameters == |nodes|
  {
    var head, n := Flip(parameters, nodes);
    ep := new Node(Message(name, id, head, n));
  }

  /** mig_creat_enumeration: the enumerator list is flipped into declaration order and counted. */
  method CreatEnumeration(name: string, enumerators: Node?<EnumeratorDecl>, ghost nodes: seq<Node<EnumeratorDecl>>)
    returns (ep: Node<Element>)
    requires IsList(enumerators, nodes) && Distinct(nodes)
    modifies nodes
    ensures fresh(ep) && ep.next == null
    ensures ep.item.Enumeration? && ep.item.name == name
    ensures IsList(ep.item.enumerators, Reverse(nodes)) && Distinct(Reverse(nodes)) && ep.item.nenumerators == |nodes|
  {
    var head, n := Flip(enumerators, nodes);
    ep := new Node(Enumeration(name, head, n));
  }

  /** mig_creat_group: the parameter list is flipped into declaration order and counted. */
  method CreatGroup(name: string, parameters: Node?<ParamDecl>, ghost nodes: seq<Node<ParamDecl>>)
    returns (ep: Node<Element>)
    requires IsList(parameters, nodes) && Distinct(nodes)
    modifies nodes
    ensures fresh(ep) && ep.next == null
    ensures ep.item.Group? && ep.item.name == name
    ensures IsList(ep.item.parameters, Reverse(nodes)) && Distinct(Reverse(nodes)) && ep.item.nparameters == |nodes|
  {
    var head, n := Flip(parameters, nodes);
    ep := new Node(Group(name, head, n));
  }
}
