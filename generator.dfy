/**
  The two decisions the code generator (mig.c, generate_parameters and the
  enumeration case of generate_cpp) takes for each definition; the text it
  prints around them is not modelled.
*/
module Generator {
  import opened Bytes
  import opened HashTable
  import opened Schema
  import opened Symbols

  /** The runtime parameter template a declared parameter becomes. */
  datatype ParamKind = GroupParam | VarParam | ScalarParam | EnumParam

  /** One generated member `::mig::<kind>_parameter<<dataType>> <name>{<id>[, ::mig::OPTIONAL]};`. */
  datatype MemberDecl = MemberDecl(kind: ParamKind, dataType: string, name: string, id: int, optional: bool)

  /** The member generated for parameter `p` whose type resolved to element `e`:
      groups and enumerations keep the declared type name, datatypes substitute
      their native type and are "var" or "scalar" by their flag, and a parameter
      whose type is a message generates nothing. */
  function MemberFor(p: ParamDecl, e: Element): (r: Option<MemberDecl>)
    ensures r.None? <==> e.Message?
    ensures r.Some? ==> r.value.name == p.name && r.value.id == p.id && r.value.optional == p.optional
    ensures r.Some? ==> (r.value.kind == GroupParam <==> e.Group?)
    ensures r.Some? ==> (r.value.kind == EnumParam <==> e.Enumeration?)
    ensures r.Some? ==> (r.value.kind == VarParam <==> e.Datatype? && e.isVar)
    ensures r.Some? ==> r.value.dataType == (if e.Datatype? then e.native else p.typeName)
  {
    match e
    case Group(_, _, _) => Some(MemberDecl(GroupParam, p.typeName, p.name, p.id, p.optional))
    case Datatype(_, native, isVar) =>
      Some(MemberDecl(if isVar then VarParam else ScalarParam, native, p.name, p.id, p.optional))
    case Enumeration(_, _, _) => Some(MemberDecl(EnumParam, p.typeName, p.name, p.id, p.optional))
    case Message(_, _, _, _) => None
  }

  /** `name` hashes to a bucket of the type table `t` and is registered there. */
  predicate Registered(t: seq<seq<Entry<string, Node<Element>>>>, name: string)
  {
    |t| == HashTableSize && 0 <= NameHash(name) && Lookup(t, NameHash, NameCmp, name).Some?
  }

  /** Every parameter's type name is registered in the type table `t`. */
  predicate AllResolve(t: seq<seq<Entry<string, Node<Element>>>>, params: seq<ParamDecl>)
  {
    |t| == HashTableSize && forall i :: 0 <= i < |params| ==> Registered(t, params[i].typeName)
  }

  /** The element a registered type name resolves to (the newest namecmp-equal entry of its bucket). */
  function Resolve(t: seq<seq<Entry<string, Node<Element>>>>, name: string): Element
    requires Registered(t, name)
  {
    Lookup(t, NameHash, NameCmp, name).value.item.item
  }

  /** The member generated for one parameter, if any. */
  function MemberOf(t: seq<seq<Entry<string, Node<Element>>>>, p: ParamDecl): seq<MemberDecl>
    requires Registered(t, p.typeName)
  {
    match MemberFor(p, Resolve(t, p.typeName))
    case None => []
    case Some(m) => [m]
  }

  /** The members generated for a parameter list, in list order. */
  function Members(t: seq<seq<Entry<string, Node<Element>>>>, params: seq<ParamDecl>): seq<MemberDecl>
    requires AllResolve(t, params)
  {
    if params == [] then []
    else
      var prefix := params[..|params| - 1];
      assert AllResolve(t, prefix) by {
        forall i | 0 <= i < |prefix|
          ensures Registered(t, prefix[i].typeName)
        {
          assert prefix[i] == params[i];
        }
      }
      Members(t, prefix) + MemberOf(t, params[|params| - 1])
  }

  /** When no parameter has a message type, there is one member per parameter,
      in declaration order, with the parameter's name, id and optional flag. */
  lemma {:induction false} MembersOnePerParameter(t: seq<seq<Entry<string, Node<Element>>>>, params: seq<ParamDecl>)
    requires AllResolve(t, params)
    requires forall i :: 0 <= i < |params| ==> !Resolve(t, params[i].typeName).Message?
    ensures |Members(t, params)| == |params|
    ensures forall i :: 0 <= i < |params| ==>
      var m := Members(t, params)[i];
      m.name == params[i].name && m.id == params[i].id && m.optional == params[i].optional
  {
    if params != [] {
      var n := |params| - 1;
      var prefix := params[..n];
      assert AllResolve(t, prefix) by {
        assert forall i :: 0 <= i < n ==> prefix[i] == params[i];
      }
      forall i | 0 <= i < n
        ensures !Resolve(t, prefix[i].typeName).Message?
      {
        assert prefix[i] == params[i];
      }
      MembersOnePerParameter(t, prefix);
      var last := MemberFor(params[n], Resolve(t, params[n].typeName));
      assert last.Some?;
      assert Members(t, params) == Members(t, prefix) + [last.value];
      forall i | 0 <= i < |params|
        ensures Members(t, params)[i].name == params[i].name
        ensures Members(t, params)[i].id == params[i].id
        ensures Members(t, params)[i].optional == params[i].optional
      {
        if i < n {
          assert Members(t, params)[i] == Members(t, prefix)[i];
          assert prefix[i] == params[i];
        }
      }
    }
  }

  lemma MembersStep(t: seq<seq<Entry<string, Node<Element>>>>, params: seq<ParamDecl>, i: nat)
    requires i < |params| && AllResolve(t, params)
    ensures AllResolve(t, params[..i]) && AllResolve(t, params[..i + 1])
    ensures Members(t, params[..i + 1]) == Members(t, params[..i]) + MemberOf(t, params[i])
  {
    assert params[..i + 1][..i] == params[..i];
    assert forall k :: 0 <= k < i + 1 ==> params[..i + 1][k] == params[k];
  }

  /** generate_parameters: looks every parameter's type up in the type table
      and decides the member it becomes.  An unregistered type is dereferenced
      as NULL in the source, so every type must be registered. */
  method GenerateParameters(types: Types, pp: Node?<ParamDecl>, ghost nodes: seq<Node<ParamDecl>>)
    returns (decls: seq<MemberDecl>)
    requires types.Valid() && types.hash == NameHash && types.comp == NameCmp
    requires IsList(pp, nodes)
    requires AllResolve(types.table[..], Items(nodes))
    ensures decls == Members(types.table[..], Items(nodes))
  {
    ghost var params := Items(nodes);
    ghost var t := types.table[..];
    decls := [];
    var p := pp;
    ghost var i := 0;
    assert params[..0] == [];
    while p != null
      invariant 0 <= i <= |nodes|
      invariant p == (if i < |nodes| then nodes[i] else null)
      invariant AllResolve(t, params[..i])
      invariant decls == Members(t, params[..i])
      decreases |nodes| - i
    {
      MembersStep(t, params, i);
      assert p.item == params[i] && Registered(t, params[i].typeName);
      var np := types.Search(p.item.typeName);
      assert np.value.item.item == Resolve(t, params[i].typeName);
      var m := MemberFor(p.item, np.value.item.item);
      if m.Some? {
        decls := decls + [m.value];
      }
      p := p.next;
      i := i + 1;
    }
    assert params[..i] == params;
  }

  /** The value of the `Count` sentinel after enumerators with the given values:
      one more than the running maximum, which starts at 0. */
  function CountValue(values: seq<int>): int
  {
    if values == [] then 1
    else
      var c := CountValue(values[..|values| - 1]);
      var v := values[|values| - 1];
      if v + 1 > c then v + 1 else c
  }

  /** `Count` lies above every enumerator value and is at least 1, and it is
      either 1 or one more than some enumerator value: that is, it is
      max(0, largest value) + 1. */
  lemma {:induction false} CountValueBounds(values: seq<int>)
    ensures CountValue(values) >= 1
    ensures forall i :: 0 <= i < |values| ==> values[i] < CountValue(values)
    ensures CountValue(values) == 1 || exists i :: 0 <= i < |values| && values[i] == CountValue(values) - 1
  {
    if values != [] {
      var prefix := values[..|values| - 1];
      CountValueBounds(prefix);
      assert forall i :: 0 <= i < |prefix| ==> values[i] == prefix[i];
    }
  }

  /** The enumerators of the test schema's enumeration, 0 and 1, give Count = 2. */
  lemma CountAfterZeroOne()
    ensures CountValue([0, 1]) == 2
  {
    assert [0, 1][..1] == [0];
    assert [0][..0] == [];
  }

  /** A negative-only enumeration still gets Count = 1. */
  lemma CountAfterNegatives()
    ensures CountValue([-5, -2]) == 1
  {
    assert [-5, -2][..1] == [-5];
    assert [-5][..0] == [];
  }

  lemma CountValueStep(vs: seq<int>, i: nat)
    requires i < |vs|
    ensures CountValue(vs[..i + 1]) == if vs[i] + 1 > CountValue(vs[..i]) then vs[i] + 1 else CountValue(vs[..i])
  {
    assert vs[..i + 1][..i] == vs[..i];
  }

  function Values(es: seq<EnumeratorDecl>): (vs: seq<int>)
    ensures |vs| == |es| && forall i :: 0 <= i < |es| ==> vs[i] == es[i].value
  {
    seq(|es|, i requires 0 <= i < |es| => es[i].value)
  }

  /** One pass of the enumeration loop: the prefix grows by the next
      enumerator and the running `Count` takes its value into account. */
  lemma EnumerationStep(es: seq<EnumeratorDecl>, i: nat)
    requires i < |es|
    ensures es[..i + 1] == es[..i] + [es[i]]
    ensures var c := CountValue(Values(es)[..i]);
      CountValue(Values(es)[..i + 1]) == if es[i].value + 1 > c then es[i].value + 1 else c
  {
    CountValueStep(Values(es), i);
  }

  /** The enumeration case of generate_cpp: the enumerators in list order, then
      `Count` one above the largest value (and above 0). */
  method EmitEnumeration(head: Node?<EnumeratorDecl>, ghost nodes: seq<Node<EnumeratorDecl>>)
    returns (entries: seq<EnumeratorDecl>)
    requires IsList(head, nodes)
    ensures entries == Items(nodes) + [EnumeratorDecl("Count", CountValue(Values(Items(nodes))))]
  {
    ghost var es := Items(nodes);
    ghost var vs := Values(es);
    var value := 0;
    entries := [];
    var pp := head;
    ghost var i := 0;
    while pp != null
      invariant 0 <= i <= |nodes|
      invariant pp == (if i < |nodes| then nodes[i] else null)
      invariant entries == es[..i]
      invariant value + 1 == CountValue(vs[..i])
      decreases |nodes| - i
    {
      EnumerationStep(es, i);
      entries := entries + [pp.item];
      if pp.item.value > value {
        value := pp.item.value;
      }
      pp := pp.next;
      i := i + 1;
    }
    assert es[..i] == es;
    assert vs[..i] == vs;
    value := value + 1;
    entries := entries + [EnumeratorDecl("Count", value)];
  }
}
