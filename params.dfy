/**
  The runtime parameter model of migmsg.h: parameters that start unset and
  are set by their owner, and groups (GroupBase, and messages, which are
  groups with an id) that own a map from parameter id to parameter.

  The class templates `scalar_parameter<T>`, `enum_parameter<T>`,
  `var_parameter<T>` and `group_parameter<T>` become one class `Parameter`
  whose constant `kind` says which template it is; `m_group` is the constant
  `group`, non-null exactly for group parameters.  The `std::map` of a group
  becomes a sequence of parameters in ascending id order (its iteration order).

  The queries (`is_set`, `is_valid`, `size`) are defined on `PView`, an
  immutable snapshot of a parameter tree, which the wire format is also
  defined on.
*/
module Params {
  import opened Bytes

  /** The C++ types a scalar parameter can carry; `VoidT` is `mig::void_t`. */
  datatype NativeType = VoidT | Bool | Int8 | UInt8 | Int16 | UInt16 | Int32 | UInt32 | Int64 | UInt64

  /** The data of a variable-size parameter: `blob_t` or `std::string` (held as its bytes). */
  datatype VarType = Blob | Str

  datatype Kind = Scalar(t: NativeType) | Enum | Var(v: VarType) | GroupKind

  /** sizeof(T) for the scalar types; `scalar_parameter<void_t>::size` is 0. */
  function Width(t: NativeType): nat
  {
    match t
    case VoidT => 0
    case Bool => 1
    case Int8 => 1
    case UInt8 => 1
    case Int16 => 2
    case UInt16 => 2
    case Int32 => 4
    case UInt32 => 4
    case Int64 => 8
    case UInt64 => 8
  }

  predicate IsSigned(t: NativeType)
  {
    t == Int8 || t == Int16 || t == Int32 || t == Int64
  }

  /** The values a C++ variable of type `t` can hold. */
  predicate InRange(t: NativeType, v: int)
  {
    if t == VoidT then v == 0
    else if t == Bool then v == 0 || v == 1
    else if IsSigned(t) then SignedInRange(Width(t), v)
    else 0 <= v < Modulus(Width(t))
  }

  /** The values of `enum_t` (uint8_t), the underlying type of every generated enum. */
  predicate EnumInRange(v: int)
  {
    0 <= v < 256
  }

  /** A snapshot of one parameter: its constant attributes, its mutable state
      (`m_is_set`, `m_data` as `value` for scalars and enums or `data` for
      strings and blobs), and for a group parameter the snapshots of the
      nested group's parameters. */
  datatype PView = PView(id: int, optional: bool, kind: Kind, isSet: bool, value: int, data: seq<Byte>, members: seq<PView>)

  /** parameter::is_set, overridden by group_parameter to the nested group's validity. */
  function ParamIsSet(p: PView): bool
  {
    if p.kind.GroupKind? then GroupIsValid(p.members) else p.isSet
  }

  /** parameter::is_valid (set or optional), overridden by group_parameter
      to (nested group valid or optional). */
  function ParamIsValid(p: PView): bool
  {
    if p.kind.GroupKind? then GroupIsValid(p.members) || p.optional else p.isSet || p.optional
  }

  /** GroupBase::is_valid: no parameter is invalid.  GroupBase::is_set is the same. */
  function GroupIsValid(ps: seq<PView>): bool
  {
    forall i :: 0 <= i < |ps| ==> ParamIsValid(ps[i])
  }

  /** parameter::is_scalar: true for scalar and enum parameters (the constructor default). */
  function ParamIsScalar(p: PView): bool
  {
    p.kind.Scalar? || p.kind.Enum?
  }

  /** `var_parameter<blob_t>::size` dereferences its data pointer, which is null until set:
      a size is defined only when every blob parameter in the tree is set. */
  predicate Sized(p: PView)
  {
    match p.kind
    case Var(Blob) => p.isSet
    case GroupKind => GroupSized(p.members)
    case _ => true
  }

  predicate GroupSized(ps: seq<PView>)
  {
    forall i :: 0 <= i < |ps| ==> Sized(ps[i])
  }

  /** parameter::size: sizeof(T) for scalars whether set or not, 1 for every
      enumeration, length + 1 for strings (the terminating NUL), the byte count
      for blobs and the nested group's size for group parameters. */
  function ParamSize(p: PView): nat
    requires Sized(p)
  {
    match p.kind
    case Scalar(t) => Width(t)
    case Enum => 1
    case Var(Str) => |p.data| + 1
    case Var(Blob) => |p.data|
    case GroupKind => GroupSize(p.members)
  }

  /** GroupBase::size: the sum of the parameters' sizes. */
  function GroupSize(ps: seq<PView>): nat
    requires GroupSized(ps)
  {
    if ps == [] then 0 else GroupSize(ps[..|ps| - 1]) + ParamSize(ps[|ps| - 1])
  }

  /** A non-group parameter is valid exactly when it is set or optional, and so
      is a group parameter, whose "set" is its group's validity. */
  lemma ValidIsSetOrOptional(p: PView)
    ensures ParamIsValid(p) <==> ParamIsSet(p) || p.optional
  {
  }

  /** A group is valid exactly when each required parameter is set. */
  lemma {:induction false} GroupValidIffRequiredSet(ps: seq<PView>)
    ensures GroupIsValid(ps) <==> forall i :: 0 <= i < |ps| && !ps[i].optional ==> ParamIsSet(ps[i])
  {
    if GroupIsValid(ps) {
      forall i | 0 <= i < |ps| && !ps[i].optional
        ensures ParamIsSet(ps[i])
      {
        ValidIsSetOrOptional(ps[i]);
      }
    }
    if forall i :: 0 <= i < |ps| && !ps[i].optional ==> ParamIsSet(ps[i]) {
      forall i | 0 <= i < |ps|
        ensures ParamIsValid(ps[i])
      {
        ValidIsSetOrOptional(ps[i]);
      }
    }
  }

  /** Setting a scalar or enum parameter of a group (to any value) leaves the group's size unchanged. */
  lemma {:induction false} SetScalarKeepsGroupSize(ps: seq<PView>, i: nat, v: int)
    requires GroupSized(ps) && i < |ps| && (ps[i].kind.Scalar? || ps[i].kind.Enum?)
    ensures GroupSized(ps[i := ps[i].(isSet := true, value := v)])
    ensures GroupSize(ps[i := ps[i].(isSet := true, value := v)]) == GroupSize(ps)
  {
    var qs := ps[i := ps[i].(isSet := true, value := v)];
    assert GroupSized(qs) by {
      forall k | 0 <= k < |qs|
        ensures Sized(qs[k])
      {
        assert k != i ==> qs[k] == ps[k];
      }
    }
    if i < |ps| - 1 {
      assert qs[..|qs| - 1] == ps[..|ps| - 1][i := ps[i].(isSet := true, value := v)];
      var prefix := ps[..|ps| - 1];
      assert GroupSized(prefix) by {
        forall k | 0 <= k < |prefix|
          ensures Sized(prefix[k])
        {
          assert prefix[k] == ps[k];
        }
      }
      SetScalarKeepsGroupSize(ps[..|ps| - 1], i, v);
    } else {
      assert qs[..|qs| - 1] == ps[..|ps| - 1];
    }
  }

  /** A parameter object.  Only `isSet`, `value` and `data` ever change. */
  class Parameter {
    const id: int
    const optional: bool
    const kind: Kind
    const group: Group?
    var isSet: bool
    var value: int
    var data: seq<Byte>
    ghost const Repr: set<object>

    /** The structure is fixed at construction, so validity of the structure
        never depends on the mutable state. */
    ghost predicate Valid()
      decreases Repr, 1
    {
      && this in Repr
      && (kind.GroupKind? <==> group != null)
      && (group != null ==> group in Repr && group.Repr <= Repr && this !in group.Repr && group.Valid())
    }

    /** scalar_parameter / enum_parameter / var_parameter constructors: unset, value T(0). */
    constructor (id: int, optional: bool, kind: Kind)
      requires !kind.GroupKind?
      ensures Valid() && fresh(Repr)
      ensures this.id == id && this.optional == optional && this.kind == kind && group == null
      ensures !isSet && value == 0 && data == []
    {
      this.id := id;
      this.optional := optional;
      this.kind := kind;
      group := null;
      isSet := false;
      value := 0;
      data := [];
      Repr := {this};
    }

    /** group_parameter constructor: the nested group is owned by the parameter. */
    constructor Grouped(id: int, optional: bool, g: Group)
      requires g.Valid()
      ensures Valid() && fresh(Repr - g.Repr)
      ensures this.id == id && this.optional == optional && kind == GroupKind && group == g
      ensures !isSet && value == 0 && data == []
    {
      this.id := id;
      this.optional := optional;
      kind := GroupKind;
      group := g;
      isSet := false;
      value := 0;
      data := [];
      Repr := {this} + g.Repr;
    }

    /** The current snapshot of this parameter and everything it owns. */
    function View(): (v: PView)
      requires Valid()
      reads Repr
      ensures v.id == id && v.optional == optional && v.kind == kind
      ensures v.isSet == isSet && v.value == value && v.data == data
      decreases Repr, 0
    {
      PView(id, optional, kind, isSet, value, data, if group == null then [] else group.Views())
    }

    /** scalar_parameter::set / enum_parameter::set (and operator=): stores the
        value and marks the parameter set. */
    method SetValue(v: int)
      requires Valid()
      requires (kind.Scalar? && kind.t != VoidT && InRange(kind.t, v)) || (kind.Enum? && EnumInRange(v))
      modifies this
      ensures isSet && value == v && data == old(data)
      ensures View() == old(View()).(isSet := true, value := v)
    {
      value := v;
      isSet := true;
    }

    /** parameter::set(): marks the parameter set without touching its data
        (the only setter of `scalar_parameter<void_t>`). */
    method Mark()
      requires Valid() && !kind.GroupKind?
      modifies this
      ensures isSet && value == old(value) && data == old(data)
      ensures View() == old(View()).(isSet := true)
    {
      isSet := true;
    }

    /** var_parameter<T>::set: replaces the data (the previous blob is freed)
        and marks the parameter set. */
    method SetData(d: seq<Byte>)
      requires Valid() && kind.Var?
      modifies this
      ensures isSet && data == d && value == old(value)
      ensures View() == old(View()).(isSet := true, data := d)
    {
      data := d;
      isSet := true;
    }
  }

  /** A group of parameters (GroupBase); a message is a group with an id. */
  class Group {
    const params: seq<Parameter>
    ghost const Repr: set<object>

    ghost predicate Valid()
      decreases Repr, 1
    {
      && this in Repr
      && (forall i :: 0 <= i < |params| ==> params[i] in Repr && params[i].Repr <= Repr && this !in params[i].Repr)
      && (forall i, j :: 0 <= i < j < |params| ==> params[i].id < params[j].id)
      && (forall i, j :: 0 <= i < j < |params| ==> params[i].Repr !! params[j].Repr)
      && (forall i :: 0 <= i < |params| ==> params[i].Valid())
    }

    /** GroupBase(m_params): the map's entries in ascending id order, each
        parameter owned by this group alone. */
    constructor (params: seq<Parameter>)
      requires forall i :: 0 <= i < |params| ==> params[i].Valid()
      requires forall i, j :: 0 <= i < j < |params| ==> params[i].id < params[j].id
      requires forall i, j :: 0 <= i < j < |params| ==> params[i].Repr !! params[j].Repr
      ensures Valid() && this.params == params
      ensures Repr == {this} + ReprOf(params)
    {
      this.params := params;
      Repr := {this} + ReprOf(params);
      new;
      forall i | 0 <= i < |params|
        ensures params[i].Repr <= ReprOf(params)
      {
        ReprOfContains(params, i);
      }
    }

    static ghost function ReprOf(ps: seq<Parameter>): set<object>
    {
      if ps == [] then {} else ReprOf(ps[..|ps| - 1]) + ps[|ps| - 1].Repr
    }

    static lemma {:induction false} ReprOfContains(ps: seq<Parameter>, i: nat)
      requires i < |ps|
      ensures ps[i].Repr <= ReprOf(ps)
    {
      if i < |ps| - 1 {
        ReprOfContains(ps[..|ps| - 1], i);
      }
    }

    /** The snapshots of the parameters, in id order. */
    function Views(): (vs: seq<PView>)
      requires Valid()
      reads Repr
      ensures |vs| == |params|
      ensures forall i :: 0 <= i < |params| ==> vs[i] == params[i].View()
      decreases Repr, 2
    {
      ViewsUpTo(|params|)
    }

    function ViewsUpTo(n: nat): (vs: seq<PView>)
      requires Valid() && n <= |params|
      reads Repr
      ensures |vs| == n
      ensures forall i :: 0 <= i < n ==> vs[i] == params[i].View()
      decreases Repr, 1, n
    {
      if n == 0 then [] else ViewsUpTo(n - 1) + [params[n - 1].View()]
    }
  }
}
