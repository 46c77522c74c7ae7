/**
  The prototype parameter classes of code/mig_templates.h: an earlier,
  self-contained version of the parameter state machine.  Unlike the runtime
  parameters of `Params`, a prototype parameter reports size 0 until it is set.

  `simple_parameter<T>` keeps its value as an integer and `sizeof(T)` as the
  constant `width`; `group_parameter<T>` takes the size of its `T` from the
  function `sizeOf` (the group's own `size()`).
*/
module Prototype {
  import opened Bytes
  import opened Params

  /** The uint16_t par_id a prototype parameter keeps of the int id it is given. */
  function ParId(id: int): (r: nat)
    ensures r < 0x1_0000
    ensures 0 <= id < 0x1_0000 ==> r == id
    ensures r % 0x1_0000 == id % 0x1_0000
  {
    ToUnsignedMod(2, id);
    assert Modulus(2) == 0x1_0000;
    ToUnsigned(2, id)
  }

  /** size() of a prototype parameter: the size of its data once set, 0 before. */
  function PrototypeSize(isSet: bool, size: nat): nat
  {
    if isSet then size else 0
  }

  /** The prototype and the runtime scalar parameter (migmsg.h) report the
      same size exactly when the parameter is set or its type is void_t. */
  lemma PrototypeSizeContrast(p: PView)
    requires p.kind.Scalar?
    ensures PrototypeSize(p.isSet, Width(p.kind.t)) == ParamSize(p) <==> p.isSet || p.kind.t == VoidT
  {
  }

  /** simple_parameter<T>; `present` is its `exists` flag. */
  class SimpleParameter {
    const parId: nat
    const optional: bool
    /** sizeof(T) */
    const width: nat
    var present: bool
    var value: int

    /** simple_parameter(id, optional): unset, value T(0). */
    constructor (id: int, optional: bool, width: nat)
      ensures parId == ParId(id) && this.optional == optional && this.width == width
      ensures !present && value == 0 && Size() == 0
    {
      parId := ParId(id);
      this.optional := optional;
      this.width := width;
      present := false;
      value := 0;
    }

    /** set(value): stores the value and marks the parameter set. */
    method Set(v: int)
      modifies this
      ensures present && value == v
      ensures Size() == width
    {
      value := v;
      present := true;
    }

    /** is_set */
    method IsSet() returns (b: bool)
      ensures b == present
    {
      b := present;
    }

    /** get(): the value last set (T(0) before any set). */
    method Get() returns (v: int)
      ensures v == value
    {
      v := value;
    }

    /** size(): sizeof(T) when set, 0 when not. */
    function Size(): (s: nat)
      reads this
      ensures s == PrototypeSize(present, width)
      ensures s <= width
    {
      if present then width else 0
    }
  }

  /** simple_parameter<void_t>: no value; get() reports whether it is set. */
  class VoidParameter {
    const parId: nat
    const optional: bool
    var present: bool

    constructor (id: int, optional: bool)
      ensures parId == ParId(id) && this.optional == optional && !present
    {
      parId := ParId(id);
      this.optional := optional;
      present := false;
    }

    /** set(): marks the parameter set. */
    method Set()
      modifies this
      ensures present
    {
      present := true;
    }

    /** get(): is_set(). */
    method Get() returns (b: bool)
      ensures b == present
    {
      b := present;
    }

    /** size(): always 0, set or not. */
    function Size(): (s: nat)
      ensures s == PrototypeSize(true, 0) && s == PrototypeSize(false, 0)
    {
      0
    }
  }

  /** group_parameter<T>: holds a copy of a group of type T. */
  class GroupParameter<T> {
    const parId: nat
    const optional: bool
    /** T::size() */
    const sizeOf: T -> nat
    var present: bool
    var data: T

    /** group_parameter(id, optional): unset, holding a default-constructed T. */
    constructor (id: int, optional: bool, sizeOf: T -> nat, init: T)
      ensures parId == ParId(id) && this.optional == optional && this.sizeOf == sizeOf
      ensures !present && data == init && Size() == 0
    {
      parId := ParId(id);
      this.optional := optional;
      this.sizeOf := sizeOf;
      present := false;
      data := init;
    }

    /** set(data): copies the group in and marks the parameter set. */
    method Set(d: T)
      modifies this
      ensures present && data == d
      ensures Size() == sizeOf(d)
    {
      data := d;
      present := true;
    }

    /** get(): the group held. */
    method Get() returns (d: T)
      ensures d == data
    {
      d := data;
    }

    /** size(): the group's size once set, 0 before. */
    function Size(): (s: nat)
      reads this
      ensures s == PrototypeSize(present, sizeOf(data))
    {
      if present then sizeOf(data) else 0
    }
  }
}
