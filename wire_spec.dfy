/**
  The sample protocol's wire format (tests/sampleproto.cpp), stated on
  parameter snapshots:

    message   := id:u16 size:u16 group
    group     := param* 0xFF
    param     := id:u8 body            (only parameters that are set)
    body      := data                  (scalars, enumerations)
               | len:u16 data          (strings and blobs)
               | group                 (group parameters)

  with the sizing pass (`wire_size`) and the best-effort decoder
  (`from_wire(Group&)`) that dispatches on the id byte.
*/
module WireSpec {
  import opened Bytes
  import opened Params
  import opened Cursor

  /** The byte that ends a group and a message. */
  const EndMark: Byte := 0xFF
  /** par_wire_overhead: the id byte. */
  const ParWireOverhead: nat := 1
  /** msg_wire_overhead: two u16 header fields and the end mark. */
  const MsgWireOverhead: nat := 5

  /** (uint8_t)par.id() */
  function IdByte(id: int): Byte
  {
    assert Modulus(1) == 256;
    ToUnsigned(1, id)
  }

  /** data_to_wire of a scalar: nothing for void_t, 0 or 1 for bool, else the
      value cast to the unsigned type of its width, big-endian. */
  function EncodeScalar(t: NativeType, v: int): seq<Byte>
  {
    if t == VoidT then []
    else if t == Bool then [if v == 0 then 0 else 1]
    else BigEndian(Width(t), ToUnsigned(Width(t), v))
  }

  /** data_to_wire: the payload of a parameter. */
  function EncodeData(p: PView): seq<Byte>
    decreases p, 1
  {
    match p.kind
    case Scalar(t) => EncodeScalar(t, p.value)
    case Enum => [IdByte(p.value)]
    case Var(v) => if v == Str then p.data + [0] else p.data
    case GroupKind => EncodeGroup(p.members)
  }

  /** What follows the id byte: a u16 length (the parameter's size()) for
      parameters that are neither scalar nor group, then the payload. */
  function EncodeBody(p: PView): seq<Byte>
    requires p.kind.Var? ==> p.isSet
    decreases p, 2
  {
    (if p.kind.Var? then BigEndian(2, ToUnsigned(2, ParamSize(p))) else []) + EncodeData(p)
  }

  /** to_wire(const Parameter&): nothing unless the parameter is set (for a
      group parameter: unless its group is valid). */
  function EncodeParam(p: PView): seq<Byte>
    decreases p, 3
  {
    if !ParamIsSet(p) then [] else [IdByte(p.id)] + EncodeBody(p)
  }

  /** The parameters of a group in map order. */
  function EncodeParams(ps: seq<PView>): seq<Byte>
    decreases ps, 0
  {
    if ps == [] then [] else EncodeParams(ps[..|ps| - 1]) + EncodeParam(ps[|ps| - 1])
  }

  /** to_wire(const Group&) */
  function EncodeGroup(ps: seq<PView>): seq<Byte>
    decreases ps, 1
  {
    EncodeParams(ps) + [EndMark]
  }

  /** to_wire(const Message&): id and size as uint16_t, then the parameters and the end mark. */
  function EncodeMessage(id: int, size: int, ps: seq<PView>): seq<Byte>
  {
    BigEndian(2, ToUnsigned(2, id)) + BigEndian(2, ToUnsigned(2, size)) + EncodeGroup(ps)
  }

  /** Prepending a parameter's encoding: the list encodes front to back. */
  lemma {:induction false} EncodeParamsCons(ps: seq<PView>)
    requires ps != []
    ensures EncodeParams(ps) == EncodeParam(ps[0]) + EncodeParams(ps[1..])
  {
    if |ps| > 1 {
      var init, rest, last := ps[..|ps| - 1], ps[1..], ps[|ps| - 1];
      EncodeParamsCons(init);
      assert init[0] == ps[0];
      assert rest[..|rest| - 1] == init[1..] && rest[|rest| - 1] == last;
      calc {
        EncodeParams(ps);
        EncodeParams(init) + EncodeParam(last);
        EncodeParam(ps[0]) + EncodeParams(init[1..]) + EncodeParam(last);
        EncodeParam(ps[0]) + (EncodeParams(init[1..]) + EncodeParam(last));
        EncodeParam(ps[0]) + EncodeParams(rest);
      }
    } else {
      assert ps[..0] == [];
      assert ps[1..] == [];
    }
  }

  // ---------------------------------------------------------------- sizing

  /** wire_size(const Parameter&) as evidently intended: an id byte, a length
      for strings and blobs and the data for a parameter that is set, and
      nothing for one that is not, group parameters included. */
  function WireSizeParam(p: PView): nat
    decreases p, 1
  {
    if !ParamIsSet(p) then 0
    else if p.kind.GroupKind? then ParWireOverhead + WireSizeGroup(p.members)
    else ParWireOverhead + (if p.kind.Var? then 2 else 0) + ParamSize(p)
  }

  function WireSizeParams(ps: seq<PView>): nat
    decreases ps, 0
  {
    if ps == [] then 0 else WireSizeParams(ps[..|ps| - 1]) + WireSizeParam(ps[|ps| - 1])
  }

  /** wire_size(const Group&): the end mark and the parameters. */
  function WireSizeGroup(ps: seq<PView>): nat
    decreases ps, 1
  {
    1 + WireSizeParams(ps)
  }

  /** wire_size(const Message&): the header, the end mark and the parameters. */
  function WireSizeMessage(ps: seq<PView>): nat
  {
    MsgWireOverhead + WireSizeParams(ps)
  }

  /** wire_size(const Message&) as written: the header, the end mark and the
      parameters counted by the sizing pass as written. */
  function WireSizeMessageAsWritten(ps: seq<PView>): nat
  {
    MsgWireOverhead + WireSizeParamsAsWritten(ps)
  }

  /** wire_size(const Parameter&) as written: the group branch is taken
      before the is_set test, so a group parameter is counted even when its
      group is not valid and nothing of it is put. */
  function WireSizeParamAsWritten(p: PView): nat
    decreases p, 1
  {
    if p.kind.GroupKind? then ParWireOverhead + WireSizeGroupAsWritten(p.members)
    else if p.isSet then ParWireOverhead + (if p.kind.Var? then 2 else 0) + ParamSize(p)
    else 0
  }

  function WireSizeParamsAsWritten(ps: seq<PView>): nat
    decreases ps, 0
  {
    if ps == [] then 0 else WireSizeParamsAsWritten(ps[..|ps| - 1]) + WireSizeParamAsWritten(ps[|ps| - 1])
  }

  function WireSizeGroupAsWritten(ps: seq<PView>): nat
    decreases ps, 1
  {
    1 + WireSizeParamsAsWritten(ps)
  }

  /** Every group parameter in the tree is set. */
  predicate GroupsSet(p: PView)
    decreases p, 1
  {
    p.kind.GroupKind? ==> GroupIsValid(p.members) && AllGroupsSet(p.members)
  }

  predicate AllGroupsSet(ps: seq<PView>)
    decreases ps, 0
  {
    forall i :: 0 <= i < |ps| ==> GroupsSet(ps[i])
  }

  /** The payload of a set parameter that is not a group is size() bytes long. */
  lemma DataLength(p: PView)
    requires p.isSet && !p.kind.GroupKind?
    ensures |EncodeData(p)| == ParamSize(p)
  {
    match p.kind
    case Scalar(t) =>
      assert |EncodeScalar(t, p.value)| == Width(t);
    case Enum =>
    case Var(_) =>
  }

  /** The sizing pass counts exactly the bytes the encoder puts. */
  lemma {:induction false} EncodeParamLength(p: PView)
    ensures |EncodeParam(p)| == WireSizeParam(p)
    decreases p, 1
  {
    if ParamIsSet(p) {
      if p.kind.GroupKind? {
        assert EncodeBody(p) == EncodeData(p) == EncodeGroup(p.members);
        EncodeParamsLength(p.members);
      } else {
        DataLength(p);
      }
    }
  }

  lemma {:induction false} EncodeParamsLength(ps: seq<PView>)
    ensures |EncodeParams(ps)| == WireSizeParams(ps)
    decreases ps, 0
  {
    if ps != [] {
      EncodeParamsLength(ps[..|ps| - 1]);
      EncodeParamLength(ps[|ps| - 1]);
    }
  }

  /** A message's encoding is as long as its wire size. */
  lemma EncodeMessageLength(id: int, size: int, ps: seq<PView>)
    ensures |EncodeMessage(id, size, ps)| == WireSizeMessage(ps)
  {
    EncodeParamsLength(ps);
  }

  /** As written, the sizing pass never counts fewer bytes than the encoder
      puts, and exactly as many when every group parameter is set. */
  lemma {:induction false} AsWrittenParamCovers(p: PView)
    ensures WireSizeParamAsWritten(p) >= WireSizeParam(p)
    ensures GroupsSet(p) ==> WireSizeParamAsWritten(p) == WireSizeParam(p)
    decreases p, 1
  {
    if p.kind.GroupKind? {
      AsWrittenParamsCover(p.members);
    }
  }

  lemma {:induction false} AsWrittenParamsCover(ps: seq<PView>)
    ensures WireSizeParamsAsWritten(ps) >= WireSizeParams(ps)
    ensures AllGroupsSet(ps) ==> WireSizeParamsAsWritten(ps) == WireSizeParams(ps)
    decreases ps, 0
  {
    if ps != [] {
      var init := ps[..|ps| - 1];
      AsWrittenParamsCover(init);
      AsWrittenParamCovers(ps[|ps| - 1]);
      assert AllGroupsSet(ps) ==> AllGroupsSet(init) by {
        if AllGroupsSet(ps) {
          forall i | 0 <= i < |init|
            ensures GroupsSet(init[i])
          {
            assert init[i] == ps[i];
          }
        }
      }
    }
  }

  /** The buffer the sizing pass as written allocates for a message holds the
      whole encoding, and is exactly as long when every group parameter is set. */
  lemma AsWrittenMessageCovers(id: int, size: int, ps: seq<PView>)
    ensures |EncodeMessage(id, size, ps)| == WireSizeMessage(ps) <= WireSizeMessageAsWritten(ps)
    ensures AllGroupsSet(ps) ==> WireSizeMessage(ps) == WireSizeMessageAsWritten(ps)
  {
    EncodeMessageLength(id, size, ps);
    AsWrittenParamsCover(ps);
  }

  /** The bytes SampleProto(Message&) leaves in its buffer: the buffer is as
      long as the sizing pass as written says and starts zeroed, the header
      carries that size, and the encoding fills the front of it. */
  function SentMessage(id: int, ps: seq<PView>): (w: seq<Byte>)
    ensures |w| == WireSizeMessageAsWritten(ps) >= WireSizeMessage(ps)
    ensures w[..WireSizeMessage(ps)] == EncodeMessage(id, WireSizeMessageAsWritten(ps), ps)
    ensures forall i :: WireSizeMessage(ps) <= i < |w| ==> w[i] == 0
    ensures AllGroupsSet(ps) ==> w == EncodeMessage(id, WireSizeMessageAsWritten(ps), ps)
  {
    var size := WireSizeMessageAsWritten(ps);
    var e := EncodeMessage(id, size, ps);
    AsWrittenMessageCovers(id, size, ps);
    e + seq(size - |e|, _ => 0)
  }

  /** An optional group parameter whose group lacks a required u8 is not put
      at all, yet the sizing pass as written counts 2 bytes for it. */
  lemma UnsetGroupOvercounted()
    ensures var p := PView(1, true, GroupKind, false, 0, [], [PView(2, false, Scalar(UInt8), false, 0, [], [])]);
      EncodeParam(p) == [] && WireSizeParam(p) == 0 && WireSizeParamAsWritten(p) == 2
  {
    var q := PView(2, false, Scalar(UInt8), false, 0, [], []);
    var p := PView(1, true, GroupKind, false, 0, [], [q]);
    assert !ParamIsValid(p.members[0]);
    assert !GroupIsValid(p.members);
    assert [q][..0] == [];
  }

  // ---------------------------------------------------------------- decoding

  /** The position of the first parameter from `from` on whose id is `c`:
      `count` and `at` on the group's map, whose keys are distinct. */
  function IdIndex(ps: seq<PView>, c: int, from: nat): (r: Option<nat>)
    requires from <= |ps|
    ensures r.Some? ==> from <= r.value < |ps| && ps[r.value].id == c
    decreases |ps| - from
  {
    if from == |ps| then None
    else if ps[from].id == c then Some(from)
    else IdIndex(ps, c, from + 1)
  }

  /** The search finds the first match and reports none exactly when no
      parameter from `from` on has the id. */
  lemma {:induction false} IdIndexFirst(ps: seq<PView>, c: int, from: nat)
    requires from <= |ps|
    ensures IdIndex(ps, c, from).Some? ==> forall i :: from <= i < IdIndex(ps, c, from).value ==> ps[i].id != c
    ensures IdIndex(ps, c, from).None? <==> forall i :: from <= i < |ps| ==> ps[i].id != c
    decreases |ps| - from
  {
    if from < |ps| && ps[from].id != c {
      IdIndexFirst(ps, c, from + 1);
    }
  }

  /** The value an integer reader gives for the big-endian bytes `b` of a
      parameter of kind `k`: signed types reinterpret the unsigned value,
      bool is any non-zero byte. */
  function DecodeValue(k: Kind, b: seq<Byte>): int
  {
    if k == Scalar(Bool) then (if FromBigEndian(b) != 0 then 1 else 0)
    else if k.Scalar? && IsSigned(k.t) then ToSigned(Width(k.t), FromBigEndian(b))
    else FromBigEndian(b)
  }

  /** The value an integer reader gives fits the type of the parameter it is
      read for. */
  lemma DecodeInRange(k: Kind, b: seq<Byte>)
    requires (k.Scalar? && k.t != VoidT && |b| == Width(k.t)) || (k.Enum? && |b| == 1)
    ensures k.Scalar? ==> InRange(k.t, DecodeValue(k, b))
    ensures k.Enum? ==> EnumInRange(DecodeValue(k, b))
  {
    if k.Enum? {
      assert Modulus(1) == 256;
    } else if IsSigned(k.t) {
      assert Modulus(Width(k.t)) == 256 * Modulus(Width(k.t) - 1);
    }
  }

  /** Reading a fixed-width value: the bytes `getp(width)` points at, then
      `advance(width)`; the parameter is set only when the bytes are there. */
  function ReadFixed(p: PView, w: seq<Byte>, pos: nat, width: nat): (r: (PView, nat, int))
    requires pos <= |w|
    ensures pos <= r.1 <= |w| && r.2 == 0
  {
    var next := AdvanceTo(|w|, pos, width);
    match GetPAt(w, pos, width)
    case None => (p, next, 0)
    case Some(b) => (p.(isSet := true, value := DecodeValue(p.kind, b)), next, 0)
  }

  /** from_wire(std::string&) and from_wire(blob_t&): a u16 length n, then
      the n bytes `getp(n)` points at; a string keeps the first n - 1 of
      them (its NUL is dropped), a blob all n; the cursor then advances by n. */
  function ReadVar(p: PView, w: seq<Byte>, pos: nat): (r: (PView, nat, int))
    requires pos <= |w| && p.kind.Var?
    ensures pos <= r.1 <= |w| && r.2 == 0
  {
    var pos2 := AdvanceTo(|w|, pos, 2);
    match GetPAt(w, pos, 2)
    case None => (p, pos2, 0)
    case Some(lb) =>
      var n := FromBigEndian(lb);
      var pos3 := AdvanceTo(|w|, pos2, n);
      match GetPAt(w, pos2, n)
      case None => (p, pos3, 0)
      case Some(b) =>
        if p.kind.v == Blob then (p.(isSet := true, data := b), pos3, 0)
        else if n == 0 then (p, pos3, 0)
        else (p.(isSet := true, data := b[..n - 1]), pos3, 0)
  }

  /** data_from_wire: reads one parameter's body at `pos`; returns the
      parameter, the new cursor, and the number of errors (unknown ids inside
      a group parameter). */
  function ReadParam(p: PView, w: seq<Byte>, pos: nat): (r: (PView, nat, int))
    requires pos <= |w|
    ensures pos <= r.1 <= |w| && r.2 >= 0
    decreases |w| - pos, 1
  {
    match p.kind
    case Scalar(t) => if t == VoidT then (p.(isSet := true), pos, 0) else ReadFixed(p, w, pos, Width(t))
    case Enum => ReadFixed(p, w, pos, 1)
    case Var(_) => ReadVar(p, w, pos)
    case GroupKind =>
      var g := ReadGroup(p.members, w, pos, 0);
      (p.(members := g.0), g.1, -g.2)
  }

  /** from_wire(Group&): reads id bytes until 0xFF (which getc also yields
      once the buffer is exhausted); a known id has its parameter read, an
      unknown one costs 1 from the result. */
  function ReadGroup(ps: seq<PView>, w: seq<Byte>, pos: nat, ret: int): (r: (seq<PView>, nat, int))
    requires pos <= |w|
    ensures pos <= r.1 <= |w| && r.2 <= ret
    decreases |w| - pos, 0
  {
    if pos == |w| then (ps, pos, ret)
    else if w[pos] == EndMark then (ps, pos + 1, ret)
    else match IdIndex(ps, w[pos], 0)
      case None => ReadGroup(ps, w, pos + 1, ret - 1)
      case Some(i) =>
        var q := ReadParam(ps[i], w, pos + 1);
        ReadGroup(ps[i := q.0], w, q.1, ret - q.2)
  }

  /** A message's parameters after from_wire(Message&): the cursor is reset
      and advanced past the 4-byte header, then the group is read. */
  function ReadMessage(ps: seq<PView>, w: seq<Byte>): (r: (seq<PView>, nat, int))
  {
    ReadGroup(ps, w, AdvanceTo(|w|, 0, 4), 0)
  }

  /** Each pass of the decoding loop consumes at least one byte (the id), so
      the loop ends within as many passes as bytes remain. */
  lemma ReadGroupConsumes(ps: seq<PView>, w: seq<Byte>, pos: nat, ret: int)
    requires pos < |w|
    ensures ReadGroup(ps, w, pos, ret).1 > pos
  {
  }

  /** An id byte that matches no parameter is skipped and counted. */
  lemma UnknownIdCounted(ps: seq<PView>, c: Byte)
    requires c != EndMark && forall i :: 0 <= i < |ps| ==> ps[i].id != c
    ensures ReadGroup(ps, [c, EndMark], 0, 0) == (ps, 2, -1)
  {
    IdIndexFirst(ps, c, 0);
  }

  // ---------------------------------------------------------------- round trip

  /** A parameter as a receiver built from the same schema holds it before
      decoding: unset, zero, empty. */
  function Clear(p: PView): (c: PView)
    ensures c.id == p.id && c.kind == p.kind && c.optional == p.optional
    decreases p, 1
  {
    PView(p.id, p.optional, p.kind, false, 0, [], ClearAll(p.members))
  }

  function ClearAll(ps: seq<PView>): (cs: seq<PView>)
    ensures |cs| == |ps|
    decreases ps, 0
  {
    if ps == [] then [] else ClearAll(ps[..|ps| - 1]) + [Clear(ps[|ps| - 1])]
  }

  lemma {:induction false} ClearAllAt(ps: seq<PView>, i: nat)
    requires i < |ps|
    ensures ClearAll(ps)[i] == Clear(ps[i])
  {
    if i < |ps| - 1 {
      ClearAllAt(ps[..|ps| - 1], i);
    }
  }

  /** What a receiver holds after decoding the encoding of `p`: the value or
      data of a set parameter, the transmitted members of a group parameter
      that is set, and the cleared state of everything that was not sent. */
  function Transmitted(p: PView): (t: PView)
    ensures t.id == p.id && t.kind == p.kind && t.optional == p.optional
    decreases p, 1
  {
    if p.kind.GroupKind? then
      Clear(p).(members := if ParamIsSet(p) then TransmittedAll(p.members) else ClearAll(p.members))
    else if p.isSet then
      Clear(p).(isSet := true,
                value := if p.kind.Scalar? || p.kind.Enum? then p.value else 0,
                data := if p.kind.Var? then p.data else [])
    else Clear(p)
  }

  function TransmittedAll(ps: seq<PView>): (ts: seq<PView>)
    ensures |ts| == |ps|
    decreases ps, 0
  {
    if ps == [] then [] else TransmittedAll(ps[..|ps| - 1]) + [Transmitted(ps[|ps| - 1])]
  }

  lemma {:induction false} TransmittedAllAt(ps: seq<PView>, i: nat)
    requires i < |ps|
    ensures TransmittedAll(ps)[i] == Transmitted(ps[i])
  {
    if i < |ps| - 1 {
      TransmittedAllAt(ps[..|ps| - 1], i);
    }
  }

  /** A snapshot the encoding can carry: ids of the parameters that are sent
      fit a byte other than the end mark, values fit their types, lengths fit
      the u16 length field, and a group's ids ascend (map order). */
  predicate WfParam(p: PView)
    decreases p, 1
  {
    && (ParamIsSet(p) ==> 0 <= p.id < 255)
    && match p.kind
       case Scalar(t) => p.isSet ==> InRange(t, p.value)
       case Enum => p.isSet ==> EnumInRange(p.value)
       case Var(Str) => |p.data| + 1 < 0x1_0000
       case Var(Blob) => |p.data| < 0x1_0000
       case GroupKind => WfGroup(p.members)
  }

  predicate WfGroup(ps: seq<PView>)
    decreases ps, 0
  {
    && (forall i, j :: 0 <= i < j < |ps| ==> ps[i].id < ps[j].id)
    && (forall i {:trigger WfParam(ps[i])} :: 0 <= i < |ps| ==> WfParam(ps[i]))
  }

  /** Decoding a scalar's bytes gives back its value. */
  lemma ScalarRoundTrip(t: NativeType, v: int)
    requires t != VoidT && InRange(t, v)
    ensures DecodeValue(Scalar(t), EncodeScalar(t, v)) == v
  {
    if t == Bool {
      BoolRoundTrip(v);
    } else if IsSigned(t) {
      SignedRoundTrip(t, v);
    } else {
      UnsignedRoundTrip(t, v);
    }
  }

  lemma BoolRoundTrip(v: int)
    requires v == 0 || v == 1
    ensures DecodeValue(Scalar(Bool), EncodeScalar(Bool, v)) == v
  {
    assert EncodeScalar(Bool, v) == [v];
    assert [v][..0] == [];
  }

  lemma SignedRoundTrip(t: NativeType, v: int)
    requires IsSigned(t) && SignedInRange(Width(t), v)
    ensures DecodeValue(Scalar(t), EncodeScalar(t, v)) == v
  {
    var u := ToUnsigned(Width(t), v);
    BigEndianReadsBack(Width(t), u);
    SignedCastRoundTrip(Width(t), v);
  }

  lemma UnsignedRoundTrip(t: NativeType, v: int)
    requires t != VoidT && t != Bool && !IsSigned(t) && 0 <= v < Modulus(Width(t))
    ensures DecodeValue(Scalar(t), EncodeScalar(t, v)) == v
  {
    UnsignedCastId(Width(t), v);
    BigEndianReadsBack(Width(t), v);
  }

  /** from_wire(std::string&) reads back what to_wire(const std::string&)
      put after its length, embedded NUL characters included; from_wire(blob_t&)
      likewise for a blob. */
  lemma {:induction false} VarRoundTrip(p: PView, w: seq<Byte>, pos: nat)
    requires p.kind.Var? && p.isSet && WfParam(p)
    requires HoldsAt(w, pos, EncodeBody(p))
    ensures ReadVar(Clear(p), w, pos) == (Transmitted(p), pos + |EncodeBody(p)|, 0)
  {
    var n := VarBodyAt(p, w, pos);
    assert Modulus(2) == 0x1_0000;
    BigEndianReadsBack(2, n);
    if p.kind.v == Str {
      assert (p.data + [0])[..n - 1] == p.data;
    }
  }

  /** Where the body of a string or blob lies: the u16 length, then the
      size() bytes of data. */
  lemma VarBodyAt(p: PView, w: seq<Byte>, pos: nat) returns (n: nat)
    requires p.kind.Var? && p.isSet && WfParam(p)
    requires HoldsAt(w, pos, EncodeBody(p))
    ensures n == ParamSize(p) < 0x1_0000 && pos + 2 + n == pos + |EncodeBody(p)| <= |w|
    ensures GetPAt(w, pos, 2) == Some(BigEndian(2, n))
    ensures GetPAt(w, pos + 2, n) == Some(EncodeData(p))
  {
    n := ParamSize(p);
    var len := BigEndian(2, n);
    var data := EncodeData(p);
    assert ToUnsigned(2, n) == n by {
      assert n < 0x1_0000 == Modulus(2);
      UnsignedCastId(2, n);
    }
    assert EncodeBody(p) == len + data;
    DataLength(p);
    SliceSplit(w, pos, len, data);
  }

  /** Reading a scalar's value back. */
  lemma ScalarBodyRoundTrip(p: PView, w: seq<Byte>, pos: nat)
    requires p.isSet && WfParam(p) && p.kind.Scalar? && p.kind.t != VoidT
    requires HoldsAt(w, pos, EncodeBody(p))
    ensures |EncodeBody(p)| == Width(p.kind.t)
    ensures ReadFixed(Clear(p), w, pos, Width(p.kind.t)) == (Transmitted(p), pos + Width(p.kind.t), 0)
  {
    ScalarBodyAt(p, w, pos);
    FixedRead(p, w, pos, Width(p.kind.t), EncodeBody(p));
  }

  /** The body of a set scalar lies at `pos`, `getp` finds it and it decodes to the value. */
  lemma ScalarBodyAt(p: PView, w: seq<Byte>, pos: nat)
    requires p.isSet && WfParam(p) && p.kind.Scalar? && p.kind.t != VoidT
    requires HoldsAt(w, pos, EncodeBody(p))
    ensures |EncodeBody(p)| == Width(p.kind.t)
    ensures GetPAt(w, pos, Width(p.kind.t)) == Some(EncodeBody(p))
    ensures AdvanceTo(|w|, pos, Width(p.kind.t)) == pos + Width(p.kind.t)
    ensures DecodeValue(p.kind, EncodeBody(p)) == p.value
  {
    FixedBodyAt(p, w, pos, Width(p.kind.t));
    ScalarDataRoundTrip(p);
  }

  /** A set scalar parameter's payload decodes to its value. */
  lemma ScalarDataRoundTrip(p: PView)
    requires p.isSet && WfParam(p) && p.kind.Scalar? && p.kind.t != VoidT
    ensures DecodeValue(p.kind, EncodeData(p)) == p.value
  {
    ScalarRoundTrip(p.kind.t, p.value);
  }

  /** Reading an enumeration's value back. */
  lemma EnumBodyRoundTrip(p: PView, w: seq<Byte>, pos: nat)
    requires p.isSet && WfParam(p) && p.kind.Enum?
    requires HoldsAt(w, pos, EncodeBody(p))
    ensures |EncodeBody(p)| == 1
    ensures ReadFixed(Clear(p), w, pos, 1) == (Transmitted(p), pos + 1, 0)
  {
    var b := EncodeBody(p);
    assert |b| == 1 && GetPAt(w, pos, 1) == Some(b) && AdvanceTo(|w|, pos, 1) == pos + 1 && DecodeValue(p.kind, b) == p.value by {
      FixedBodyAt(p, w, pos, 1);
      EnumDataRoundTrip(p);
    }
    FixedRead(p, w, pos, 1, b);
  }

  /** Reading the bytes `b` of a fixed-width value that decode to the value
      of `p` into the cleared `p` gives the transmitted `p`. */
  lemma FixedRead(p: PView, w: seq<Byte>, pos: nat, width: nat, b: seq<Byte>)
    requires pos <= |w| && p.isSet && (p.kind.Scalar? || p.kind.Enum?)
    requires GetPAt(w, pos, width) == Some(b) && AdvanceTo(|w|, pos, width) == pos + width
    requires DecodeValue(p.kind, b) == p.value
    ensures ReadFixed(Clear(p), w, pos, width) == (Transmitted(p), pos + width, 0)
  {
  }

  /** A set enumeration parameter's payload decodes to its value. */
  lemma EnumDataRoundTrip(p: PView)
    requires p.isSet && WfParam(p) && p.kind.Enum?
    ensures DecodeValue(p.kind, EncodeData(p)) == p.value
  {
    EnumRoundTrip(p.value);
  }

  /** An enumeration's byte reads back as its value. */
  lemma EnumRoundTrip(v: int)
    requires EnumInRange(v)
    ensures DecodeValue(Enum, [IdByte(v)]) == v
  {
    assert Modulus(1) == 256;
    UnsignedCastId(1, v);
    assert [v][..0] == [];
  }

  /** Where the body of a scalar or an enumeration lies: `getp(width)`
      points at it and `advance(width)` moves past it. */
  lemma FixedBodyAt(p: PView, w: seq<Byte>, pos: nat, width: nat)
    requires p.isSet && WfParam(p)
    requires (p.kind.Scalar? && p.kind.t != VoidT && width == Width(p.kind.t)) || (p.kind.Enum? && width == 1)
    requires HoldsAt(w, pos, EncodeBody(p))
    ensures EncodeBody(p) == EncodeData(p) && |EncodeBody(p)| == width
    ensures GetPAt(w, pos, width) == Some(EncodeData(p))
    ensures AdvanceTo(|w|, pos, width) == pos + width
  {
    DataLength(p);
  }

  /** Decoding the body of a sent parameter into a cleared receiver yields
      the transmitted parameter and consumes exactly the body. */
  lemma {:induction false} ReadParamRoundTrip(p: PView, w: seq<Byte>, pos: nat)
    requires ParamIsSet(p) && WfParam(p)
    requires HoldsAt(w, pos, EncodeBody(p))
    ensures ReadParam(Clear(p), w, pos) == (Transmitted(p), pos + |EncodeBody(p)|, 0)
    decreases p, 1
  {
    var c := Clear(p);
    match p.kind
    case Scalar(t) =>
      if t == VoidT {
        assert EncodeBody(p) == [];
        assert ReadParam(c, w, pos) == (c.(isSet := true), pos, 0);
        assert ReadParam(c, w, pos) == (Transmitted(p), pos + |EncodeBody(p)|, 0);
      } else {
        assert ReadParam(c, w, pos) == ReadFixed(c, w, pos, Width(t));
        ScalarBodyRoundTrip(p, w, pos);
        assert ReadParam(c, w, pos) == (Transmitted(p), pos + |EncodeBody(p)|, 0);
      }
    case Enum =>
      assert ReadParam(c, w, pos) == ReadFixed(c, w, pos, 1);
      EnumBodyRoundTrip(p, w, pos);
      assert ReadParam(c, w, pos) == (Transmitted(p), pos + |EncodeBody(p)|, 0);
    case Var(_) =>
      assert ReadParam(c, w, pos) == ReadVar(c, w, pos);
      VarRoundTrip(p, w, pos);
      assert ReadParam(c, w, pos) == (Transmitted(p), pos + |EncodeBody(p)|, 0);
    case GroupKind =>
      GroupParamRoundTrip(p, w, pos);
  }

  /** Decoding the body of a group parameter whose group is valid. */
  lemma {:induction false} GroupParamRoundTrip(p: PView, w: seq<Byte>, pos: nat)
    requires p.kind.GroupKind? && ParamIsSet(p) && WfParam(p)
    requires HoldsAt(w, pos, EncodeBody(p))
    ensures ReadParam(Clear(p), w, pos) == (Transmitted(p), pos + |EncodeBody(p)|, 0)
    decreases p, 0
  {
    assert EncodeBody(p) == EncodeGroup(p.members);
    GroupRoundTrip(p.members, w, pos, 0);
  }

  /** Decoding a group's encoding into a receiver built from the same
      schema yields the transmitted parameters, consumes exactly the
      encoding (the end mark included) and counts no error. */
  lemma {:induction false} GroupRoundTrip(ps: seq<PView>, w: seq<Byte>, pos: nat, ret: int)
    requires WfGroup(ps)
    requires HoldsAt(w, pos, EncodeGroup(ps))
    ensures ReadGroup(ClearAll(ps), w, pos, ret) == (TransmittedAll(ps), pos + |EncodeGroup(ps)|, ret)
    decreases ps, 1
  {
    EncodeFromGroup(ps, 0);
    assert ps[0..] == ps;
    ReadGroupRoundTrip(ps, 0, w, pos, ret);
  }

  /** The receiver while a group's encoding is decoded: built from the
      schema (cleared), then the first k parameters received in turn. */
  function Received(S: seq<PView>, k: nat): (R: seq<PView>)
    requires k <= |S|
    ensures |R| == |S|
  {
    if k == 0 then ClearAll(S) else Received(S, k - 1)[k - 1 := Transmitted(S[k - 1])]
  }

  /** The first k parameters of the receiver are transmitted, the rest cleared. */
  lemma {:induction false} ReceivedAt(S: seq<PView>, k: nat, i: nat)
    requires k <= |S| && i < |S|
    ensures i < k ==> Received(S, k)[i] == Transmitted(S[i])
    ensures k <= i ==> Received(S, k)[i] == Clear(S[i])
  {
    if k == 0 {
      ClearAllAt(S, i);
    } else {
      ReceivedAt(S, k - 1, i);
    }
  }

  /** Once every parameter is received, the receiver holds them all transmitted. */
  lemma ReceivedDone(S: seq<PView>)
    ensures Received(S, |S|) == TransmittedAll(S)
  {
    forall i | 0 <= i < |S|
      ensures Received(S, |S|)[i] == TransmittedAll(S)[i]
    {
      ReceivedAt(S, |S|, i);
      TransmittedAllAt(S, i);
    }
  }

  /** An unsent parameter is received as its cleared state: nothing changes. */
  lemma ReceivedSkip(S: seq<PView>, k: nat)
    requires k < |S| && !ParamIsSet(S[k])
    ensures Received(S, k + 1) == Received(S, k)
  {
    ReceivedAt(S, k, k);
    assert Transmitted(S[k]) == Clear(S[k]);
  }

  /** The bytes `e` lie in `w` from index `pos` on. */
  predicate HoldsAt(w: seq<Byte>, pos: nat, e: seq<Byte>)
  {
    pos + |e| <= |w| && w[pos..pos + |e|] == e
  }

  /** `w` holds `a + b` at `pos`: it holds `a` there and `b` right after it. */
  lemma SliceSplit(w: seq<Byte>, pos: nat, a: seq<Byte>, b: seq<Byte>)
    requires HoldsAt(w, pos, a + b)
    ensures HoldsAt(w, pos, a) && HoldsAt(w, pos + |a|, b)
  {
    assert w[pos..pos + |a|] == w[pos..pos + |a| + |b|][..|a|];
    assert w[pos + |a|..pos + |a| + |b|] == w[pos..pos + |a| + |b|][|a|..];
  }

  /** `w` holds `a + b + c` at `pos`: it holds each of them in turn. */
  lemma SliceSplit3(w: seq<Byte>, pos: nat, a: seq<Byte>, b: seq<Byte>, c: seq<Byte>)
    requires HoldsAt(w, pos, a + b + c)
    ensures HoldsAt(w, pos, a) && HoldsAt(w, pos + |a|, b) && HoldsAt(w, pos + |a| + |b|, c)
  {
    SliceSplit(w, pos, a + b, c);
    SliceSplit(w, pos, a, b);
  }

  /** The encoding of a group from its k-th parameter on: the parameters
      from k in map order, then the end mark. */
  function EncodeFrom(S: seq<PView>, k: nat): seq<Byte>
    requires k <= |S|
    decreases |S| - k
  {
    if k == |S| then [EndMark] else EncodeParam(S[k]) + EncodeFrom(S, k + 1)
  }

  /** Encoding from the first parameter on is encoding the whole group. */
  lemma {:induction false} EncodeFromGroup(S: seq<PView>, k: nat)
    requires k <= |S|
    ensures EncodeFrom(S, k) == EncodeGroup(S[k..])
    decreases |S| - k
  {
    if k == |S| {
      assert S[k..] == [];
    } else {
      EncodeFromGroup(S, k + 1);
      EncodeParamsCons(S[k..]);
      assert S[k..][1..] == S[k + 1..];
    }
  }

  /** Decoding the rest of a group's encoding, from its k-th parameter on,
      into a receiver that already holds the first k transmitted parameters
      and the cleared rest, yields all transmitted parameters, consumes the
      rest of the encoding and counts no error. */
  lemma {:induction false} ReadGroupRoundTrip(S: seq<PView>, k: nat, w: seq<Byte>, pos: nat, ret: int)
    requires WfGroup(S) && k <= |S|
    requires HoldsAt(w, pos, EncodeFrom(S, k))
    ensures ReadGroup(Received(S, k), w, pos, ret) == (TransmittedAll(S), pos + |EncodeFrom(S, k)|, ret)
    decreases S, 0, |S| - k, 1
  {
    if k == |S| {
      ReadGroupEnd(S, w, pos, ret);
    } else if !ParamIsSet(S[k]) {
      ReadGroupSkip(S, k, w, pos, ret);
    } else {
      ReadGroupSent(S, k, w, pos, ret);
    }
  }

  /** The end of `ReadGroupRoundTrip`: the end mark stops the decoder. */
  lemma ReadGroupEnd(S: seq<PView>, w: seq<Byte>, pos: nat, ret: int)
    requires HoldsAt(w, pos, EncodeFrom(S, |S|))
    ensures ReadGroup(Received(S, |S|), w, pos, ret) == (TransmittedAll(S), pos + |EncodeFrom(S, |S|)|, ret)
  {
    ReceivedDone(S);
    assert EncodeFrom(S, |S|) == [EndMark];
    assert pos < |w| && w[pos] == EndMark;
  }

  /** The step of `ReadGroupRoundTrip` over a parameter that is not sent. */
  lemma {:induction false} ReadGroupSkip(S: seq<PView>, k: nat, w: seq<Byte>, pos: nat, ret: int)
    requires WfGroup(S) && k < |S| && !ParamIsSet(S[k])
    requires HoldsAt(w, pos, EncodeFrom(S, k))
    ensures ReadGroup(Received(S, k), w, pos, ret) == (TransmittedAll(S), pos + |EncodeFrom(S, k)|, ret)
    decreases S, 0, |S| - k, 0
  {
    EncodeFromSkip(S, k);
    ReceivedSkip(S, k);
    ReadGroupRoundTrip(S, k + 1, w, pos, ret);
  }

  /** A parameter that is not sent adds nothing to the encoding. */
  lemma EncodeFromSkip(S: seq<PView>, k: nat)
    requires k < |S| && !ParamIsSet(S[k])
    ensures EncodeFrom(S, k) == EncodeFrom(S, k + 1)
  {
    assert EncodeParam(S[k]) == [];
  }

  /** The step of `ReadGroupRoundTrip` over a parameter that is sent. */
  lemma {:induction false} ReadGroupSent(S: seq<PView>, k: nat, w: seq<Byte>, pos: nat, ret: int)
    requires WfGroup(S) && k < |S| && ParamIsSet(S[k])
    requires HoldsAt(w, pos, EncodeFrom(S, k))
    ensures ReadGroup(Received(S, k), w, pos, ret) == (TransmittedAll(S), pos + |EncodeFrom(S, k)|, ret)
    decreases S, 0, |S| - k, 0
  {
    var next := SentStep(S, k, w, pos, ret);
    ReadGroupRoundTrip(S, k + 1, w, next, ret);
    ReadGroupThen(Received(S, k), Received(S, k + 1), w, pos, next, ret, TransmittedAll(S), |EncodeFrom(S, k)|, |EncodeFrom(S, k + 1)|);
  }

  /** Decoding from `pos` continues as decoding from `next`: both end alike. */
  lemma ReadGroupThen(R: seq<PView>, R': seq<PView>, w: seq<Byte>, pos: nat, next: nat, ret: int, T: seq<PView>, n: nat, n': nat)
    requires pos <= |w| && next <= |w| && next + n' == pos + n
    requires ReadGroup(R, w, pos, ret) == ReadGroup(R', w, next, ret)
    requires ReadGroup(R', w, next, ret) == (T, next + n', ret)
    ensures ReadGroup(R, w, pos, ret) == (T, pos + n, ret)
  {
  }

  /** One pass of the decoding loop over a sent parameter: the receiver then
      holds it transmitted, and the rest of the encoding starts at `next`. */
  lemma SentStep(S: seq<PView>, k: nat, w: seq<Byte>, pos: nat, ret: int) returns (next: nat)
    requires WfGroup(S) && k < |S| && ParamIsSet(S[k])
    requires HoldsAt(w, pos, EncodeFrom(S, k))
    ensures next <= |w| && ReadGroup(Received(S, k), w, pos, ret) == ReadGroup(Received(S, k + 1), w, next, ret)
    ensures HoldsAt(w, next, EncodeFrom(S, k + 1))
    ensures next + |EncodeFrom(S, k + 1)| == pos + |EncodeFrom(S, k)|
    decreases S[k], 4
  {
    SentIdAt(S, k, w, pos);
    assert WfParam(S[k]);
    next := SentBodyAt(S, k, w, pos);
    ReadGroupKnownId(Received(S, k), w, pos, ret, k, Transmitted(S[k]), next);
  }

  /** The id byte of a sent parameter, at `pos`, leads the decoder to the
      k-th receiver parameter. */
  lemma SentIdAt(S: seq<PView>, k: nat, w: seq<Byte>, pos: nat)
    requires WfGroup(S) && k < |S| && ParamIsSet(S[k])
    requires HoldsAt(w, pos, EncodeFrom(S, k))
    ensures pos < |w| && w[pos] != EndMark && IdIndex(Received(S, k), w[pos], 0) == Some(k)
  {
    SentSplit(S, k, w, pos);
    SentIdFound(S, k);
  }

  /** The body of a sent parameter reads back as the transmitted parameter,
      and the encoding of the following parameters starts right after. */
  lemma SentBodyAt(S: seq<PView>, k: nat, w: seq<Byte>, pos: nat) returns (next: nat)
    requires k < |S| && ParamIsSet(S[k]) && WfParam(S[k])
    requires HoldsAt(w, pos, EncodeFrom(S, k))
    ensures pos + 1 <= |w| && ReadParam(Received(S, k)[k], w, pos + 1) == (Transmitted(S[k]), next, 0)
    ensures HoldsAt(w, next, EncodeFrom(S, k + 1))
    ensures next + |EncodeFrom(S, k + 1)| == pos + |EncodeFrom(S, k)|
    decreases S[k], 3
  {
    SentSplit(S, k, w, pos);
    next := SentParamRead(S, k, w, pos + 1);
  }

  /** The id byte of a sent parameter leads the decoder to that parameter:
      it is not the end mark, and no earlier parameter has that id. */
  lemma SentIdFound(S: seq<PView>, k: nat)
    requires WfGroup(S) && k < |S| && ParamIsSet(S[k])
    ensures IdByte(S[k].id) == S[k].id != EndMark
    ensures IdIndex(Received(S, k), S[k].id, 0) == Some(k)
  {
    assert WfParam(S[k]);
    assert Modulus(1) == 256;
    UnsignedCastId(1, S[k].id);
    var R := Received(S, k);
    ReceivedAt(S, k, k);
    forall i | 0 <= i < k
      ensures R[i].id != S[k].id
    {
      ReceivedAt(S, k, i);
      assert S[i].id < S[k].id;
    }
    IdIndexIs(R, S[k].id, k);
  }

  /** The search finds the first parameter with the id. */
  lemma IdIndexIs(ps: seq<PView>, c: int, i: nat)
    requires i < |ps| && ps[i].id == c
    requires forall j :: 0 <= j < i ==> ps[j].id != c
    ensures IdIndex(ps, c, 0) == Some(i)
  {
    IdIndexFirst(ps, c, 0);
  }

  /** The body of the k-th parameter, read into the receiver's cleared k-th
      parameter, gives the transmitted parameter. */
  lemma SentParamRead(S: seq<PView>, k: nat, w: seq<Byte>, pos: nat) returns (next: nat)
    requires k < |S| && ParamIsSet(S[k]) && WfParam(S[k])
    requires HoldsAt(w, pos, EncodeBody(S[k]))
    ensures next == pos + |EncodeBody(S[k])|
    ensures ReadParam(Received(S, k)[k], w, pos) == (Transmitted(S[k]), next, 0)
    decreases S[k], 2
  {
    next := pos + |EncodeBody(S[k])|;
    assert Received(S, k)[k] == Clear(S[k]) by {
      ReceivedAt(S, k, k);
    }
    ReadParamRoundTrip(S[k], w, pos);
  }

  /** Where the encoding of a sent parameter lies: its id byte at `pos`, its
      body right after, the encoding of the following parameters after that. */
  lemma SentSplit(S: seq<PView>, k: nat, w: seq<Byte>, pos: nat)
    requires k < |S| && ParamIsSet(S[k])
    requires HoldsAt(w, pos, EncodeFrom(S, k))
    ensures |EncodeFrom(S, k)| == 1 + |EncodeBody(S[k])| + |EncodeFrom(S, k + 1)|
    ensures w[pos] == IdByte(S[k].id)
    ensures HoldsAt(w, pos + 1, EncodeBody(S[k]))
    ensures HoldsAt(w, pos + 1 + |EncodeBody(S[k])|, EncodeFrom(S, k + 1))
  {
    var a := [IdByte(S[k].id)];
    var b := EncodeBody(S[k]);
    var c := EncodeFrom(S, k + 1);
    assert EncodeFrom(S, k) == a + b + c;
    SliceSplit3(w, pos, a, b, c);
    HoldsAtByte(w, pos, IdByte(S[k].id));
  }

  /** `w` holds the one byte `x` at `pos`. */
  lemma HoldsAtByte(w: seq<Byte>, pos: nat, x: Byte)
    requires HoldsAt(w, pos, [x])
    ensures w[pos] == x
  {
    assert w[pos] == w[pos..pos + 1][0];
  }

  /** One pass of the decoding loop over a known id. */
  lemma ReadGroupKnownId(ps: seq<PView>, w: seq<Byte>, pos: nat, ret: int, i: nat, t: PView, next: nat)
    requires pos < |w| && w[pos] != EndMark && IdIndex(ps, w[pos], 0) == Some(i)
    requires pos + 1 <= |w| && ReadParam(ps[i], w, pos + 1) == (t, next, 0)
    ensures next <= |w|
    ensures ReadGroup(ps, w, pos, ret) == ReadGroup(ps[i := t], w, next, ret)
  {
  }

  /** One pass of the decoding loop over a known id whose body reads with `e` errors. */
  lemma ReadGroupRead(ps: seq<PView>, w: seq<Byte>, pos: nat, ret: int, i: nat, t: PView, next: nat, e: int, ret': int)
    requires pos < |w| && w[pos] != EndMark && IdIndex(ps, w[pos], 0) == Some(i)
    requires ReadParam(ps[i], w, pos + 1) == (t, next, e) && ret' == ret - e
    ensures ReadGroup(ps, w, pos, ret) == ReadGroup(ps[i := t], w, next, ret')
  {
  }

  /** One pass of the decoding loop over an unknown id. */
  lemma ReadGroupUnknown(ps: seq<PView>, w: seq<Byte>, pos: nat, ret: int, ret': int)
    requires pos < |w| && w[pos] != EndMark && IdIndex(ps, w[pos], 0).None? && ret' == ret - 1
    ensures ReadGroup(ps, w, pos, ret) == ReadGroup(ps, w, pos + 1, ret')
  {
  }

  /** The encoding of the first i + 1 parameters extends that of the first i. */
  lemma EncodeParamsSnoc(ps: seq<PView>, i: nat)
    requires i < |ps|
    ensures EncodeParams(ps[..i + 1]) == EncodeParams(ps[..i]) + EncodeParam(ps[i])
  {
    assert ps[..i + 1][..i] == ps[..i];
  }

  /** The encoder and the decoder agree whatever follows the encoding: a
      receiver built from the same schema decodes it into the transmitted
      parameters with no error, stopping right after the end mark, and finds
      the id and the size in the header. */
  lemma MessageReadsBack(id: int, size: int, ps: seq<PView>, pad: seq<Byte>)
    requires WfGroup(ps)
    ensures var e := EncodeMessage(id, size, ps);
      var w := e + pad;
      && |e| == WireSizeMessage(ps)
      && FromBigEndian(w[..2]) == ToUnsigned(2, id)
      && FromBigEndian(w[2..4]) == ToUnsigned(2, size)
      && ReadMessage(ClearAll(ps), w) == (TransmittedAll(ps), |e|, 0)
  {
    var e := EncodeMessage(id, size, ps);
    var w := e + pad;
    EncodeMessageLength(id, size, ps);
    assert Modulus(2) == 0x1_0000;
    BigEndianReadsBack(2, ToUnsigned(2, id));
    BigEndianReadsBack(2, ToUnsigned(2, size));
    assert w[..2] == BigEndian(2, ToUnsigned(2, id));
    assert w[2..4] == BigEndian(2, ToUnsigned(2, size));
    assert AdvanceTo(|w|, 0, 4) == 4;
    assert w[4..4 + |EncodeGroup(ps)|] == EncodeGroup(ps);
    GroupRoundTrip(ps, w, 4, 0);
  }

  /** The round trip of the framework: the bytes SampleProto(Message&) leaves
      decode, on a receiver built from the same schema, into the transmitted
      parameters with no error; the decoder stops after the end mark, which
      is the last byte unless an unset group parameter was counted; the
      header carries the id and the buffer's size. */
  lemma MessageRoundTrip(id: int, ps: seq<PView>)
    requires WfGroup(ps)
    ensures var w := SentMessage(id, ps);
      && FromBigEndian(w[..2]) == ToUnsigned(2, id)
      && FromBigEndian(w[2..4]) == ToUnsigned(2, |w|)
      && ReadMessage(ClearAll(ps), w) == (TransmittedAll(ps), WireSizeMessage(ps), 0)
      && (AllGroupsSet(ps) ==> WireSizeMessage(ps) == |w|)
  {
    var size := WireSizeMessageAsWritten(ps);
    var w := SentMessage(id, ps);
    var e := EncodeMessage(id, size, ps);
    AsWrittenMessageCovers(id, size, ps);
    var pad := w[|e|..];
    assert w == e + pad;
    MessageReadsBack(id, size, ps, pad);
  }

  /** A parameter with id 255 puts 0xFF as its id byte, which the decoder
      takes for the end of the group: the parameter is not received. */
  lemma Id255EndsGroup()
    ensures var p := PView(255, false, Scalar(UInt8), true, 7, [], []);
      && EncodeGroup([p]) == [0xFF, 7, 0xFF]
      && ReadGroup(ClearAll([p]), EncodeGroup([p]), 0, 0) == (ClearAll([p]), 1, 0)
      && ClearAll([p]) != TransmittedAll([p])
  {
    var p := PView(255, false, Scalar(UInt8), true, 7, [], []);
    assert Modulus(1) == 256;
    assert [p][..0] == [];
    assert IdByte(255) == 0xFF;
    assert BigEndian(1, 7) == [7];
    assert ToUnsigned(1, 7) == 7;
    assert EncodeBody(p) == [7];
    assert EncodeParam(p) == [0xFF, 7];
    assert EncodeParams([p]) == [0xFF, 7];
    assert TransmittedAll([p])[0].isSet;
  }
}
