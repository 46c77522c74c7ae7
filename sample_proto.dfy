/**
  SampleProto (tests/sampleproto.cpp), the one wire format of the framework:
  the encoder writes a parameter tree through the buffer's cursor, step by
  step, and the decoder reads it back into a receiver's parameter tree.

  Each method is proved against the functions of `WireSpec`: the encoder
  leaves the buffer as `Put` of the encoding (as much of it as fits), the
  decoder leaves the parameters, the cursor and its result as `ReadGroup`
  says.  The round trip itself is `WireSpec.MessageRoundTrip`.
*/
module Sample {
  import opened Bytes
  import opened Params
  import opened Cursor
  import WF = WireFormat
  import opened WireSpec

  /** A receiver's parameter of kind `k` before anything is read into it. */
  function Blank(k: Kind): PView
  {
    PView(0, false, k, false, 0, [], [])
  }

  /** A uint16_t header field at `pos`, None when the buffer is too short. */
  function HeaderField(w: seq<Byte>, pos: nat): (r: Option<nat>)
    ensures r.Some? <==> pos + 2 <= |w|
    ensures r.Some? ==> r.value == FromBigEndian(w[pos..pos + 2]) < 0x1_0000
  {
    assert Modulus(2) == 0x1_0000;
    match GetPAt(w, pos, 2)
    case Some(b) => Some(FromBigEndian(b))
    case None => None
  }

  class SampleProto {
    /** The WireFormat part: the buffer, the size and the byte order. */
    const wire: WF.WireFormat
    /** set_id: the message id a received header carries, None when the
        buffer is too short to hold one. */
    var id: Option<nat>

    /** SampleProto never changes the byte order from Network. */
    ghost predicate Valid()
      reads this, wire, wire.buf
    {
      wire.Valid() && wire.byteOrder == WF.Network
    }

    /** The bytes of the buffer. */
    ghost function Bytes(): (w: seq<Byte>)
      requires Valid()
      reads this, wire, wire.buf, wire.buf.data
      ensures |w| == wire.buf.size
    {
      wire.buf.Contents()
    }

    /** The cursor of the buffer. */
    ghost function At(): int
      reads this, wire, wire.buf
    {
      wire.buf.next
    }

    /** A parameter tree owning the objects `r` shares none of them with the buffer. */
    ghost predicate Apart(r: set<object>)
      reads this, wire, wire.buf
    {
      wire !in r && wire.buf !in r && wire.buf.data !in r
    }

    /** SampleProto(Message&): sizes a zeroed buffer with the sizing pass
        as written, stores that size and encodes the message into it; the
        cursor is then back at the start. */
    constructor FromMessage(msgId: int, g: Group)
      requires g.Valid()
      ensures Valid() && fresh(wire) && fresh(wire.buf) && fresh(wire.buf.data)
      ensures wire.size == WireSizeMessageAsWritten(g.Views())
      ensures Bytes() == SentMessage(msgId, g.Views())
      ensures At() == 0 && id == None
    {
      var size := WireSizeMessageAsWritten(g.Views());
      var b := new MsgBuf(size);
      ghost var zeros := b.Contents();
      var w := new WF.WireFormat(b);
      w.SetSize(size);
      wire := w;
      id := None;
      new;
      assert Apart(g.Repr) && Bytes() == zeros;
      FillMessage(msgId, g);
    }

    /** SampleProto(p, n): adopts the n bytes at p, reads the id and the
        size from the header, and takes the header's size when it is below n. */
    constructor FromBuffer(p: array<Byte>, n: nat)
      requires n <= p.Length
      ensures Valid() && fresh(wire) && fresh(wire.buf) && wire.buf.data == p
      ensures Bytes() == p[..n]
      ensures var a := AdvanceTo(n, 0, 2);
        && id == HeaderField(p[..n], 0)
        && wire.size == (match HeaderField(p[..n], a) case Some(s) => if s < n then s else n case None => n)
        && At() == AdvanceTo(n, a, 2)
    {
      var b := new MsgBuf.FromStorage(p, n);
      var w := new WF.WireFormat(b);
      w.SetSize(n);
      wire := w;
      id := None;
      new;
      var ib := ReadInt(2);
      id := if ib.Some? then Some(FromBigEndian(ib.value)) else None;
      var sb := ReadInt(2);
      if sb.Some? && FromBigEndian(sb.value) < n {
        wire.SetSize(FromBigEndian(sb.value));
      }
    }

    // ------------------------------------------------------------ encoder

    /** data_to_wire of a scalar parameter: the `to_wire` overload of its
        type (nothing for void_t).  An unsigned value is put through the
        cast to its own width, the identity on the values its type holds. */
    method ScalarToWire(t: NativeType, v: int)
      requires Valid()
      modifies wire.buf, wire.buf.data
      ensures Valid() && wire.buf.data == old(wire.buf.data) && wire.buf.size == old(wire.buf.size)
      ensures Appended(old(Bytes()), old(At()), Bytes(), At(), EncodeScalar(t, v))
    {
      var r;
      if t == VoidT {
        AppendedNothing(Bytes(), At());
      } else if t == Bool {
        r := wire.PutBool(v != 0);
      } else if IsSigned(t) {
        r := wire.PutSigned(Width(t), v);
      } else {
        UnsignedToWire(t, v);
      }
    }

    /** The unsigned overloads of to_wire: uint8_t, uint16_t, uint32_t and uint64_t. */
    method UnsignedToWire(t: NativeType, v: int)
      requires Valid() && t in {UInt8, UInt16, UInt32, UInt64}
      modifies wire.buf, wire.buf.data
      ensures Valid() && wire.buf.data == old(wire.buf.data) && wire.buf.size == old(wire.buf.size)
      ensures Appended(old(Bytes()), old(At()), Bytes(), At(), EncodeScalar(t, v))
    {
      var r;
      if t == UInt8 {
        assert Modulus(1) == 256;
        assert EncodeScalar(t, v) == BigEndian(1, ToUnsigned(1, v)) == [ToUnsigned(1, v)];
        r := wire.PutU8(ToUnsigned(1, v));
      } else if t == UInt16 {
        assert Modulus(2) == 0x1_0000;
        assert EncodeScalar(t, v) == BigEndian(2, ToUnsigned(2, v));
        r := wire.PutU16(ToUnsigned(2, v));
      } else if t == UInt32 {
        assert Modulus(4) == 0x1_0000_0000;
        assert EncodeScalar(t, v) == BigEndian(4, ToUnsigned(4, v));
        r := wire.PutU32(ToUnsigned(4, v));
      } else {
        assert Modulus(8) == 0x1_0000_0000_0000_0000 by {
          assert Modulus(4) == 0x1_0000_0000;
        }
        assert EncodeScalar(t, v) == BigEndian(8, ToUnsigned(8, v));
        r := wire.PutU64(ToUnsigned(8, v));
      }
    }

    /** data_to_wire: a scalar's value, an enumeration's value cast to
        enum_t, a string with its NUL, a blob, or the nested group. */
    method DataToWire(par: Parameter)
      requires Valid() && par.Valid() && Apart(par.Repr)
      modifies wire.buf, wire.buf.data
      ensures Valid() && wire.buf.data == old(wire.buf.data) && wire.buf.size == old(wire.buf.size)
      ensures Appended(old(Bytes()), old(At()), Bytes(), At(), EncodeData(par.View()))
      decreases par.Repr, 1
    {
      var r;
      match par.kind
      case Scalar(t) =>
        ScalarToWire(t, par.value);
      case Enum =>
        r := wire.PutU8(IdByte(par.value));
      case Var(v) =>
        if v == Str {
          r := wire.PutString(par.data);
        } else {
          r := wire.PutBlob(par.data);
        }
      case GroupKind =>
        r := ToWireGroup(par.group);
    }

    /** to_wire(const Parameter&): nothing unless the parameter is set;
        then its id cast to uint8_t, a uint16_t size() for a parameter that
        is neither scalar nor group, and its data. */
    method ToWireParam(par: Parameter) returns (r: int)
      requires Valid() && par.Valid() && Apart(par.Repr)
      modifies wire.buf, wire.buf.data
      ensures Valid() && wire.buf.data == old(wire.buf.data) && wire.buf.size == old(wire.buf.size)
      ensures Appended(old(Bytes()), old(At()), Bytes(), At(), EncodeParam(par.View()))
      ensures r == 0
      decreases par.Repr, 2
    {
      var v := par.View();
      ghost var w0, n0 := Bytes(), At();
      if ParamIsSet(v) {
        r := wire.PutU8(IdByte(par.id));
        assert par.View() == v;
        ghost var w1, n1 := Bytes(), At();
        if !ParamIsScalar(v) && par.group == null {
          assert Modulus(2) == 0x1_0000;
          var len := ToUnsigned(2, ParamSize(v));
          r := wire.PutU16(len);
          assert par.View() == v;
          ghost var w2, n2 := Bytes(), At();
          DataToWire(par);
          assert par.View() == v;
          AppendedThen(w1, n1, w2, n2, Bytes(), At(), BigEndian(2, len), EncodeData(v));
          assert EncodeBody(v) == BigEndian(2, len) + EncodeData(v);
        } else {
          DataToWire(par);
          assert par.View() == v;
          assert EncodeBody(v) == EncodeData(v);
        }
        AppendedThen(w0, n0, w1, n1, Bytes(), At(), [IdByte(v.id)], EncodeBody(v));
        assert EncodeParam(v) == [IdByte(v.id)] + EncodeBody(v);
      } else {
        AppendedNothing(w0, n0);
      }
      assert par.View() == v;
      r := 0;
    }

    /** One pass of the loop of to_wire(const Group&): the i-th parameter
        appended after the first i. */
    method ToWireParamAt(g: Group, i: nat, ghost w0: seq<Byte>, ghost n0: int) returns (r: int)
      requires Valid() && g.Valid() && Apart(g.Repr) && i < |g.params|
      requires Appended(w0, n0, Bytes(), At(), EncodeParams(g.Views()[..i]))
      modifies wire.buf, wire.buf.data
      ensures Valid() && wire.buf.data == old(wire.buf.data) && wire.buf.size == old(wire.buf.size)
      ensures g.Views() == old(g.Views())
      ensures Appended(w0, n0, Bytes(), At(), EncodeParams(g.Views()[..i + 1]))
      ensures r == 0
      decreases g.Repr, 0
    {
      ghost var vs := g.Views();
      ghost var w1, n1 := Bytes(), At();
      r := ToWireParam(g.params[i]);
      AppendedThen(w0, n0, w1, n1, Bytes(), At(), EncodeParams(vs[..i]), EncodeParam(vs[i]));
      EncodeParamsSnoc(vs, i);
    }

    /** to_wire(const Group&): each parameter in id order, then the end mark. */
    method ToWireGroup(g: Group) returns (r: int)
      requires Valid() && g.Valid() && Apart(g.Repr)
      modifies wire.buf, wire.buf.data
      ensures Valid() && wire.buf.data == old(wire.buf.data) && wire.buf.size == old(wire.buf.size)
      ensures Appended(old(Bytes()), old(At()), Bytes(), At(), EncodeGroup(g.Views()))
      ensures r == 0
      decreases g.Repr, 1
    {
      ghost var w0, n0 := Bytes(), At();
      ghost var vs := g.Views();
      AppendedNothing(w0, n0);
      assert vs[..0] == [];
      var i := 0;
      while i < |g.params|
        invariant 0 <= i <= |g.params|
        invariant Valid() && Apart(g.Repr) && wire.buf.data == old(wire.buf.data) && wire.buf.size == old(wire.buf.size)
        invariant g.Views() == vs
        invariant Appended(w0, n0, Bytes(), At(), EncodeParams(vs[..i]))
      {
        r := ToWireParamAt(g, i, w0, n0);
        i := i + 1;
      }
      assert vs[..i] == vs;
      ghost var w1, n1 := Bytes(), At();
      r := wire.PutU8(EndMark);
      AppendedThen(w0, n0, w1, n1, Bytes(), At(), EncodeParams(vs), [EndMark]);
      r := 0;
    }

    /** The constructor's `to_wire(msg)` into the zeroed buffer the sizing
        pass as written sized: the buffer then holds the message's encoding,
        followed by zeros where the sizing pass overcounted. */
    method FillMessage(msgId: int, g: Group)
      requires Valid() && g.Valid() && Apart(g.Repr)
      requires At() == 0 && wire.size == WireSizeMessageAsWritten(g.Views())
      requires Bytes() == seq(wire.size, _ => 0)
      modifies wire.buf, wire.buf.data
      ensures Valid() && wire.buf.data == old(wire.buf.data) && wire.buf.size == old(wire.buf.size)
      ensures Bytes() == SentMessage(msgId, g.Views()) && At() == 0
    {
      ghost var w0 := Bytes();
      ghost var e := EncodeMessage(msgId, wire.size, g.Views());
      var r := ToWireMessage(msgId, g);
      AsWrittenMessageCovers(msgId, wire.size, g.Views());
      PutFromStart(w0, e);
      assert Bytes() == SentMessage(msgId, g.Views());
    }

    /** to_wire(const Message&): the id and size() as uint16_t, the
        parameters and the end mark (the loop of to_wire(const Group&)),
        then the cursor back to the start. */

    method ToWireMessage(msgId: int, g: Group) returns (r: int)
      requires Valid() && g.Valid() && Apart(g.Repr)
      modifies wire.buf, wire.buf.data
      ensures Valid() && wire.buf.data == old(wire.buf.data) && wire.buf.size == old(wire.buf.size)
      ensures Bytes() == Put(old(Bytes()), old(At()), EncodeMessage(msgId, wire.size, g.Views()))
      ensures At() == 0 && r == 0
    {
      ghost var w0, n0 := Bytes(), At();
      assert Modulus(2) == 0x1_0000;
      var head := BigEndian(2, ToUnsigned(2, msgId));
      r := wire.PutU16(ToUnsigned(2, msgId));
      ghost var w1, n1 := Bytes(), At();
      r := wire.PutU16(ToUnsigned(2, wire.size));
      AppendedThen(w0, n0, w1, n1, Bytes(), At(), head, BigEndian(2, ToUnsigned(2, wire.size)));
      ghost var w2, n2 := Bytes(), At();
      r := ToWireGroup(g);
      AppendedThen(w0, n0, w2, n2, Bytes(), At(), head + BigEndian(2, ToUnsigned(2, wire.size)), EncodeGroup(g.Views()));
      wire.buf.Reset();
      r := 0;
    }

    // ------------------------------------------------------------ decoder

    /** An integer reader (`from_wire(uint8_t&)` … `from_wire(uint64_t&)`):
        the `width` bytes getp points at, big-endian, then advance(width). */
    method ReadInt(width: nat) returns (b: Option<seq<Byte>>)
      requires Valid()
      modifies wire.buf
      ensures Valid() && wire.buf.data == old(wire.buf.data) && wire.buf.size == old(wire.buf.size)
      ensures Bytes() == old(Bytes())
      ensures b == GetPAt(Bytes(), old(At()), width) && At() == AdvanceTo(|Bytes()|, old(At()), width)
    {
      b := wire.buf.GetP(width);
      var _ := wire.buf.Advance(width);
    }

    /** from_wire(blob_t&) (and from_wire(string_t&), which reads the same
        way): a uint16_t n, then the n bytes getp points at, then advance(n).
        None is the null pointer getp returns when the bytes are missing. */
    method FromWireBlob() returns (d: Option<seq<Byte>>)
      requires Valid()
      modifies wire.buf
      ensures Valid() && wire.buf.data == old(wire.buf.data) && wire.buf.size == old(wire.buf.size)
      ensures Bytes() == old(Bytes())
      ensures var q := ReadVar(Blank(Var(Blob)), Bytes(), old(At()));
        At() == q.1 && (d.Some? <==> q.0.isSet) && (d.Some? ==> d.value == q.0.data)
    {
      var lb := ReadInt(2);
      d := None;
      if lb.Some? {
        var n := FromBigEndian(lb.value);
        d := wire.buf.GetP(n);
        var _ := wire.buf.Advance(n);
      }
    }

    /** from_wire(std::string&): a uint16_t n, then the first n - 1 of the n
        bytes getp points at (the NUL dropped), then advance(n).  None when
        the bytes are missing, and when n is 0 (n - 1 then wraps around). */
    method FromWireString() returns (d: Option<seq<Byte>>)
      requires Valid()
      modifies wire.buf
      ensures Valid() && wire.buf.data == old(wire.buf.data) && wire.buf.size == old(wire.buf.size)
      ensures Bytes() == old(Bytes())
      ensures var q := ReadVar(Blank(Var(Str)), Bytes(), old(At()));
        At() == q.1 && (d.Some? <==> q.0.isSet) && (d.Some? ==> d.value == q.0.data)
    {
      var lb := ReadInt(2);
      d := None;
      if lb.Some? {
        var n := FromBigEndian(lb.value);
        var b := wire.buf.GetP(n);
        var _ := wire.buf.Advance(n);
        if b.Some? && n > 0 {
          d := Some(b.value[..n - 1]);
        }
      }
    }

    /** data_from_wire of a scalar or an enumeration: the integer reader of
        its width, then set() with the value read, when there was one. */
    method FixedFromWire(par: Parameter, width: nat)
      requires Valid() && par.Valid() && Apart(par.Repr)
      requires (par.kind.Scalar? && par.kind.t != VoidT && width == Width(par.kind.t)) || (par.kind.Enum? && width == 1)
      modifies wire.buf, par
      ensures Valid() && wire.buf.data == old(wire.buf.data) && wire.buf.size == old(wire.buf.size)
      ensures Bytes() == old(Bytes())
      ensures var q := ReadFixed(old(par.View()), Bytes(), old(At()), width); par.View() == q.0 && At() == q.1
    {
      var b := ReadInt(width);
      if b.Some? {
        DecodeInRange(par.kind, b.value);
        par.SetValue(DecodeValue(par.kind, b.value));
      }
    }

    /** data_from_wire: reads the body of one parameter into it; returns the
        number of errors (the unknown ids inside a group parameter). */
    method DataFromWire(par: Parameter) returns (errs: int)
      requires Valid() && par.Valid() && Apart(par.Repr)
      modifies wire.buf, par.Repr
      ensures Valid() && wire.buf.data == old(wire.buf.data) && wire.buf.size == old(wire.buf.size)
      ensures Bytes() == old(Bytes())
      ensures var q := ReadParam(old(par.View()), Bytes(), old(At()));
        par.View() == q.0 && At() == q.1 && errs == q.2
      decreases par.Repr, 1
    {
      errs := 0;
      match par.kind
      case Scalar(t) =>
        if t == VoidT {
          par.Mark();
        } else {
          FixedFromWire(par, Width(t));
        }
      case Enum =>
        FixedFromWire(par, 1);
      case Var(v) =>
        var d;
        if v == Blob {
          d := FromWireBlob();
        } else {
          d := FromWireString();
        }
        if d.Some? {
          par.SetData(d.value);
        }
      case GroupKind =>
        var ret := FromWireGroup(par.group);
        errs := -ret;
    }

    /** One pass of the decoding loop after getc returned the id byte at
        `pos`: the body of the parameter with that id read into it, its
        errors taken from the result `ret`, or, when no parameter has the id,
        1 taken from it.  What is left to decode reads to the same end `R`. */
    method FromWireId(g: Group, c: Byte, ghost w: seq<Byte>, ghost pos: nat, ret: int, ghost R: (seq<PView>, nat, int)) returns (ret': int)
      requires Valid() && g.Valid() && Apart(g.Repr)
      requires Bytes() == w && pos < |w| && At() == pos + 1 && w[pos] == c && c != EndMark
      requires ReadGroup(g.Views(), w, pos, ret) == R
      modifies wire.buf, g.Repr
      ensures Valid() && wire.buf.data == old(wire.buf.data) && wire.buf.size == old(wire.buf.size)
      ensures Bytes() == w && At() > pos
      ensures ReadGroup(g.Views(), w, At(), ret') == R
      decreases g.Repr, 0
    {
      ghost var vs := g.Views();
      var idx := IdIndex(g.Views(), c, 0);
      if idx.Some? {
        var i := idx.value;
        ghost var q := ReadParam(vs[i], w, pos + 1);
        var e := DataFromWire(g.params[i]);
        ret' := ret - e;
        forall j | 0 <= j < |g.params| && j != i
          ensures g.params[j].View() == vs[j]
        {
        }
        assert g.Views() == vs[i := q.0];
        ReadGroupRead(vs, w, pos, ret, i, q.0, q.1, q.2, ret');
      } else {
        ret' := ret - 1;
        ReadGroupUnknown(vs, w, pos, ret, ret');
      }
    }

    /** from_wire(Group&): reads id bytes until 0xFF, which getc also yields
        once the buffer is exhausted; a known id has its parameter's body
        read, an unknown one costs 1 from the result. */
    method FromWireGroup(g: Group) returns (ret: int)
      requires Valid() && g.Valid() && Apart(g.Repr)
      modifies wire.buf, g.Repr
      ensures Valid() && wire.buf.data == old(wire.buf.data) && wire.buf.size == old(wire.buf.size)
      ensures Bytes() == old(Bytes())
      ensures ReadGroup(old(g.Views()), Bytes(), old(At()), 0) == (g.Views(), At(), ret)
      decreases g.Repr, 1
    {
      ghost var w := Bytes();
      ghost var R := ReadGroup(g.Views(), w, At(), 0);
      ret := 0;
      while true
        invariant Valid() && Apart(g.Repr) && wire.buf.data == old(wire.buf.data) && wire.buf.size == old(wire.buf.size)
        invariant Bytes() == w
        invariant ReadGroup(g.Views(), w, At(), ret) == R
        decreases |w| - At()
      {
        ghost var pos, vs := At(), g.Views();
        var c := wire.buf.GetC();
        if c == EndMark {
          break;
        }
        assert g.Views() == vs;
        ret := FromWireId(g, c, w, pos, ret, R);
      }
    }

    /** from_wire(Message&): the cursor reset and advanced past the 4-byte
        header, then the group read. */
    method FromWireMessage(g: Group) returns (ret: int)
      requires Valid() && g.Valid() && Apart(g.Repr)
      modifies wire.buf, g.Repr
      ensures Valid() && wire.buf.data == old(wire.buf.data) && wire.buf.size == old(wire.buf.size)
      ensures Bytes() == old(Bytes())
      ensures ReadMessage(old(g.Views()), Bytes()) == (g.Views(), At(), ret)
    {
      wire.buf.Reset();
      var _ := wire.buf.Advance(4);
      ret := FromWireGroup(g);
    }
  }
}
