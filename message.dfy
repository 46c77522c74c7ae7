/**
  Message (migmsg.h): a group of parameters with an id, which binds at most
  one wire format at a time.  `to_wire` drops the previous wire format and
  binds a fresh one built from the message; SampleProto is the wire format
  the factory builds.
*/
module Messages {
  import opened Params
  import opened WireSpec
  import opened Sample

  class Message {
    const id: int
    const group: Group
    /** m_wire_format: null until the first to_wire. */
    var wireFormat: SampleProto?

    /** The message object is not one of its parameters. */
    ghost predicate Valid()
    {
      group.Valid() && this !in group.Repr
    }

    /** Message(id, m_params): no wire format bound yet. */
    constructor (id: int, group: Group)
      requires group.Valid()
      ensures Valid() && this.id == id && this.group == group && wireFormat == null
    {
      this.id := id;
      this.group := group;
      wireFormat := null;
    }

    /** to_wire(): the previous wire format (if any) is dropped and a fresh
        one, holding the bytes SampleProto(Message&) leaves, is
        bound and returned. */
    method ToWire() returns (w: SampleProto)
      requires Valid()
      modifies this
      ensures fresh(w) && fresh(w.wire) && fresh(w.wire.buf) && wireFormat == w
      ensures w.Valid() && w.At() == 0 && w.wire.size == WireSizeMessageAsWritten(group.Views())
      ensures w.Bytes() == SentMessage(id, group.Views())
    {
      w := new SampleProto.FromMessage(id, group);
      wireFormat := w;
    }
  }
}
