# mig — a verified model of the message compiler and its runtime

mig turns a schema of messages, groups, enumerations and data types into C++
classes, and ships a runtime that encodes those classes into a byte format
and decodes them back. This project models both halves in Dafny.

The compiler side (`mig.c`):

- the symbol tables: a fixed hash table of 32 buckets, keyed by name or by
  message id, with the C remainder and the prefix-comparing `namecmp`;
- the builder functions `mig_creat_*`, which build linked lists in reverse
  and flip them back into declaration order;
- `mig_add_element`, `mig_find_type` and `mig_find_msg`;
- the kind selection of `generate_parameters`;
- the `Count` sentinel of generated enumerations.

The runtime side:

- `migmsg.h`: the parameter state machine (unset, set, valid when set or
  optional), groups and their `size`, and `Message::to_wire`;
- `migmsg.cpp`: the integer, bool, string and blob encoders of `WireFormat`;
- `tests/sampleproto.cpp`: the sample protocol. This covers its cursor
  buffer `msgbuf`, its sizing pass `wire_size`, its encoder `to_wire` and its
  best-effort decoder `from_wire`;
- `code/mig_templates.h`: the earlier prototype parameter classes.

Modules, one per file:

| file | module | what it holds |
|---|---|---|
| `bytes.dfy` | `Bytes` | bytes, two's-complement casts, big-endian byte order |
| `hash_table.dfy` | `HashTable` | hash and compare functions, the `HashTable` class |
| `schema.dfy` | `Schema` | linked nodes, the in-place list flip, the builders |
| `symbols.dfy` | `Symbols` | the compiler's type and message tables (`Mig`) |
| `generator.dfy` | `Generator` | parameter kind selection, enumeration `Count` |
| `params.dfy` | `Params` | runtime `Parameter` and `Group` classes, their snapshots `PView` |
| `msgbuf.dfy` | `Cursor` | the `msgbuf` class and its cursor arithmetic |
| `wire_format.dfy` | `WireFormat` | the `WireFormat` class and its encoders |
| `wire_spec.dfy` | `WireSpec` | the byte format as functions: encoding, sizing, decoding, round trip |
| `sample_proto.dfy` | `Sample` | the `SampleProto` class: encoder and decoder methods |
| `message.dfy` | `Messages` | `Message` and its `to_wire` |
| `prototype.dfy` | `Prototype` | the prototype parameters of `mig_templates.h` |

The heart of the runtime model is one theorem, `WireSpec.MessageRoundTrip`.
It is about the bytes that `SampleProto(Message&)` leaves in its buffer
(`WireSpec.SentMessage`). Its premise, `WireSpec.WfGroup`, asks four things
of the message's parameter tree:

- in every group, the parameter ids strictly ascend;
- a parameter that is sent has an id from 0 to 254;
- a set scalar or enumeration value fits its type;
- a string body with its NUL, and a blob body, are under 65536 bytes.

A receiver built from the same schema then decodes those bytes into exactly
the parameters that were sent, with no error counted. It stops right after
the end mark. The header reads back as the message id and the buffer's size.
The buffer is sized by the sizing pass as written. So it ends in zero bytes
when an unset group parameter was counted (see Findings).

The theorem holds for the encoder with two of the defects under Findings
corrected:

- the u64 encoder keeps the high word. With the source's encoder, a u64 or
  int64 value outside [0, 2^32) does not read back;
- `putp` reports 0 whenever all bytes fit. The message encoder ignores these
  statuses, so the bytes it puts are the same either way.

The methods of `SampleProto` and `Message` are proved to leave exactly the
bytes of `WireSpec.SentMessage`. They are also proved to decode exactly as
`WireSpec.ReadGroup` does. So, with those two corrections, the theorem is a
statement about them.

## Model

| member | source | states |
|---|---|---|
| Bytes.ToUnsigned | migmsg.cpp:91-105 | casting to the unsigned type of `width` bytes gives a value below 2^(8·width) |
| Bytes.ToUnsignedMod | migmsg.cpp:91-105 | that cast is the value modulo 2^(8·width), for negative values too (two's complement) |
| Bytes.SignedCastRoundTrip | migmsg.cpp:91-105 | a value of a signed type, cast to unsigned and reinterpreted as signed, is the value again |
| Bytes.BigEndian | migmsg.cpp:37-57 | the network-order encoding of a value has exactly `width` bytes |
| Bytes.FromBigEndian | migmsg.cpp:37-57 | reading big-endian bytes gives a value below 2^(8·length) |
| Bytes.BigEndianRoundTrip | migmsg.cpp:37-57 | reading back a value's big-endian bytes gives the value modulo 2^(8·width) |
| Bytes.BigEndianReadsBack | migmsg.cpp:37-57 | a value that fits the width reads back exactly |
| Bytes.BigEndianInjective | migmsg.cpp:37-57 | two values that fit the width have equal encodings only if they are equal |
| Bytes.UnsignedCastId | migmsg.cpp:32-35 | casting a value that already fits its unsigned type leaves it unchanged |
| Bytes.BigEndian16 | migmsg.cpp:37-46 | a u16 goes out as its high byte, then its low byte |
| HashTable.CRem | mig.c:112-115 | C's `%` agrees with the Euclidean remainder for non-negative operands; for a negative one it lies in (-b, 0] |
| HashTable.CharValue | mig.c:104-105 | a character read as a signed `char` lies in [-128, 128), and is its code when that is below 0x80 |
| HashTable.CharSum | mig.c:101-105 | the sum of a name's `char` values is never negative for an ASCII name |
| HashTable.NameHash | mig.c:99-109 | a name's bucket is its `char` sum under C's `%` by 32; it lies in (-32, 32); for a non-negative sum it is the sum modulo 32, and an ASCII name lands in [0, 32) |
| HashTable.NonAsciiNameOutOfRange | mig.c:99-109 | the one-byte name 0xFF sums to -1 and hashes to -1, outside the bucket range |
| HashTable.Name2Hash | mig.c:99-109 | the adding loop computes `NameHash`, in (-32, 32); the empty name hashes to 0 |
| HashTable.Id2Hash | mig.c:112-115 | a non-negative id hashes to id mod 32 in [0, 32); a negative id to a value in (-32, 0] |
| HashTable.NegativeIdOutOfRange | mig.c:112-115 | id -1 (and -33) hashes to -1, outside the bucket range |
| HashTable.StrNCmp | mig.c:127 | `strncmp` over n characters is 0 exactly when the first n characters agree |
| HashTable.NameCmp | mig.c:118-128 | `namecmp` is 0 exactly when the names agree on as many characters as the shorter one has |
| HashTable.NameCmpPrefixEqual | mig.c:118-128 | a name compares equal to every extension of itself, and the empty name to every name |
| HashTable.NameCmpEqualIsPrefix | mig.c:118-128 | if a shorter name compares equal to a longer one, the shorter is a prefix of the longer |
| HashTable.IdCmp | mig.c:131-143 | `idcmp` is 0, -1 or 1 exactly as the ids are equal, smaller or larger |
| HashTable.FindIndex | mig.c:194-200 | the chain walk stops at the first node comparing equal; it finds none exactly when no node compares equal |
| HashTable.CountPrepend | mig.c:220-222 | linking one node in front of a chain adds one to the table's node count |
| HashTable.LookupAfterAdd | mig.c:206-226 | after adding a key, searching for it finds the node just added, shadowing older nodes with an equal key |
| HashTable.LookupIdAbsent | mig.c:185-203 | in the id table, a search for a non-negative id fails exactly when no node anywhere holds that id |
| HashTable.HashTable.constructor | mig.c:146-165 | a new table has 32 empty buckets, the given hash and compare functions, and no nodes |
| HashTable.HashTable.Add | mig.c:206-226 | the new node is prepended to its key's bucket and every other bucket is unchanged; `nnodes` grows by one and still counts the nodes; duplicates are accepted |
| HashTable.HashTable.Search | mig.c:185-203 | the result is the first node of the key's bucket that compares equal to the key, or none |
| HashTable.HashTable.Size | mig.c:83-96 | counting every chain gives `nnodes` |
| Schema.Flip | mig.c:285-331 | relinking the list in place yields its nodes in reverse order, still distinct, and counts them |
| Schema.FlipRestoresDeclarationOrder | mig.c:280-283 | a list built by prepending in declaration order is back in declaration order once flipped |
| Schema.CreatDatatype | mig.c:390-406 | a fresh unlinked element holding the name, the native type and the variable-size flag |
| Schema.CreatMessage | mig.c:409-425 | a fresh message element whose parameter list is the given one flipped, with its length as `nparameters` |
| Schema.CreatEnumeration | mig.c:427-442 | a fresh enumeration element whose enumerator list is the given one flipped, with its length |
| Schema.CreatGroup | mig.c:444-459 | a fresh group element whose parameter list is the given one flipped, with its length |
| Schema.CreatEnumerator | mig.c:461-473 | a fresh unlinked enumerator with the name and value |
| Schema.CreatParameter | mig.c:475-494 | a fresh unlinked parameter with the type, name, id and both flags |
| Symbols.LookupFindsStored | mig.c:185-203 | a key stored in its own bucket is always found (maybe as an earlier node comparing equal) |
| Symbols.PrefixNameFound | mig.c:360-369 | looking up type `"A "` finds the type `"A"`, because names compare as prefixes |
| Symbols.EmptyNameFound | mig.c:360-369 | looking up the empty name finds the first node of bucket 0 whenever that bucket is non-empty |
| Symbols.Mig.constructor | mig.c:339-346 | the type table and the message table start empty |
| Symbols.Mig.AddElement | mig.c:371-388 | for a name whose hash is not negative: a null element is refused with -1 and nothing changes; otherwise the element is prepended to its name's bucket in the type table; a message is also prepended to its id's bucket in the message table; duplicates are accepted |
| Symbols.Mig.FindType | mig.c:360-369 | for a name whose hash is not negative, 1 exactly when some node in the name's bucket compares equal to the name, else 0 |
| Symbols.Mig.FindMsg | mig.c:348-358 | 1 or 0; for a non-negative id, 1 exactly when the message table holds a node with that id |
| Generator.MemberFor | mig.c:506-531 | group, data-type and enumeration types select `group`, `var`/`scalar` and `enum` parameters; a data type contributes its native type; a message type selects nothing |
| Generator.MembersOnePerParameter | mig.c:506-531 | when no parameter names a message type, one member is declared per parameter, in list order, with its name, id and optional flag |
| Generator.GenerateParameters | mig.c:506-531 | the walk over the parameter list emits exactly `Members` of the list |
| Generator.CountValue | mig.c:618-629 | `Count` after a list of enumerator values: a running maximum that starts at 0, plus one |
| Generator.CountValueBounds | mig.c:618-629 | `Count` is at least 1 and above every value; it is 1 or one more than some value |
| Generator.CountAfterZeroOne | mig.c:618-629 | `{VALUE1 = 0, VALUE2 = 1}` gives `Count = 2` |
| Generator.CountAfterNegatives | mig.c:618-629 | only negative values give `Count = 1`, because the running maximum starts at 0 |
| Generator.EmitEnumeration | mig.c:618-629 | the walk emits every enumerator in order followed by `Count` |
| Params.ParamIsSet | migmsg.h:160 | `is_set()`: the set flag, and for a group parameter its group's validity (migmsg.h:195, 288) |
| Params.ParamIsValid | migmsg.h:162 | `is_valid()`: set or optional, and for a group parameter its group valid or optional (migmsg.h:290) |
| Params.ParamSize | migmsg.h:241-333 | `size()`: `sizeof(T)` for a scalar set or not, 1 for an enumeration, the string's length plus its NUL, the blob's length, the group's size |
| Params.GroupSize | migmsg.h:190-194 | a group's `size()` is the sum of its parameters' sizes |
| Params.ValidIsSetOrOptional | migmsg.h:162 | a parameter is valid exactly when it is set or optional, for group parameters too |
| Params.GroupValidIffRequiredSet | migmsg.h:186-189 | a group is valid exactly when every required parameter is set |
| Params.SetScalarKeepsGroupSize | migmsg.h:241 | setting a scalar or an enumeration does not change its group's size, since `size()` is `sizeof(T)` set or not |
| Params.Parameter.constructor | migmsg.h:146-151 | a new non-group parameter has its id, optional flag and kind, and is unset with empty data |
| Params.Parameter.Grouped | migmsg.h:281-282 | a new group parameter refers to its nested group and is unset |
| Params.Parameter.SetValue | migmsg.h:238 | setting a scalar or enumeration stores the value and marks it set, and nothing else changes |
| Params.Parameter.Mark | migmsg.h:154 | `set()` marks the parameter set, and nothing else changes |
| Params.Parameter.SetData | migmsg.h:306-311 | setting a string or blob replaces the data and marks it set, and nothing else changes |
| Params.Group.constructor | migmsg.h:181 | a group holds its parameters in ascending id order |
| Cursor.GetPAt | tests/sampleproto.cpp:82-86 | `getp(n)` succeeds exactly when `m_next + n - 1 < m_size` in unsigned arithmetic; it then points at the n bytes at the cursor |
| Cursor.AdvanceTo | tests/sampleproto.cpp:88-94 | `advance(n)` moves the cursor by n when the same test passes, else to the end; it never leaves the buffer |
| Cursor.AdvanceZeroAtStartJumpsToEnd | tests/sampleproto.cpp:89 | `advance(0)` at position 0 moves the cursor to the end, because `0 + 0 - 1` wraps around |
| Cursor.AdvanceMonotone | tests/sampleproto.cpp:88-94 | `advance` with a non-negative count never moves the cursor back |
| Cursor.Room | tests/sampleproto.cpp:64 | `putp` copies all n bytes, or as many as fit before the end |
| Cursor.AppendedWithRoom | tests/sampleproto.cpp:63-71 | when the bytes fit, appending them writes them at the cursor, moves it past them and leaves the rest of the buffer as it was |
| Cursor.PutPStatusAsWritten | tests/sampleproto.cpp:63-71 | the status `putp` returns as written: -1 unless the final count, which wraps below 0, is 0 |
| Cursor.PutPStatusAsWrittenOnlyExactFit | tests/sampleproto.cpp:63-71 | as written, `putp` reports success only when the bytes exactly fill the remaining room |
| Cursor.PutPFitsButFails | tests/sampleproto.cpp:63-71 | as written, putting 2 bytes with 4 bytes of room reports -1 |
| Cursor.ReverseAsWritten | tests/sampleproto.cpp:96-102 | the cursor `reverse(n)` leaves as written: `next - n` when that is positive, else 0, with no upper bound |
| Cursor.ReverseNegativeLeavesBuffer | tests/sampleproto.cpp:96-102 | as written, `reverse(-5)` at position 3 moves the cursor to 8, past the end of a 4-byte buffer |
| Cursor.MsgBuf.constructor | tests/sampleproto.cpp:41 | `msgbuf(n)` holds n fresh zero bytes with the cursor at 0 |
| Cursor.MsgBuf.FromStorage | tests/sampleproto.cpp:42 | `msgbuf(p, n)` uses the first n bytes of p, cursor at 0 |
| Cursor.MsgBuf.AllocBuf | tests/sampleproto.cpp:45-50 | fresh zero storage of n bytes, cursor at 0, returns 0 |
| Cursor.MsgBuf.SetBuf | tests/sampleproto.cpp:51-52 | adopts the given storage and size, cursor at 0, returns 0 |
| Cursor.MsgBuf.PutC | tests/sampleproto.cpp:54-61 | with room, writes the byte at the cursor, advances it and returns 0; at the end, returns -1 and changes nothing |
| Cursor.MsgBuf.PutP | tests/sampleproto.cpp:63-71 | writes as many bytes as fit at the cursor and advances past them; returns 0 exactly when all of them fit |
| Cursor.MsgBuf.GetC | tests/sampleproto.cpp:73-80 | returns the byte at the cursor and advances; at the end returns 0xFF and stays |
| Cursor.MsgBuf.GetP | tests/sampleproto.cpp:82-86 | returns the bytes `GetPAt` describes and changes nothing |
| Cursor.MsgBuf.Advance | tests/sampleproto.cpp:88-94 | moves the cursor as `AdvanceTo` says and returns the new position |
| Cursor.MsgBuf.Reverse | tests/sampleproto.cpp:96-102 | moves the cursor back by n, to 0 when that would not stay positive, and never past the end |
| Cursor.MsgBuf.Reset | tests/sampleproto.cpp:104 | puts the cursor back at 0 and changes nothing else |
| WireFormat.U64AsWritten | migmsg.cpp:59-77 | as written, the u64 encoder puts 8 bytes |
| WireFormat.U64AsWrittenLosesHighWord | migmsg.cpp:69-71 | as written, 2^32 and 0 go out as the same 8 bytes, while their big-endian encodings differ |
| WireFormat.U64AsWrittenNotInjective | migmsg.cpp:69-71 | as written, two distinct u64 values share an encoding |
| WireFormat.U64RoundTrip | migmsg.cpp:59-77 | the corrected u64 encoding reads back as the value, for every u64 |
| WireFormat.Int16Example | migmsg.cpp:95-97 | the int16 -12345 goes out as u16 53191, i.e. bytes 0xCF 0xC7 |
| WireFormat.WireFormat.constructor | migmsg.h:136-139 | the model's wire format over a buffer starts with that buffer, size 0 and network byte order (the source leaves buffer and size uninitialised) |
| WireFormat.WireFormat.SetByteOrder | migmsg.h:94 | sets the byte order and nothing else |
| WireFormat.WireFormat.SetBuf | migmsg.h:97 | sets the buffer and nothing else |
| WireFormat.WireFormat.SetSize | migmsg.h:100 | sets the size and nothing else |
| WireFormat.WireFormat.PutU8 | migmsg.cpp:32-35 | appends one byte; 0 exactly when there was room |
| WireFormat.WireFormat.PutBigEndian | migmsg.cpp:37-57 | in network order, appends the big-endian bytes, and returns 0 exactly when they fit (the corrected `putp` status); in any other order, returns -1 and writes nothing |
| WireFormat.WireFormat.PutU16 | migmsg.cpp:37-46 | the same, for 2 bytes |
| WireFormat.WireFormat.PutU32 | migmsg.cpp:48-57 | the same, for 4 bytes |
| WireFormat.WireFormat.PutU64 | migmsg.cpp:59-77 | the same, for 8 bytes, with the corrected big-endian encoding and status |
| WireFormat.WireFormat.PutBool | migmsg.cpp:87-89 | appends 1 or 0 |
| WireFormat.WireFormat.PutSigned | migmsg.cpp:91-105 | appends the big-endian bytes of the value cast to the unsigned type of its width (for 8 bytes, the corrected u64 bytes); wider than one byte, only in network order, else -1 and nothing written; 0 exactly when they fit (the corrected status) |
| WireFormat.WireFormat.PutString | migmsg.cpp:79-81 | appends the string's bytes and a terminating NUL; 0 exactly when all fit (the corrected `putp` status) |
| WireFormat.WireFormat.PutBlob | migmsg.cpp:83-85 | appends the blob's bytes; 0 exactly when all fit (the corrected `putp` status) |
| WireSpec.EncodeParam | tests/sampleproto.cpp:262-277 | a parameter is put only when set: its id byte, then the u16 length for a string or blob, then its payload |
| WireSpec.EncodeGroup | tests/sampleproto.cpp:279-291 | a group is its parameters in id order, then the end mark 0xFF |
| WireSpec.EncodeMessage | tests/sampleproto.cpp:238-260 | a message is its id and the given size as u16 values, then its group |
| WireSpec.WireSizeParam | tests/sampleproto.cpp:209-236 | the corrected sizing: nothing for an unset parameter, group parameters included; an id byte, a u16 length for strings and blobs, and `size()` bytes otherwise |
| WireSpec.WireSizeParamAsWritten | tests/sampleproto.cpp:219-234 | the sizing as written: a group parameter is counted before its set test |
| WireSpec.WireSizeMessage | tests/sampleproto.cpp:195-200 | the corrected sizing of a message: the 5 bytes of header and end mark, plus its parameters |
| WireSpec.WireSizeMessageAsWritten | tests/sampleproto.cpp:195-200 | the sizing of a message as written, over the as-written parameter sizes |
| WireSpec.DataLength | migmsg.h:241-333 | the payload of a set non-group parameter is `size()` bytes long |
| WireSpec.EncodeParamLength | tests/sampleproto.cpp:209-236 | the corrected sizing of a parameter counts exactly the bytes its encoding has |
| WireSpec.EncodeParamsLength | tests/sampleproto.cpp:202-207 | the same for a list of parameters |
| WireSpec.EncodeMessageLength | tests/sampleproto.cpp:195-200 | a message's encoding is exactly as long as the corrected `wire_size(msg)` |
| WireSpec.AsWrittenParamCovers | tests/sampleproto.cpp:209-236 | the sizing as written never counts fewer bytes than are put; it counts exactly as many when every group parameter is set |
| WireSpec.AsWrittenParamsCover | tests/sampleproto.cpp:202-207 | the same for a list of parameters |
| WireSpec.AsWrittenMessageCovers | tests/sampleproto.cpp:157-165 | the buffer the as-written sizing allocates holds the whole encoding, and is exactly as long when every group parameter is set |
| WireSpec.SentMessage | tests/sampleproto.cpp:157-165 | the constructor's buffer has the as-written size; its front is the encoding with that size in the header, and the rest is zero |
| WireSpec.UnsetGroupOvercounted | tests/sampleproto.cpp:223-224 | as written, an optional group parameter whose group lacks a required u8 is sized 2 bytes, yet nothing of it is put |
| WireSpec.IdIndex | tests/sampleproto.cpp:309-311 | `count`/`at` on the id map find a parameter carrying that id |
| WireSpec.IdIndexFirst | tests/sampleproto.cpp:309-311 | the search finds the first parameter with the id, and none exactly when no parameter has it |
| WireSpec.DecodeInRange | migmsg.h:123-130 | a value read for a scalar or enumeration fits the parameter's type |
| WireSpec.ReadFixed | tests/sampleproto.cpp:312 | reading a fixed-width body never moves the cursor back or past the end, and counts no error |
| WireSpec.ReadVar | tests/sampleproto.cpp:342-352 | reading a string or blob body never moves the cursor back or past the end, and counts no error |
| WireSpec.ReadParam | tests/sampleproto.cpp:312 | reading any parameter body never moves the cursor back or past the end; its error count is never negative |
| WireSpec.ReadGroup | tests/sampleproto.cpp:300-321 | decoding a group never moves the cursor back or past the end, and never raises the result |
| WireSpec.ReadMessage | tests/sampleproto.cpp:293-298 | decoding a message skips the 4-byte header (or to the end of a shorter buffer) and decodes the group from there |
| WireSpec.ReadGroupConsumes | tests/sampleproto.cpp:306 | each pass of the decoding loop consumes at least one byte |
| WireSpec.UnknownIdCounted | tests/sampleproto.cpp:314-316 | an id byte that matches no parameter is skipped and costs 1 from the result |
| WireSpec.ReadGroupRead | tests/sampleproto.cpp:309-312 | a known id reads that parameter's body and subtracts its error count |
| WireSpec.ReadGroupUnknown | tests/sampleproto.cpp:314-316 | an unknown id moves on by one byte and subtracts 1 |
| WireSpec.ScalarRoundTrip | migmsg.cpp:87-105 | decoding a scalar's bytes gives back the value, for every value of every non-void type |
| WireSpec.BoolRoundTrip | migmsg.cpp:87-89 | the same for bool |
| WireSpec.SignedRoundTrip | migmsg.cpp:91-105 | the same for the signed types |
| WireSpec.UnsignedRoundTrip | migmsg.cpp:32-77 | the same for the unsigned types |
| WireSpec.EnumRoundTrip | migmsg.h:271 | an enumeration's byte reads back as its value |
| WireSpec.VarRoundTrip | tests/sampleproto.cpp:342-352 | a string or blob body reads back as the sent data, embedded NULs included, and consumes exactly the body |
| WireSpec.ReadParamRoundTrip | tests/sampleproto.cpp:262-277 | the body of every set parameter reads back into a cleared receiver as the sent parameter and consumes exactly the body |
| WireSpec.GroupParamRoundTrip | tests/sampleproto.cpp:279-291 | the same for a group parameter whose group is valid |
| WireSpec.GroupRoundTrip | tests/sampleproto.cpp:300-321 | a group's encoding decodes into the sent parameters, consumes exactly the encoding, end mark included, and counts no error |
| WireSpec.ReadGroupRoundTrip | tests/sampleproto.cpp:306-317 | the loop invariant: with the first k parameters already received, the rest of the encoding decodes into all sent parameters |
| WireSpec.MessageReadsBack | tests/sampleproto.cpp:238-298 | whatever bytes follow a message's encoding, it decodes into the sent parameters with no error, stopping right after its end mark; the header carries the id and the size given |
| WireSpec.MessageRoundTrip | tests/sampleproto.cpp:157-298 | the constructor's buffer decodes into the sent parameters with no error, stopping after the end mark, which is the last byte when every group parameter is set; the header carries the id and the buffer's size |
| WireSpec.Id255EndsGroup | tests/sampleproto.cpp:306 | a parameter with id 255 puts 0xFF as its id byte, which the decoder takes for the end of the group, so the parameter is lost |
| Sample.HeaderField | tests/sampleproto.cpp:174-181 | a u16 header field is present exactly when two bytes remain, and is their big-endian value |
| Sample.SampleProto.FromMessage | tests/sampleproto.cpp:157-166 | the buffer and `size()` come from the sizing pass as written, and the buffer holds `SentMessage`: the encoding, then zeros where the sizing overcounted; cursor at 0 |
| Sample.SampleProto.FromBuffer | tests/sampleproto.cpp:168-182 | the id and size are read from the header; the size becomes the header's when it is smaller than n |
| Sample.SampleProto.ScalarToWire | migmsg.h:242 | appends the scalar's encoding: nothing for `void_t`, one byte for bool, the cast value big-endian otherwise |
| Sample.SampleProto.UnsignedToWire | migmsg.cpp:32-77 | appends an unsigned value's big-endian encoding |
| Sample.SampleProto.DataToWire | migmsg.h:242-334 | `data_to_wire` appends the parameter's payload |
| Sample.SampleProto.ToWireParam | tests/sampleproto.cpp:262-277 | appends the id byte, the u16 length for strings and blobs, and the payload, only when the parameter is set; returns 0 |
| Sample.SampleProto.ToWireParamAt | tests/sampleproto.cpp:286-287 | one pass of the group encoder extends the encoding of the first i parameters to i + 1 |
| Sample.SampleProto.ToWireGroup | tests/sampleproto.cpp:279-291 | appends every parameter's encoding in id order, then 0xFF |
| Sample.SampleProto.FillMessage | tests/sampleproto.cpp:159-165 | in the zeroed buffer the as-written sizing allocates, the encoder leaves exactly `SentMessage` |
| Sample.SampleProto.ToWireMessage | tests/sampleproto.cpp:238-260 | writes the u16 id, the u16 size, the parameters and 0xFF at the cursor, then resets it to 0 |
| Sample.SampleProto.ReadInt | migmsg.h:123-130 | reads the `width` bytes at the cursor when they are there, and advances |
| Sample.SampleProto.FromWireBlob | tests/sampleproto.cpp:323-330 | reads a u16 length n, then n bytes, and advances past them |
| Sample.SampleProto.FromWireString | tests/sampleproto.cpp:342-352 | reads a u16 length n, then n bytes, keeps the first n - 1, and advances past them |
| Sample.SampleProto.FixedFromWire | tests/sampleproto.cpp:312 | the body of a scalar or enumeration is read as `ReadFixed` says |
| Sample.SampleProto.DataFromWire | tests/sampleproto.cpp:312 | `data_from_wire` reads the parameter as `ReadParam` says, recursing into groups |
| Sample.SampleProto.FromWireId | tests/sampleproto.cpp:309-316 | one pass of the decoding loop keeps the decoder's outcome unchanged from the new position on |
| Sample.SampleProto.FromWireGroup | tests/sampleproto.cpp:300-321 | the loop leaves the group, the cursor and the result as `ReadGroup` says |
| Sample.SampleProto.FromWireMessage | tests/sampleproto.cpp:293-298 | skips the 4-byte header and decodes the group, as `ReadMessage` says |
| Messages.Message.constructor | migmsg.h:208-209 | a message has its id and parameters and no wire format yet |
| Messages.Message.ToWire | migmsg.h:214-219 | binds a fresh wire format holding exactly `SentMessage` at the as-written wire size, and returns it |
| Prototype.ParId | code/mig_templates.h:37-38 | the `uint16_t` id keeps the given id modulo 2^16 |
| Prototype.PrototypeSizeContrast | code/mig_templates.h:47 | the prototype and the runtime scalar report the same size exactly when the parameter is set or of type `void_t` |
| Prototype.SimpleParameter.constructor | code/mig_templates.h:37-41 | unset, value 0, size 0 |
| Prototype.SimpleParameter.Set | code/mig_templates.h:45 | stores the value and marks it set; the size becomes `sizeof(T)` |
| Prototype.SimpleParameter.IsSet | code/mig_templates.h:43 | reports the `exists` flag |
| Prototype.SimpleParameter.Get | code/mig_templates.h:46 | returns the value last set |
| Prototype.SimpleParameter.Size | code/mig_templates.h:47 | `sizeof(T)` when set, 0 when not |
| Prototype.VoidParameter.constructor | code/mig_templates.h:59-63 | unset |
| Prototype.VoidParameter.Set | code/mig_templates.h:67 | marks it set |
| Prototype.VoidParameter.Get | code/mig_templates.h:68 | reports whether it is set |
| Prototype.VoidParameter.Size | code/mig_templates.h:69 | 0, set or not |
| Prototype.GroupParameter.constructor | code/mig_templates.h:83-87 | unset, size 0 |
| Prototype.GroupParameter.Set | code/mig_templates.h:91 | copies the group in and marks it set; the size becomes the group's |
| Prototype.GroupParameter.Get | code/mig_templates.h:92 | returns the group held |
| Prototype.GroupParameter.Size | code/mig_templates.h:93 | the group's size when set, 0 when not |

## Left out

- Repeated parameters (`is_repeated`, `nrepeats`, the per-repeat `data_to_wire(w, i)`): the runtime header here declares no repeated parameter, so every parameter is sent at most once.
- `WireFormat::factory` and the message factory: `Message.ToWire` builds the one wire format, `SampleProto`, directly.
- `dump`, `hexdump`, the `std::cout` tracing in the sample protocol, the `fprintf` code emission of the generator and the compiler's file handling in `mig_init`: these are output only. The generator is modelled by the declarations it chooses, not by their text.
- `hash_table_delete` and every `free` and `delete`: memory release is left to Dafny's garbage-collected heap.
- The `NULL` returns of `malloc` and `strdup`: allocation is assumed to succeed.
- Generator.GenerateParameters: it requires every parameter type to resolve, because the source dereferences the search result without a check; an unresolved type is undefined behaviour there.
- The integer `from_wire` readers of `WireFormat` (migmsg.h:123-130) and the `data_from_wire` overrides are declared but not defined in the files modelled. The model defines them as the inverses of the encoders: big-endian reads, with a signed type reinterpreting the unsigned value and bool taking any non-zero byte as true.
- `from_wire(string_t&)` (tests/sampleproto.cpp:332-339): the model has no `string_t` parameter kind. That reader behaves like the blob reader.
- Sample.SampleProto.FromBuffer: it leaves the id unknown when the header is shorter than its 2-byte field. The source leaves the variable uninitialised there.
- Byte orders other than network: the encoders are modelled for any byte order (they return -1), but the sample protocol never changes the default.
- Overflow of C `int` and `size_t` counters (`nnodes`, the character sum of a name, wire sizes): integers are unbounded. The one wrap-around that matters, `m_next + n - 1` in `getp`/`advance`, is written out.
- The `assert` checks of `mig.c` (mig.c:192, 213) are compiled out (mig.c:34), so a negative hash indexes before the table. They become preconditions: the hash must lie in [0, 32) for `Add` and `Search`. So `AddElement` and `FindType` require a name whose hash is not negative, and `AddElement` and `FindMsg` a message id whose hash is not negative. `Generator` requires every parameter type to hash in range.
- A character of a name stands for one byte: its code modulo 256, read as a signed `char`. Names are taken to hold no NUL; `strlen` would stop at the first one.
- WireFormat.WireFormat.constructor: the source declares no constructor and leaves `m_buf` and `m_size` uninitialised (migmsg.h:136-137). The model starts with the given buffer, size 0 and network order, as every caller sets both before use.
- WireFormat.WireFormat.PutBigEndian: it returns the corrected `putp` status (0 exactly when the bytes fit), not the as-written one, which is -1 unless the bytes exactly fill the room (see Findings). The bytes written are the same.
- WireFormat.WireFormat.PutU16: the corrected `putp` status, as for `PutBigEndian`.
- WireFormat.WireFormat.PutU32: the corrected `putp` status, as for `PutBigEndian`.
- WireFormat.WireFormat.PutU64: the corrected `putp` status, and the corrected u64 bytes rather than the as-written ones that lose the high word (see Findings).
- WireFormat.WireFormat.PutSigned: the corrected `putp` status; for width 8, `to_wire(int64_t)` (migmsg.cpp:103-105) goes through the faulty u64 encoder in the source, while the model puts the corrected u64 bytes.
- WireFormat.WireFormat.PutString: the corrected `putp` status, as for `PutBigEndian`.
- WireFormat.WireFormat.PutBlob: the corrected `putp` status, as for `PutBigEndian`.
- WireSpec.ReadVar: a string of length 0 makes the source's `assign(p, n-1)` throw `std::length_error` (tests/sampleproto.cpp:347); a body longer than what remains makes `getp` return null, which is then assigned from (tests/sampleproto.cpp:326, 347). The model leaves the parameter unset and goes on decoding in both cases.
- Sample.SampleProto.FromWireString: the same two cases as `WireSpec.ReadVar`, which it follows: no exception, no null dereference, the parameter stays unset.
- Sample.SampleProto.FromWireBlob: the null `getp` result of a truncated body (tests/sampleproto.cpp:326) is assigned from in the source; the model leaves the parameter unset instead.
- `htons`/`htonl` are modelled as big-endian byte splitting. The as-written u64 encoder is modelled for a little-endian host.
- Params.Parameter.SetData: replacing the data models `var_parameter::set`'s delete of the old pointer as a plain field update. A blob's `size()` needs the parameter to be set, because it dereferences a null pointer before that.
- Prototype: the id and optional flag are constants rather than assignable fields, and `T` is an integer with a width. The group parameter's `T::size()` is a function given at construction.
- The demonstration programs under `code/api_proto.cpp` and `tests/` other than `sampleproto.cpp` are not part of this model.
- The repository's own description differs from its code in places, and the model follows the code. A scalar parameter's `size()` is `sizeof(T)` even when unset (migmsg.h:241); only the prototype reports 0. The sizing pass counts an unset group parameter (see Findings). An unknown id skips only its id byte (tests/sampleproto.cpp:316), so the body bytes behind it are read as ids. Parameters after an unknown id are therefore recovered only when those bytes happen not to match a known id.

## Findings

| source | as written | input that shows it | evidently intended | confidence | as-written member | corrected member |
|---|---|---|---|---|---|---|
| tests/sampleproto.cpp:63-71 | `putp`'s loop tests `n--` once more when room remains, so `n` wraps and the call reports -1 | put 2 bytes with 4 bytes of room | 0 whenever all n bytes were copied | high; not executed | Cursor.PutPFitsButFails | Cursor.MsgBuf.PutP |
| migmsg.cpp:69-71 | the second `htonl` reads `v2.i32[1]` instead of `v1.i32[1]`, so the high word is lost | 2^32 and 0 encode to the same 8 bytes | the 8 big-endian bytes of the value | high; not executed | WireFormat.U64AsWrittenLosesHighWord | WireFormat.U64RoundTrip |
| tests/sampleproto.cpp:223-224 | `wire_size` tests `par.group()` before `is_set()`, so an unset group parameter is counted | an optional group parameter whose group lacks a required u8 is sized 2 bytes but nothing is put | no bytes for a parameter that is not put | high; not executed | WireSpec.UnsetGroupOvercounted | WireSpec.EncodeParamLength |
| tests/sampleproto.cpp:97-98 | `reverse(n)` with negative n moves the cursor forward with no upper bound | `reverse(-5)` at position 3 of a 4-byte buffer leaves the cursor at 8 | the cursor stays within the buffer | medium; not executed | Cursor.ReverseNegativeLeavesBuffer | Cursor.MsgBuf.Reverse |
