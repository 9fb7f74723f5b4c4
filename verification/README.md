# mRpc message codec: a verified model

This project models `RpcMessage`, the message every remote call of mRpc travels in: the
object on the heap, its wire format, its decoder with the jumps between field bodies, its
two encoders and size calculation, and the frames that carry serialized messages over a
connection. It proves that the optimised code does what a plain
description of the format does, and what that description promises.

* `Wire.dfy`, `Fields.dfy`: varints, fixed-width integers, length-delimited data, tags and
  records with nested groups, written and read (Protocol Buffers Encoding specification,
  sections "Base 128 Varints", "Message Structure", "Length-Delimited Records", "Groups").
* `Digits.dfy`, `Format.dfy`: the same in plain numbers, apart from those functions: the
  value of every varint, padded or not, and of every fixed-width integer by its digits; what
  each tag does to a message, byte by byte; every way a decode ends; the place of every byte
  of a serialization.
* `Message.dfy`: the abstract message, what one record does to it, merging, the normal
  form, the serialized form.
* `Decoding.dfy`: the decoder as a plain loop; round trip, concatenation, normalisation.
* `Laws.dfy`, `Truncation.dfy`, `Sizes.dfy`: last one wins, order of records, cut
  serializations, unknown enum values, sizes.
* `Streams.dfy`, `ArrayOutput.dfy`: the library operations the message code calls.
* `RpcMessages.dfy`: the message object with its presence word and four string pointers,
  and the ghost record of who owns every allocated string.
* `Parser.dfy`, `Serializer.dfy`: the real decoder and encoders, proved equal to the above.
* `Transmission.dfy`: from one object through the real encoders and decoder into another.
* `Runs.dfy`, `Worlds.dfy`: any sequence of operations on any number of messages.
* `Frames.dfy`, `FrameCodec.dfy`: framing, and delivery of a stream of frames in pieces.

The normal form behind every round trip: enum fields hold known values, and every unknown
record is one the decoder itself would put into the unknown set unchanged. Every run keeps
it, unless the caller writes other records into an unknown set. A message survives its own serialization if and only if it is normal and no string in
it has 2^31 bytes or more.

A pointer that `mutable_*` lends may be written through as long as its string belongs to a
present field or was released to the user. The one misuse the code does not notice is a
write after the field was cleared: the message keeps its invariant if and only if nothing is
written (`WriteLent`), a later `Clear` restores the default state if and only if every absent
field's string was empty (`Clear`), and otherwise leaves the stale contents behind
(`StaleAfterClear`).

The pointer of `mutable_unknown_fields()` lets a caller put any record into the unknown set.
A message stays normal, and comes back from its serialization, if and only if every record
written there is one the decoder itself would put there (`WrittenUnknown`).

The framing follows the bodies in `src/codeClite.cpp` (sending: lines 39 to 75; receiving:
lines 77 to 117 and 202 to 235); the rows below cite the frame layout and the declarations
in `src/codeClite.h`. Where the code and its own documentation disagree the model follows
the code:

* The frame layout and the error list name a checksum error; the code reports a wrong
  checksum as an unknown message type and a wrong tag as a parse error.
* The code takes a frame's length out of the read buffer (line 83) before it knows whether
  the frame is complete (line 90), and does not put it back (line 114). So a stream arrives
  intact if and only if no call meets an incomplete frame with twelve or more bytes of it in
  the buffer (`DeliveredInPieces`); after such a call nothing is ever delivered again.
* A payload that does not parse is no error: the message is delivered as the failed parse
  left it (`BrokenPayloadDelivered`).
* A negative length passes the length check and is waited for (`NegativeLengthWaits`).

How the model is laid out where it differs from the text of the code:

* The four string fields have textually identical accessors. They are kept in one sequence
  of pointers indexed 0 to 3, and each accessor is written once with the index as parameter.
* The presence word is the sequence of its 32 bits. The two group masks are "some bit below
  7" and "some bit below 8".
* `goto parse_x` is a loop turn that starts in field body x without reading a tag.
* `type` is called `kind`.
* `delete`, `release_*` and `set_allocated_*` change the ghost owner of a string; the
  contracts make freeing a string twice, or adopting one that is not the caller's,
  impossible to write.
* A failed decode leaves the field that failed in a state the library does not fix; the
  contract (`Wrecked`) allows every state it may leave.

## Model

| member | source | states |
|---|---|---|
| Wire.VarintInverse | src/rpc.pb.cc:291-293 | A written varint of up to 64 bits reads back whole as 64 bits and as its low 32 bits, using exactly its own bytes, whatever follows |
| Wire.LengthDelimitedInverse | src/rpc.pb.cc:325-326 | A string shorter than 2^31 bytes reads back from its written form |
| Digits.RawVarintValue | src/rpc.pb.cc:291-293 | The value of a varint, padded ones included, is the sum of its seven-bit digits, and it ends at the first byte without continuation bit, or fails if that is too far |
| Digits.VarintValue | src/rpc.pb.cc:291-293 | In numbers: at most ten bytes, the value cut to 64 or to 32 bits |
| Digits.WrittenVarint | src/rpc.pb.cc:427-428 | A written varint ends at its last byte and has its value |
| Digits.WrittenShortest | src/rpc.pb.cc:427-428 | It has no zero digit at its end |
| Digits.FixedRead | src/rpc.pb.cc:311-313 | Eight or four bytes read as their little-endian value |
| Digits.EncodeFixedDigit | src/rpc.pb.cc:432-433 | Byte i of a written integer is its digit i to the base 256 |
| Digits.SignExtendIs | src/rpc.pb.cc:297 | Sign extension keeps the low 32 bits and repeats bit 31 in the upper 32 |
| Digits.NegativeTakesTenBytes | src/rpc.pb.cc:552-555 | Every negative enum value is written in ten bytes |
| Fields.ReadFieldExtend | src/rpc.pb.cc:408-409 | Bytes after a complete field, nested groups included, do not change how it reads |
| Fields.ReadFieldWellFormed | src/rpc.pb.cc:408-409 | Whatever the skipping read accepts carries the tag it was read under and is writable at every depth |
| Fields.ReadRecordInverse | src/rpc.pb.cc:475-478 | Reading a written record, groups included, gives the record and uses exactly its bytes |
| Fields.ReadGroupInverse | src/rpc.pb.cc:475-478 | A written group reads back up to its own end tag, record for record |
| Format.TagNumbers | src/rpc.pb.cc:286-412 | The low three bits of a tag are 0, 1, 2, 3, 5 for the five kinds of record and 4 for the end of a group |
| Format.NoSuchRecord | src/rpc.pb.cc:401-409 | No record begins with a tag whose low bits are 4, 6 or 7 |
| Format.KindBytes | src/rpc.pb.cc:288-304 | Tag 8 and any varint: the low 32 bits set the type if they are 0 to 3, else are kept in the unknown set with bit 31 repeated above |
| Format.IdBytes | src/rpc.pb.cc:307-319 | Tag 17 and eight bytes set the id to their little-endian value |
| Format.StringBytes | src/rpc.pb.cc:322-336 | Tags 26, 34, 42, 50, any form of the length and that many bytes set the field to just these bytes |
| Format.ErrorBytes | src/rpc.pb.cc:382-399 | Tag 56 and any varint: 0 to 6 set the error, other values are kept in the unknown set |
| Format.EnumBytes | src/rpc.pb.cc:118-147 | One byte b sets the type exactly when b is at most 3, and the error exactly when it is at most 6 |
| Format.OtherVarint | src/rpc.pb.cc:401-411 | Any other varint record is kept with its 64-bit value and changes no field |
| Format.OtherFixed64 | src/rpc.pb.cc:401-411 | Any other eight-byte record is kept with its value |
| Format.OtherFixed32 | src/rpc.pb.cc:401-411 | Any four-byte record is kept with its value |
| Format.OtherData | src/rpc.pb.cc:401-411 | Any other length-delimited record is kept with its bytes |
| Format.GroupIsMessage | src/rpc.pb.cc:401-411 | A group reads as a message up to an end-group tag of its own number, and fails in every other case |
| Format.GroupBytes | src/rpc.pb.cc:401-411 | A group is kept with the records in it; one that is not ended, or is ended by another number, makes the decode fail |
| Format.EndBytes | src/rpc.pb.cc:402-407 | A decode ends cleanly at the end of input, stops behind a zero or end-group tag, and fails at a tag with low bits 6 or 7 |
| Format.TooShortBytes | src/rpc.pb.cc:310-313 | A fixed-width record with too few bytes makes the decode fail |
| Format.MalformedBytes | src/rpc.pb.cc:283-285 | Ten bytes without the end of a varint stop the decode as a tag, and fail it as a value or a length |
| Format.LengthBytes | src/rpc.pb.cc:325-326 | A length of 2^31 or more, or beyond the input, makes the decode fail |
| Format.Layout | src/rpc.pb.cc:423-480 | A serialization byte by byte: tags 8, 17, 26, 34, 42, 50, 56 in this order, each with its value, then the unknown records |
| Format.RecordLayout | src/rpc.pb.cc:475-478 | An unknown record byte by byte, groups with their end tag |
| Message.ApplyGet | src/rpc.pb.cc:286-412 | A record sets exactly its own field, or adds exactly one record to the unknown set, with enum values sign-extended |
| Message.ApplyMerge | src/rpc.pb.cc:619-645 | Reading one more record commutes with merging |
| Message.MergeAssociative | src/rpc.pb.cc:619-645 | Merging is associative |
| Message.MergeIdentity | src/rpc.pb.cc:619-645 | The default message is a two-sided identity of merging |
| Message.NormalUnknownMeaning | src/rpc.pb.cc:401-411 | A record is normal in the unknown set exactly when the decoder would put it there unchanged |
| Message.ApplyNormal | src/rpc.pb.cc:286-412 | Every readable record keeps a message normal and its strings short |
| Message.ApplyRecords | src/rpc.pb.cc:423-480 | Applying the records a message is written as, in order, is merging that message |
| Decoding.DecodeAppliesRecords | src/rpc.pb.cc:277-421 | On every input, padded varints and wide enum values included, the decoder applies the records it reads in order; where and how it ends does not depend on the message |
| Decoding.ReadRecordsInverse | src/rpc.pb.cc:475-478 | Written records read back record for record |
| Decoding.DecodeMerge | src/rpc.pb.cc:277-421 | Decoding into a message equals decoding into a fresh one and merging, with the same outcome and position |
| Decoding.DecodeAppend | src/rpc.pb.cc:277-421 | After a cleanly decoded prefix the decoder stands where it would start afresh |
| Decoding.ConcatenationIsMerge | src/rpc.pb.cc:277-421 | Bytes after cleanly decoded bytes do to the message what merging their own decode does, however they end |
| Decoding.DecodeNormal | src/rpc.pb.cc:277-421 | Every decode, failed ones included, stays normal and short |
| Decoding.DecodeEncode | src/rpc.pb.cc:423-480 | Decoding a serialization into any message merges the serialized message |
| Decoding.RoundTrip | src/rpc.pb.cc:277-480 | For every message: it comes back from its serialization, with a clean end, if and only if it is normal and its strings are shorter than 2^31 |
| Decoding.LongStringsAreLost | src/rpc.pb.cc:325-326 | A message with a longer string never comes back |
| Decoding.EncodingsMerge | src/rpc.pb.cc:619-645 | Two serializations in a row decode to the merge of the two messages |
| Laws.EncodingsJoin | src/rpc.pb.cc:423-480 | They are the merge's own serialization if and only if every field of the second has a higher number than every field of the first and no field follows an unknown record |
| Decoding.NormalisationIdempotent | src/rpc.pb.cc:277-480 | Re-encoding what any input decodes to, however the decode ends, decodes to the same message and re-encodes to the same bytes |
| Decoding.EncodeInjective | src/rpc.pb.cc:423-480 | Different normal short messages have different serializations |
| Laws.LastOneWins | src/rpc.pb.cc:282-413 | After decoding any bytes into any message each field holds what the last record that sets it says, or what it held before |
| Laws.StraysAreKept | src/rpc.pb.cc:401-411 | After decoding any bytes the unknown set has grown by the records that set no field, in order |
| Laws.SameEffect | src/rpc.pb.cc:282-413 | Two inputs build the same message exactly when their records agree on every last setting and on the strays, and then they act alike on every message |
| Laws.SwapAdjacent | src/rpc.pb.cc:282-413 | Two neighbouring records of an input, however written, can be exchanged without effect on message, outcome or position exactly when they do not both concern one field or the unknown set, or are written again alike |
| Laws.PermutationsAgree | src/rpc.pb.cc:282-413 | Byte strings that are known records with distinct numbers decode alike in every order, into every message and before every continuation |
| Laws.AnyOrderOneEncoding | src/rpc.pb.cc:423-473 | An input of such records in any order and any way of writing decodes to a message that is written as their shortest forms in ascending field order |
| Truncation.CutRecords | src/rpc.pb.cc:277-421 | A cut after any number of bytes decodes just the records wholly before the cut |
| Truncation.CutOutcomeMeaning | src/rpc.pb.cc:283-285 | The decode ends cleanly at a boundary, with a malformed tag inside a tag, with a failure inside a body |
| Truncation.TruncatedEnd | src/rpc.pb.cc:277-473 | A prefix of a serialization ends cleanly exactly at record boundaries; without unknown records every other cut fails |
| Truncation.TruncatedMessage | src/rpc.pb.cc:423-480 | The message decoded from a boundary cut is written as exactly the bytes before the cut |
| Truncation.UnknownEnumKept | src/rpc.pb.cc:289-298 | An unknown enum value of any width, in a varint of any length, leaves the fields alone and is kept with its low 32 bits and bit 31 repeated in the upper 32 |
| Truncation.UnknownEnumSurvives | src/rpc.pb.cc:384-393 | What was kept is written last and reproduced by every later encode and decode |
| Sizes.FieldsLength | src/rpc.pb.cc:596-600 | The size computed for unknown records is the number of bytes they are written as |
| Sizes.SizeBound | src/rpc.pb.cc:546-605 | Without unknown records a normal message takes at most 37 bytes beside its strings |
| RpcMessages.RpcMessage.constructor | src/rpc.pb.cc:178-189 | A new message is the default one and every pointer is the shared empty string |
| RpcMessages.RpcMessage.Copy | src/rpc.pb.cc:171-176 | A copy has the same contents, owns only new strings and leaves the original alone |
| RpcMessages.RpcMessage.HasKind | src/rpc.pb.h:251-253 | The presence a caller sees is the message's |
| RpcMessages.RpcMessage.GetKind | src/rpc.pb.h:264-267 | A caller reads the value, or 0 when there is none |
| RpcMessages.RpcMessage.HasId | src/rpc.pb.h:276-278 | The same for the id |
| RpcMessages.RpcMessage.GetId | src/rpc.pb.h:289-292 | The same for the id |
| RpcMessages.RpcMessage.HasError | src/rpc.pb.h:604-606 | The same for the error |
| RpcMessages.RpcMessage.GetError | src/rpc.pb.h:617-620 | The same for the error |
| RpcMessages.RpcMessage.HasString | src/rpc.pb.h:300-302 | The same for the string fields |
| RpcMessages.RpcMessage.GetString | src/rpc.pb.h:315-318 | A caller reads the string, or the empty one when there is none |
| RpcMessages.RpcMessage.SetKind | src/rpc.pb.h:268-273 | Setting a valid type makes just that field present with that value |
| RpcMessages.RpcMessage.ClearKind | src/rpc.pb.h:260-263 | Clearing makes just that field absent with its default value |
| RpcMessages.RpcMessage.SetId | src/rpc.pb.h:293-297 | The same for the id |
| RpcMessages.RpcMessage.ClearId | src/rpc.pb.h:285-288 | The same for the id |
| RpcMessages.RpcMessage.SetError | src/rpc.pb.h:621-626 | The same for the error code |
| RpcMessages.RpcMessage.ClearError | src/rpc.pb.h:613-616 | The same for the error code |
| RpcMessages.RpcMessage.MutableString | src/rpc.pb.h:343-350 | The field becomes present, keeps its contents and gets a string of its own if it had none; other slots and messages are untouched |
| RpcMessages.RpcMessage.WriteLent | src/rpc.pb.h:343-350 | After a write through the lent pointer the message is valid if and only if the field is still present or nothing was written |
| RpcMessages.RpcMessage.SetString | src/rpc.pb.h:319-326 | The field becomes present with the given contents in a string of its own; other slots and messages are untouched |
| RpcMessages.RpcMessage.ClearString | src/rpc.pb.h:309-314 | The field becomes absent and empty and keeps its allocation |
| RpcMessages.RpcMessage.ReleaseString | src/rpc.pb.h:351-360 | The field becomes absent, its string passes to the caller, and null is returned only if there was none |
| RpcMessages.RpcMessage.SetAllocatedString | src/rpc.pb.h:361-373 | The old string is freed and the caller's string becomes the field's; null makes the field absent |
| RpcMessages.RpcMessage.Clear | src/rpc.pb.cc:234-275 | Every field is absent afterwards and present fields' strings are emptied in place; the default state is restored, although absent fields are skipped, if and only if their strings were empty, as they are in every valid state |
| RpcMessages.StaleAfterClear | src/rpc.pb.cc:245-264 | Whatever non-empty string is written through a lent pointer after its field was cleared outlives Clear in that field |
| RpcMessages.RpcMessage.MergeFrom | src/rpc.pb.cc:619-645 | The object becomes the merge, the source is unchanged, no string is shared, and the group guard changes nothing |
| RpcMessages.RpcMessage.CopyFrom | src/rpc.pb.cc:653-657 | The object equals the source, itself included, and the source is unchanged |
| RpcMessages.RpcMessage.Swap | src/rpc.pb.cc:664-677 | Two objects exchange all contents and the ownership of their strings |
| RpcMessages.RpcMessage.Destroy | src/rpc.pb.cc:196-211 | Every string the message owned is freed and nothing else changes |
| RpcMessages.RpcMessage.Undisturbed | src/rpc.pb.h:319-326 | A valid message stays valid while another one changes |
| Parser.Dispatch | src/rpc.pb.cc:286-412 | A field body is entered exactly for its own tag; everything else goes to the shared exit |
| Parser.ParseKind | src/rpc.pb.cc:288-304 | The type body does what the plain loop's step does for tag 8 |
| Parser.ParseId | src/rpc.pb.cc:307-319 | The id body does what the plain loop's step does, and on failure leaves the message alone |
| Parser.ParseString | src/rpc.pb.cc:322-336 | A string body does what the plain loop's step does, in a string of the field's own |
| Parser.ParseError | src/rpc.pb.cc:382-399 | The error body does what the plain loop's step does for tag 56 |
| Parser.SkipUnusual | src/rpc.pb.cc:401-411 | The shared exit appends the record to the unknown set as the plain loop does |
| Parser.BodyTurn | src/rpc.pb.cc:287-411 | A whole body, entered by tag or by jump, either takes the decoder where the plain loop gets by that record or ends it as the plain loop's failure |
| Parser.LookBehind | src/rpc.pb.cc:302-317 | After a body the next one is entered only behind its own tag byte, and the loop is left only at the end of the input |
| Parser.Turn | src/rpc.pb.cc:282-413 | Every turn, entered by a tag or by a jump, either uses at least one byte or ends the loop with the outcome of the plain one |
| Parser.MergePartialFromCodedStream | src/rpc.pb.cc:277-421 | For every input and every pattern of answers from the stream: result, message, outcome and position are those of the plain loop |
| Parser.WreckedNormal | src/rpc.pb.cc:417-419 | Whatever a failed read may leave behind is still normal |
| Parser.WreckedOnlyThere | src/rpc.pb.cc:417-419 | A failed read leaves every field but a string field under its own tag as it was, and adds at most one record of that tag to the unknown set |
| Serializer.SerializeWithCachedSizes | src/rpc.pb.cc:423-480 | The stream encoder appends exactly the encoding |
| Serializer.SerializeWithCachedSizesToArray | src/rpc.pb.cc:482-544 | The array encoder puts exactly the encoding behind the cursor, returns the cursor behind it and touches nothing else |
| Serializer.ByteSize | src/rpc.pb.cc:546-605 | The size is the encoding's length cut to 32 bits, so the length itself whenever it fits, and it is cached |
| Serializer.GuardedKnownSizes | src/rpc.pb.cc:549-595 | The group guard skips the seven fields only when their total is zero |
| Serializer.TotalsExact | src/rpc.pb.cc:552-593 | When the encoded length fits 32 bits, no running total on the way differs from the true sum |
| Transmission.SerializeToNewArray | src/rpc.pb.cc:482-605 | A buffer of exactly the announced size is filled with exactly the encoding |
| Transmission.SendByStream | src/rpc.pb.cc:277-480 | What one object's stream encoder writes, the real decoder parses into another object as the same message if and only if the message is normal and short, whatever the stream answers, and then it reports success |
| Transmission.SendByArray | src/rpc.pb.cc:482-544 | The same by way of the array encoder, which touches nothing but the encoding's own place |
| Runs.NextNormal | src/rpc.pb.h:250-626 | Every allowed operation, accessors, lent pointers, copies and parses included, keeps every message normal, unless it writes another record into an unknown set |
| Runs.NormalOpExact | src/rpc.pb.h:102-104 | A step keeps the normal form exactly when it writes no other records into an unknown set |
| Runs.ShortOpExact | src/rpc.pb.h:319-326 | A step keeps all strings short exactly when it brings in no long one |
| Runs.PlainOpsTaken | src/rpc.pb.h:250-297 | Each setter and clearer of a plain field, and Clear, takes effect on every existing message and every value of the enum |
| Runs.StringOpsTaken | src/rpc.pb.h:299-601 | Each string accessor, write through a lent pointer to a present field, release and adoption takes effect |
| Runs.WholeOpsTaken | src/rpc.pb.cc:171-677 | Each operation on whole messages and on the user's strings takes effect; only a message is not merged into itself |
| Runs.WrittenUnknown | src/rpc.pb.h:102-104 | Whatever is written into the unknown set, a normal short message stays normal, and comes back from its serialization, if and only if each record is one the decoder would put there |
| Runs.RunNormal | src/rpc.pb.cc:178-677 | In every state of every run that writes only normal records into unknown sets every message is normal, and short if the user brings in short strings only |
| Runs.RunRoundTrip | src/rpc.pb.cc:277-480 | Every message reached by such a run survives its serialization exactly when it is short |
| Worlds.World.Run | src/rpc.pb.h:250-626 | Any sequence of operations on the real objects is a run of abstract states; every string ever allocated is still known and is one slot's, the user's or freed, and what was freed stays freed |
| Worlds.World.Whereabouts | src/rpc.pb.h:299-601 | An allocated string is pointed to by the slot that owns it and no other, or held by the user and by no slot, or freed and held by nobody |
| Worlds.World.NoSharing | src/rpc.pb.h:230-235 | Pointers of different slots meet only at the shared empty string, and a slot's string is neither freed nor the user's |
| Worlds.World.Apply | src/rpc.pb.h:250-626 | An operation on one message takes just its own step and changes no other message and no string the user holds |
| Frames.RefusedLengths | src/codeClite.h:22-25 | Refused are exactly the lengths above the limit and those from 0 to 7 |
| Frames.LengthOnly | src/codeClite.h:22-25 | A length out of range is reported as such; one that is negative or reaches beyond the buffer is taken out and waited for |
| Frames.IdleBelowTwelve | src/codeClite.h:22-45 | Nothing is taken out while fewer than twelve bytes have arrived |
| Frames.NegativeLengthWaits | src/codeClite.h:56 | A negative length is taken out of the buffer and nothing is reported |
| Frames.AcceptFrame | src/codeClite.h:62 | A complete frame at the front of the buffer passes all checks and yields its payload |
| Frames.AcceptedIsFrame | src/codeClite.h:62 | A payload is accepted if and only if the buffer begins with its frame, checksum included, and its length is within the limit |
| Frames.RefusedFrames | src/codeClite.h:62 | A complete frame is refused as an unknown message type exactly when its checksum is wrong, and as a parse error exactly when that is right and the tag is not |
| Frames.FrameLayout | src/codeClite.h:15-19 | A frame byte by byte: length, tag, payload, checksum |
| Frames.ChecksumIs | src/codeClite.h:19 | The checksum is Adler-32, in numbers, as a signed value |
| Frames.WrittenOrder | src/codeClite.h:16 | Lengths and checksums are written most significant byte first |
| Frames.ReadOrder | src/codeClite.h:68 | And read so, as signed values |
| Frames.ReceiveAll | src/codeClite.h:56 | Complete frames in a row are delivered in order and leave what follows them |
| Frames.DeliveredIfFits | src/codeClite.h:25 | A frame is delivered if and only if its length is within the limit |
| Frames.ReceiveCut | src/codeClite.h:56 | One call on any prefix of a stream delivers the complete frames and keeps the cut one, without its length from the twelfth byte on |
| Frames.LostForever | src/codeClite.h:56 | After a lost length nothing is ever delivered again |
| Frames.DeliveredInPieces | src/codeClite.h:56 | A stream of frames in any chunks arrives completely and without error if and only if no call meets an incomplete frame with twelve or more bytes of it in the buffer |
| FrameCodec.SerializeToBuffer | src/codeClite.h:58 | The encoder fills exactly the announced size, and the buffer grows by the encoding |
| FrameCodec.FillEmptyBuffer | src/codeClite.h:15-19 | What is sent is one frame, laid out as described, around the encoding |
| FrameCodec.TakeFrame | src/codeClite.h:56 | The length is consumed first; then the frame is taken, or waited for, or refused |
| FrameCodec.OnMessage | src/codeClite.h:56 | The loop leaves buffer and error as described and adds one parsed message for each delivered payload |
| FrameCodec.BrokenPayloadDelivered | src/codeClite.h:57-62 | A payload that does not parse is delivered without an error |
| FrameCodec.FeedPrefix | src/codeClite.h:56 | Whatever the cuts, only leading frames of the stream are ever delivered |
| FrameCodec.StreamRoundTrip | src/codeClite.h:54-56 | Normal short messages sent as frames and received in chunks all arrive unchanged, and nothing else happens, if and only if the cuts are safe |

## Left out

- Library stream internals: refill, byte limits, the recursion limit for groups and string aliasing are represented only by what `Streams.dfy` promises; a malformed tag is taken to consume nothing, and the position after a failed read is not stated.
- Serializer.SerializeWithCachedSizes: does not model the library's abort on strings of 2^31 bytes and more; such strings are written with their length cut to 32 bits, as the array writer does.
- Writes through a lent pointer after its field was cleared are no operation of a run, since they break the invariant just when `WriteLent` says so; writes through pointers to freed strings are excluded.
- Loops of the library inside the stream primitives: these read with the functions of `Wire.dfy` and `Fields.dfy` directly; only the array writers, whose loops matter for the cursor, are written out.
- RpcMessages.RpcMessage.Destroy: resets pointers and presence bits as well as freeing, which nobody can observe after destruction.
- Descriptors, reflection, the reflective merge of other message types, UTF-8 checking, one-time initialisation and shutdown.
- FrameCodec.OnMessage: the raw callback is taken to be unset and the read buffer to hold fewer than 2^31 bytes; the messages are kept after the callback instead of being deleted.
- How many corrupted frames Adler-32 lets pass: a frame whose checksum happens to be right is delivered, as in the code.
- Matching of outstanding calls in `rpcChannel`, dispatch to services in `rpcServer`, sockets, event loops and logging.
