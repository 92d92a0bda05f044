# Verified models of the av_router server

The server accepts connections from clients, reads length-prefixed Protocol Buffers messages
from them, forwards packets between users, registers users in a database, and speaks a little
HTTP. The modules here model its parsers, codecs and state machines and state what holds of
them for every input and every run.

Byte strings are sequences of numbers from 0 to 255. Objects whose methods update fields are
classes with the same fields; each method is proved against a function or predicate on
values, and the theorems are about those.

- `HttpRequest`, `HttpGrammar`, `HttpLanguage`, `HttpPipeline`: the incremental request
  parser, its grammar as trees that render to bytes and mean requests, the equivalence of the
  two, and what follows for chunked and pipelined input and for the block that the HTTP
  connection delimits. The grammar is the code's: the URI may be empty, exactly one space
  follows the colon, and folding inserts no space.
- `HttpHeaders`, `HttpAgreement`, `HttpSections`, `HttpResponse`: the second header automaton,
  its relation to the first, the sections that each accepts, and the status-line automaton
  with the printer of responses.
- `HttpBytes`, `HttpRecords`: the same parsers in characters: the language of requests, when more
  input is wanted, and what is recorded of every section of headers.
- `Wire`, `Messages`, `Canonical`, `PacketBytes`: the Protocol Buffers encoding, the messages as
  values, merging, round trips, that serialising again never takes more bytes, and what every
  byte of a message means.
- `States`, `Accessors`, `AccessorLaws`: the generated objects as values, with string fields that
  own a string or share the default and embedded objects that outlive their has-bit; what every
  accessor does to them and to what they show; and over runs of calls, when a clear has-bit means a default, which Clear and
  CopyFrom rely on.
- `CodedStream`, `AddressObject`, `PacketObject`: the coded streams, and the generated classes
  with their has-bits, accessors, parse loops with fast paths, serialisers and size functions.
  Whether the fast path is taken is left open at every field. Accessors that the generated
  code repeats for each string field take the number of the has-bit.
- `Frame`, `Connection`, `Delivery`: the frame codec, one connection, and two connections with
  the pipe between them as a state machine over all interleavings.
- `Forward`, `Routing`, `Hops`: the forwarding module, its routing table over all runs, and a
  packet on its way through several of them.
- `Registration`, `Requests`: registrations side by side over a table with a primary key, and
  what is stored and replied against what was requested and answered.
- `EscapePath`, `Base64`, `Forms`, `Multipart`: percent-escaping, base64 and the form parsers.

Where the code does less than a reader might expect, the exact condition is proved: of the
header sections that one automaton accepts the other one accepts exactly those whose names it
takes and, in the case of the request parser, whose colons are followed by a space; escaping is
undone exactly on the characters that survive, and so are both kinds of form; Clear makes a
message like a new one exactly while nothing but defaults is hidden behind clear has-bits,
which calls through kept pointers can break; the routing table is exact under three conditions,
each of which a run shows to be needed; a registration that the authority signs is answered
twice; what a reply tells of the table depends exactly on whether the SQL statements behind it
worked; and on a connection that is kept alive the second request is refused.

## Model

| member | source | states |
|---|---|---|
| `HttpRequest.RequestParser.Reset` | include/http_helper.hpp:469-472 | the parser is in its first state again; the request it was filling is not touched |
| `HttpRequest.RequestParser.Consume` | include/http_helper.hpp:494-761 | one character: result, new state and new request are those of the transition function, and the last header is touched only when there is one |
| `HttpRequest.RequestParser.ParseRange` | include/http_helper.hpp:478-490 | the loop over a range stops at the first decision, reports what it has consumed, and leaves state and request as the whole-input parse does |
| `HttpRequest.ParseAppend` | include/http_helper.hpp:478-490 | parsing a then b is parsing a ++ b: an undecided parse goes on, a decided one does not look further |
| `HttpRequest.ParsePrefix` | include/http_helper.hpp:478-490 | a decision depends only on the bytes reported as consumed, of which there is at least one |
| `HttpLanguage.Complete` | include/http_helper.hpp:494-761 | every well-formed request, rendered from its tree, is accepted at its last byte whatever follows, and fills the request with what the tree means (folded pieces concatenated onto the header they continue) |
| `HttpLanguage.Sound` | include/http_helper.hpp:494-761 | whatever is accepted is the rendering of a well-formed tree, and the request is what that tree means |
| `HttpLanguage.VersionIrrelevant` | include/http_helper.hpp:590-600 | the uninitialised version numbers of a blank request influence neither the decision nor, when the parse accepts, anything in the request |
| `HttpLanguage.Language` | include/http_helper.hpp:494-761 | a fresh parser accepts exactly the inputs that begin with a rendering of the grammar; that tree is unique and so is where it ends, so no accepted request is a proper prefix of another |
| `HttpBytes.TokenCharacters` | include/http_helper.hpp:764-789 | the characters of a token, for the request parser and for the second header automaton, written out |
| `HttpBytes.OtherCharacters` | include/escape_string.hpp:32-40 | the control characters, white space, digits and letters of the parsers, written out |
| `HttpBytes.NumberByPlaces` | include/http_helper.hpp:600-650 | a string of digits is the number that its digits are by their places |
| `HttpBytes.Requests` | include/http_helper.hpp:494-761 | the language again, in characters: a fresh parser accepts exactly what begins with a method, a target, a version and headers of these characters and with these marks between them, stops at the end of that, and fills in each part under its own name, the headers in order, each with the text of its continuations behind its value |
| `HttpBytes.WantsMore` | include/http_helper.hpp:478-490 | from any state, a parse that has not accepted is undecided exactly if more input can make it accept, and has refused exactly if none can |
| `HttpPipeline.ChunksDoNotMatter` | include/http_helper.hpp:478-490 | feeding chunks, with a reset and a blank request after each accepted one, depends only on their concatenation |
| `HttpPipeline.Pipeline` | include/http_helper.hpp:469-490 | any list of well-formed requests, rendered one after the other and cut into any chunks, is recovered exactly, and the parser is ready for the next |
| `HttpPipeline.SentinelDecides` | src/http_connection.cpp:63-70 | from any state, a block that ends in NUL is decided |
| `HttpPipeline.StopsAtBreak` | include/http_helper.hpp:494-761 | an accepted request ends at the first empty line of the input |
| `HttpPipeline.Block` | src/http_connection.cpp:63-75 | the block that async_read_until delimits, with the NUL appended, is accepted exactly when all of it is a well-formed request, and then the request is what it means |
| `HttpPipeline.AfterAccepted` | include/http_helper.hpp:756-757 | a parser that has accepted and is not reset takes the next byte for the end of another request: it accepts a line feed and refuses everything else |
| `HttpPipeline.SecondIsRefused` | src/http_connection.cpp:118-127 | on a connection that is kept alive the second request is refused, whatever both are and whatever has been made of the first |
| `HttpPipeline.ParseBlock` | src/http_connection.cpp:62-75 | the code that copies the block, appends NUL and parses, from any state of the parser: accepted exactly when the parser accepts; for the first block, exactly when it is a well-formed request |
| `HttpHeaders.ParseHttpHeaders` | include/http_helper.hpp:174-292 | the loop computes the run of the second header automaton: acceptance, collected headers, and the headers of interest |
| `HttpAgreement.HeaderSections` | include/http_helper.hpp:175-292 | of the sections that the request parser accepts, the second automaton accepts exactly those in which no name has a backquote, a caret or a bar; it then yields the same names in the same order, the trimmed values, and the headers of interest of exactly those |
| `HttpAgreement.CaretName` | include/http_helper.hpp:175-292 | a section with the name ^ that the first automaton accepts and the second refuses |
| `HttpSections.Sections` | include/http_helper.hpp:697-757 | the sections of either automaton, line by line: header lines of a name of its own characters, a colon (in the first automaton with a space behind it) and text; continuations; and the empty line |
| `HttpSections.Agreement` | include/http_helper.hpp:175-292 | exactly when the automata agree: a section that the second one accepts is accepted by the first one if and only if in every header line the name is of token characters of the request parser and a space follows the colon; and a section that the first one accepts is accepted by the second one if and only if no name has one of the three characters |
| `HttpSections.NoSpace` | include/http_helper.hpp:261-273 | a section that only the second automaton accepts, for the lack of a space after the colon |
| `HttpSections.LooseName` | include/http_helper.hpp:253-260 | one that only the second automaton accepts, for a character of its name |
| `HttpRecords.Recorded` | include/http_helper.hpp:174-292 | what the second automaton makes of any input: of a section exactly, the headers of its lines in order, each with the text of its continuations, trimmed, and the headers of interest noted in order |
| `HttpRecords.TrimIs` | include/http_helper.hpp:216-231 | trimming takes the white space at both ends, and all of it |
| `HttpRecords.NumberIs` | include/http_helper.hpp:15-23 | a length is read as a sign and figures behind white space, up to the first other character, and saturates at 64 bits |
| `HttpRecords.Interest` | include/http_helper.hpp:147-172 | the headers of interest, by their names in any case: the type, the place, and the greatest length that a length or the part of a range behind its slash has told; nothing else changes |
| `HttpResponse.ParseHttpStatusLine` | include/http_helper.hpp:27-138 | the loop computes the run of the status-line automaton |
| `HttpResponse.StatusLineRecovered` | include/http_helper.hpp:27-138 | any status line printed with digits in its numbers and no control character in its reason gives back the three numbers |
| `HttpResponse.StatusLines` | include/http_helper.hpp:27-138 | the language of the status-line automaton: it accepts exactly what begins with a status line of three numbers and a reason without control characters, there is only one such line, and its numbers are what comes out |
| `HttpResponse.StatusLineText` | include/http_helper.hpp:27-138 | the marks of a status line, in characters |
| `HttpResponse.WriteResponse` | src/http_connection.cpp:164-173 | what is put on the output stream |
| `HttpResponse.ResponseText` | src/http_connection.cpp:164-173 | the response piece by piece, in characters |
| `HttpResponse.Printed` | src/http_connection.cpp:168-170 | numbers are printed in decimal, without leading zeros |
| `HttpResponse.ResponseRecovered` | src/http_connection.cpp:164-173 | of every response written, for every body and all non-negative versions, the status-line parser recovers the versions and 200, and the header parser the two headers and the content length as the maximum of the initial value and the length of the body |
| `Wire.FieldRoundTrip` | proto/message.pb.cc:627-868 | a field of any wire type, groups included, is read back from its encoding whatever follows |
| `Wire.EncodedDigits` | proto/message.pb.cc:800-868 | the bytes of a varint are the digits of the number to the base of 128, the least significant one first, all but the last one marked |
| `Wire.DecodedDigits` | proto/message.pb.cc:627-798 | a varint ends with its first byte below 128, if that is among the first ten, and is the number whose digits its bytes are; and otherwise there is none |
| `PacketBytes.FieldBytes` | proto/message.pb.cc:800-868 | a field of any type begins with its number times 8 and its wire type |
| `PacketBytes.MalformedFields` | proto/message.pb.cc:627-798 | exactly when a field is malformed |
| `Wire.VarintSizeIsLength` | proto/message.pb.cc:947-1031 | the size function by thresholds is the length of the encoding, for every 64-bit number |
| `Wire.Homomorphism` | proto/message.pb.cc:627-798 | for any message whose fields merge: parsing a ++ b is merging the separate parses |
| `Messages.PacketAssoc` | proto/message.pb.cc:1045-1082 | merging packets is associative, and the empty packet is its unit |
| `Messages.ConcatenationMerges` | proto/message.pb.cc:627-798 | two byte strings that each parse to their end, parsed one after the other, give what MergeFrom builds of the two parses: addresses field by field, scalars last wins, unknown fields in order |
| `Messages.AddressRoundTrip` | proto/address.pb.cc:202-322 | parsing the serialisation of an address gives it back, has-bits and unknown fields included |
| `Messages.AckRoundTrip` | proto/message.pb.cc:318-377 | the same of an acknowledgement |
| `Messages.PacketRoundTrip` | proto/message.pb.cc:627-868 | the same of a packet, embedded messages included |
| `PacketBytes.PacketWritten` | proto/message.pb.cc:800-868 | a packet on the wire: its members in this order, each under its own tag and with its own length |
| `PacketBytes.AddressWritten` | proto/address.pb.cc:284-322 | the same of an address |
| `PacketBytes.AckWritten` | proto/message.pb.cc:363-377 | the same of an acknowledgement |
| `PacketBytes.NumberRead` | proto/message.pb.cc:675-763 | into any packet: a number that is read, from a varint of any length, replaces the one there was, cut to 32 or 64 bits; a flag is set by any number but 0 |
| `PacketBytes.TextRead` | proto/message.pb.cc:662-734 | a string that is read replaces the one there was |
| `PacketBytes.NameRead` | proto/address.pb.cc:202-265 | the same in an address |
| `PacketBytes.SeqRead` | proto/message.pb.cc:328-356 | the number of an acknowledgement |
| `PacketBytes.AddressRead` | proto/message.pb.cc:637-661 | an address that is read is laid over the one there was, member by member; one that does not parse makes the packet malformed |
| `PacketBytes.AckRead` | proto/message.pb.cc:765-777 | the same of an acknowledgement |
| `PacketBytes.UnknownRead` | proto/message.pb.cc:778-790 | a field of any other number or type is kept, behind those kept before |
| `PacketBytes.SecondOverFirst` | proto/message.pb.cc:627-798 | two serialised packets, one behind the other, are parsed as the second laid over the first, member by member |
| `Canonical.ReserializedIsNoLonger` | proto/message.pb.cc:627-1031 | a packet parsed from any bytes can be serialised again, and in no more bytes than it was parsed from |
| `AddressObject.AvAddress.constructor` | proto/address.pb.cc:124-132 | a new object has no has-bit and shares every default |
| `AddressObject.AvAddress.SetText` | proto/address.pb.h:191-198 | each string field gets its has-bit and a string of its own with the value; nothing else changes |
| `AddressObject.AvAddress.ClearText` | proto/address.pb.h:181-186 | the has-bit is cleared, and a string of its own is emptied but kept |
| `AddressObject.AvAddress.MutableText` | proto/address.pb.h:215-222 | the has-bit is set, and the field owns its string from then on, with the content it had |
| `AddressObject.AvAddress.WriteText` | proto/address.pb.h:215-222 | a write through the pointer that mutable_ handed out: the content changes and the has-bit does not |
| `AddressObject.AvAddress.ReleaseText` | proto/address.pb.h:223-232 | the has-bit is cleared and the string handed out, null for the shared default |
| `AddressObject.AvAddress.SetAllocatedText` | proto/address.pb.h:233-245 | takes a string over, or none |
| `AddressObject.AvAddress.Getters` | proto/address.pb.h:187-190 | every getter returns what is shown, and the empty string for what is not, when nothing is hidden |
| `AddressObject.AvAddress.Clear` | proto/address.pb.cc:180-200 | nothing is shown any more; the object is like a new one if and only if no clear has-bit was hiding text |
| `AddressObject.AvAddress.MergeFrom` | proto/address.pb.cc:417-431 | the object shows the field-wise merge, whatever its clear has-bits hid |
| `AddressObject.AvAddress.CopyFrom` | proto/address.pb.cc:439-443 | the object shows what its source does, also when it is its own source |
| `AddressObject.AvAddress.IsInitialized` | proto/address.pb.cc:445-449 | true exactly when user name and domain are present |
| `AddressObject.AvAddress.MergePartialFromCodedStream` | proto/address.pb.cc:202-282 | the loop with its fast path, which may or may not be taken, has the outcome of the plain loop over the fields: state, position and success; also when it fails, nothing new is hidden |
| `AddressObject.AvAddress.SerializeWithCachedSizes` | proto/address.pb.cc:284-322 | appends the serialisation to the stream |
| `AddressObject.AvAddress.SerializeWithCachedSizesToArray` | proto/address.pb.cc:324-366 | writes the same bytes into the array at the position, and nothing outside |
| `AddressObject.AvAddress.ByteSize` | proto/address.pb.cc:368-403 | the length of the serialisation, which it also caches |
| `AddressObject.AckControl.Clear` | proto/message.pb.cc:312-316 | every field has its default again |
| `AddressObject.AckControl.SetAckSeq` | proto/message.pb.h:768-772 | sets the number and its has-bit |
| `AddressObject.AckControl.ClearAckSeq` | proto/message.pb.h:760-763 | the number is absent and 0 |
| `AddressObject.AckControl.MergeFrom` | proto/message.pb.cc:430-438 | the object becomes the merge |
| `AddressObject.AckControl.MergePartialFromCodedStream` | proto/message.pb.cc:318-362 | the loop has the outcome of the plain loop over the fields |
| `AddressObject.AckControl.SerializeWithCachedSizes` | proto/message.pb.cc:364-377 | appends the serialisation to the stream |
| `AddressObject.AckControl.SerializeWithCachedSizesToArray` | proto/message.pb.cc:379-393 | writes the same bytes into the array |
| `AddressObject.AckControl.ByteSize` | proto/message.pb.cc:395-416 | the length of the serialisation, which it also caches |
| `PacketObject.AvPacket.constructor` | proto/message.pb.cc:511-526 | a new object has no has-bit, no embedded object, shared strings, and the default of every number |
| `PacketObject.AvPacket.SetTimeToLive` | proto/message.pb.h:954-958 | sets the field and its has-bit, nothing else |
| `PacketObject.AvPacket.SetText` | proto/message.pb.h:880-887 | each of the three string fields gets its has-bit and a string of its own with the value; nothing else changes |
| `PacketObject.AvPacket.ClearText` | proto/message.pb.h:970-975 | the has-bit is cleared, and a string of its own is kept and holds the default, avim for upperlayerpotocol |
| `PacketObject.AvPacket.MutableText` | proto/message.pb.h:1004-1011 | the has-bit is set, and the field owns its string from then on, with the content it had |
| `PacketObject.AvPacket.WriteText` | proto/message.pb.h:1004-1011 | a write through the pointer that mutable_ handed out: the content changes and the has-bit does not |
| `PacketObject.AvPacket.ReleaseText` | proto/message.pb.h:1012-1021 | the has-bit is cleared and the string handed out, null for the shared default |
| `PacketObject.AvPacket.SetAllocatedText` | proto/message.pb.h:1022-1034 | takes a string over, or none |
| `PacketObject.AvPacket.SetEncryptMethod` | proto/message.pb.h:1054-1058 | the same |
| `PacketObject.AvPacket.SetDontRoute` | proto/message.pb.h:1078-1082 | the same |
| `PacketObject.AvPacket.SetTimestamp` | proto/message.pb.h:1102-1106 | the same |
| `PacketObject.AvPacket.ClearTimeToLive` | proto/message.pb.h:946-949 | the field is absent and has its default, 64 |
| `PacketObject.AvPacket.ClearEncryptMethod` | proto/message.pb.h:1046-1049 | the field is absent and has its default |
| `PacketObject.AvPacket.ClearDontRoute` | proto/message.pb.h:1070-1073 | the same |
| `PacketObject.AvPacket.ClearTimestamp` | proto/message.pb.h:1094-1097 | the same |
| `PacketObject.AvPacket.MutableSrc` | proto/message.pb.h:796-801 | the has-bit is set and the embedded object handed out, with whatever it holds, or a new one |
| `PacketObject.AvPacket.MutableDest` | proto/message.pb.h:837-842 | the same |
| `PacketObject.AvPacket.MutableNeedSeq` | proto/message.pb.h:1126-1131 | the same |
| `PacketObject.AvPacket.ClearSrc` | proto/message.pb.h:788-791 | the has-bit is cleared, and the object is cleared and kept |
| `PacketObject.AvPacket.ClearDest` | proto/message.pb.h:829-832 | the same |
| `PacketObject.AvPacket.ClearNeedSeq` | proto/message.pb.h:1118-1121 | the same |
| `PacketObject.AvPacket.ReleaseSrc` | proto/message.pb.h:802-807 | hands the embedded address out; the packet has none afterwards |
| `PacketObject.AvPacket.ReleaseDest` | proto/message.pb.h:843-848 | the same |
| `PacketObject.AvPacket.ReleaseNeedSeq` | proto/message.pb.h:1132-1137 | the same |
| `PacketObject.AvPacket.SetAllocatedSrc` | proto/message.pb.h:808-817 | takes an address over, or none |
| `PacketObject.AvPacket.SetAllocatedDest` | proto/message.pb.h:849-858 | the same |
| `PacketObject.AvPacket.SetAllocatedNeedSeq` | proto/message.pb.h:1138-1147 | the same |
| `PacketObject.AvPacket.Getters` | proto/message.pb.h:792-795 | every getter returns the field when it is present; when it is absent, a number getter always returns the default, and the others do when no clear has-bit hides anything |
| `PacketObject.AvPacket.IsInitialized` | proto/message.pb.cc:1096-1109 | true exactly when all required fields are present, in embedded messages too |
| `PacketObject.AvPacket.Clear` | proto/message.pb.cc:577-625 | nothing is shown any more; the packet is like a new one if and only if no clear has-bit hid anything but a default, in embedded messages too |
| `PacketObject.AvPacket.MergeFrom` | proto/message.pb.cc:1045-1082 | what is present in the source goes into the fields and into the embedded objects that mutable_ exposes; when nothing is hidden this is the merge of the two packets; the source is unchanged |
| `PacketObject.AvPacket.CopyFrom` | proto/message.pb.cc:1090-1094 | the packet shows what its source does if and only if it is its own source or every hidden embedded message is overwritten by that of the source; so always when nothing is hidden |
| `PacketObject.AvPacket.ParseLoop` | proto/message.pb.cc:627-798 | the loop with its fast path, which may or may not be taken at each field, has the outcome of the plain tag-dispatch loop on the state: state, position and success; also when it fails, nothing new is hidden |
| `PacketObject.AvPacket.MergePartialFromCodedStream` | proto/message.pb.cc:627-798 | and when nothing is hidden, it is parsing into the value that the packet shows |
| `PacketObject.StaleNameShows` | proto/message.pb.h:788-801 | mutable_src, clear_src, a name set through the first pointer, Clear, mutable_src: the cleared packet shows that name |
| `Accessors.Step` | proto/message.pb.h:788-1223 | of all calls of accessors, Clear, MergeFrom and parsing on a packet whose clear has-bits mean defaults, exactly these leave it so: all but a write through a kept string pointer of anything but the default while the has-bit is clear, a call through a kept pointer to an embedded object that does something while its has-bit is clear, and handing over an address that hides something |
| `Accessors.ReachableAreTidy` | proto/message.pb.h:788-1223 | in every run of calls from a new packet, a clear has-bit means a default after every call if and only if every call is one of those |
| `Accessors.CopiesWhenQuiet` | proto/message.pb.cc:1090-1094 | for every state: CopyFrom is exact for every source if and only if no embedded message with a clear has-bit would show anything; hidden text does not matter |
| `Accessors.ClearAndCopyAreExact` | proto/message.pb.cc:577-625 | in every run: Clear leaves a packet like a new one at every point if and only if every call is one of those; CopyFrom is exact at every point, for every source, if and only if no call through a kept pointer shows anything in an embedded message with a clear has-bit; and the first condition implies the second |
| `Accessors.ClearShows` | proto/message.pb.cc:577-625 | for every state: Clear leaves nothing shown, and a state like new if and only if nothing was hidden |
| `Accessors.CopyShows` | proto/message.pb.cc:1090-1094 | for every state and every source, the exact condition under which Clear and MergeFrom make the copy show what the source does |
| `Accessors.ParseShows` | proto/message.pb.cc:627-798 | parsing into a state that hides nothing is parsing into the value it shows, and hides nothing afterwards |
| `Accessors.StaleName` | proto/message.pb.h:788-801 | the run of the stale name, and that it shows up in the copy of any packet whose source address has no name |
| `Accessors.StaleText` | proto/message.pb.h:862-930 | the same for text written through a kept pointer after clear_publickey, except that copies are not harmed |
| `AccessorLaws.NewShows` | proto/message.pb.cc:509-525 | a new packet shows nothing, and its strings hold the defaults |
| `AccessorLaws.TextLaws` | proto/message.pb.h:870-1223 | what each call on a string field makes of the member that the packet shows, and that it changes no other |
| `AccessorLaws.TextHeld` | proto/message.pb.h:870-1223 | what the string holds afterwards: what was set or written, and otherwise the default |
| `AccessorLaws.NumberLaws` | proto/message.pb.h:946-1058 | the setters and clearers of the time to live and the encryption method, in what the packet shows |
| `AccessorLaws.LateNumberLaws` | proto/message.pb.h:1070-1106 | the same of the flag and the timestamp |
| `AccessorLaws.SrcLaws` | proto/message.pb.h:788-817 | what handing out, clearing, releasing and handing over the source address makes of what the packet shows |
| `AccessorLaws.DestLaws` | proto/message.pb.h:829-858 | the same of the destination address |
| `AccessorLaws.NeedSeqLaws` | proto/message.pb.h:1118-1147 | the same of the acknowledgement |
| `AccessorLaws.SeqLaws` | proto/message.pb.h:760-772 | the calls on an acknowledgement |
| `AccessorLaws.NameLaws` | proto/address.pb.h:174-397 | the calls on the string fields of an address, in what it shows |
| `AccessorLaws.ThroughLaws` | proto/message.pb.h:779-861 | a call through a kept pointer shows in the packet while its has-bit is set, and not otherwise |
| `AccessorLaws.MergeLaw` | proto/message.pb.cc:1045-1082 | MergeFrom lays its source over what the packet shows, member by member, when nothing is hidden |
| `PacketObject.AvPacket.SerializeWithCachedSizes` | proto/message.pb.cc:800-868 | appends the serialisation to the stream, when the sizes have been cached |
| `PacketObject.AvPacket.SerializeWithCachedSizesToArray` | proto/message.pb.cc:870-945 | writes the same bytes into the array at the position, and nothing outside |
| `PacketObject.AvPacket.ByteSize` | proto/message.pb.cc:947-1031 | exactly the length of the serialisation; the sizes of embedded messages are left cached for the serialisers |
| `Frame.Encode` | include/serialization.hpp:45-69 | the resize, append and back-patch build the frame of the message, or nothing when it cannot be serialised |
| `Frame.Decode` | include/serialization.hpp:72-106 | a message comes out exactly when the buffer is a frame with a non-empty payload of a registered type that parses it, and it is that message |
| `Frame.FrameInjective` | include/serialization.hpp:45-69 | two messages with the same frame have the same type name and payload |
| `Frame.FrameRoundTrip` | include/serialization.hpp:45-106 | decode(encode(m)) is m exactly when the payload is not empty and its type is registered and parses it as m |
| `Frame.FrameBytes` | include/serialization.hpp:45-69 | the bytes of a frame: the length of the rest and the length of the name, both in network order, the name, and the payload |
| `Frame.DecodedBytes` | include/serialization.hpp:72-106 | decode makes a message of exactly the buffers whose two numbers, in network order, are the length of the rest and a length that leaves room for a payload, and whose payload the registered type parses |
| `Connection.Connection.Start` | src/connection.cpp:24-45 | an empty buffer, no abort, the notification 0, and a read of the header under way |
| `Connection.Connection.Stop` | src/connection.cpp:47-53 | the notification 1 each time it is called, the socket closed and the abort flag set |
| `Connection.Connection.HandleReadHeader` | src/connection.cpp:65-98 | closes on an error, an abort or a length over 64 KiB; else reads that much more, a negative length converted to a size |
| `Connection.LengthRead` | src/connection.cpp:82-97 | the four bytes are a number in network order: up to 64 KiB it is how many bytes are read next, a bigger one ends the connection |
| `Connection.Connection.HandleReadBody` | src/connection.cpp:100-139 | dispatches the message of the frame and reads the next header, or closes |
| `Connection.Connection.HandleWrite` | src/connection.cpp:141-162 | takes the written message off the queue and starts the next write, or closes |
| `Connection.Connection.WriteMsg` | src/connection.cpp:164-167 | posts the task that queues the message |
| `Connection.Connection.DoWrite` | src/connection.cpp:169-184 | queues the message and starts a write if none was under way |
| `Delivery.NeverUnsafe` | src/connection.cpp:65-184 | in no interleaving does a write completion find an empty queue, or the read loop a negative length or a frame whose numbers lie outside it |
| `Delivery.OneWriteAtATime` | src/connection.cpp:141-184 | in every run: at most one write is under way, one is exactly while the queue is not empty until a write fails, none is started afterwards; and bytes sent, queued and still to be queued are the bytes posted |
| `Delivery.OrderedDelivery` | src/connection.cpp:65-184 | in every run of posts, tasks, partial transfers, completions, errors and stops, the messages dispatched at the other end are the first ones posted, in order, each as decode makes of it, and none that the peer refuses |
| `Delivery.AllDelivered` | src/connection.cpp:65-184 | when nothing has gone wrong and nothing is left to happen, every message has been dispatched, or every one before the first that is refused (empty payload, over 64 KiB, or not parsed) |
| `Delivery.HistoryIsEvents` | src/connection.cpp:141-184 | in every run: what was posted, whether anything went wrong, whether a write failed and whether the socket is open are what the events of the run say |
| `Delivery.NothingOnceClosed` | src/connection.cpp:155-161 | after a stop or a failed write the socket is closed and nothing more is transferred, whatever happens then |
| `Delivery.WhatArrives` | src/connection.cpp:65-184 | in every run, in the terms of messages: the dispatched ones are what the registered parsers make of the first payloads posted, in order, each within 64 KiB; the receiver stops only at one that is too big or is not parsed; and if it does not stop it gets everything |
| `Forward.ForwardModule.ConnectionNotify` | src/forward_moudle.cpp:20-34 | a type other than 0 takes away the route of the name stored in the connection, if one is stored |
| `Forward.ForwardModule.Learn` | src/forward_moudle.cpp:44-49 | a source that has no route gets one, and its name is stored in the connection; another is left alone |
| `Forward.ForwardModule.ProcessPacket` | src/forward_moudle.cpp:36-74 | learns the source, looks the destination up, and if that connection still exists and the time to live is above 1, lowers it by one and writes the frame there; it tells whether the look-up, which the code uses before it compares it with the end of the table, found anything |
| `Forward.LoweredIsSmaller` | src/forward_moudle.cpp:58-61 | a packet with its time to live lowered is still initialised and writable, and no longer |
| `Forward.ByNames` | src/forward_moudle.cpp:44-66 | the user names alone decide where a packet goes: what is learned, looked up and written, in the members of the packet; and what is written is the same packet with its time to live one lower |
| `Forward.NamesDecide` | src/forward_moudle.cpp:44-66 | two packets with the same user names and the same time to live are treated alike, whatever else they hold |
| `Forward.PacketFrameBytes` | src/forward_moudle.cpp:61 | the frame of a packet has the name of its type in it, and its serialisation |
| `Routing.RoutesWereHeard` | src/forward_moudle.cpp:44-49 | in every run, every route u to c was learned from a packet with source u received on c, and so was every stored name |
| `Routing.TargetWasHeard` | src/forward_moudle.cpp:51-61 | in every run, a forwarded packet goes to a connection that exists and on which a packet from its destination has been received |
| `Routing.NextByNames` | src/forward_moudle.cpp:20-66 | after any run: what an arriving packet and a close do to the routes, the stored names and the output, in the members of the packet |
| `Routing.RoutesByName` | src/forward_moudle.cpp:44-49 | in every run a route is that of the user name that a packet had as its source, on the connection it came on |
| `Routing.NeverOverwritten` | src/forward_moudle.cpp:20-49 | a step never changes where a route leads, and takes it away exactly when a connection that stored its name is closed |
| `Routing.RouteStays` | src/forward_moudle.cpp:20-49 | over any continuation of a run in which nothing drops it, a route leads where it led |
| `Routing.StepExact` | src/forward_moudle.cpp:20-49 | exactly when a step keeps the table equal to the open connections by stored name: a packet from an unrouted source must come on an open connection with no name stored, and a connection closed again must have no routed name |
| `Routing.AlwaysExact` | src/forward_moudle.cpp:20-49 | over whole runs: the table has been exact after every event if and only if every event met that condition where it happened |
| `Routing.RoutesAreOpenConnections` | src/forward_moudle.cpp:20-49 | in every run in which each connection uses one source name, is closed at most once, and is silent once closed, table[u] is c exactly when c is open with u stored |
| `Routing.LookupFindsWhenStored` | src/forward_moudle.cpp:51-54 | in such a run the look-up for a packet finds an entry, and what the code does with it is defined, if and only if the packet is for its own sender or for the name stored by an open connection |
| `Routing.NoRouteYet` | src/forward_moudle.cpp:51-54 | the first packet of a run, from one user to another: the look-up finds nothing |
| `Routing.TwoNames` | src/forward_moudle.cpp:44-49 | a run in which only the first of these fails: the first name keeps its route after the connection is closed |
| `Routing.ClosedTwice` | src/forward_moudle.cpp:24-28 | a run in which only the second fails: the route of the open connection that uses the name now is lost |
| `Routing.HeardAfterClose` | src/forward_moudle.cpp:44-49 | a run in which only the third fails: the route comes back and stays |
| `Hops.FrameDecodes` | include/serialization.hpp:45-106 | decode gives every writable packet back from its frame |
| `Hops.Accepted` | include/serialization.hpp:72-106 | the payloads that make a packet: they parse to their end, and every required member is there |
| `Hops.ForwardedIsLowered` | src/forward_moudle.cpp:52-67 | what is written decodes as the packet with only the time to live lowered by one, to no less than 1, and a peer that takes the packet takes that |
| `Hops.ReceivedIsWritable` | include/serialization.hpp:72-106 | every packet that decode accepts can be encoded again, in a frame no longer than the one it came in |
| `Hops.ArrivingIsForwarded` | src/forward_moudle.cpp:52-67 | for every frame that decode accepts: if its packet is forwarded, decode accepts the output as that packet with the time to live lowered, and the output is no longer |
| `Hops.JourneyLowers` | src/forward_moudle.cpp:58-66 | through any sequence of forwards by modules in any states, after k of them the packet is the original with the time to live lowered by k; so there are at most time_to_live - 1, and none with 0 |
| `Registration.RegisterModule.UserRegister` | src/register_moudle.cpp:191-220 | a verified request with a name begins a registration; one that does not verify is refused; an empty name does nothing |
| `Registration.RegisterModule.SelectStatement` | src/database.cpp:113-121 | the SELECT of register_user: a taken name or an error reports false |
| `Registration.RegisterModule.InsertStatement` | src/database.cpp:122-133 | the INSERT: the primary key refuses a second row of a name; otherwise the row is there and true is reported |
| `Registration.RegisterModule.OnRegistered` | src/register_moudle.cpp:221-276 | true goes on to the certificate authority, false replies that the name is taken |
| `Registration.RegisterModule.SendCsr` | src/register_moudle.cpp:85-121 | the handler is called with -1 unless the authority has taken this request; then with 0 if the certificate with its fingerprint comes, and with 1 in any case |
| `Registration.RegisterModule.OnCsrSent` | src/register_moudle.cpp:243-268 | 0 starts the certificate update, 1 replies pending, anything else starts the rollback |
| `Registration.RegisterModule.DeleteStatement` | src/database.cpp:141-162 | removes the rows of the name unless the statement fails; the reply is the same |
| `Registration.RegisterModule.UpdateStatement` | src/database.cpp:165-187 | sets the certificate in the rows of the name unless the statement fails; the reply is the same |
| `Registration.OneRowPerName` | src/database.cpp:103-139 | in every interleaving: no two rows have one name; a registration reports true exactly when its own INSERT has worked on a free name; its row is there exactly until its own DELETE works |
| `Registration.OwnRowOnly` | src/database.cpp:141-188 | in every interleaving, a rollback or update under way finds exactly the one row of its own registration, changes or removes that, and leaves the rows of all others as they are |
| `Registration.RepliesWhenDone` | src/register_moudle.cpp:117-121 | a finished registration has been answered once, or exactly when the authority has signed twice: succeeded, and pending |
| `Registration.RepliesAgainstTable` | src/database.cpp:103-187 | in every run, of every finished registration: one told that the name is taken has found the name in the table if and only if neither of its statements has failed; one told that the authority is down still has its row if and only if its DELETE has not worked; one told that it has succeeded has its certificate stored if and only if its UPDATE has worked |
| `Registration.History` | src/database.cpp:103-139 | in every run: a registration has inserted exactly when its INSERT has worked on a free name, and has been refused exactly when a statement has found the name or failed, never both |
| `Registration.TakenByError` | src/database.cpp:129-134 | for every user, the runs in which SELECT or INSERT fails: the user is told that the name is taken, and the table is empty |
| `Registration.RollbackMayFail` | src/database.cpp:141-162 | for every user, the run in which the user is told of the rollback: the row is gone, or still there because the DELETE failed |
| `Registration.SignedTwice` | src/register_moudle.cpp:117-121 | for every user and certificate, the run in which the authority signs: the user is answered twice, and the certificate is stored, or not because the UPDATE failed |
| `Requests.TaskIsFor` | src/register_moudle.cpp:217-219 | in every run, registration i is for what the i-th request has sent |
| `Requests.RowsAreRequests` | src/database.cpp:103-187 | in every run, each row holds the name, key, mail address and phone number of the request that made it, and a certificate that the authority has signed for it exactly when its UPDATE has worked |
| `Requests.RequestIsStored` | src/database.cpp:103-162 | in every run there is a row of a request exactly when its INSERT has worked on a free name and its DELETE has not worked |
| `Requests.StatementsOf` | src/database.cpp:113-133 | after any run: what SELECT and INSERT do for a request, to the table and to its registration |
| `Requests.AnswersAreEvents` | src/register_moudle.cpp:85-121 | in every run a registration has had an answer of the authority exactly when that is an event of the run, and one at most |
| `Requests.RepliesAreAnswers` | src/register_moudle.cpp:221-276 | in every run a finished registration has been told exactly what the authority has answered, or, if that was never asked, that the name is taken |
| `EscapePath.ToHex` | include/escape_string.hpp:53-62 | two hexadecimal digits per byte |
| `EscapePath.EscapePathString` | include/escape_string.hpp:84-98 | escapes the special and the non-ASCII characters and nothing else |
| `EscapePath.UnescapePathString` | include/escape_string.hpp:100-154 | the result and the output, which on failure is what has been unescaped so far |
| `EscapePath.NoLonger` | include/escape_string.hpp:84-154 | unescaping never gives more characters than were escaped |
| `EscapePath.EscapeRoundTrip` | include/escape_string.hpp:84-154 | unescape_path(escape_path(s)) gives s, whether or not its result is looked at, if and only if every character is alphanumeric, in the literal set of unescape_path, one of the escaped specials, or non-ASCII |
| `EscapePath.PercentUnescaped` | include/escape_string.hpp:108-136 | a percent sign and two hexadecimal digits of either case are the character of that number, and without two digits behind it the string is refused |
| `EscapePath.CharacterUnescaped` | include/escape_string.hpp:138-152 | what every other character is unescaped to, and which are refused |
| `EscapePath.CharacterEscaped` | include/escape_string.hpp:84-98 | what every character is escaped to |
| `EscapePath.SurvivingCharacters` | include/escape_string.hpp:84-154 | the characters that come back from escaping and unescaping, written out |
| `Base64.Encode` | include/escape_string.hpp:186-228 | the loop over three-byte groups computes the encoding by groups, with its padding |
| `Base64.Decode` | include/escape_string.hpp:230-270 | the loop stops after the longest prefix over the alphabet, and its result is what that decodes to |
| `Base64.SixBitGroups` | include/escape_string.hpp:186-228 | the six-bit groups of the output are exactly the bits of the input, padded with zeros |
| `Base64.EncodingLength` | include/escape_string.hpp:186-228 | four characters for every three bytes begun |
| `Base64.RoundTrip` | include/escape_string.hpp:186-270 | decoding the encoding of any byte string gives it back |
| `Base64.RestIgnored` | include/escape_string.hpp:239-253 | what follows the longest prefix over the alphabet is ignored: a text decodes to what that prefix decodes to |
| `Base64.AlphabetIs` | include/escape_string.hpp:186-228 | the alphabet, written out |
| `Base64.LettersDecoded` | include/escape_string.hpp:230-270 | four letters of the alphabet are the three bytes of their number to the base of 64; of three, two and one letters at the end there remain two, one and no byte of it |
| `Forms.ParseFormString` | include/http_helper.hpp:409-455 | the loop computes the pairs of the form |
| `Forms.FormRoundTrip` | include/http_helper.hpp:409-455 | parsing the join of escaped pairs gives the pairs back if and only if every character survives escaping, no key has an equals sign and no value an ampersand |
| `Forms.AnyForm` | include/http_helper.hpp:409-455 | of any form, however it was escaped: the pairs are what is before each first equals sign and what is between that and the next ampersand, unescaped; a key without an equals sign is dropped |
| `Multipart.ParseMultipart` | include/http_helper.hpp:380-407 | the two loops cut the body at the boundary and extract the pairs, or throw where substr does |
| `Multipart.MultipartRoundTrip` | include/http_helper.hpp:380-407 | with a boundary that has no line break and is in no part, rendered pairs come back, all of them, in order, if and only if every name is non-empty and survives escaping |
| `Multipart.FixedTexts` | include/http_helper.hpp:355-400 | the fixed texts that are searched for, in characters |
| `Multipart.PartAt` | include/http_helper.hpp:380-390 | where a part of any body begins and ends, also when two boundaries are next to each other |
| `Multipart.AnyPart` | include/http_helper.hpp:392-406 | the header and the value of any part, also of one without a blank line, and when the parser throws |
| `Multipart.AnyName` | include/http_helper.hpp:399-402 | which name a header has, if it has one |
| `Multipart.AnyBoundary` | include/http_helper.hpp:355-358 | which boundary a content type names, if it names one |
| `Multipart.HttpForm` | include/http_helper.hpp:353-366 | a boundary in the content type selects the multipart parser, otherwise the url-encoded one |
| `Multipart.FormRecovered` | include/http_helper.hpp:353-407 | a form rendered as multipart is recovered from its body and its content type under exactly the same condition |

## Left out

- Sockets, resolvers, timers, threads, program options and logging: input and output. An executor is a first-in-first-out list of tasks, a socket the writes under way and a byte pipe with any chunking and failure.
- The library under the generated messages: varints, tags, skipping and coded streams follow the Protocol Buffers encoding specification; a truncated embedded message or a length over 2 GB is malformed, there is no limit on nesting, strings are not checked for UTF-8, and a message over 2 GB is excluded by precondition.
- `proto/ca.*`, `proto/im.*`, `proto/user.*`, descriptors, reflection, Swap and the move operations: the other messages have the shape of the packet.
- The overloads of the string setters, `mutable_unknown_fields`, and the pointers themselves: a call through a kept pointer is a call on the object it points to, and one to an object that has been released or deleted is no call on the packet.
- Login, certificates, key exchange and the verification of signing requests: foreign calls. Whether a request verifies is a parameter; the answer of the authority is any of the three its coroutine can give, or none.
- The availability check: one SELECT and one reply, with no state.
- SQL text and escaping: four atomic statements on a keyed table, each of which may fail without effect.
- Frame.Decode: a buffer too short for the numbers it holds, or with a negative name length, is excluded by precondition; Delivery.NeverUnsafe shows that the read loop never meets one among frames that encode built.
- HttpRequest.RequestParser.Consume: version numbers are unbounded integers, so overflow of `int` is not modelled; character classes are those of the C locale, here and in the other parsers.
- HttpPipeline.Pipeline: states what a driver that resets the parser and starts a blank request obtains; `handle_read_headers` does neither when a connection is kept alive, which is HttpPipeline.SecondIsRefused. Normalising the request and reading a body are not modelled.
- Forward.ForwardModule.ProcessPacket: where the look-up finds nothing, the code goes on with the end of the table, which is undefined; the model reports it and goes on as the test of the code says. Each call is atomic, although the table has no lock; and the packet is one that `decode` gives, so initialised.
- Connection.Connection.Stop: the manager's list of connections is left out; what the modules do at a notification is in `Routing`.
- Base64.Encode: the masks and shifts of bytes are written as division and remainder.
- Locale conversion, thread pool selection and the tables of callbacks: library wrappers.
