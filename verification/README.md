# Verification of Beast's byte-level engines

This project models the parts of Beast where bytes are interpreted, and proves them against the
standards they implement. The model follows the C++ member by member: objects whose methods change
their fields are classes, loops are loops, arrays are arrays. What they are tied to is a
specification written from the standard wherever there is one. The exception is `Fragmenting`: how a
message is cut into frames is the program's own choice, so its rule is read off `write_frame()`, and
what is proved about it is that it keeps the octets and the message of section 5.4 of RFC 6455, or
when it does not.

| files | what they model |
|---|---|
| `Sha1Spec`, `Sha1Transform`, `Sha1Context`, `Sha1Example` | SHA-1: sections 3 to 6 of RFC 3174, the unrolled compression on a circular block of 16 words, the streaming context and the padding, and the digests of two messages of section 7.3 worked out round by round |
| `Utf8Spec`, `Utf8Automaton`, `Utf8Checker` | the streaming UTF-8 checker: sections 3 and 4 of RFC 3629, the 400-entry table as an automaton, and the checker object |
| `Masking`, `MaskInPlace`, `MaskBuffers` | payload masking: section 5.3 of RFC 6455, and the 32-bit and 64-bit in-place forms with rotated keys |
| `Endian`, `FrameHeader`, `FrameWriter`, `StaticStreambuf` | integers on the wire, frame headers by section 5.2 of RFC 6455, the header printer, the fixed-size buffer it writes to |
| `Protocol`, `StreamBase`, `Receive` | what an endpoint accepts: section 5.4 of RFC 6455 as a grammar, the two-stage header parser with its message state, and reading a whole stream of frames |
| `ControlFrames` | close, ping and pong frames in both directions |
| `TextMessages`, `Replies`, `FrameReader`, `WholeMessages`, `MessageReader` | the UTF-8 check that runs along with text messages, the pongs and the close frame that are written while reading, and reading whole messages from the octets on the wire |
| `ReadResults`, `Closing` | that the octets determine what `read()` returns, and the closing handshake |
| `FrameExamples`, `ReadExamples`, `WriteExamples` | the examples of section 5.7 of RFC 6455 as octets, read and written, and a connection that ends for each close code `read()` sends |
| `Fragmenting`, `MessageWriter` | `write_frame()` with auto fragmentation, masking and neither |
| `Delivery`, `Exchange` | a message, and a run of messages, from one end to the other |
| `BufferCat` | the bidirectional iterator over concatenated buffer sequences |
| `Rfc7230`, `ParamGrammar`, `ParamScan`, `ParamList`, `ParamErrors` | HTTP header fields: character classes, the grammar of parameter lists, the scanner and its agreement with the grammar in both directions, the iterators, and lists with an error |
| `ChunkEncode` | chunked transfer coding |
| `HeaderFields` | the callbacks that put header fields together, under their size limits |
| `Bytes` | octets and concatenation |

`dafny verify dfyconfig.toml` checks everything.

Code and specification do not share what they compute with: `rol`, the feed-forward, `^=`, the checks of
`read_fh1()` and the digits of `to_hex()` have bodies of their own, and what is left in common, opcodes,
close codes, digits and the order of octets, is fixed by statements in numbers and by examples.

Conventions: an octet is a `bv8`, `std::size_t` and `std::uint64_t` are naturals below 2^64 with
wrap-around written out where it can happen, error codes and exceptions are returned values, and a
mask key is any 32-bit value (any but 0 where the generator gives it).

## Where the code is not what it is said to be

Each of these is stated in the model as the exact condition under which the code does what its
documentation, its tests or the standard promise.

- A message written by several `write_frame()` calls with auto fragmentation can lose octets. A call
  that leaves octets in the write buffer does not mark the message as begun, so the next call
  starts afresh: it throws the octets away, and it repeats the opcode (`Fragmenting.FaithfulIff`
  and, with an input, `Fragmenting.LostOctet`; from end to end `Delivery.Deliver` and
  `Exchange.DeliverAll`).
- `open()` does not clear the UTF-8 checker, so a connection that ended inside a text message can
  spoil the first text message of the next one (`MessageReader.FirstMessage`,
  `TextMessages.LeftoverHarmless` and, with an input, `MessageReader.Spoilt`).
- The top bit of a 64-bit payload length is not checked (`Protocol.TopBitOfLength`).
- `is_valid()` accepts close codes of 5000 and above (`ControlFrames.ValidCodes`).
- A `param_list` with an error is not iterated as if it had been cut in front of the first invalid
  character: where the text in front of it ends in a name, or a name and `=`, the parameter is
  dropped (`ParamErrors.CutAtInvalid` and, with an input, `ParamErrors.DroppedParameter`). A `=`
  without value at the end of the string is accepted (`ParamErrors.ReadToEnd`).
- An `operator--` of the `buffer_cat` iterator that throws leaves the iterator where it was only if
  the first sequence is not empty; else it moves it to a position that does not exist
  (`BufferCat.ConstIterator.Decrement`).
- An empty chunk is encoded as the end of the body (`ChunkEncode.DecodeEncoded`).
- The last field of a chunked body's trailer is never inserted (`HeaderFields.TrailerLosesLast`).
- `unhex()` takes characters outside ASCII for the digit 0 (`ChunkEncode.UnhexTable`).
- The SHA-1 message length is kept modulo 2^64 bits; `Sha1Spec.Sha1` says the same of longer messages than
  RFC 3174 provides for.

## Model

| member | source | states |
|---|---|---|
| Sha1Spec.ShiftMovesBits | include/beast/core/detail/sha1.hpp:34-38 | bit i of the circular shift by 1, 5 or 30 is bit i - n of the word, counted round |
| Sha1Spec.WordAsWord | include/beast/core/detail/sha1.hpp:291-293 | every word is the word of the number it stands for |
| Sha1Spec.TwoWords | include/beast/core/detail/sha1.hpp:291-293 | the length in 64 bits is 2^32 times its first word plus its second |
| Sha1Transform.RolXorExtends | include/beast/core/detail/sha1.hpp:34-48 | `rol(.. ^ .. ^ .. ^ .., 1)`, shifts and or, is the rotation of the schedule |
| Sha1Transform.BlkIsSchedule | include/beast/core/detail/sha1.hpp:42-48 | when the block holds W[t-16..t-1] in a circle, `blk` gives W[t] of the 80-word schedule, from round 16 on |
| Sha1Transform.WindowStep | include/beast/core/detail/sha1.hpp:61-70 | overwriting one word moves the window of held schedule words on by one |
| Sha1Transform.AtStep | include/beast/core/detail/sha1.hpp:50-103 | the invariant of all 80 rounds: window and registers move on together |
| Sha1Transform.Choice | include/beast/core/detail/sha1.hpp:52-70 | `((w&(x^y))^y)` is the RFC's (B AND C) OR (NOT B AND D) |
| Sha1Transform.Majority | include/beast/core/detail/sha1.hpp:85-92 | `(((w\|x)&y)\|(w&x))` is the RFC's majority |
| Sha1Transform.Parity | include/beast/core/detail/sha1.hpp:74-103 | the exclusive-or rounds compute the RFC's parity function in rounds 20-39 and 60-79 |
| Sha1Transform.Mix0IsRound | include/beast/core/detail/sha1.hpp:50-70 | rounds 0-19: with its arguments rotated instead of the registers, the macro-style round is the RFC's round |
| Sha1Transform.Mix2IsRound | include/beast/core/detail/sha1.hpp:74-81 | the same for rounds 20-39 |
| Sha1Transform.Mix3IsRound | include/beast/core/detail/sha1.hpp:85-92 | the same for rounds 40-59 |
| Sha1Transform.Mix4IsRound | include/beast/core/detail/sha1.hpp:96-103 | the same for rounds 60-79 |
| Sha1Transform.R0 | include/beast/core/detail/sha1.hpp:50-58 | one round of the first lap: the two registers it changes are those of RFC round t, the block is untouched |
| Sha1Transform.R1 | include/beast/core/detail/sha1.hpp:61-70 | rounds 16-19, which also write W[t] into the block |
| Sha1Transform.R2 | include/beast/core/detail/sha1.hpp:72-81 | rounds 20-39 |
| Sha1Transform.R3 | include/beast/core/detail/sha1.hpp:83-92 | rounds 40-59 |
| Sha1Transform.R4 | include/beast/core/detail/sha1.hpp:94-103 | rounds 60-79 |
| Sha1Transform.Rounds0To19 | include/beast/core/detail/sha1.hpp:129-148 | twenty unrolled calls with rotating arguments carry the registers through RFC rounds 0-19 |
| Sha1Transform.Rounds20To39 | include/beast/core/detail/sha1.hpp:149-168 | the same for rounds 20-39 |
| Sha1Transform.Rounds40To59 | include/beast/core/detail/sha1.hpp:169-188 | the same for rounds 40-59 |
| Sha1Transform.Rounds60To79 | include/beast/core/detail/sha1.hpp:189-208 | the same for rounds 60-79 |
| Sha1Transform.Transform | include/beast/core/detail/sha1.hpp:118-215 | for every digest and block the new digest is the compression of section 6.1 of RFC 3174 with its explicit 80-word schedule |
| Sha1Context.MakeBlock | include/beast/core/detail/sha1.hpp:105-116 | the sixteen words of a block are the big-endian words of 64 octets |
| Sha1Context.DigestAppend | include/beast/core/detail/sha1.hpp:256-264 | a whole block appended to whole blocks compresses their digest once more |
| Sha1Context.PadOneBlock | include/beast/core/detail/sha1.hpp:275-294 | up to 55 octets left: the section 4 padding ends in the same block |
| Sha1Context.PadTwoBlocks | include/beast/core/detail/sha1.hpp:278-294 | 56 octets or more left: it takes one block more |
| Sha1Context.PaddedDigest | include/beast/core/detail/sha1.hpp:284-294 | the last block's length words complete the digest of the padded message |
| Sha1Context.LengthStored | include/beast/core/detail/sha1.hpp:275-293 | the stored bit count, computed with wrap-around, is the length section 4 appends |
| Sha1Context.Context.Update | include/beast/core/detail/sha1.hpp:243-266 | the loop ends, the octets of the message follow those already passed, whole blocks are in the digest, the rest in the buffer |
| Sha1Context.Context.Terminate | include/beast/core/detail/sha1.hpp:275-281 | the buffer becomes what is left, the 0x80 octet and zeros |
| Sha1Context.Context.Close | include/beast/core/detail/sha1.hpp:275-294 | in both padding cases the digest becomes that of the padded message |
| Sha1Context.Context.Finish | include/beast/core/detail/sha1.hpp:268-304 | the twenty octets written are the RFC 3174 digest of everything passed to update, and nothing after them is touched |
| Sha1Context.HashPieces | include/beast/core/detail/sha1.hpp:230-304 | init, update for each piece and finish give the digest of the whole message, however it is cut |
| Sha1Example.Abc | test/core/sha1.cpp:65-66 | the digest of "abc" is a9993e36 4706816a ba3e2571 7850c26c 9cd0d89d |
| Sha1Example.Long | test/core/sha1.cpp:69-70 | the digest of the 56-octet message of section 7.3 of RFC 3174, which takes two blocks |
| Sha1Example.HashAbc | test/core/sha1.cpp:65-66 | init, update and finish write these octets for "abc", given in two pieces |
| Sha1Example.HashLong | test/core/sha1.cpp:69-70 | and those of the 56-octet message |
| Utf8Spec.SectionSeven | include/beast/websocket/detail/utf8_checker.hpp:44-148 | the characters in the examples of section 7 of RFC 3629 have the octets given there |
| Utf8Spec.EncodeIsChar | include/beast/websocket/detail/utf8_checker.hpp:44-148 | the encoding of section 3 of RFC 3629 gives characters of the grammar in section 4, and decodes back |
| Utf8Spec.CharIsEncoding | include/beast/websocket/detail/utf8_checker.hpp:44-148 | every character of the grammar is the encoding of one scalar value: no overlong forms, no surrogates, nothing above 10FFFF |
| Utf8Spec.EncodeAllIsOctets | include/beast/websocket/detail/utf8_checker.hpp:44-148 | encoded scalar values make a string of the grammar |
| Utf8Spec.OctetsAreEncodings | include/beast/websocket/detail/utf8_checker.hpp:44-148 | every string of the grammar is such an encoding |
| Utf8Automaton.ClassTable | include/beast/websocket/detail/utf8_checker.hpp:53-62 | the first 256 entries of the table give each octet's class |
| Utf8Automaton.DeltaTable | include/beast/websocket/detail/utf8_checker.hpp:63-67 | the last 144 entries are the transition function |
| Utf8Automaton.InTable | include/beast/websocket/detail/utf8_checker.hpp:109-115 | no state and octet lead outside the table |
| Utf8Automaton.ExpectStep | include/beast/websocket/detail/utf8_checker.hpp:107-123 | one step keeps the state equal to what the pending octets of an unfinished character call for |
| Utf8Automaton.Accepts | include/beast/websocket/detail/utf8_checker.hpp:107-125 | from the state of any pending octets, a string leads back to state 0 exactly when pending and string are in the grammar |
| Utf8Automaton.TableRecognisesUtf8 | include/beast/websocket/detail/utf8_checker.hpp:50-70 | the automaton accepts exactly the language of section 4 of RFC 3629, for strings of any length |
| Utf8Automaton.Completion | include/beast/websocket/detail/utf8_checker.hpp:63-67 | from every state but the error state acceptance can be reached |
| Utf8Automaton.ErrorIsEarliest | include/beast/websocket/detail/utf8_checker.hpp:115-120 | the error state is entered exactly when no continuation could make the text well formed |
| Utf8Checker.PartialIsDecode | include/beast/websocket/detail/utf8_checker.hpp:111-114 | the value accumulated over a whole character is its scalar value |
| Utf8Checker.ReadStep | include/beast/websocket/detail/utf8_checker.hpp:109-115 | the invariant of the loop: state and code point always belong to the octets read |
| Utf8Checker.ReadingError | include/beast/websocket/detail/utf8_checker.hpp:115-120 | an error rules out every continuation of the text |
| Utf8Checker.Checker.Write | include/beast/websocket/detail/utf8_checker.hpp:101-125 | true exactly when all that was written so far can still become UTF-8; the checker starts afresh otherwise |
| Utf8Checker.Checker.WriteBuffers | include/beast/websocket/detail/utf8_checker.hpp:127-139 | verdict and state depend on the octets only, not on how they are cut |
| Utf8Checker.Checker.Finish | include/beast/websocket/detail/utf8_checker.hpp:141-148 | true exactly when all that was written is UTF-8 |
| Utf8Checker.Checker.CodepointIsLast | include/beast/websocket/detail/utf8_checker.hpp:111-115 | whenever the state is 0 the code point is the scalar value of the last character |
| Utf8Checker.CheckUtf8 | include/beast/websocket/detail/utf8_checker.hpp:152-160 | true exactly for the strings of the grammar |
| Masking.MaskedBits | include/beast/websocket/detail/mask.hpp:122-133 | every bit of the payload is turned over exactly where its key octet has a 1 |
| Masking.MaskTwice | include/beast/websocket/detail/mask.hpp:180-207 | masking twice with one key restores the payload |
| Masking.RotatedAt | include/beast/websocket/detail/mask.hpp:133-134 | the rotated key masks octet i as the key masks octet m + i |
| Masking.MaskedAppend | include/beast/websocket/detail/mask.hpp:110-138 | masking two pieces, the second with the rotated key, masks the whole |
| Masking.RotatedAppend | include/beast/websocket/detail/mask.hpp:133-134 | rotations add up, also across multiples of four |
| Masking.Ror64Octets | include/beast/websocket/detail/mask.hpp:95-106 | rotating by eight times m bits, m never 0, rotates the eight octets by m places |
| Masking.DoubledIsTwoCopies | include/beast/websocket/detail/mask.hpp:87-93 | the prepared 64-bit key is two copies of the key |
| Masking.RotationKeepsCopies | include/beast/websocket/detail/mask.hpp:173-174 | both keys rotated by as many octets stay in step |
| MaskInPlace.MaskWord32 | include/beast/websocket/detail/mask.hpp:120-126 | four exclusive-ors mask a word of payload |
| MaskInPlace.MaskTail32 | include/beast/websocket/detail/mask.hpp:127-137 | the last one to three octets, and the rotation that goes with them |
| MaskInPlace.MaskGeneral32 | include/beast/websocket/detail/mask.hpp:108-138 | a buffer in memory becomes what section 5.3 of RFC 6455 says, everything around it stays, the key is rotated by the buffer's length |
| MaskInPlace.MaskWord64 | include/beast/websocket/detail/mask.hpp:152-162 | eight octets masked with the wide key become what the key masks them to |
| MaskInPlace.MaskTail64 | include/beast/websocket/detail/mask.hpp:163-177 | the last one to seven octets, and the rotation |
| MaskInPlace.MaskGeneral64 | include/beast/websocket/detail/mask.hpp:140-178 | the 64-bit form refines the 32-bit one: same octets, and the wide key stays two copies of the rotated key |
| MaskBuffers.PieceMasked | include/beast/websocket/detail/mask.hpp:198-207 | one buffer more, with the carried key, masks one piece more of the payload as a whole |
| MaskBuffers.Mask32 | include/beast/websocket/detail/mask.hpp:180-207 | for buffers of any sizes the octets together are masked as one string |
| MaskBuffers.Mask64 | include/beast/websocket/detail/mask.hpp:189-207 | the same octets with the 64-bit key, for every buffer sequence |
| Endian.BigToBig | include/beast/websocket/detail/frame.hpp:134-146 | the big-endian octets of a number have its value |
| Endian.ToBigBig | include/beast/websocket/detail/endian.hpp:17-41 | octets are the big-endian octets of their value |
| Endian.BigUint16IsBigEndian | include/beast/websocket/detail/endian.hpp:17-24 | the decoder computes the big-endian value |
| Endian.BigUint64IsBigEndian | include/beast/websocket/detail/endian.hpp:26-41 | the same for eight octets |
| Endian.LittleRoundTrip | include/beast/websocket/detail/endian.hpp:43-65 | the key encoder and decoder are inverse |
| Endian.LittleOctetsOf | include/beast/websocket/detail/endian.hpp:43-65 | and the other way round |
| Endian.KeyOnTheWire | include/beast/websocket/detail/endian.hpp:56-65 | the octets of the key on the wire are the octets masking uses, in that order |
| FrameHeader.PrintDescribes | include/beast/websocket/detail/frame.hpp:110-154 | what is printed for a header describes that header by section 5.2 of RFC 6455 |
| FrameHeader.DescribedIsPrinted | include/beast/websocket/detail/frame.hpp:110-154 | octets that describe a header are the ones printed for it: a header has one encoding |
| FrameHeader.DescribesOne | include/beast/websocket/detail/frame.hpp:110-154 | octets describe at most one header |
| FrameHeader.DescribesPrefix | include/beast/websocket/detail/frame.hpp:110-154 | no header is a proper prefix of another |
| FrameHeader.LengthDescribes | include/beast/websocket/detail/frame.hpp:128-146 | the three length forms, each used only where a shorter one does not do |
| FrameWriter.WriteHeader | include/beast/websocket/detail/frame.hpp:110-154 | the header is appended to the buffer, and it fails exactly when there is no room for it |
| StaticStreambuf.Streambuf.Prepare | include/beast/core/impl/static_streambuf.ipp:282-291 | gives room behind the data, or fails where the source throws |
| StaticStreambuf.Streambuf.Commit | include/beast/core/static_streambuf.hpp:90-94 | the prepared octets join the data, no more than were prepared |
| StaticStreambuf.Streambuf.Consume | include/beast/core/static_streambuf.hpp:103-108 | octets leave at the front, no more than there are |
| StaticStreambuf.Streambuf.Put | include/beast/core/static_streambuf.hpp:82-94 | prepare, copy and commit append the octets exactly when there is room |
| Protocol.AdmissibleInNumbers | include/beast/websocket/detail/stream_base.hpp:229-295 | what is admitted, in numbers: opcodes 8 to 10 whole and up to 125 octets long, 1 and 2 between messages, 0 in the middle of one, within 2^64 and the limit; masked exactly to a server, reserved bits 0 |
| Protocol.SixOpcodes | include/beast/websocket/detail/frame.hpp:48-54 | a frame with a given opcode can be admitted exactly for 1, 2, 8, 9 and 10 between messages and for 0, 8, 9 and 10 in the middle of one |
| FrameExamples.SectionFiveSeven | include/beast/websocket/detail/frame.hpp:113-152 | the frames of section 5.7 of RFC 6455 and the octets they are on the wire |
| FrameExamples.LongHeaders | include/beast/websocket/detail/frame.hpp:134-146 | the headers of 256 and of 65536 octets of binary data |
| FrameExamples.MaskHello | include/beast/websocket/detail/mask.hpp:180-207 | "Hello" under the key 37 fa 21 3d becomes 7f 9f 4d 51 58 in buffers of any sizes |
| Protocol.AcceptedRuns | include/beast/websocket/detail/stream_base.hpp:193-377 | from open(), the accepted runs of headers are exactly those of well-formed headers whose data frames form messages by section 5.4 of RFC 6455 within the size limit; and the fields track the message: whether one is under way, its opcode, the exact sum of its lengths |
| Protocol.AcceptedStep | include/beast/websocket/detail/stream_base.hpp:351-376 | one header keeps that equivalence, control frames without changing the message |
| Protocol.MessagesStep | include/beast/websocket/detail/stream_base.hpp:227-254 | a data frame keeps the message grammar exactly when it continues an open message or starts one while none is open, and fits |
| Protocol.TailIsOpen | include/beast/websocket/detail/stream_base.hpp:351-375 | the unfinished end of any decomposition into messages is the same |
| Protocol.TracksNext | include/beast/websocket/detail/stream_base.hpp:351-375 | size, opcode and continuation flag follow the frames, without 64-bit wrap |
| Protocol.TopBitOfLength | include/beast/websocket/detail/stream_base.hpp:322-335 | lengths of 2^63 and above are kept out exactly when a size limit below 2^63 is set |
| StreamBase.Receiver.ReadFh1 | include/beast/websocket/detail/stream_base.hpp:190-293 | two octets are consumed; success exactly for a well-formed header that is expected now, and then `need` is the exact number of header octets to come |
| StreamBase.Receiver.ReadLength | include/beast/websocket/detail/stream_base.hpp:306-336 | the extended length, refused exactly when it was not written in the fewest octets |
| StreamBase.Receiver.ReadKey | include/beast/websocket/detail/stream_base.hpp:337-350 | the key and the prepared key |
| StreamBase.Receiver.Account | include/beast/websocket/detail/stream_base.hpp:351-376 | the message account moves on, or the message is too big: above the limit or above 2^64 |
| StreamBase.Receiver.ReadFh2 | include/beast/websocket/detail/stream_base.hpp:295-377 | the whole second stage, with both failures |
| Receive.WholeDescribes | include/beast/websocket/detail/stream_base.hpp:193-350 | what the two stages make of the octets is what these describe |
| Receive.DescribedIsRead | include/beast/websocket/detail/stream_base.hpp:193-350 | a described header is the one that is read, with exactly its octets consumed |
| Receive.HopelessFixed | include/beast/websocket/detail/stream_base.hpp:227-291 | what the first stage rejects, no continuation could make admissible |
| Receive.HopelessWhole | include/beast/websocket/detail/stream_base.hpp:306-376 | the same for the second stage |
| Receive.ReadHeader | include/beast/websocket/impl/stream.ipp:955-976 | a header is accepted exactly when its octets describe an admissible one; it is rejected as soon as the two fixed octets are wrong or the whole header is there and not admissible, when nothing that follows could help, and the code is that of a message too big exactly when a well-formed header that is expected is there; else octets are missing |
| Receive.Unmask | include/beast/websocket/impl/stream.ipp:511-515 | a piece of payload is unmasked with the key carried over from the pieces before |
| Receive.ReadSome | include/beast/websocket/impl/stream.ipp:503-515 | one read: at least one of the octets needed and no others, unmasked where they stand in the payload |
| Receive.ReadPayload | include/beast/websocket/impl/stream.ipp:503-515 | whatever sizes the reads have, the payload is uncovered as a whole and no octet of the next frame is taken |
| Receive.ReceiveFrame | include/beast/websocket/impl/stream.ipp:427-515 | the stream starts with the frame returned, or fails for good, or does not hold a whole frame |
| Receive.OneFrame | include/beast/websocket/impl/stream.ipp:427-515 | a stream starts with one frame only |
| Receive.AcceptedFront | include/beast/websocket/detail/stream_base.hpp:193-377 | accepted runs can be taken apart at the front |
| Receive.ReceiveAll | include/beast/websocket/impl/stream.ipp:427-530 | every accepted run of frames, printed and masked with any keys, comes back exactly, headers, payloads and message boundaries, with no octet left over; and whatever the stream, also one that is cut off or goes bad, the frames returned are an accepted run that it starts with, and no accepted run that it starts with is longer |
| Receive.StreamsAreUnambiguous | include/beast/websocket/detail/frame.hpp:110-154 | octets are those of one sequence of frames at most |
| ControlFrames.PutCovered | include/beast/websocket/detail/stream_base.hpp:430-435 | a piece of payload is appended, masked with the running key |
| ControlFrames.WriteClose | include/beast/websocket/detail/stream_base.hpp:403-448 | one close frame, code and reason masked in two steps as one payload; it fails exactly when it does not fit |
| ControlFrames.ValidCodes | include/beast/websocket/detail/frame.hpp:70-106 | the codes accepted are those section 7.4 of RFC 6455 lets an endpoint send, and all from 5000 on |
| ControlFrames.ReadClose | include/beast/websocket/detail/frame.hpp:174-226 | a payload is read as the reason that prints to it, and refused exactly when there is none with a valid code and UTF-8 text |
| ControlFrames.ClosePayloadParts | include/beast/websocket/detail/frame.hpp:174-226 | a payload comes from one reason only |
| ControlFrames.ControlFrameAdmissible | include/beast/websocket/detail/stream_base.hpp:256-291 | control frames of up to 125 octets are accepted in any message state, change none of it, and fit the frame buffer |
| ControlFrames.CloseExchange | include/beast/websocket/detail/stream_base.hpp:403-448 | written by one side and read by the other in any state, a reason comes back unchanged exactly when its code is valid and its text UTF-8, or it is empty without code |
| ControlFrames.WritePing | include/beast/websocket/detail/stream_base.hpp:450-479 | one ping or pong frame, or no room for it |
| ControlFrames.PingExchange | include/beast/websocket/detail/stream_base.hpp:450-479 | the data of a ping or pong comes back unchanged and the message state is not touched |
| TextMessages.Stream.Open | include/beast/websocket/detail/stream_base.hpp:165-180 | open() prepares for reading and leaves the UTF-8 checker as it is |
| TextMessages.Stream.CheckPayload | include/beast/websocket/impl/stream.ipp:511-526 | a piece of a text message is bad exactly when the text so far cannot become UTF-8, or, at the end, is not |
| TextMessages.Stream.CheckMessage | include/beast/websocket/impl/stream.ipp:516-525 | for pieces given: bad exactly when the whole text, with what was left in the checker, is not UTF-8, and found at the first piece that settles it |
| Replies.SendPong | include/beast/websocket/impl/stream.ipp:454-466 | one pong frame with the data of the ping, whole in the frame buffer |
| Replies.SendClose | include/beast/websocket/impl/stream.ipp:480-494 | one close frame with the reason, unless one has been sent before |
| Replies.RepliesAccepted | include/beast/websocket/detail/stream_base.hpp:256-291 | any run of such frames is accepted by the peer, whatever it is reading, and leaves its message alone |
| FrameReader.TakePayload | include/beast/websocket/impl/stream.ipp:497-530 | the payload of a data frame, whatever sizes the reads have: unmasked as a whole, and bad exactly when the text with it cannot become UTF-8, or at the end is not; where the stream is cut off, as much of it as there is |
| FrameReader.NextFrame | include/beast/websocket/impl/stream.ipp:427-453 | one frame as read_frame() takes it: the stream starts with it, it is admissible, and its text is judged; a frame that is cut off is bad if its octets already are, else the stream runs out |
| MessageReader.TakeControlFrame | include/beast/websocket/impl/stream.ipp:454-479 | a ping is answered with its data; a close payload is the reason that prints to it, or a failure exactly when no legal reason does |
| WholeMessages.OneMessageFirst | include/beast/websocket/impl/stream.ipp:358-378 | a stream starts with the frames of one message only, with pings and pongs wherever they are |
| MessageReader.TakeFrame | include/beast/websocket/impl/stream.ipp:427-530 | one turn: it ends the reading with the result that is due to what the stream starts with, or it takes one frame in the middle of a message and answers it if it is a ping |
| MessageReader.SentEnds | include/beast/websocket/impl/stream.ipp:358-378 | on a stream that starts with a message, the result is that message, or bad payload exactly when it is text and not UTF-8 |
| MessageReader.TakeMessage | include/beast/websocket/impl/stream.ipp:358-530 | the loop: the stream starts with accepted frames in the middle of a message, with a text that can still be completed, and the result is due to what follows: the end of a message, a frame, whole or cut off, at which the text goes bad, a legal or an illegal close frame, a rejected header, or none of these |
| MessageReader.ReadMessage | include/beast/websocket/impl/stream.ipp:358-557 | the same with the close frame that ends the connection, sent for bad payload, failure and close, with the octets of its code: 1007, 1009 for a message that is too big and 1002 for every other failure, and the code received or 1000 in answer to a close frame: all that is written is a pong for each ping, in order and with its data, and that frame, once; and a message cut into any frames, with pings and pongs in between, is delivered exactly when it is not text or its payload is UTF-8 |
| MessageReader.ReplyOctets | include/beast/websocket/impl/stream.ipp:478-490 | the octets of the code in the close frame: those received, or 03 e8, 03 ef, 03 f1, 03 ea, for each way a connection ends |
| ReadExamples.ReadHello | include/beast/websocket/impl/stream.ipp:380-545 | 81 05 .. and 01 03 .. 80 02 .. to a client and 81 85 .. to a server are the text "Hello", and nothing is written |
| ReadExamples.AnswerPing | include/beast/websocket/impl/stream.ipp:454-466 | a masked ping in front of it is answered with 8a 05 and its data |
| ReadExamples.FourEndings | include/beast/websocket/impl/stream.ipp:478-538 | a reserved opcode, a text over the limit, octets that are no text and a close frame with code 1001 are answered with 88 02 and 03 ea, 03 f1, 03 ef and 03 e9 |
| ReadResults.NotEarlier | include/beast/websocket/impl/stream.ipp:358-557 | no two ways of reading a stream end after different numbers of frames |
| ReadResults.OneResult | include/beast/websocket/impl/stream.ipp:358-557 | so for every stream, message state and text held there is one result only, after one sequence of frames: what `read()` is proved to return is all it can return |
| Closing.CloseEnds | include/beast/websocket/impl/stream.ipp:475-479 | a close frame that the peer has made is the end whatever is being read: its reason if that is legal, else a protocol error |
| Closing.CloseHandshake | include/beast/websocket/impl/stream.ipp:274-284 | `close()` on one side, `read()` on the other and then on the first, with nothing else on the wire: for every reason and both roles the other side gets it, or fails with a protocol error exactly when it is not legal; it answers with one close frame, the first side gets the code of the answer, and writes nothing more |
| MessageReader.FirstMessage | include/beast/websocket/detail/stream_base.hpp:165-180 | after open() the first text message is judged with what was left in the checker in front of it, and as it should be if that was whole characters |
| TextMessages.LeftoverHarmless | include/beast/websocket/detail/stream_base.hpp:165-180 | text with something in front of it is UTF-8 just when it is so by itself, for every text, exactly when what is in front is whole characters |
| MessageReader.Spoilt | include/beast/websocket/detail/stream_base.hpp:165-180 | a connection that ends after one octet of a character, and a text on the next one that is UTF-8 and is refused |
| Fragmenting.CutKeepsOctets | include/beast/websocket/impl/stream.ipp:703-745 | the frames of one call and what it keeps make up what it was given |
| Fragmenting.CutSizes | include/beast/websocket/impl/stream.ipp:703-745 | no frame exceeds the write buffer and less than a buffer is kept |
| Fragmenting.CutMarks | include/beast/websocket/impl/stream.ipp:703-745 | opcode on the first frame, continuations after it, fin on the last one and only with fin |
| Fragmenting.EarlyIff | include/beast/websocket/impl/stream.ipp:708-715 | a call without fin returns early exactly when its octets do not fill whole frames or there are none |
| Fragmenting.CallKeepsOctets | include/beast/websocket/impl/stream.ipp:674-798 | what one call does, in a message being continued or a new one |
| Fragmenting.ContinuedMessage | include/beast/websocket/impl/stream.ipp:674-798 | once a message is being continued nothing is lost |
| Fragmenting.NothingAdded | include/beast/websocket/impl/stream.ipp:674-798 | never is more sent than was written |
| Fragmenting.MessageEnds | include/beast/websocket/impl/stream.ipp:674-798 | fin is on the last frame of a message and nowhere else, even if octets are lost |
| Fragmenting.FaithfulIff | include/beast/websocket/impl/stream.ipp:674-798 | the frames of a message written by several calls are one message with the octets written exactly when auto fragmentation is off, or the first buffer that is not empty fills whole frames, or is the last |
| Fragmenting.LostOctet | include/beast/websocket/impl/stream.ipp:703-745 | two calls that lose an octet |
| MessageWriter.Sender.WrPrepare | include/beast/websocket/detail/stream_base.hpp:379-401 | the options take effect, what was kept is dropped, and a buffer of the right size exists where one is needed |
| MessageWriter.Sender.SendFrame | include/beast/websocket/impl/stream.ipp:727-733 | the octets written to the next layer are always those of whole frames |
| MessageWriter.Sender.WriteAutofrag | include/beast/websocket/impl/stream.ipp:703-745 | the loop over the write buffer sends exactly the pieces of the rule, each masked with its own key for a client |
| MessageWriter.LoopSends | include/beast/websocket/impl/stream.ipp:716-742 | one pass of the loop keeps what is sent and what is left equal to the rule |
| MessageWriter.Sender.FillAndMask | include/beast/websocket/impl/stream.ipp:773-778 | a buffer's worth masked with the running key continues the masked payload |
| MessageWriter.Sender.WriteMasked | include/beast/websocket/impl/stream.ipp:746-786 | without auto fragmentation a client's call sends one frame, masked a buffer at a time as one payload |
| MessageWriter.Sender.WritePlain | include/beast/websocket/impl/stream.ipp:787-798 | a server's call sends one frame |
| MessageWriter.Sender.WriteFrame | include/beast/websocket/impl/stream.ipp:674-798 | all three branches do as the rule says |
| WriteExamples.WriteHello | include/beast/websocket/impl/stream.ipp:674-798 | a new server writes "Hello" as 81 05 .., or as 01 03 .. 80 02 .. with a write buffer of three octets |
| MessageWriter.Sender.constructor | include/beast/websocket/detail/stream_base.hpp:78-80 | by default messages are text and are cut into frames of 4096 octets |
| Delivery.WriteBuffers | include/beast/websocket/impl/stream.ipp:674-798 | one call per buffer sends the frames of the rule, and no message is under way afterwards |
| Delivery.WriteMessage | include/beast/websocket/stream.hpp:169-244 | with the options set for it, the frames are those of the message exactly under the condition of Fragmenting, their octets are what is added to the wire, and the next message can follow |
| Delivery.FragmentsAccepted | include/beast/websocket/detail/stream_base.hpp:193-377 | the frames of a message are an accepted run for the peer that expects one exactly when the message fits its limit |
| Delivery.AcceptedMessage | include/beast/websocket/detail/stream_base.hpp:227-254 | frames sent for a message, octets lost or not, that the peer accepts are one message: the opcode first, then continuations |
| Delivery.ArrivesIf | include/beast/websocket/impl/stream.ipp:358-378 | under the conditions on limit, fragmentation and text the peer accepts the frames as the message that was written |
| Delivery.ArrivesOnlyIf | include/beast/websocket/impl/stream.ipp:358-378 | and nothing that read() can deliver from them is the message that was written unless the conditions hold |
| Delivery.Deliver | include/beast/websocket/impl/stream.ipp:358-798 | from write_frame() on one side through masking, printing, parsing and the text check to read() on the other: type and payload come out as they were written exactly when the message fits the peer's limit, auto fragmentation is off or loses nothing, and it is not text or is UTF-8; for both roles, any keys and any sizes |
| Exchange.WriteAll | include/beast/websocket/impl/stream.ipp:640-798 | messages written one after the other, each with its own type and options, put the octets of their frames on the wire in order |
| Exchange.DeliverAll | include/beast/websocket/impl/stream.ipp:358-798 | any list of messages on one connection: for every k, the first k come out of read() as they were written exactly when each of them meets the conditions by itself |
| BufferCat.IndexDenotes | include/beast/core/detail/buffer_cat.hpp:256-263 | a canonical position is in front of the element its index denotes in the concatenation, or at the end |
| BufferCat.IndexInjective | include/beast/core/detail/buffer_cat.hpp:240-247 | an index has one canonical position |
| BufferCat.IndexOnto | include/beast/core/detail/buffer_cat.hpp:156-174 | and every index has one, wherever empty sequences are |
| BufferCat.ConstIterator.Construct | include/beast/core/detail/buffer_cat.hpp:156-174 | skips empty sequences to the next element or the end, at the same index |
| BufferCat.ConstIterator.Assign | include/beast/core/detail/buffer_cat.hpp:396-409 | the iterator becomes the other one |
| BufferCat.ConstIterator.Equals | include/beast/core/detail/buffer_cat.hpp:411-421 | equal exactly for one buffer sequence and one index |
| BufferCat.ConstIterator.Dereference | include/beast/core/detail/buffer_cat.hpp:249-263 | the element at the index, or the exception exactly at the end |
| BufferCat.ConstIterator.Increment | include/beast/core/detail/buffer_cat.hpp:265-286 | one index on, canonical again; the exception exactly at the end, without moving |
| BufferCat.ConstIterator.Decrement | include/beast/core/detail/buffer_cat.hpp:288-331 | one index back, canonical again, so it undoes increment; the exception exactly at index 0, and what it leaves behind |
| BufferCat.BufferCatHelper.Begin | include/beast/core/detail/buffer_cat.hpp:452-458 | an iterator at index 0 |
| BufferCat.BufferCatHelper.End | include/beast/core/detail/buffer_cat.hpp:460-466 | an iterator at the index behind the last element |
| BufferCat.Walk | include/beast/core/detail/buffer_cat.hpp:432-466 | walking from begin() to end() visits the concatenation in order, and ends |
| BufferCat.WalkBack | include/beast/core/detail/buffer_cat.hpp:442-466 | walking back visits it in the opposite order |
| Rfc7230.TcharTable | include/beast/http/detail/rfc7230.hpp:70-91 | the table is the tchar of section 3.2.6 of RFC 7230 |
| Rfc7230.QdcharTable | include/beast/http/detail/rfc7230.hpp:93-119 | the table is qdtext |
| Rfc7230.QpcharTable | include/beast/http/detail/rfc7230.hpp:121-148 | the table is what may follow the backslash of a quoted-pair |
| ParamList.SkipOws | include/beast/http/detail/rfc7230.hpp:223-234 | stops at the first character that is not white space |
| ParamList.SkipToken | include/beast/http/detail/rfc7230.hpp:236-242 | stops behind the token |
| ParamScan.QuotedIsPrinted | include/beast/http/detail/rfc7230.hpp:332-354 | what the loop over a quoted value accepts is a quoted-string of the grammar |
| ParamScan.NextParamCut | include/beast/http/detail/rfc7230.hpp:284-365 | for every input: slices in order and in the string, progress, a name that is a token of section 3.2.6 of RFC 7230, a value that is empty, a token or a quoted-string of it |
| ParamScan.ParamIsPrinted | include/beast/http/detail/rfc7230.hpp:284-365 | whatever increment() yields, the characters it went over are a parameter of the grammar that says just that; only at the end may a `=` be left over |
| ParamList.ParamIter.Increment | include/beast/http/detail/rfc7230.hpp:284-365 | finds the next parameter, or reports empty at the place it started from |
| ParamList.Unquoted | include/beast/http/impl/rfc7230.ipp:133-150 | a quoted-string becomes the characters it stands for |
| ParamList.ListIterator.Increment | include/beast/http/impl/rfc7230.ipp:152-171 | the next parameter with its value unquoted, or the end |
| ParamList.All | include/beast/http/impl/rfc7230.ipp:61-113 | iteration comes to an end for every string and sees its parameters in order |
| ParamScan.ParamSpan | include/beast/http/detail/rfc7230.hpp:284-365 | one printed parameter is read back when a semicolon or the end follows it, with or without white space in between |
| ParamScan.ListRoundTrip | include/beast/http/detail/rfc7230.hpp:284-365 | every list of names with absent, token or quoted values, with white space wherever the grammar has it, is read back exactly and to its end |
| ParamList.Example | test/http/rfc7230.cpp:86 | a list with tabs, spaces, a token and a quoted-pair is seen as its two parameters |
| ParamScan.ListIsPrinted | include/beast/http/detail/rfc7230.hpp:284-365 | the converse, for every string: the parameters seen are those written in it, up to where the iteration stops |
| ParamErrors.ReadToEnd | include/beast/http/detail/rfc7230.hpp:284-365 | the strings read to their end are exactly the parameter lists and those that lack only the value after a last `=` |
| ParamErrors.RejectionIsFinal | include/beast/http/detail/rfc7230.hpp:297-365 | whatever follows the character that stops the iteration, it stops there with the same parameters |
| ParamErrors.FirstInvalid | include/beast/http/detail/rfc7230.hpp:297-365 | the character at which the iteration stops is the first invalid one: a front of the string can be completed to a list of the grammar exactly when it does not go beyond it |
| ParamErrors.CutAtInvalid | include/beast/http/rfc7230.hpp:22-25 | the documented rule for strings with an error holds exactly when the text in front of the first invalid character does not end in a name, white space and possibly `=`; else the iteration drops one parameter |
| ParamErrors.DroppedParameter | test/http/rfc7230.cpp:92 | `;x=,` yields nothing although `;x=` yields x |
| ChunkEncode.UnhexTable | include/beast/http/detail/rfc7230.hpp:206-221 | digits and no other ASCII characters have a value; the rest counts as 0 |
| ChunkEncode.UnhexDigits | include/beast/http/detail/rfc7230.hpp:206-221 | the values of '0' to '9', 'A' to 'F' and 'a' to 'f' |
| ChunkEncode.ToHexValue | include/beast/http/detail/chunk_encode.hpp:32-48 | folding unhex() over the digits gives the number back, without leading zeros |
| ChunkEncode.TwoDigits | include/beast/http/detail/chunk_encode.hpp:32-48 | sixteen times the first digit and the second, written in lower case and read in either |
| ChunkEncode.ChunkEncodeText.WriteHex | include/beast/http/detail/chunk_encode.hpp:32-48 | the digits are written backwards, never in front of the array |
| ChunkEncode.ChunkEncodeText.constructor | include/beast/http/detail/chunk_encode.hpp:64-73 | the text is the size and CRLF |
| ChunkEncode.ChunkEncodeText.Copy | include/beast/http/detail/chunk_encode.hpp:55-62 | a copy has the same text in its own storage |
| ChunkEncode.Encode | include/beast/http/detail/chunk_encode.hpp:99-113 | the buffers of the result, put together, are one chunk with the octets of all the buffers given |
| ChunkEncode.EncodedIsChunked | include/beast/http/detail/chunk_encode.hpp:99-126 | pieces that are not empty, and the final chunk, make the chunked body of section 4.1 of RFC 7230 with those pieces |
| ChunkEncode.BodyIsDecoded | include/beast/http/detail/chunk_encode.hpp:99-126 | the decoding procedure of section 4.1.3 reads every chunked body of the grammar as its pieces and stops at its end |
| ChunkEncode.DecodedIsBody | include/beast/http/detail/chunk_encode.hpp:99-126 | and what the procedure reads is a chunked body of the grammar, of those pieces |
| ChunkEncode.UniquelyDecodable | include/beast/http/detail/chunk_encode.hpp:99-126 | chunked bodies are uniquely decodable, even with something behind them |
| ChunkEncode.DecodeEncoded | include/beast/http/detail/chunk_encode.hpp:99-126 | encoded pieces come back exactly when none is empty; otherwise the body ends at the first empty one |
| HeaderFields.Reassembled | include/beast/http/parser_v1.hpp:193-264 | for every cutting of names and values into pieces, the pairs inserted are the fields in order, put together |
| HeaderFields.MessageParsed | include/beast/http/parser_v1.hpp:193-283 | the same for a whole message, start line in front and body behind, in any pieces |
| HeaderFields.RunText | include/beast/http/parser_v1.hpp:203-222 | method, URI, reason and body are the pieces of their kind put together in order |
| HeaderFields.RunFields | include/beast/http/parser_v1.hpp:193-264 | all fields but the last are inserted, the last is held |
| HeaderFields.TrailerLosesLast | include/beast/http/parser_v1.hpp:247-283 | of the fields after on_headers() all but the last are inserted |
| HeaderFields.StoredRun | include/beast/http/parser_v1.hpp:193-264 | what is stored grows by exactly the octets delivered |
| HeaderFields.HeardState | include/beast/http/basic_parser_v1.hpp:670-770 | a request keeps method and URI and no reason, a response the reason and neither of them; all else is as if everything were delivered |
| HeaderFields.HeardCost | include/beast/http/basic_parser_v1.hpp:670-837 | what counts against the limits is the size of the strings kept |
| HeaderFields.BasicParserV1.CallCounted | include/beast/http/basic_parser_v1.hpp:670-807 | method and URI are passed over for a response and the reason for a request; other callbacks run exactly when the piece fits what is left, or there is no limit; else nothing changes |
| HeaderFields.BasicParserV1.CallBody | include/beast/http/basic_parser_v1.hpp:825-837 | the same for the body |
| HeaderFields.BasicParserV1.Deliver | include/beast/http/basic_parser_v1.hpp:670-837 | over a whole run, failed or not, what is stored and what is left always make up what they made up before, and the run fails exactly when it would go over a limit |
| HeaderFields.ParseLimited | include/beast/http/basic_parser_v1.hpp:322-837 | the callbacks up to the first that goes over a limit: verb and URI for a request, the reason for a response, and the body are their pieces put together, the fields are those of the whole run; it goes to the end exactly when the strings fit the limits; what is left is the rest of the limit |

## Left out

- Input and output errors, Asio streams, handlers and asynchronous operations: every transfer in the model succeeds.
- MessageWriter.Sender.SendFrame: a write to the next layer that fails is not modelled, nor is `failed_`.
- MessageWriter.Sender.WriteFrame: the buffer sequence is given as its octets; `consuming_buffers` is not part of this model.
- Receive.ReadPayload: the payload comes in as sequences of octets; `prepare_buffers` and the dynamic buffer it is delivered to are not part of this model.
- Receive.ReceiveFrame: returns control frames like any others, and takes their payload with the loop for data payloads, where the source and `FrameReader` take it in one read.
- MessageReader.ReadMessage: what is written is returned and does not go through `stream_`; closing the next layer (`call_teardown`) and the pong callback are not part of this model.
- FrameReader.NextFrame: replies are left to TakeControlFrame; `read_frame()` on its own returns after each read, here a payload is taken to its end, as `read()` does by calling it again.
- TextMessages.Stream.CheckMessage: takes the pieces as they come; FrameReader.TakePayload and TakeMessage tie them to the octets on the wire.
- TextMessages.LeftoverHarmless: speaks of the grammar alone; `open()` and the verdict on the next message are in MessageReader.FirstMessage.
- The size limit of `dynabuf`, `clamp` of `rd_need_` to `std::size_t` on 32-bit machines, and message compression, which the source has not got yet.
- Random mask keys: any key is possible, so nothing is said about their quality.
- The HTTP parser's states between characters; only the pieces it hands on and their limits are modelled.
- HeaderFields.Reassembled: `on_request()`, `on_response()` and `on_body_what()` only move strings on to the message or start a reader.
- `basic_headers`: how pairs handed to `insert` are stored and found.
- `ext_list` and `token_list`, which add commas around the lists modelled here.
- ChunkEncode.BodyIsDecoded: chunk extensions and trailer fields, which the encoder never makes, are not in the grammar.
- The handshake, Base64 and `Sec-WebSocket-Accept`.
- BufferCat.ConstIterator.Assign: the lifetimes of the inner iterator objects in raw storage; the model has their positions.
- Status reason strings, MIME types, string utilities, `trim` and case-insensitive comparison: easy.
