# tinyosc, modelled in Dafny

This project models the Open Sound Control (OSC 1.0) codec that the firmware
vendors as tinyosc (`include/tinyosc.hpp`). The codec has four parts:

- **Message writer.** `writeMessage` clears a caller buffer. It then writes
  the address, the `,` and the type tags, and the arguments, each padded to
  a multiple of 4 bytes, and returns the message length.
- **Message view.** `parseMessage` points a `message` view at a buffer and
  finds its type tags and first argument. The `getNext*` readers take the
  arguments one at a time from the read head `marker`. `reset` rewinds the
  head. `getAddress`, `getFormat` and `getLength` report the parts.
- **Bundle writer.** `writeBundle` puts the tag `#bundle\0` and the 8-byte
  timetag at the start of a buffer. Each `writeNextMessage` appends a 4-byte
  big-endian size and one message. `getBundleLength` reports the bytes
  committed so far.
- **Bundle reader.** `isBundle` recognises the tag. `parseBundle` and
  `getTimetag` read the header. `getNextMessage` points a message view at
  each element in turn.

The files:

- `Wire.dfy` (module `Wire`) holds the layout rules shared by every field:
  - bytes and 4-byte padding;
  - big-endian words and two's complement storage;
  - OSC-strings and OSC-blobs.
- `Message.dfy` (module `OscMessage`) is the message as a value:
  - the typed arguments;
  - the encoder `EncodeMessage` and the decoder `DecodeMessage`;
  - the header parser `ParseHeader`, with its error codes;
  - the round-trip lemmas connecting the encoder and the decoder.
- `Writer.dfy` (module `Writer`) is `writeMessage`:
  - a method that writes into an `array<byte>`;
  - its specification function `Compose`.
- `Reader.dfy` (module `Reader`) is the `message` view. It is a class whose
  methods move `marker`, each proved against the decoder in `OscMessage`.
- `Bundle.dfy` (module `OscBundle`) has four parts:
  - the bundle layout as a value;
  - the `bundle` view as a class over an `array<byte>`;
  - the reading loop a bundle client runs;
  - a sender and a receiver that write a bundle and read it back.

The C variadic argument list becomes a sequence of `OscArg` values. The
type-tag string is checked against that sequence. Every way `writeMessage`,
`parseMessage`, `getNextString`, `getNextBlob`, `writeNextMessage` and
`getNextMessage` can fail is modelled as an explicit result.

## Model

| member | source | states |
|---|---|---|
| Wire.Pad4 | include/tinyosc.hpp:44-49 | the padded size is the smallest multiple of 4 not below the unpadded size |
| Wire.FromToBigEndian | include/tinyosc.hpp:93-106 | reading back the n big-endian bytes written for a value below 256^n gives that value |
| Wire.ToFromBigEndian | include/tinyosc.hpp:93-106 | writing back the value read from big-endian bytes gives those bytes |
| Wire.SignedWordsRoundTrip | include/tinyosc.hpp:93-101 | storing an int32 or int64 as its two's complement word and reading it back loses nothing |
| Wire.NulFrom | include/tinyosc.hpp:118-121 | the bytes before the result are non-NUL, and the result is a NUL or the end of the buffer |
| Wire.NulFromUnique | include/tinyosc.hpp:118-121 | any position with those two properties is the first NUL |
| Wire.OscString | include/tinyosc.hpp:118-121 | an OSC-string is the bytes, then a NUL, padded to a multiple of 4 |
| Wire.OscBlob | include/tinyosc.hpp:123-128 | an OSC-blob is a 4-byte big-endian length, then the bytes, then NULs up to a multiple of 4 |
| OscMessage.Tags | include/tinyosc.hpp:44-49 | the type-tag string has one tag per argument, in order, and no NUL |
| OscMessage.EncodeArg | include/tinyosc.hpp:44-49 | each argument's wire form takes its padded size, a multiple of 4 |
| OscMessage.EncodeArgsSize | include/tinyosc.hpp:44-49 | the encoded arguments take exactly the sum of their padded sizes |
| OscMessage.EncodeArgsAppend | include/tinyosc.hpp:44-49 | encoding one more argument appends its wire form |
| OscMessage.EncodeMessage | include/tinyosc.hpp:44-49 | a message's length is a multiple of 4: the padded address, the padded `,`+tags, then the arguments |
| OscMessage.DecodeArg | include/tinyosc.hpp:93-134 | a decoded argument has the requested tag and advances by its wire size within the buffer; an unknown tag reads nothing |
| OscMessage.DecodeString | include/tinyosc.hpp:118-121 | a string is read exactly when a NUL ends it and its padding stays inside the buffer |
| OscMessage.DecodeBlob | include/tinyosc.hpp:123-128 | a blob is read exactly when its length prefix and its padded payload stay inside the buffer |
| OscMessage.DecodeArgs | include/tinyosc.hpp:93-134 | the arguments read for a type-tag string have exactly those tags, in order |
| OscMessage.DecodeEncodeArg | include/tinyosc.hpp:93-134 | every argument written reads back as itself, wherever it sits in a buffer |
| OscMessage.DecodeEncodeArgs | include/tinyosc.hpp:93-134 | a run of written arguments reads back as itself, tag by tag |
| OscMessage.ErrorCode | include/tinyosc.hpp:147-148 | every parse error is reported as a negative code |
| OscMessage.ParseHeader | include/tinyosc.hpp:143-150 | a parsed header has '/' first, ',' after the padded address, and the first argument after the padded type tags, inside the buffer |
| OscMessage.AddressOf | include/tinyosc.hpp:77-81 | the address is a well-formed C string at the start of the message |
| OscMessage.TypeTagsOf | include/tinyosc.hpp:83-86 | the type tags are the NUL-terminated bytes after the ',' |
| OscMessage.DecodeMessage | include/tinyosc.hpp:143-150 | a decoded message has a well-formed address and valid arguments |
| OscMessage.ParseLaidOutHeader | include/tinyosc.hpp:143-150 | the header the encoder lays out parses to where the encoder put the type tags and the arguments |
| OscMessage.DecodeEncodeMessage | include/tinyosc.hpp:44-49 | decoding an encoded message, whatever follows it, gives back the address and the arguments in type-tag order |
| OscMessage.PotMessageLayout | src/main.cpp:45 | "/pot_1" with 'i' and any pot reading v encodes to "/pot_1\0\0", ",i\0\0", then v as a 4-byte big-endian two's complement word; a MIDI reading 0..127 is 00 00 00 v |
| Writer.Compose | include/tinyosc.hpp:44-49 | a message is written only when the values match the type tags; it fits in the buffer, its length is a multiple of 4, and it starts with the address and a NUL |
| Writer.ComposeSucceeds | include/tinyosc.hpp:44-49 | a message is written exactly when the values match the type tags and the message fits |
| Writer.ComposeSize | include/tinyosc.hpp:44-49 | the count returned is the padded address plus the padded type tags plus the padded arguments, a multiple of 4 and within the buffer |
| Writer.ComposeRoundTrip | include/tinyosc.hpp:44-49 | parsing the cleared and written buffer gives back the address and the arguments |
| Writer.ComposedParses | include/tinyosc.hpp:143-150 | every message written with a well-formed address parses as a message header |
| Writer.PotMessageWritten | src/main.cpp:45 | the firmware's call, with its 1024-byte buffer and any pot reading v, writes the 16-byte "/pot_1" message; in 12 bytes it would not fit |
| Writer.Clear | include/tinyosc.hpp:45-46 | every byte of the region is zero, and nothing outside it changes |
| Writer.WriteMessage | include/tinyosc.hpp:44-49 | the region holds the composed message followed by NULs, and its length is returned; on every error the region is all NULs; nothing outside the region changes |
| Reader.FindNul | include/tinyosc.hpp:118-121 | the scan stops at the first NUL, or at the end of the message |
| Reader.ReadBigEndian | include/tinyosc.hpp:93-106 | the loop computes the big-endian value of the bytes it reads |
| Reader.Message.constructor | include/tinyosc.hpp:24-29 | a new view holds no message |
| Reader.Message.Parse | include/tinyosc.hpp:143-150 | returns 0 exactly when the buffer holds a message header, and then views it with the read head on the first argument; otherwise returns that error's negative code and leaves the view unchanged |
| Reader.Message.Address | include/tinyosc.hpp:77-81 | the address is the C string that starts the message, and starts with '/' |
| Reader.Message.Format | include/tinyosc.hpp:83-86 | the type tags are the C string right after the ',' that `format` follows |
| Reader.Message.Length | include/tinyosc.hpp:88-91 | the length is that of the viewed bytes, and at least 8 |
| Reader.Message.GetNextInt32 | include/tinyosc.hpp:93-96 | the value is the int32 argument the decoder reads at the head, and the head moves 4 bytes |
| Reader.Message.GetNextInt64 | include/tinyosc.hpp:98-101 | the value is the int64 argument the decoder reads at the head, and the head moves 8 bytes |
| Reader.Message.GetNextTimetag | include/tinyosc.hpp:103-106 | the value is the timetag argument the decoder reads at the head, and the head moves 8 bytes |
| Reader.Message.GetNextFloat | include/tinyosc.hpp:108-111 | the bits are the float argument the decoder reads at the head, and the head moves 4 bytes |
| Reader.Message.GetNextDouble | include/tinyosc.hpp:113-116 | the bits are the double argument the decoder reads at the head, and the head moves 8 bytes |
| Reader.Message.GetNextString | include/tinyosc.hpp:118-121 | the string the decoder reads at the head, with the head past its padding; None, with the head left alone, when the string would run past the end |
| Reader.Message.GetNextBlob | include/tinyosc.hpp:123-128 | the blob and its length as the decoder reads them, with the head past the padding; None and 0, with the head left alone, when the blob would run past the end |
| Reader.Message.GetNextMidi | include/tinyosc.hpp:130-134 | the four MIDI bytes at the head (port, status, data1, data2), and the head moves 4 bytes |
| Reader.Message.Reset | include/tinyosc.hpp:136-141 | the head is back on the first argument, and the same view is returned |
| Reader.Message.GetNext | include/tinyosc.hpp:93-134 | the argument read for a tag is the one the decoder reads at the head, with bounds checked; otherwise None and the head left alone |
| Reader.Message.ReadArguments | include/tinyosc.hpp:93-134 | one pass of getNext* calls in type-tag order yields exactly the arguments the decoder reads |
| Reader.Message.ReadTwice | include/tinyosc.hpp:136-141 | a second pass after reset yields the same values as the first |
| OscBundle.IsBundle | include/tinyosc.hpp:55-59 | the buffer starts with "#bundle" and its NUL; such a buffer never parses as a message, its address being malformed |
| OscBundle.BundleDetected | include/tinyosc.hpp:55-59 | an encoded bundle is recognised as a bundle; no message, whatever follows it, is |
| OscBundle.EncodeBundle | include/tinyosc.hpp:152-161 | a bundle takes 16 header bytes plus 4 + the length of each element |
| OscBundle.EncodeBundleAppend | include/tinyosc.hpp:157-161 | writing one more message extends the bundle by its size field and its bytes |
| OscBundle.BundleTime | include/tinyosc.hpp:66-69 | the timetag is the value of bytes 8 to 16, read big-endian: writing it back big-endian gives those bytes |
| OscBundle.TimetagRoundTrip | include/tinyosc.hpp:66-69 | the timetag read from a bundle is the one it was written with |
| OscBundle.NextElement | include/tinyosc.hpp:71-75 | an element read lies inside the bundle, and the head moves past its size field and its bytes |
| OscBundle.ReadBack | include/tinyosc.hpp:71-75 | reading from the end of the k-th element gives the next element, and nothing after the last |
| OscBundle.MessageAhead | include/tinyosc.hpp:71-75 | in a bundle of messages, a message is found exactly while elements remain |
| OscBundle.WriteElement | include/tinyosc.hpp:157-161 | the bytes already committed stay; on success the bundle extended by the new message follows them, and the message is the one writeMessage composes |
| OscBundle.Bundle.constructor | include/tinyosc.hpp:31-37 | a new view holds no bundle |
| OscBundle.Bundle.WriteBundle | include/tinyosc.hpp:152-155 | the buffer starts with the tag and the timetag, the head is after them, the length is 16, and the rest of the buffer is unchanged |
| OscBundle.Bundle.WriteNextMessage | include/tinyosc.hpp:157-161 | on success the message is appended and its length returned, and the head and the bundle length advance by 4 + that length; on every error the bundle is unchanged |
| OscBundle.Bundle.GetBundleLength | include/tinyosc.hpp:163-166 | while writing, the length is 16 plus 4 + the length of each message written |
| OscBundle.Bundle.ParseBundle | include/tinyosc.hpp:61-64 | the view covers the whole buffer, with the head on the first element |
| OscBundle.Bundle.GetTimetag | include/tinyosc.hpp:66-69 | the timetag is the big-endian word after the tag |
| OscBundle.Bundle.GetNextMessage | include/tinyosc.hpp:71-75 | returns true exactly when a whole element that is a message lies under the head; then the view holds it with its head on the first argument, and the bundle head moves past it; otherwise nothing moves |
| OscBundle.Bundle.ReadElement | include/tinyosc.hpp:71-75 | in a bundle of messages, getNextMessage yields the next message, or false once all have been read |
| OscBundle.Bundle.ReadMessages | include/tinyosc.hpp:71-75 | calling getNextMessage until it returns false hands over every message of the bundle in order, and ends at the end of the bundle |
| OscBundle.SendTwo | include/tinyosc.hpp:152-166 | writeBundle and two writeNextMessage calls that fit write both messages, and the buffer starts with the bundle of the two, getBundleLength bytes long |
| OscBundle.Receive | include/tinyosc.hpp:61-75 | parseBundle, getTimetag and the getNextMessage loop over any bundle of messages give back its timetag and every message, in order |
| OscBundle.SendAndReceive | include/tinyosc.hpp:61-166 | a bundle written by the sender is read back by the receiver: the same timetag, the two messages in order, each decoding to its address and arguments |

## Left out

- printOscBuffer and printMessage only print to stdout.
- The bodies of the codec are not part of this model. The header's declarations and comments, and the OSC 1.0 layout, decide each contract.
- Floats and doubles are carried as their 32- and 64-bit IEEE-754 bit patterns. No floating-point value is modelled.
- The `va_list` of `vwrite` becomes a sequence of `OscArg` values. A type tag the codec cannot write, or values that do not match the type tags, are reported as errors.
- Writer.WriteMessage: checks the type tags, the values and the size before writing. On any error the region is left cleared and the error is returned instead of a count. The C function returns a byte count only.
- Reader.Message: holds the message bytes as a value. Aliasing between the view and the caller's buffer is not modelled. The bytes are never written through the view.
- Reader.Message.GetNextInt32, GetNextInt64, GetNextTimetag, GetNextFloat, GetNextDouble and GetNextMidi: require their bytes to lie inside the message. The header leaves that check to the caller. Reader.Message.GetNext makes the check and returns None instead.
- Reader.Message.Parse: leaves the view unchanged when it returns an error code.
- OscBundle.Bundle: the bundle starts at index 0 of its `array<byte>`. The elements and the timetag written are kept as ghost state.
- OscBundle.Bundle.WriteNextMessage: leaves the bundle unchanged when the size field or the message does not fit. The C function may leave a partly written element past the committed length.
- OscBundle.Bundle.GetNextMessage: checks that the size field and the element lie inside the bundle. If the element is not a message, it returns false and moves nothing.
- OscBundle.Bundle.WriteBundle: requires the buffer to hold at least the 16-byte header. writeBundle takes any length and reports no failure; with fewer than 16 bytes it would write past the end of the buffer, which the model does not describe.
- OscBundle.SendTwo and OscBundle.SendAndReceive: require both messages to fit. What happens when one does not is stated by OscBundle.Bundle.WriteNextMessage.
- OscBundle.Bundle.ParseBundle: requires the buffer to hold at least the 16-byte header. The tag itself is not checked here; isBundle does that.
- Nested bundles are not modelled. An element that is itself a bundle is read as an element that is not a message.
- src/main.cpp, src/sensors.cpp and include/sensors.hpp are not part of this model, apart from the one writeMessage call whose bytes are worked out. They hold network and sensor I/O and the polling loop.
