# NFC Type 4 Tag emulation service in Dafny

This project models `HostService`, an Android host-card-emulation service
that poses as an NFC Forum Type 4 Tag (Mapping Version 2.0) holding one NDEF
message with a single Text record. A reader sends ISO/IEC 7816-4 command
APDUs: SELECT (INS `A4`) and READ BINARY (INS `B0`). The service compares
each command with a fixed list of byte templates, in order, and the first
match decides the answer. The service keeps three pieces of state between
commands:

- `ccCheck` (`READ_CAPABILITY_CONTAINER_CHECK`) is set after the capability
  container has been read.
- `ndefBytes` (`NDEF_URI_BYTES`) is the serialized NDEF message.
- `ndefLen` (`NDEF_URI_LEN`) is the 2-byte length prefix of the NDEF file.

The project has four modules:

- `ByteArrays` (`byte_arrays.dfy`) holds the service's static helpers.
  `SliceOfArray` models `getSliceOfArray`. `ArrayCopy` models
  `System.arraycopy`. `ToHex` models `toHex`. `PadLeft` models
  `fillByteArrayToFixedDimension`. `ToByteArray` is a specification of
  `BigInteger.toByteArray`: the minimal big-endian two's-complement encoding.
  Bytes are a `newtype byte` over 0..255, an unsigned view of Java's
  signed byte. Equality is unchanged by that view, and so is every
  template test. `toHex` is the one place where the source itself masks a
  byte with `0xFF`.
- `NdefText` (`ndef_text.dfy`) holds the Text-record payload built by
  `createTextRecord`. `ParseTextPayload` is its reader-side partner, written
  from section 3.2.1 of the NFC Forum Text Record Type Definition.
- `Type4Tag` (`type4_tag.dfy`) holds the templates as constants and
  `Dispatch`, the answer to one command as a function of the command, the
  flag and the length prefix. It also holds `Serve`, a whole reader session
  as a sequence of commands. The class `HostService` has the three fields.
  Its `ProcessCommandApdu` is the imperative chain of tests, proved equal to
  `Dispatch`. `SetContent` models `onStartCommand`.
- `Type4TagProperties` (`type4_tag_properties.dfy`) holds the lemmas about
  dispatch and sessions.

The service follows the command flow of the NFC Forum Type 4 Tag Operation
specification (Mapping Version 2.0). Where its code departs from the
intended behaviour, the model follows the code:

- The generic READ BINARY test compares the 1-byte slice
  `getSliceOfArray(cmd, 0, 1)` with the 2-byte prefix `00 B0`, so it never
  succeeds. Every READ BINARY other than `00 B0 00 00 0F` (with the flag
  clear) and `00 B0 00 00 02` therefore gets `6A 82`. That includes the
  reader's request for the NDEF content itself. `ReadBinaryHeadNeverMatches`,
  `ReadBinaryDataUnreachable` and `ReaderCommandFlow` state this.
- Even with that test fixed, the data branch would not serve the window.
  The end index of `getSliceOfArray` is exclusive. So the offset (line 190)
  is the hex form of P1 (byte 2) alone, parsed as a decimal number, and P2
  is never read. A command shorter than 3 bytes throws
  `ArrayIndexOutOfBoundsException` there (line 249), and a P1 whose hex
  form holds a digit A to F throws `NumberFormatException`. Any command
  that gets past line 190 then throws at line 192. That line parses the hex
  form of `getSliceOfArray(cmd, 4, 4)`, an empty slice, so it parses `""`.
  Every command that reaches the branch therefore throws, at line 190 or at
  line 192, and no window is ever served.
- So only the window arithmetic after the parsing (lines 194-210) is
  modelled, on its own, as `ReadBinaryWindow`. It takes the offset and
  length as integers. An offset past the end gives no response, because the
  source would throw there instead of answering `6A 82`.
- Deactivation does not clear the flag (`onDeactivated` is empty), so the
  flag carries over from one reader session to the next (`SessionsCompose`,
  `FlagCarriesOverSessions`).
- For a message longer than 0x7FFF bytes, `SetContent` does not complete.
  The length encodes to more than two bytes, and the padding recursion
  never ends. By then the message has already been replaced while the
  length prefix has not, so the update is not atomic.
- An empty command throws `ArrayIndexOutOfBounds`. It does not get `6A 82`.

## Model

| member | source | states |
|---|---|---|
| `ByteArrays.ToByteArray` | app/src/main/java/com/proingesistinrfor/nfcemulatecard/emulated/HostService.java:119 | the encoding of a non-negative length has at least one byte and a clear sign bit. Read big-endian, it gives the value back. No leading byte is redundant. |
| `ByteArrays.ToByteArrayLength` | app/src/main/java/com/proingesistinrfor/nfcemulatecard/emulated/HostService.java:119 | the encoding has at most k bytes iff the value is below 0x80·256^(k−1). So the NDEF length fits two bytes iff it is at most 32767. |
| `ByteArrays.PadLeft` | app/src/main/java/com/proingesistinrfor/nfcemulatecard/emulated/HostService.java:274-283 | padding to n ≥ \|a\| gives n bytes that end in `a`, with the first n−\|a\| bytes zero. The result is `a` itself when \|a\| = n. A longer array is excluded, since the recursion never ends on it. |
| `ByteArrays.PadLeftValue` | app/src/main/java/com/proingesistinrfor/nfcemulatecard/emulated/HostService.java:274-283 | zero-padding keeps the big-endian value of the array |
| `ByteArrays.SliceOfArray` | app/src/main/java/com/proingesistinrfor/nfcemulatecard/emulated/HostService.java:242-254 | it needs end ≥ start, and in-bounds indices once any byte is copied. It returns a fresh array of end−start bytes with `slice[i] == arr[start+i]`. |
| `ByteArrays.ArrayCopy` | app/src/main/java/com/proingesistinrfor/nfcemulatecard/emulated/HostService.java:177-180 | the copied range of the destination holds the source range, and every other destination byte is unchanged |
| `ByteArrays.ToHex` | app/src/main/java/com/proingesistinrfor/nfcemulatecard/emulated/HostService.java:230-240 | the output has 2·n characters. Characters 2j and 2j+1 are the high- and low-nibble digits of byte j, and read back as that byte. |
| `NdefText.CreateTextPayload` | app/src/main/java/com/proingesistinrfor/nfcemulatecard/emulated/HostService.java:267-270 | the payload has 1+\|lang\|+\|text\| bytes: a status byte equal to \|lang\| mod 256, then the language bytes, then the text bytes |
| `NdefText.TextPayloadRoundTrip` | app/src/main/java/com/proingesistinrfor/nfcemulatecard/emulated/HostService.java:267-270 | with a language code shorter than 64 bytes, the status byte declares UTF-8, and a reader parsing the payload gets the language code and text back exactly |
| `NdefText.ParsedPayloadIsBuilt` | app/src/main/java/com/proingesistinrfor/nfcemulatecard/emulated/HostService.java:267-268 | conversely, a payload with a UTF-8 status byte that parses is the payload built from what it parses to |
| `Type4Tag.LengthPrefix` | app/src/main/java/com/proingesistinrfor/nfcemulatecard/emulated/HostService.java:117-119 | for a message of at most 32767 bytes, `NDEF_URI_LEN` is the 2-byte big-endian length `[n / 256, n % 256]` |
| `Type4Tag.ReadBinaryWindow` | app/src/main/java/com/proingesistinrfor/nfcemulatecard/emulated/HostService.java:194-210 | a window exists iff the offset is at most the file size (prefix plus message). The data is the file from the offset on, no longer than requested, and shorter only at the end of the file. It is followed by `90 00`. An offset equal to the size gives exactly `90 00`. |
| `Type4Tag.Dispatch` | app/src/main/java/com/proingesistinrfor/nfcemulatecard/emulated/HostService.java:145-222 | the answer to one command, tests taken in source order, first match wins. The answer is an exception iff the command is empty. Every answer has at least 2 bytes. The flag is set afterwards iff the container was just read, or the flag was set and the command was not the length read. The generic READ BINARY branch (188-216) has no case: `ReadBinaryHeadNeverMatches` proves its test false, and `ProcessCommandApdu` holds `assert false` in it. |
| `Type4Tag.ReadBinaryHeadNeverMatches` | app/src/main/java/com/proingesistinrfor/nfcemulatecard/emulated/HostService.java:87-90 | a 1-byte slice of a command, as taken at line 188, never equals the 2-byte prefix `00 B0` |
| `Type4Tag.Serve` | app/src/main/java/com/proingesistinrfor/nfcemulatecard/emulated/HostService.java:134-228 | a reader session answers its commands one by one, the flag carried from each to the next and never reset between sessions. The session throws iff one of its commands is empty. Otherwise it gives one response per command. |
| `Type4Tag.HostService.constructor` | app/src/main/java/com/proingesistinrfor/nfcemulatecard/emulated/HostService.java:55-119 | the flag starts clear. The tag holds the given serialized message, and the length prefix agrees with it. |
| `Type4Tag.HostService.SetContent` | app/src/main/java/com/proingesistinrfor/nfcemulatecard/emulated/HostService.java:123-128 | the message is replaced and the flag is kept. The call completes iff the message has at most 32767 bytes, and then the prefix agrees with it. Otherwise the old prefix stays. |
| `Type4Tag.HostService.ProcessCommandApdu` | app/src/main/java/com/proingesistinrfor/nfcemulatecard/emulated/HostService.java:134-223 | the response and the new flag are those `Dispatch` gives for the command, or the exception it names. The message and the prefix never change, so a consistent service stays consistent. The data branch at 188-216 is proved dead by `ReadBinaryHeadNeverMatches`. |
| `Type4TagProperties.SelectCommandsAnswerOk` | app/src/main/java/com/proingesistinrfor/nfcemulatecard/emulated/HostService.java:145-173 | the application, capability-container and NDEF-file SELECT templates each get exactly `90 00`, with the flag unchanged |
| `Type4TagProperties.ReadCapabilityContainerOnlyOnce` | app/src/main/java/com/proingesistinrfor/nfcemulatecard/emulated/HostService.java:57-75 | `00 B0 00 00 0F` with the flag clear gets the 17-byte container ending in `90 00`, which names NDEF file E104, and sets the flag. With the flag set, it gets `6A 82` and the flag stays set. |
| `Type4TagProperties.ReadNdefLengthClearsFlag` | app/src/main/java/com/proingesistinrfor/nfcemulatecard/emulated/HostService.java:175-186 | `00 B0 00 00 02` gets the length prefix followed by `90 00`, and clears the flag |
| `Type4TagProperties.UnrecognizedCommandGetsError` | app/src/main/java/com/proingesistinrfor/nfcemulatecard/emulated/HostService.java:188-222 | a non-empty command that no template accepts gets exactly `6A 82`, with the flag unchanged. An empty command throws an index error. |
| `Type4TagProperties.ReadBinaryDataUnreachable` | app/src/main/java/com/proingesistinrfor/nfcemulatecard/emulated/HostService.java:188-222 | every READ BINARY except the two templates gets `6A 82` with the flag unchanged, whatever its offset and length |
| `Type4TagProperties.DispatchReplyShape` | app/src/main/java/com/proingesistinrfor/nfcemulatecard/emulated/HostService.java:145-222 | every non-empty command is answered, and the response ends in `90 00` or `6A 82`. It ends in `6A 82` iff no template accepted the command. |
| `Type4TagProperties.LengthReadAnswersMessageLength` | app/src/main/java/com/proingesistinrfor/nfcemulatecard/emulated/HostService.java:175-186 | on a consistent service, `00 B0 00 00 02` gets the 2-byte big-endian length of the stored message followed by `90 00`, and clears the flag |
| `Type4TagProperties.RepeatedSelectIsIdempotent` | app/src/main/java/com/proingesistinrfor/nfcemulatecard/emulated/HostService.java:145-148 | sending a SELECT template n times gets n responses of `90 00` and leaves the flag as it was |
| `Type4TagProperties.SessionsCompose` | app/src/main/java/com/proingesistinrfor/nfcemulatecard/emulated/HostService.java:226-228 | serving two sessions in a row is the same as serving the second from the flag the first left. Deactivation resets nothing. |
| `Type4TagProperties.FlagCarriesOverSessions` | app/src/main/java/com/proingesistinrfor/nfcemulatecard/emulated/HostService.java:161-165 | a session that reads the container, then a new session that reads it again, gets the container and then `6A 82`. The flag is still set at the end. |
| `Type4TagProperties.ReaderCommandFlowTail` | app/src/main/java/com/proingesistinrfor/nfcemulatecard/emulated/HostService.java:170-222 | with the flag set: SELECT the NDEF file, read its length, read the content from offset 2. The answers are `90 00`, the prefix with `90 00`, then `6A 82`. The flag ends clear. |
| `Type4TagProperties.ReaderCommandFlow` | app/src/main/java/com/proingesistinrfor/nfcemulatecard/emulated/HostService.java:137-222 | the mapping's command flow is: SELECT the application, SELECT and read the container, SELECT the NDEF file, read its length, read the content from offset 2. The answers are `90 00`, `90 00`, the container, `90 00`, the prefix with `90 00`, then `6A 82`. |
| `Type4TagProperties.ChunkedReadsReassemble` | app/src/main/java/com/proingesistinrfor/nfcemulatecard/emulated/HostService.java:194-210 | successive data windows of any positive size, each starting where the last one ended, rebuild the file from the first offset to its end |

## Left out

- The Android UI (`MainActivity.java`) is not modelled. It only forwards the text the user typed to the service.
- Logging is left out. That covers the `Log.i`/`Log.wtf` calls and the `toHex` calls that only feed them.
- The service lifecycle is left out: `START_STICKY`, the intent plumbing and the `Bundle` argument of `processCommandApdu`, which is never used.
- `SetContent` models only the branch of `onStartCommand` where the intent carries new text. Without that extra, nothing changes.
- Building and serializing the NDEF record and message is platform library code (`NdefRecord`, `NdefMessage.toByteArray`), including the record header and the id `E1 04`. The serialized message therefore enters the model as opaque bytes, passed to the constructor and to `SetContent`.
- Encoding the language code as US-ASCII and the text as UTF-8 (`String.getBytes`) is left out. So is the exception handler that swallows encoding errors. `CreateTextPayload` takes both as already-encoded bytes.
- The offset and length parsing of the data branch (lines 190-192) is left out. That code is unreachable, and it would throw on every command, as described above. `ReadBinaryWindow` takes the offset and length as integers instead.
- The repeated READ BINARY flow is captured only by `ReadBinaryWindow` and `ReadInChunks`, since dispatch never reaches that branch.
- Responses are returned as byte values. The source returns its shared static template arrays, so a caller could alias them; that aliasing is not modelled.
- No synchronisation between content updates and command handling is modelled. The source has none, and the model is sequential.
- `Type4Tag.HostService.constructor`: requires the default message to have at most 32767 bytes. The source's fixed default Text message is far shorter.
- `Type4Tag.HostService.SetContent`: an oversized message makes the source recurse until the stack overflows. The model reports this as a call that did not complete. What happens to the process afterwards is not modelled.
- `ByteArrays.PadLeft`: requires the array to be no longer than the target size. On a longer array the source recursion never terminates.
