/**
 * The host-card-emulation service of an NFC Forum Type 4 Tag (Mapping
 * Version 2.0) holding one NDEF message: the fixed command templates it
 * recognises, the answer it gives to each command APDU, and the state it
 * keeps between commands (the "capability container just read" flag, the
 * serialized NDEF message and its 2-byte length prefix).
 */
module Type4Tag {
  import opened ByteArrays

  // ---------------------------------------------------------------------
  // Command and response templates (ISO/IEC 7816-4 APDUs)
  // ---------------------------------------------------------------------

  /** SELECT by name of the NDEF Tag Application, AID D2760000850101, Le = 00. */
  const APDU_SELECT: seq<byte> := [0x00, 0xA4, 0x04, 0x00, 0x07, 0xD2, 0x76, 0x00, 0x00, 0x85, 0x01, 0x01, 0x00]

  /** SELECT by identifier of the capability container file E103. */
  const CAPABILITY_CONTAINER_OK: seq<byte> := [0x00, 0xA4, 0x00, 0x0C, 0x02, 0xE1, 0x03]

  /** READ BINARY of 0x0F bytes at offset 0 (the capability container). */
  const READ_CAPABILITY_CONTAINER: seq<byte> := [0x00, 0xB0, 0x00, 0x00, 0x0F]

  /**
   * The capability container followed by the OK status word: CCLEN 0x0011,
   * mapping version 2.0, MLe and MLc 0xFFFF, then the NDEF File Control TLV
   * (T = 04, L = 06) for file E104 with maximum size 0xFFFE, read access 00
   * and write access FF.
   */
  const READ_CAPABILITY_CONTAINER_RESPONSE: seq<byte> :=
    [0x00, 0x11, 0x20, 0xFF, 0xFF, 0xFF, 0xFF, 0x04, 0x06, 0xE1, 0x04, 0xFF, 0xFE, 0x00, 0xFF, 0x90, 0x00]

  /** SELECT by identifier of the NDEF file E104. */
  const NDEF_SELECT_OK: seq<byte> := [0x00, 0xA4, 0x00, 0x0C, 0x02, 0xE1, 0x04]

  /** The class and instruction bytes of READ BINARY. */
  const NDEF_READ_BINARY: seq<byte> := [0x00, 0xB0]

  /** READ BINARY of 2 bytes at offset 0 (the NDEF length prefix). */
  const NDEF_READ_BINARY_NLEN: seq<byte> := [0x00, 0xB0, 0x00, 0x00, 0x02]

  /** Status word 90 00: command completed. */
  const A_OKAY: seq<byte> := [0x90, 0x00]

  /** Status word 6A 82: file or application not found. */
  const A_ERROR: seq<byte> := [0x6A, 0x82]

  /** The identifier of the NDEF file, also the id of the Text record. */
  const NDEF_ID: seq<byte> := [0xE1, 0x04]

  /** The largest message length whose two's-complement encoding fits two bytes. */
  const MAX_PREFIXED_LENGTH: nat := 0x7FFF

  // ---------------------------------------------------------------------
  // Outcomes
  // ---------------------------------------------------------------------

  /** The Java exceptions a command can raise. */
  datatype Exception = ArrayIndexOutOfBounds

  datatype Result<T> = Ok(value: T) | Err(error: Exception)

  /** A response APDU together with the flag the service keeps afterwards. */
  datatype Reply = Reply(response: seq<byte>, ccCheck: bool)

  // ---------------------------------------------------------------------
  // The length prefix of the NDEF file
  // ---------------------------------------------------------------------

  /**
   * NDEF_URI_LEN: the two's-complement encoding of the message length,
   * left-padded to two bytes. It is the 2-byte big-endian length.
   */
  function LengthPrefix(n: nat): (r: seq<byte>)
    requires n <= MAX_PREFIXED_LENGTH
    ensures r == [(n / 256) as byte, (n % 256) as byte]
  {
    ToByteArrayLength(n, 2);
    var encoded := ToByteArray(n);
    PadLeftValue(encoded, 2);
    var r := PadLeft(encoded, 2);
    assert BigEndian(r) == BigEndian(r[..1]) * 256 + r[1] as int;
    assert BigEndian(r[..1]) == r[0] as int by {
      assert r[..1][..0] == [];
    }
    r
  }

  // ---------------------------------------------------------------------
  // Command dispatch
  // ---------------------------------------------------------------------

  /**
   * The answer to one command APDU, tested against the templates in order,
   * the first match winning. The generic READ BINARY test compares a 1-byte
   * slice of the command with the 2-byte prefix NDEF_READ_BINARY, so it never
   * matches (ReadBinaryHeadNeverMatches) and has no branch here; every other
   * non-empty command is answered 6A 82, and taking that slice of an empty
   * command throws. The flag is set afterwards exactly when the container
   * was just read, or when it was set and the length prefix was not read.
   */
  function Dispatch(cmd: seq<byte>, ccCheck: bool, ndefLen: seq<byte>): (r: Result<Reply>)
    ensures r.Err? <==> cmd == []
    ensures r.Ok? ==> |r.value.response| >= 2
    ensures r.Ok? ==>
      (r.value.ccCheck <==> (cmd == READ_CAPABILITY_CONTAINER && !ccCheck) || (ccCheck && cmd != NDEF_READ_BINARY_NLEN))
  {
    TemplateFacts(ndefLen);
    if cmd == APDU_SELECT then Ok(Reply(A_OKAY, ccCheck))
    else if cmd == CAPABILITY_CONTAINER_OK then Ok(Reply(A_OKAY, ccCheck))
    else if cmd == READ_CAPABILITY_CONTAINER && !ccCheck then Ok(Reply(READ_CAPABILITY_CONTAINER_RESPONSE, true))
    else if cmd == NDEF_SELECT_OK then Ok(Reply(A_OKAY, ccCheck))
    else if cmd == NDEF_READ_BINARY_NLEN then Ok(Reply(ndefLen + A_OKAY, false))
    else if |cmd| == 0 then Err(ArrayIndexOutOfBounds)
    else Ok(Reply(A_ERROR, ccCheck))
  }

  /** The templates are non-empty, the status words differ, and the length answer ends in 90 00. */
  lemma TemplateFacts(ndefLen: seq<byte>)
    ensures |APDU_SELECT| == 13 && |CAPABILITY_CONTAINER_OK| == 7 && |READ_CAPABILITY_CONTAINER| == 5
    ensures |NDEF_SELECT_OK| == 7 && |NDEF_READ_BINARY_NLEN| == 5
    ensures A_OKAY != A_ERROR && READ_CAPABILITY_CONTAINER_RESPONSE[15..] == A_OKAY
    ensures (ndefLen + A_OKAY)[|ndefLen|..] == A_OKAY
  {
  }

  /** A 1-byte slice of a command never equals the 2-byte READ BINARY prefix. */
  lemma ReadBinaryHeadNeverMatches(head: seq<byte>)
    requires |head| == 1
    ensures head != NDEF_READ_BINARY
  {
  }

  /** The commands that some test before the generic READ BINARY test accepts. */
  predicate Recognized(cmd: seq<byte>, ccCheck: bool)
  {
    cmd == APDU_SELECT || cmd == CAPABILITY_CONTAINER_OK ||
    (cmd == READ_CAPABILITY_CONTAINER && !ccCheck) ||
    cmd == NDEF_SELECT_OK || cmd == NDEF_READ_BINARY_NLEN
  }

  /**
   * The commands of a reader session answered one after another, the flag
   * carried from each command to the next; the first exception ends it. A
   * session throws iff one of its commands is empty, and otherwise answers
   * every command once.
   */
  function Serve(cmds: seq<seq<byte>>, ccCheck: bool, ndefLen: seq<byte>): (r: Result<(seq<seq<byte>>, bool)>)
    ensures r.Err? <==> [] in cmds
    ensures r.Ok? ==> |r.value.0| == |cmds|
    decreases |cmds|
  {
    if cmds == [] then Ok(([], ccCheck))
    else
      assert cmds == [cmds[0]] + cmds[1..];
      match Dispatch(cmds[0], ccCheck, ndefLen)
      case Err(e) => Err(e)
      case Ok(reply) =>
        match Serve(cmds[1..], reply.ccCheck, ndefLen)
        case Err(e) => Err(e)
        case Ok((rest, flag)) => Ok(([reply.response] + rest, flag))
  }

  // ---------------------------------------------------------------------
  // The READ BINARY data window (unreachable from dispatch)
  // ---------------------------------------------------------------------

  function Min(a: nat, b: nat): nat { if a <= b then a else b }

  /**
   * What the READ BINARY data branch builds for a given offset and length:
   * the length prefix followed by the message, from the offset on, cut to
   * the requested length, then 90 00. An offset past the end makes the
   * slice size negative, which throws (None). Dispatch never reaches it.
   */
  function ReadBinaryWindow(ndefLen: seq<byte>, ndefBytes: seq<byte>, offset: nat, length: nat): (r: Option<seq<byte>>)
    ensures r.None? <==> offset > |ndefLen| + |ndefBytes|
    ensures r.Some? ==> |r.value| >= 2 && r.value[|r.value| - 2..] == A_OKAY
    ensures r.Some? ==>
      var full := ndefLen + ndefBytes;
      var data := r.value[..|r.value| - 2];
      |data| <= length && offset + |data| <= |full| && data == full[offset..offset + |data|] &&
      (|data| < length ==> offset + |data| == |full|)
    ensures offset == |ndefLen| + |ndefBytes| ==> r == Some(A_OKAY)
  {
    var full := ndefLen + ndefBytes;
    if offset > |full| then None
    else
      var sliced := full[offset..];
      var realLength := Min(|sliced|, length);
      Some(sliced[..realLength] + A_OKAY)
  }

  /**
   * A reader that reads the NDEF file with READ BINARY from the given offset
   * on, in requests of chunk bytes, each starting where the previous answer
   * ended, until the end of the file.
   */
  function ReadInChunks(ndefLen: seq<byte>, ndefBytes: seq<byte>, offset: nat, chunk: nat): seq<byte>
    requires chunk > 0
    requires offset <= |ndefLen| + |ndefBytes|
    decreases |ndefLen| + |ndefBytes| - offset
  {
    if offset == |ndefLen| + |ndefBytes| then []
    else
      var w := ReadBinaryWindow(ndefLen, ndefBytes, offset, chunk).value;
      var data := w[..|w| - 2];
      data + ReadInChunks(ndefLen, ndefBytes, offset + |data|, chunk)
  }

  // ---------------------------------------------------------------------
  // The service object
  // ---------------------------------------------------------------------

  class HostService {
    /** READ_CAPABILITY_CONTAINER_CHECK: the capability container was just read. */
    var ccCheck: bool
    /** NDEF_URI_BYTES: the serialized NDEF message. */
    var ndefBytes: seq<byte>
    /** NDEF_URI_LEN: the 2-byte length prefix of the NDEF file. */
    var ndefLen: seq<byte>

    /** The length prefix agrees with the message. */
    ghost predicate Valid()
      reads this
    {
      |ndefBytes| <= MAX_PREFIXED_LENGTH && ndefLen == LengthPrefix(|ndefBytes|)
    }

    /**
     * The field initialisers: the flag is clear and the tag holds the
     * serialized default Text message with its length prefix.
     */
    constructor (message: seq<byte>)
      requires |message| <= MAX_PREFIXED_LENGTH
      ensures Valid() && !ccCheck && ndefBytes == message
    {
      ccCheck := false;
      ndefBytes := message;
      ToByteArrayLength(|message|, 2);
      ndefLen := PadLeft(ToByteArray(|message|), 2);
    }

    /**
     * onStartCommand with new text: the serialized message replaces the
     * content, then its length prefix is recomputed. For a message longer
     * than 0x7FFF bytes the length encodes to more than two bytes and the padding
     * recursion never ends; the call does not complete, the message already
     * replaced and the prefix left as it was.
     */
    method SetContent(message: seq<byte>) returns (completed: bool)
      modifies this`ndefBytes, this`ndefLen
      ensures ndefBytes == message
      ensures completed <==> |message| <= MAX_PREFIXED_LENGTH
      ensures completed ==> Valid()
      ensures !completed ==> ndefLen == old(ndefLen)
    {
      ndefBytes := message;
      var encoded := ToByteArray(|ndefBytes|);
      ToByteArrayLength(|ndefBytes|, 2);
      if |encoded| > 2 {
        return false;
      }
      ndefLen := PadLeft(encoded, 2);
      return true;
    }

    /**
     * processCommandApdu: the answer Dispatch gives for the command and the
     * flag as it was; only the flag changes.
     */
    method ProcessCommandApdu(cmd: array<byte>) returns (r: Result<seq<byte>>)
      modifies this`ccCheck
      ensures old(Valid()) ==> Valid()
      ensures match Dispatch(cmd[..], old(ccCheck), ndefLen)
        case Ok(reply) => r == Ok(reply.response) && ccCheck == reply.ccCheck
        case Err(e) => r == Err(e) && ccCheck == old(ccCheck)
    {
      var command := cmd[..];
      if command == APDU_SELECT {
        return Ok(A_OKAY);
      }
      if command == CAPABILITY_CONTAINER_OK {
        return Ok(A_OKAY);
      }
      if command == READ_CAPABILITY_CONTAINER && !ccCheck {
        ccCheck := true;
        return Ok(READ_CAPABILITY_CONTAINER_RESPONSE);
      }
      if command == NDEF_SELECT_OK {
        return Ok(A_OKAY);
      }
      if command == NDEF_READ_BINARY_NLEN {
        var response := new byte[|ndefLen| + |A_OKAY|];
        ArrayCopy(ndefLen, 0, response, 0, |ndefLen|);
        ArrayCopy(A_OKAY, 0, response, |ndefLen|, |A_OKAY|);
        assert response[..] == ndefLen + A_OKAY;
        ccCheck := false;
        return Ok(response[..]);
      }
      if cmd.Length < 1 {
        // getSliceOfArray(cmd, 0, 1) reads cmd[0]
        return Err(ArrayIndexOutOfBounds);
      }
      var head := SliceOfArray(cmd, 0, 1);
      ReadBinaryHeadNeverMatches(head[..]);
      if head[..] == NDEF_READ_BINARY {
        assert false;
      }
      return Ok(A_ERROR);
    }
  }
}
