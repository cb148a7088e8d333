/**
 * What the tag's command handling guarantees: the answer to each template,
 * the flag transitions, the fate of every other command, and properties of
 * whole reader sessions.
 */
module Type4TagProperties {
  import opened ByteArrays
  import opened Type4Tag

  /** The three SELECT templates are answered 90 00 and leave the flag alone. */
  lemma SelectCommandsAnswerOk(cmd: seq<byte>, ccCheck: bool, ndefLen: seq<byte>)
    requires cmd == APDU_SELECT || cmd == CAPABILITY_CONTAINER_OK || cmd == NDEF_SELECT_OK
    ensures Dispatch(cmd, ccCheck, ndefLen) == Ok(Reply(A_OKAY, ccCheck))
  {
  }

  /**
   * READ BINARY of the capability container is answered with the 15-byte
   * container and 90 00 when the flag is clear, and sets it; with the flag
   * set the same command matches nothing and gets 6A 82, the flag staying set.
   */
  lemma ReadCapabilityContainerOnlyOnce(ndefLen: seq<byte>)
    ensures Dispatch(READ_CAPABILITY_CONTAINER, false, ndefLen) == Ok(Reply(READ_CAPABILITY_CONTAINER_RESPONSE, true))
    ensures |READ_CAPABILITY_CONTAINER_RESPONSE| == 17
    ensures READ_CAPABILITY_CONTAINER_RESPONSE[15..] == A_OKAY
    ensures READ_CAPABILITY_CONTAINER_RESPONSE[9..11] == NDEF_ID
    ensures Dispatch(READ_CAPABILITY_CONTAINER, true, ndefLen) == Ok(Reply(A_ERROR, true))
  {
  }

  /** READ BINARY of the length prefix answers the prefix and 90 00 and clears the flag. */
  lemma ReadNdefLengthClearsFlag(ccCheck: bool, ndefLen: seq<byte>)
    ensures Dispatch(NDEF_READ_BINARY_NLEN, ccCheck, ndefLen) == Ok(Reply(ndefLen + A_OKAY, false))
  {
  }

  /**
   * Every command no template accepts is answered exactly 6A 82 with the
   * flag unchanged, except the empty command, which throws.
   */
  lemma UnrecognizedCommandGetsError(cmd: seq<byte>, ccCheck: bool, ndefLen: seq<byte>)
    requires !Recognized(cmd, ccCheck)
    ensures Dispatch(cmd, ccCheck, ndefLen) ==
      if cmd == [] then Err(ArrayIndexOutOfBounds) else Ok(Reply(A_ERROR, ccCheck))
  {
  }

  /**
   * In particular every READ BINARY other than the two templates, whatever
   * its offset and length, is answered 6A 82: the data branch is never taken.
   */
  lemma ReadBinaryDataUnreachable(cmd: seq<byte>, ccCheck: bool, ndefLen: seq<byte>)
    requires |cmd| >= 2 && cmd[..2] == NDEF_READ_BINARY
    requires cmd != NDEF_READ_BINARY_NLEN
    requires cmd != READ_CAPABILITY_CONTAINER || ccCheck
    ensures Dispatch(cmd, ccCheck, ndefLen) == Ok(Reply(A_ERROR, ccCheck))
  {
    assert cmd[1] == cmd[..2][1] == 0xB0;
  }

  /**
   * Every response to a non-empty command ends in a status word, 90 00 or
   * 6A 82, and it is 6A 82 exactly when no template accepted the command.
   */
  lemma DispatchReplyShape(cmd: seq<byte>, ccCheck: bool, ndefLen: seq<byte>)
    requires cmd != []
    ensures Dispatch(cmd, ccCheck, ndefLen).Ok?
    ensures var response := Dispatch(cmd, ccCheck, ndefLen).value.response;
      |response| >= 2 &&
      var sw := response[|response| - 2..];
      (sw == A_OKAY || sw == A_ERROR) && (sw == A_ERROR <==> !Recognized(cmd, ccCheck))
  {
    TemplateFacts(ndefLen);
    if cmd == READ_CAPABILITY_CONTAINER && !ccCheck {
      ReadCapabilityContainerOnlyOnce(ndefLen);
    } else if cmd == NDEF_READ_BINARY_NLEN {
      ReadNdefLengthClearsFlag(ccCheck, ndefLen);
    } else if Recognized(cmd, ccCheck) {
      SelectCommandsAnswerOk(cmd, ccCheck, ndefLen);
    } else {
      UnrecognizedCommandGetsError(cmd, ccCheck, ndefLen);
    }
  }

  /** n copies of one command. */
  function Repeat(cmd: seq<byte>, n: nat): (r: seq<seq<byte>>)
  {
    seq(n, _ => cmd)
  }

  /** Sending a SELECT template any number of times gets 90 00 each time and changes nothing. */
  lemma {:induction false} RepeatedSelectIsIdempotent(cmd: seq<byte>, n: nat, ccCheck: bool, ndefLen: seq<byte>)
    requires cmd == APDU_SELECT || cmd == CAPABILITY_CONTAINER_OK || cmd == NDEF_SELECT_OK
    ensures Serve(Repeat(cmd, n), ccCheck, ndefLen) == Ok((Repeat(A_OKAY, n), ccCheck))
    decreases n
  {
    if n > 0 {
      assert Repeat(cmd, n)[1..] == Repeat(cmd, n - 1);
      assert Repeat(A_OKAY, n) == [A_OKAY] + Repeat(A_OKAY, n - 1);
      SelectCommandsAnswerOk(cmd, ccCheck, ndefLen);
      RepeatedSelectIsIdempotent(cmd, n - 1, ccCheck, ndefLen);
    } else {
      assert Repeat(cmd, 0) == [] && Repeat(A_OKAY, 0) == [];
    }
  }

  /**
   * Deactivation resets nothing: serving two sessions one after the other is
   * serving the second from the flag the first left behind.
   */
  lemma {:induction false} SessionsCompose(first: seq<seq<byte>>, second: seq<seq<byte>>, ccCheck: bool, ndefLen: seq<byte>)
    ensures Serve(first + second, ccCheck, ndefLen) ==
      match Serve(first, ccCheck, ndefLen)
      case Err(e) => Err(e)
      case Ok((r1, flag)) =>
        match Serve(second, flag, ndefLen)
        case Err(e) => Err(e)
        case Ok((r2, flag2)) => Ok((r1 + r2, flag2))
    decreases |first|
  {
    if first == [] {
      assert first + second == second;
      match Serve(second, ccCheck, ndefLen)
      case Err(e) =>
      case Ok((r2, flag2)) =>
        assert [] + r2 == r2;
    } else {
      assert (first + second)[0] == first[0];
      assert (first + second)[1..] == first[1..] + second;
      match Dispatch(first[0], ccCheck, ndefLen)
      case Err(e) =>
      case Ok(reply) =>
        SessionsCompose(first[1..], second, reply.ccCheck, ndefLen);
        match Serve(first[1..], reply.ccCheck, ndefLen)
        case Err(e) =>
        case Ok((rest, flag)) =>
          match Serve(second, flag, ndefLen)
          case Err(e) =>
          case Ok((r2, flag2)) =>
            assert [reply.response] + (rest + r2) == ([reply.response] + rest) + r2;
    }
  }

  /** One command answered, then the rest of the session. */
  lemma ServeStep(cmd: seq<byte>, rest: seq<seq<byte>>, ccCheck: bool, ndefLen: seq<byte>,
                  reply: Reply, responses: seq<seq<byte>>, flag: bool)
    requires Dispatch(cmd, ccCheck, ndefLen) == Ok(reply)
    requires Serve(rest, reply.ccCheck, ndefLen) == Ok((responses, flag))
    ensures Serve([cmd] + rest, ccCheck, ndefLen) == Ok(([reply.response] + responses, flag))
  {
    assert ([cmd] + rest)[0] == cmd && ([cmd] + rest)[1..] == rest;
  }

  /**
   * The end of the reader's command flow, once the container has been read:
   * SELECT the NDEF file, read its length, then read its content from offset 2.
   */
  lemma ReaderCommandFlowTail(ndefLen: seq<byte>, le: byte)
    ensures Serve([NDEF_SELECT_OK, NDEF_READ_BINARY_NLEN, [0x00, 0xB0, 0x00, 0x02, le]], true, ndefLen)
      == Ok(([A_OKAY, ndefLen + A_OKAY, A_ERROR], false))
  {
    var c5: seq<byte> := [0x00, 0xB0, 0x00, 0x02, le];
    ReadBinaryDataUnreachable(c5, false, ndefLen);
    ServeStep(c5, [], false, ndefLen, Reply(A_ERROR, false), [], false);
    ReadNdefLengthClearsFlag(true, ndefLen);
    ServeStep(NDEF_READ_BINARY_NLEN, [c5], true, ndefLen, Reply(ndefLen + A_OKAY, false), [A_ERROR] + [], false);
    SelectCommandsAnswerOk(NDEF_SELECT_OK, true, ndefLen);
    ServeStep(NDEF_SELECT_OK, [NDEF_READ_BINARY_NLEN] + [c5], true, ndefLen, Reply(A_OKAY, true),
              [ndefLen + A_OKAY] + ([A_ERROR] + []), false);
    assert [NDEF_SELECT_OK] + ([NDEF_READ_BINARY_NLEN] + [c5]) == [NDEF_SELECT_OK, NDEF_READ_BINARY_NLEN, c5];
    assert [A_OKAY] + ([ndefLen + A_OKAY] + ([A_ERROR] + [])) == [A_OKAY, ndefLen + A_OKAY, A_ERROR];
  }

  /**
   * The command flow of a reader following the Type 4 Tag mapping: SELECT the
   * application, SELECT and read the capability container, SELECT the NDEF
   * file, read its length, then READ BINARY its content from offset 2. The
   * content read is answered 6A 82.
   */
  lemma ReaderCommandFlow(ndefLen: seq<byte>, le: byte)
    ensures Serve([APDU_SELECT, CAPABILITY_CONTAINER_OK, READ_CAPABILITY_CONTAINER, NDEF_SELECT_OK,
                   NDEF_READ_BINARY_NLEN, [0x00, 0xB0, 0x00, 0x02, le]], false, ndefLen)
      == Ok(([A_OKAY, A_OKAY, READ_CAPABILITY_CONTAINER_RESPONSE, A_OKAY, ndefLen + A_OKAY, A_ERROR], false))
  {
    var c5: seq<byte> := [0x00, 0xB0, 0x00, 0x02, le];
    var s3 := [NDEF_SELECT_OK, NDEF_READ_BINARY_NLEN, c5];
    var r3 := [A_OKAY, ndefLen + A_OKAY, A_ERROR];
    ReaderCommandFlowTail(ndefLen, le);
    ReadCapabilityContainerOnlyOnce(ndefLen);
    ServeStep(READ_CAPABILITY_CONTAINER, s3, false, ndefLen, Reply(READ_CAPABILITY_CONTAINER_RESPONSE, true), r3, false);
    var s2, r2 := [READ_CAPABILITY_CONTAINER] + s3, [READ_CAPABILITY_CONTAINER_RESPONSE] + r3;
    SelectCommandsAnswerOk(CAPABILITY_CONTAINER_OK, false, ndefLen);
    ServeStep(CAPABILITY_CONTAINER_OK, s2, false, ndefLen, Reply(A_OKAY, false), r2, false);
    var s1, r1 := [CAPABILITY_CONTAINER_OK] + s2, [A_OKAY] + r2;
    SelectCommandsAnswerOk(APDU_SELECT, false, ndefLen);
    ServeStep(APDU_SELECT, s1, false, ndefLen, Reply(A_OKAY, false), r1, false);
    assert [APDU_SELECT] + s1 == [APDU_SELECT, CAPABILITY_CONTAINER_OK, READ_CAPABILITY_CONTAINER, NDEF_SELECT_OK, NDEF_READ_BINARY_NLEN, c5];
    assert [A_OKAY] + r1 == [A_OKAY, A_OKAY, READ_CAPABILITY_CONTAINER_RESPONSE, A_OKAY, ndefLen + A_OKAY, A_ERROR];
  }

  /**
   * The flag outlives deactivation: a reader session that reads the
   * capability container, followed by a new session that starts by reading
   * it again, gets the container once and then 6A 82, the flag still set.
   */
  lemma FlagCarriesOverSessions(ndefLen: seq<byte>)
    ensures Serve([READ_CAPABILITY_CONTAINER] + [READ_CAPABILITY_CONTAINER], false, ndefLen)
      == Ok(([READ_CAPABILITY_CONTAINER_RESPONSE, A_ERROR], true))
  {
    var session := [READ_CAPABILITY_CONTAINER];
    ReadCapabilityContainerOnlyOnce(ndefLen);
    ServeStep(READ_CAPABILITY_CONTAINER, [], false, ndefLen, Reply(READ_CAPABILITY_CONTAINER_RESPONSE, true), [], true);
    ServeStep(READ_CAPABILITY_CONTAINER, [], true, ndefLen, Reply(A_ERROR, true), [], true);
    assert [READ_CAPABILITY_CONTAINER] + [] == session;
    SessionsCompose(session, session, false, ndefLen);
    assert [READ_CAPABILITY_CONTAINER_RESPONSE] + [] + ([A_ERROR] + []) == [READ_CAPABILITY_CONTAINER_RESPONSE, A_ERROR];
  }

  /**
   * On a consistent service, the length read answers the 2-byte big-endian
   * length of the stored message followed by 90 00, and clears the flag.
   */
  lemma LengthReadAnswersMessageLength(service: HostService, ccCheck: bool)
    requires service.Valid()
    ensures Dispatch(NDEF_READ_BINARY_NLEN, ccCheck, service.ndefLen)
      == Ok(Reply([(|service.ndefBytes| / 256) as byte, (|service.ndefBytes| % 256) as byte, 0x90, 0x00], false))
  {
    ReadNdefLengthClearsFlag(ccCheck, service.ndefLen);
    assert service.ndefLen == LengthPrefix(|service.ndefBytes|);
    var n := |service.ndefBytes|;
    var expected: seq<byte> := [(n / 256) as byte, (n % 256) as byte, 0x90, 0x00];
    assert service.ndefLen + A_OKAY == expected;
    assert Dispatch(NDEF_READ_BINARY_NLEN, ccCheck, service.ndefLen) == Ok(Reply(expected, false));
  }

  /**
   * Reading the NDEF file through READ BINARY windows of any positive size,
   * each starting where the previous ended, yields the file from the first
   * offset to its end: the length prefix followed by the message.
   */
  lemma {:induction false} ChunkedReadsReassemble(ndefLen: seq<byte>, ndefBytes: seq<byte>, offset: nat, chunk: nat)
    requires chunk > 0
    requires offset <= |ndefLen| + |ndefBytes|
    ensures ReadInChunks(ndefLen, ndefBytes, offset, chunk) == (ndefLen + ndefBytes)[offset..]
    decreases |ndefLen| + |ndefBytes| - offset
  {
    var full := ndefLen + ndefBytes;
    if offset < |full| {
      var w := ReadBinaryWindow(ndefLen, ndefBytes, offset, chunk).value;
      var data := w[..|w| - 2];
      ChunkedReadsReassemble(ndefLen, ndefBytes, offset + |data|, chunk);
      assert full[offset..] == data + full[offset + |data|..];
    }
  }
}
