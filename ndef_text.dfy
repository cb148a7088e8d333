/**
 * The payload of the NDEF Text record the tag carries (createTextRecord):
 * one status byte holding the length of the language code, the language
 * code bytes, then the text bytes. The NDEF record and message headers
 * around it are built by the platform and are not part of this module.
 */
module NdefText {
  import opened ByteArrays

  /**
   * The layout createTextRecord writes: the length of the language code,
   * truncated to a byte by the (byte) cast, then the language code, then the
   * text.
   */
  ghost predicate IsTextPayload(p: seq<byte>, lang: seq<byte>, text: seq<byte>)
  {
    |p| == 1 + |lang| + |text| &&
    p[0] as int == |lang| % 256 &&
    p[1..1 + |lang|] == lang &&
    p[1 + |lang|..] == text
  }

  /**
   * The record payload built from already-encoded language and text bytes:
   * a new array, the status byte, then two array copies.
   */
  method CreateTextPayload(lang: seq<byte>, text: seq<byte>) returns (payload: seq<byte>)
    ensures IsTextPayload(payload, lang, text)
  {
    var recordPayload := new byte[1 + |lang| + |text|];
    recordPayload[0] := (|lang| % 256) as byte;
    ArrayCopy(lang, 0, recordPayload, 1, |lang|);
    ArrayCopy(text, 0, recordPayload, 1 + |lang|, |text|);
    payload := recordPayload[..];
  }

  /**
   * How a reader splits a Text record payload, per section 3.2.1 of the NFC
   * Forum Text Record Type Definition: bits 5..0 of the status byte give the
   * language code length, bit 7 selects UTF-16 and bit 6 is reserved.
   */
  function ParseTextPayload(p: seq<byte>): (r: Option<(seq<byte>, seq<byte>)>)
  {
    if |p| == 0 then None
    else
      var n := (p[0] % 64) as int;
      if 1 + n > |p| then None else Some((p[1..1 + n], p[1 + n..]))
  }

  /**
   * A payload built from a language code shorter than 64 bytes declares
   * UTF-8 with the reserved bit clear, and a reader gets the language code
   * and the text back exactly.
   */
  lemma TextPayloadRoundTrip(p: seq<byte>, lang: seq<byte>, text: seq<byte>)
    requires IsTextPayload(p, lang, text)
    requires |lang| < 64
    ensures p[0] < 64
    ensures ParseTextPayload(p) == Some((lang, text))
  {
  }

  /**
   * Conversely, whenever a payload with a valid UTF-8 status byte parses, it
   * is the payload built from what it parses to.
   */
  lemma ParsedPayloadIsBuilt(p: seq<byte>, lang: seq<byte>, text: seq<byte>)
    requires |p| >= 1 && p[0] < 64
    requires ParseTextPayload(p) == Some((lang, text))
    ensures |lang| < 64
    ensures IsTextPayload(p, lang, text)
  {
    assert p == p[..1] + p[1..1 + |lang|] + p[1 + |lang|..];
  }
}
