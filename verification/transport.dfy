/** The text transport encoding shared by ingestion and context assembly:
    `toBase64` (components/FileUpload.tsx) writes extracted text as base64 of
    its UTF-8 bytes, and `fromBase64` (services/geminiService.ts) reads it
    back. */
module Transport {
  import Utf8
  import Base64

  /** `btoa(unescape(encodeURIComponent(s)))`: `encodeURIComponent` yields
      the UTF-8 bytes as percent escapes, `unescape` turns each into one
      Latin-1 character, and `btoa` base64-encodes those characters. */
  function ToBase64(s: string): (r: string)
    ensures r == "" <==> s == ""
    ensures Base64.Decode(r).Some?
  {
    var bytes := Utf8.Encode(s);
    Base64.DecodeEncode(bytes);
    Base64.Encode(bytes)
  }

  /** `fromBase64`: the empty string decodes to the empty string; otherwise
      base64 is decoded to bytes and the bytes are read as UTF-8. Input that
      is not the encoding of some text decodes to `""`, the decoder's failure
      value. */
  function FromBase64(b64: string): (r: string)
    ensures b64 == "" ==> r == ""
  {
    if b64 == "" then ""
    else match Base64.Decode(b64)
      case None => ""
      case Some(bytes) =>
        match Utf8.Decode(bytes)
        case None => ""
        case Some(s) => s
  }

  /** Round trip: the text an extractor encodes is exactly the text the
      context assembler decodes. */
  lemma {:induction false} RoundTrip(s: string)
    ensures FromBase64(ToBase64(s)) == s
  {
    var bytes := Utf8.Encode(s);
    Base64.DecodeEncode(bytes);
    Utf8.DecodeEncode(s);
  }

  /** Converse: a payload that decodes to non-empty text is the encoding of
      that text, so two different payloads never decode to the same text. */
  lemma {:induction false} DecodedPayloadIsEncoding(b64: string)
    requires FromBase64(b64) != ""
    ensures ToBase64(FromBase64(b64)) == b64
  {
    var bytes := Base64.Decode(b64).value;
    Utf8.EncodeDecode(bytes);
    Base64.EncodeDecode(b64);
  }
}
