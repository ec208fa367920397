/** `decode_jwt`: the payload segment of a compact JWS (section 7.1 of
    RFC 7515, used by JWTs per RFC 7519) is padded, Base64URL-decoded and
    parsed as JSON. The JSON parser is a parameter. */
module Jwt {
  import opened Wrappers
  import opened Errors
  import Text
  import Base64
  import opened Claims

  /** `json.loads` on bytes: `None` when it raises. */
  type JsonParser = seq<Base64.byte> -> Option<Value>

  /** `token.split(".")[1]`: the text between the first and second `.`, or
      to the end of the token when there is one `.` only. */
  function PayloadSegment(token: string): (r: Result<string, Error>)
    ensures r.Ok? <==> '.' in token
    ensures r.Err? ==> r.error == NoPayloadSegment
    ensures r.Ok? ==> '.' !in r.value
  {
    var parts := Text.Split(token, '.');
    if |parts| < 2 then Err(NoPayloadSegment) else Ok(parts[1])
  }

  /** Only the second segment is read: whatever precedes the first `.` and
      whatever follows the second is ignored, and the number of segments is
      not checked. */
  lemma PayloadSegmentOf(header: string, payload: string, rest: string)
    requires '.' !in header && '.' !in payload
    requires rest == "" || rest[0] == '.'
    ensures PayloadSegment(header + "." + payload + rest) == Ok(payload)
  {
    assert header + "." + payload + rest == header + ['.'] + (payload + rest);
    Text.SplitCons(header, '.', payload + rest);
    Text.SplitHead(payload, '.', rest);
  }

  /** The `=` padding appended to the payload: `4 - len % 4` characters,
      which is four when the length is already a multiple of four. */
  function Padding(payload: string): (pad: string)
    ensures 1 <= |pad| <= 4
    ensures (|payload| + |pad|) % 4 == 0
    ensures Base64.AllPads(pad)
  {
    seq(4 - |payload| % 4, _ => '=')
  }

  /** `decode_jwt`: any failure to split, decode or parse is raised. */
  function DecodeJwt(token: string, parse: JsonParser): (r: Result<Value, Error>)
    ensures '.' !in token ==> r == Err(NoPayloadSegment)
    ensures r.Err? ==> r.error in {NoPayloadSegment, NonAsciiPayload, Base64DataLength, Base64Padding, MalformedJson}
  {
    var payload :- PayloadSegment(token);
    var bytes :- Base64.UrlSafeDecode(payload + Padding(payload));
    match parse(bytes)
    case None => Err(MalformedJson)
    case Some(claims) => Ok(claims)
  }

  /** Once the token has a payload segment, `decode_jwt` raises exactly the
      decoding error of the padded segment, or fails exactly when the parser
      does; a result is what the parser made of the decoded bytes. */
  lemma DecodeJwtOutcome(token: string, parse: JsonParser)
    requires '.' in token
    ensures var r := DecodeJwt(token, parse);
      var p := PayloadSegment(token).value;
      var bytes := Base64.UrlSafeDecode(p + Padding(p));
      && (bytes.Err? ==> r == Err(bytes.error))
      && (bytes.Ok? ==> (r.Ok? <==> parse(bytes.value).Some?))
      && (r.Ok? ==> bytes.Ok? && parse(bytes.value) == Some(r.value))
  {
  }

  /** The padding always suffices for what a Base64URL encoder produces,
      including the four `=` after a whole number of quads: the decoded
      payload is exactly the encoded bytes. */
  lemma PaddedPayloadDecodes(b: seq<Base64.byte>)
    ensures var s := Base64.Encode(b); Base64.UrlSafeDecode(s + Padding(s)) == Ok(b)
  {
    var s := Base64.Encode(b);
    Base64.EncodeLength(b);
    Base64.DecodeEncode(b, Padding(s));
  }

  /** For a payload of Base64URL characters only, decoding fails exactly when
      its length is one more than a multiple of four. */
  lemma PaddedPayloadLength(payload: string)
    requires Base64.DataOnly(payload)
    ensures Base64.UrlSafeDecode(payload + Padding(payload)).Ok? <==> |payload| % 4 != 1
    ensures |payload| % 4 == 1 ==> Base64.UrlSafeDecode(payload + Padding(payload)) == Err(Base64DataLength)
  {
    Base64.PaddedDataDecodes(payload, Padding(payload));
  }

  /** A payload segment of Base64URL characters only whose length is one
      more than a multiple of four makes `decode_jwt` raise, whatever the
      parser and the other segments are. */
  lemma DecodeJwtDataLength(header: string, payload: string, rest: string, parse: JsonParser)
    requires '.' !in header
    requires rest == "" || rest[0] == '.'
    requires Base64.DataOnly(payload) && |payload| % 4 == 1
    ensures DecodeJwt(header + "." + payload + rest, parse) == Err(Base64DataLength)
  {
    Base64.DataOnlyHasNoDot(payload);
    PayloadSegmentOf(header, payload, rest);
    PaddedPayloadLength(payload);
  }

  /** A payload segment holding a non-ASCII character makes `decode_jwt`
      raise, whatever the parser and the other segments are. */
  lemma DecodeJwtNonAscii(header: string, payload: string, rest: string, parse: JsonParser)
    requires '.' !in header && '.' !in payload
    requires rest == "" || rest[0] == '.'
    requires !Base64.IsAscii(payload)
    ensures DecodeJwt(header + "." + payload + rest, parse) == Err(NonAsciiPayload)
  {
    PayloadSegmentOf(header, payload, rest);
    Base64.NonAsciiRejected(payload, Padding(payload));
  }

  /** A token whose second segment is the Base64URL encoding of `b` decodes
      to whatever the parser makes of `b`, whatever its other segments are. */
  lemma DecodeJwtOfEncoded(header: string, b: seq<Base64.byte>, rest: string, parse: JsonParser)
    requires '.' !in header
    requires rest == "" || rest[0] == '.'
    ensures DecodeJwt(header + "." + Base64.Encode(b) + rest, parse)
      == if parse(b).Some? then Ok(parse(b).value) else Err(MalformedJson)
  {
    var s := Base64.Encode(b);
    PayloadSegmentOf(header, s, rest);
    PaddedPayloadDecodes(b);
  }
}
