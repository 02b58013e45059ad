/** encode_token and decode_token of scripts/mock_sponsor_service.py. */
module SponsorToken {
  import opened Text
  import opened Base64Url

  /** The JSON object inside a token; a missing member is None. */
  datatype Payload = Payload(email: Option<string>, via: Option<string>, nonce: Option<string>, exp: Option<int>)

  datatype TokenError = InvalidToken | ExpiredToken

  datatype TokenResult = Accepted(payload: Payload) | Refused(error: TokenError)

  /**
   What the service gets from its libraries and its secret: JSON text as bytes, the HMAC of a token body under
   the secret (RFC 2104), and the hash that makes a nonce from an e-mail address and a clock reading.
   */
  datatype Codec = Codec(
    dumps: Payload -> seq<Byte>,
    loads: seq<Byte> -> Option<Payload>,
    mac: string -> seq<Byte>,
    nonceOf: (string, int) -> string)

  // json.loads undoes json.dumps.
  ghost predicate Faithful(c: Codec) {
    forall p :: c.loads(c.dumps(p)) == Some(p)
  }

  function BodyOf(c: Codec, p: Payload): string {
    StripPadding(Encode(c.dumps(p)))
  }

  function SignatureText(c: Codec, body: string): string {
    StripPadding(Encode(c.mac(body)))
  }

  function EncodeToken(c: Codec, p: Payload): string {
    var body := BodyOf(c, p);
    body + "." + SignatureText(c, body)
  }

  // Position of the first '.', or the length of the text.
  function Dot(s: string): (k: nat)
    ensures k <= |s| && (k < |s| ==> s[k] == '.')
    ensures forall i :: 0 <= i < k ==> s[i] != '.'
  {
    if s == "" || s[0] == '.' then 0 else 1 + Dot(s[1..])
  }

  // Length of the text in UTF-8.
  function Utf8Length(s: string): (n: nat)
    ensures IsAscii(s) ==> n == |s|
  {
    if s == "" then 0
    else
      var c := s[0];
      (if c < 128 as char then 1 else if c < 2048 as char then 2 else if c < 65536 as char then 3 else 4)
      + Utf8Length(s[1..])
  }

  /** One to four bytes a character, by its code, and as many for a text as for its parts together. */
  lemma {:induction false} Utf8LengthIs(s: string, t: string, c: char)
    ensures Utf8Length(s + t) == Utf8Length(s) + Utf8Length(t)
    ensures Utf8Length([c]) ==
            if c as int <= 0x7F then 1 else if c as int <= 0x7FF then 2 else if c as int <= 0xFFFF then 3 else 4
    decreases |s|
  {
    assert [c][1..] == "";
    if s == "" {
      assert s + t == t;
    } else {
      assert (s + t)[0] == s[0] && (s + t)[1..] == s[1..] + t;
      Utf8LengthIs(s[1..], t, c);
    }
  }

  // b64decode refuses a str that is not ASCII.
  function ReadSignature(s: string): Option<seq<Byte>> {
    if IsAscii(s) then Decode(AddPadding(s, |s|)) else None
  }

  function ReadBody(c: Codec, body: string): Option<Payload> {
    match Decode(AddPadding(body, Utf8Length(body)))
    case None => None
    case Some(bytes) => c.loads(bytes)
  }

  function ExpiryOf(p: Payload): int {
    if p.exp.Some? then p.exp.value else 0
  }

  function DecodeToken(c: Codec, token: string, now: int): TokenResult {
    var k := Dot(token);
    if k == |token| then Refused(InvalidToken)
    else
      var body, signature := token[..k], ReadSignature(token[k + 1..]);
      if signature.None? || signature.value != c.mac(body) then Refused(InvalidToken)
      else
        match ReadBody(c, body)
        case None => Refused(InvalidToken)
        case Some(p) => if ExpiryOf(p) < now then Refused(ExpiredToken) else Accepted(p)
  }

  lemma PlainPrefix(s: string, n: nat)
    requires PlainText(s) && n <= |s|
    ensures PlainText(s[..n]) && IsAscii(s[..n])
  {
  }

  lemma StrippedIsPlain(b: seq<Byte>)
    ensures PlainText(StripPadding(Encode(b))) && IsAscii(StripPadding(Encode(b)))
  {
    hide Encode, StripPadding;
    EncodeShape(b);
    StripIsPrefix(Encode(b));
    assert StripPadding(Encode(b)) == Encode(b)[..|StripPadding(Encode(b))|];
    PlainPrefix(Encode(b), |StripPadding(Encode(b))|);
  }

  lemma SignatureRoundTrip(c: Codec, body: string)
    ensures ReadSignature(SignatureText(c, body)) == Some(c.mac(body))
  {
    hide Encode, StripPadding, Decode, AddPadding;
    StrippedIsPlain(c.mac(body));
    PaddingRoundTrip(c.mac(body));
    DecodeEncode(c.mac(body));
  }

  lemma BodyRoundTrip(c: Codec, p: Payload)
    requires Faithful(c)
    ensures ReadBody(c, BodyOf(c, p)) == Some(p)
  {
    hide Encode, StripPadding, Decode, AddPadding;
    StrippedIsPlain(c.dumps(p));
    PaddingRoundTrip(c.dumps(p));
    DecodeEncode(c.dumps(p));
  }

  // The first '.' is the separator when the part before it has none.
  lemma DotSeparates(body: string, rest: string)
    requires PlainText(body)
    ensures Dot(body + "." + rest) == |body|
  {
    var s := body + "." + rest;
    assert s[|body|] == '.';
    assert forall i :: 0 <= i < |body| ==> s[i] == body[i];
  }

  /** How a text of the form body.signature is judged. */
  lemma DecodeParts(c: Codec, body: string, rest: string, now: int)
    requires PlainText(body)
    ensures ReadSignature(rest) != Some(c.mac(body)) ==>
              DecodeToken(c, body + "." + rest, now) == Refused(InvalidToken)
    ensures ReadSignature(rest) == Some(c.mac(body)) && ReadBody(c, body).Some? ==>
              var p := ReadBody(c, body).value;
              DecodeToken(c, body + "." + rest, now) ==
                if (if p.exp.Some? then p.exp.value else 0) < now then Refused(ExpiredToken) else Accepted(p)
  {
    hide ReadSignature, ReadBody;
    DotSeparates(body, rest);
    var token := body + "." + rest;
    assert token[..|body|] == body && token[|body| + 1..] == rest;
  }

  // The text is a body and its signature, parted at the first '.', and the body reads as the payload.
  predicate Signs(c: Codec, token: string, body: string, rest: string, p: Payload) {
    && token == body + "." + rest && '.' !in body
    && IsAscii(rest) && Decode(AddPadding(rest, |rest|)) == Some(c.mac(body))
    && var bytes := Decode(AddPadding(body, Utf8Length(body))); bytes.Some? && c.loads(bytes.value) == Some(p)
  }

  lemma PartsOfToken(token: string, body: string, rest: string)
    requires token == body + "." + rest && '.' !in body
    ensures Dot(token) == |body| < |token| && token[..|body|] == body && token[|body| + 1..] == rest
  {
    assert token[|body|] == '.';
    assert forall i :: 0 <= i < |body| ==> token[i] == body[i];
  }

  lemma SplitAtDot(token: string)
    ensures Dot(token) < |token| ==>
              token == token[..Dot(token)] + "." + token[Dot(token) + 1..] && '.' !in token[..Dot(token)]
  {
  }

  /** Every text: it is accepted or expired exactly when it is signed and readable, and invalid otherwise. */
  lemma DecodeTokenIff(c: Codec, token: string, now: int)
    ensures forall p :: DecodeToken(c, token, now) == Accepted(p) <==>
              (exists body, rest :: Signs(c, token, body, rest, p))
              && now <= (if p.exp.Some? then p.exp.value else 0)
    ensures DecodeToken(c, token, now) == Refused(ExpiredToken) <==>
            exists body, rest, p :: Signs(c, token, body, rest, p)
              && (if p.exp.Some? then p.exp.value else 0) < now
  {
    hide Decode, AddPadding;
    SplitAtDot(token);
    forall body, rest, p | Signs(c, token, body, rest, p)
      ensures DecodeToken(c, token, now) ==
              if (if p.exp.Some? then p.exp.value else 0) < now then Refused(ExpiredToken) else Accepted(p)
    {
      PartsOfToken(token, body, rest);
    }
    var k := Dot(token);
    if k < |token| && DecodeToken(c, token, now) != Refused(InvalidToken) {
      var p := ReadBody(c, token[..k]).value;
      assert Signs(c, token, token[..k], token[k + 1..], p);
    }
  }

  /** A token read with the secret that wrote it gives its payload back until, and including, its last second. */
  lemma TokenRoundTrip(c: Codec, p: Payload, now: int)
    requires Faithful(c)
    ensures DecodeToken(c, EncodeToken(c, p), now) ==
            if (if p.exp.Some? then p.exp.value else 0) < now then Refused(ExpiredToken) else Accepted(p)
  {
    hide DecodeToken, ReadSignature, ReadBody, Encode, StripPadding;
    StrippedIsPlain(c.dumps(p));
    SignatureRoundTrip(c, BodyOf(c, p));
    BodyRoundTrip(c, p);
    DecodeParts(c, BodyOf(c, p), SignatureText(c, BodyOf(c, p)), now);
  }

  /** Putting another body in front of a signature is refused exactly when their authentication codes differ. */
  lemma TamperedBodyRefused(c: Codec, p: Payload, body: string, now: int)
    requires PlainText(body) && ReadBody(c, body).Some?
    ensures DecodeToken(c, body + "." + SignatureText(c, BodyOf(c, p)), now) == Refused(InvalidToken)
            <==> c.mac(body) != c.mac(BodyOf(c, p))
  {
    hide DecodeToken, ReadSignature, ReadBody, SignatureText;
    SignatureRoundTrip(c, BodyOf(c, p));
    DecodeParts(c, body, SignatureText(c, BodyOf(c, p)), now);
  }
}
