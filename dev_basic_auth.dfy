/**
 * The development-profile HTTP authentication mechanism that reads a
 * "Basic" Authorization header (section 2 of RFC 7617) and hands the
 * username and password on to the identity provider.
 */
module DevBasicAuth {
  import opened Wrappers
  import Base64
  import BasicHeader
  import JavaSplit

  type byte = Base64.byte

  /** ':' in US-ASCII and in UTF-8. */
  const Colon: byte := 0x3A

  /**
   * What authenticate hands back. NoDecision is the empty Uni that leaves the
   * request to other mechanisms; Unauthorized is the failed Uni carrying an
   * UnauthorizedException; DecodeError is the IllegalArgumentException the
   * base 64 decoder throws, which authenticate does not catch; Forward is the
   * username/password request passed to the identity provider, whose answer
   * becomes the result. Username and password are the bytes that the source
   * turns into text with UTF-8.
   */
  datatype Outcome =
    | NoDecision
    | Unauthorized
    | DecodeError
    | Forward(username: seq<byte>, password: seq<byte>)

  /** The decoded credentials once the header matched and its token decoded. */
  function Payload(header: string): Option<seq<byte>> {
    match BasicHeader.Find(header)
    case None => None
    case Some(found) => Base64.Decode(found.1.token)
  }

  /**
   * authenticate, given the value of the Authorization header or None when
   * the request has none.
   */
  function Authenticate(authorization: Option<string>): (r: Outcome)
    ensures r.NoDecision? <==> authorization.None?
    ensures authorization.Some? && BasicHeader.Find(authorization.value).None? ==> r.Unauthorized?
    ensures r.DecodeError? <==> authorization.Some? && BasicHeader.Find(authorization.value).Some? &&
                                Payload(authorization.value).None?
    ensures r.Forward? ==> Colon !in r.username && Colon !in r.password && r.password != []
  {
    match authorization
    case None => NoDecision
    case Some(header) =>
      match BasicHeader.Find(header)
      case None => Unauthorized
      case Some(found) =>
        match Base64.Decode(found.1.token)
        case None => DecodeError
        case Some(payload) =>
          var parts := JavaSplit.Split(payload, Colon);
          if |parts| != 2 then Unauthorized
          else
            JavaSplit.SplitTwoShape(payload, Colon);
            Forward(parts[0], parts[1])
  }

  /**
   * The scheme in any case, any white space and the padded base 64 of
   * u + ":" + p, followed by any number of further colons, forwards exactly
   * (u, p) when neither holds a colon and p is not empty; u may be empty.
   */
  lemma RoundTrip(scheme: string, space: string, u: seq<byte>, p: seq<byte>, k: nat)
    requires BasicHeader.IsBasicScheme(scheme)
    requires |space| >= 1 && BasicHeader.AllIn(space, BasicHeader.Space)
    requires Colon !in u && Colon !in p && p != []
    ensures Authenticate(Some(scheme + space + Base64.Encode(u + [Colon] + p + JavaSplit.Repeat(Colon, k)))) == Forward(u, p)
  {
    var payload := u + [Colon] + p + JavaSplit.Repeat(Colon, k);
    var token := Base64.Encode(payload);
    EncodingIsToken(payload);
    BasicHeader.FindWholeHeader(scheme, space, token);
    Base64.RoundTrip(payload);
    JavaSplit.SplitPair(u, p, k, Colon);
  }

  /** Conversely, whatever is forwarded is a colon-free pair whose payload has only colons after it. */
  lemma ForwardShape(header: string)
    requires Authenticate(Some(header)).Forward?
    ensures var r := Authenticate(Some(header));
      Payload(header).Some? &&
      var payload := Payload(header).value;
      |payload| >= |r.username| + 1 + |r.password| &&
      payload == r.username + [Colon] + r.password + JavaSplit.Repeat(Colon, |payload| - |r.username| - 1 - |r.password|)
  {
    var payload := Payload(header).value;
    JavaSplit.SplitTwoShape(payload, Colon);
  }

  /** A colon inside the password makes three parts: "a:b:c" is refused. */
  lemma ColonInPasswordRefused(header: string, u: seq<byte>, p1: seq<byte>, p2: seq<byte>, k: nat)
    requires Colon !in u && Colon !in p1 && Colon !in p2 && p2 != []
    requires Payload(header) == Some(u + [Colon] + p1 + [Colon] + p2 + JavaSplit.Repeat(Colon, k))
    ensures Authenticate(Some(header)) == Unauthorized
  {
    JavaSplit.SplitThree(u, p1, p2, k, Colon);
  }

  /** Nothing but colons after the username, as in "user:" or ":", is refused. */
  lemma EmptyPasswordRefused(header: string, u: seq<byte>, k: nat)
    requires Colon !in u && k >= 1
    requires Payload(header) == Some(u + JavaSplit.Repeat(Colon, k))
    ensures Authenticate(Some(header)) == Unauthorized
  {
    JavaSplit.SplitTrailingOnly(u, k, Colon);
  }

  /** A payload with no colon at all is refused. */
  lemma NoColonRefused(header: string, payload: seq<byte>)
    requires Colon !in payload && Payload(header) == Some(payload)
    ensures Authenticate(Some(header)) == Unauthorized
  {
  }

  /**
   * The empty payload never arises: the pattern demands a non-empty token,
   * and a non-empty token either fails to decode or gives at least one byte.
   */
  lemma EmptyPayloadUnreachable(header: string)
    ensures Payload(header) != Some([])
  {
    match BasicHeader.Find(header)
    case None =>
    case Some(found) =>
      if Base64.Decode(found.1.token) == Some([]) {
        Base64.EmptyOnlyFromEmpty(found.1.token);
      }
  }

  /** CASE_INSENSITIVE: "basic" and "BASIC" are handled as "Basic" is. */
  lemma SchemeCaseIgnored(scheme: string, rest: string)
    requires BasicHeader.IsBasicScheme(scheme)
    ensures Authenticate(Some(scheme + rest)) == Authenticate(Some("Basic" + rest))
  {
    BasicHeader.SchemeCaseIgnored(scheme, rest);
  }

  /** A token that the pattern admits but that opens with '=' is a decode error, not Unauthorized. */
  lemma MisplacedPadIsDecodeError(space: string, rest: string)
    requires |space| >= 1 && BasicHeader.AllIn(space, BasicHeader.Space)
    requires BasicHeader.AllIn(rest, BasicHeader.Token)
    ensures Authenticate(Some("Basic" + space + ("=" + rest))) == DecodeError
  {
    PadPrefixIsToken(rest);
    BasicHeader.FindWholeHeader("Basic", space, "=" + rest);
    Base64.LeadingPadRejected(rest);
  }

  lemma PadPrefixIsToken(rest: string)
    requires BasicHeader.AllIn(rest, BasicHeader.Token)
    ensures BasicHeader.AllIn("=" + rest, BasicHeader.Token)
  {
    var token := "=" + rest;
    forall i | 0 <= i < |token|
      ensures BasicHeader.IsTokenChar(token[i])
    {
      if i > 0 {
        assert token[i] == rest[i - 1];
      }
    }
  }

  /** Every character of a padded encoding is admitted by the token class. */
  lemma EncodingIsToken(bytes: seq<byte>)
    requires bytes != []
    ensures |Base64.Encode(bytes)| >= 1 && BasicHeader.AllIn(Base64.Encode(bytes), BasicHeader.Token)
  {
    var body := Base64.Chars(Base64.EncodeSextets(bytes));
    var s := Base64.Encode(bytes);
    forall i | 0 <= i < |s|
      ensures BasicHeader.IsTokenChar(s[i])
    {
      if i < |body| {
        assert s[i] == body[i];
      } else {
        assert s[i] == Base64.Padding(|bytes|)[i - |body|];
      }
    }
  }

  /** The challenge getChallenge sends back. */
  datatype ChallengeData = ChallengeData(status: int, headerName: string, content: string)

  /** HttpResponseStatus.UNAUTHORIZED.code() */
  const UnauthorizedStatus: int := 401
  /** HttpHeaders.WWW_AUTHENTICATE */
  const WwwAuthenticate: string := "WWW-Authenticate"

  /** getChallenge: the same challenge whatever the request. */
  function Challenge(): (c: ChallengeData)
    ensures c.status == 401 && c.headerName == "X-WWW-Authenticate" && c.content == "Basic"
  {
    ChallengeData(UnauthorizedStatus, "X-" + WwwAuthenticate, "Basic")
  }

  /** The kinds of authentication request an identity provider can be asked to verify. */
  datatype RequestKind =
    | UsernamePasswordRequest
    | TokenRequest
    | CertificateRequest
    | TrustedRequest
    | AnonymousRequest

  /** getCredentialTypes: the mechanism only ever builds username/password requests. */
  function CredentialTypes(): (kinds: set<RequestKind>)
    ensures forall k :: k in kinds <==> k == UsernamePasswordRequest
  {
    {UsernamePasswordRequest}
  }
}
