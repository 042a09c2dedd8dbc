/** `BasicAuth` (0x01): the Basic-Auth credential pipeline of RFC 7617, section 2.
    Every stage maps malformed input to None instead of raising. The user
    search and the password check are the `User` model's, passed in as oracles. */
module BasicAuth {
  import opened Values
  import opened Strings
  import Base64
  import Utf8
  import Auth

  /** What `User.search({'email': e})` does: raise, or return the matching users in order. */
  datatype SearchResult<U> = SearchRaised | Found(users: seq<U>)

  /** `extract_base64_authorization_header`; the scheme name is matched case-sensitively. */
  function ExtractBase64AuthorizationHeader(header: Value): (r: Value)
    ensures r.NoneValue? || r.Str?
    ensures r.Str? <==> header.Str? && StartsWith(header.text, "Basic ")
    ensures r.Str? ==> header.text == "Basic " + r.text
  {
    if header.NoneValue? then NoneValue
    else if !header.Str? then NoneValue
    else if Take(header.text, 6) == "Basic " then Str(header.text[6..])
    else NoneValue
  }

  /** Whatever follows the prefix comes out exactly. */
  lemma ExtractAfterPrefix(t: string)
    ensures ExtractBase64AuthorizationHeader(Str("Basic " + t)) == Str(t)
  {
  }

  /** `decode_base64_authorization_header`: Base64 to bytes, bytes to UTF-8 text; any
      failure (including a non-ASCII token) is None. */
  function DecodeBase64AuthorizationHeader(token: Value): (r: Value)
    ensures r.NoneValue? || r.Str?
    ensures r.Str? ==> token.Str? && Base64.Decode(token.text) == Some(Utf8.Encode(r.text))
    ensures r.NoneValue? <==>
              !token.Str? || Base64.Decode(token.text).None? || Utf8.Decode(Base64.Decode(token.text).value).None?
  {
    if token.NoneValue? then NoneValue
    else if !token.Str? then NoneValue
    else match Base64.Decode(token.text)
      case None => NoneValue
      case Some(bytes) =>
        match Utf8.Decode(bytes)
        case None => NoneValue
        case Some(text) => Str(text)
  }

  /** The canonical Base64 encoding of the UTF-8 form of any string decodes to that string. */
  lemma DecodeCanonical(s: string)
    ensures DecodeBase64AuthorizationHeader(Str(Base64.Encode(Utf8.Encode(s)))) == Str(s)
  {
    Base64.DecodeEncode(Utf8.Encode(s));
    Utf8.DecodeEncode(s);
  }

  /** `extract_user_credentials`: split at colons, keep the first piece as the email
      and join the others back as the password. */
  function ExtractUserCredentials(decoded: Value): (r: (Value, Value))
    ensures r.0.Str? <==> decoded.Str? && ':' in decoded.text
    ensures !r.0.Str? ==> r == (NoneValue, NoneValue)
    ensures r.0.Str? ==> r.1.Str? && ':' !in r.0.text && decoded.text == r.0.text + ":" + r.1.text
  {
    if decoded.NoneValue? then (NoneValue, NoneValue)
    else if !decoded.Str? then (NoneValue, NoneValue)
    else if ':' !in decoded.text then (NoneValue, NoneValue)
    else
      var values := Split(decoded.text, ':');
      JoinSplit(decoded.text, ':');
      (Str(values[0]), Str(Join(':', values[1..])))
  }

  /** The split is at the first colon: an email without a colon and any password
      (later colons included) come back as they were joined. */
  lemma CredentialsSplitAtFirstColon(email: string, password: string)
    requires ':' !in email
    ensures ExtractUserCredentials(Str(email + ":" + password)) == (Str(email), Str(password))
  {
    var s := email + ":" + password;
    assert s[|email|] == ':';
    var r := ExtractUserCredentials(Str(s));
    PrefixBeforeColon(email, r.0.text, password, r.1.text);
  }

  /** Two ways of writing a string as (colon-free) + ":" + rest are the same way. */
  lemma PrefixBeforeColon(a: string, b: string, x: string, y: string)
    requires ':' !in a && ':' !in b
    requires a + ":" + x == b + ":" + y
    ensures a == b && x == y
  {
    var s := a + ":" + x;
    assert s[|a|] == ':' && (b + ":" + y)[|b|] == ':';
    assert forall i :: 0 <= i < |a| ==> s[i] == a[i];
    assert forall i :: 0 <= i < |b| ==> s[i] == b[i];
    assert |a| == |b|;
    assert a == s[..|a|] && b == s[..|b|];
    assert x == s[|a| + 1..] && y == s[|b| + 1..];
  }

  /** A decoded token without a colon carries no credentials, as for `Basic YWJj` ("abc"). */
  lemma NoColonNoCredentials(s: string)
    requires ':' !in s
    ensures ExtractUserCredentials(DecodeBase64AuthorizationHeader(
              ExtractBase64AuthorizationHeader(Str("Basic " + Base64.Encode(Utf8.Encode(s)))))) == (NoneValue, NoneValue)
  {
    ExtractAfterPrefix(Base64.Encode(Utf8.Encode(s)));
    DecodeCanonical(s);
  }

  /** `user_object_from_credentials`: only the first candidate's password is checked. */
  function UserObjectFromCredentials<U>(userEmail: Value, userPwd: Value,
                                        search: string -> SearchResult<U>,
                                        isValidPassword: (U, string) -> bool): (r: Option<U>)
    ensures r.Some? <==>
              && userEmail.Str? && userPwd.Str?
              && search(userEmail.text).Found? && |search(userEmail.text).users| > 0
              && isValidPassword(search(userEmail.text).users[0], userPwd.text)
    ensures r.Some? ==> r.value == search(userEmail.text).users[0]
  {
    if userEmail.NoneValue? || !userEmail.Str? then None
    else if userPwd.NoneValue? || !userPwd.Str? then None
    else match search(userEmail.text)
      case SearchRaised => None
      case Found(users) =>
        if |users| == 0 then None
        else if isValidPassword(users[0], userPwd.text) then Some(users[0])
        else None
  }

  /** A later candidate is never examined, even when its password would match. */
  lemma FirstCandidateOnly<U>(email: string, pwd: string, search: string -> SearchResult<U>,
                              isValidPassword: (U, string) -> bool)
    requires search(email).Found? && |search(email).users| > 1
    requires !isValidPassword(search(email).users[0], pwd)
    requires isValidPassword(search(email).users[1], pwd)
    ensures UserObjectFromCredentials(Str(email), Str(pwd), search, isValidPassword) == None
  {
  }

  /** The request's Authorization header is `Basic ` followed by Base64 of the UTF-8
      form of `email:password`, and the email holds no colon. */
  ghost predicate CarriesCredentials(request: Option<Auth.Request>, email: string, password: string) {
    && request.Some? && "Authorization" in request.value.headers
    && var header := request.value.headers["Authorization"];
    && StartsWith(header, "Basic ")
    && ':' !in email
    && Base64.Decode(header[6..]) == Some(Utf8.Encode(email + ":" + password))
  }

  /** `current_user`: every stage must succeed, and then the first user with that
      email must accept the password. */
  function CurrentUser<U>(request: Option<Auth.Request>, search: string -> SearchResult<U>,
                          isValidPassword: (U, string) -> bool): (r: Option<U>)
    ensures r.Some? ==>
              exists email, password :: CarriesCredentials(request, email, password)
                && search(email).Found? && |search(email).users| > 0 && r.value == search(email).users[0]
                && isValidPassword(r.value, password)
  {
    var header := Auth.AuthorizationHeader(request);
    var token := ExtractBase64AuthorizationHeader(header);
    var decoded := DecodeBase64AuthorizationHeader(token);
    var credentials := ExtractUserCredentials(decoded);
    var user := UserObjectFromCredentials(credentials.0, credentials.1, search, isValidPassword);
    assert user.Some? ==> CarriesCredentials(request, credentials.0.text, credentials.1.text);
    user
  }

  /** Conversely, a request carrying credentials is answered by the first-candidate check. */
  lemma CurrentUserOfCredentials<U>(request: Option<Auth.Request>, email: string, password: string,
                                    search: string -> SearchResult<U>,
                                    isValidPassword: (U, string) -> bool)
    requires CarriesCredentials(request, email, password)
    ensures CurrentUser(request, search, isValidPassword)
            == UserObjectFromCredentials(Str(email), Str(password), search, isValidPassword)
  {
    var header := request.value.headers["Authorization"];
    var s := email + ":" + password;
    assert ExtractBase64AuthorizationHeader(Str(header)) == Str(header[6..]);
    var decoded := DecodeBase64AuthorizationHeader(Str(header[6..]));
    Utf8.DecodeEncode(s);
    assert decoded == Str(s);
    CredentialsSplitAtFirstColon(email, password);
  }

  /** A header built as RFC 7617 prescribes carries exactly the credentials it was built from. */
  lemma CanonicalHeaderCarries(email: string, password: string, headers: map<string, string>,
                               cookies: map<string, string>)
    requires ':' !in email
    requires "Authorization" in headers
    requires headers["Authorization"] == "Basic " + Base64.Encode(Utf8.Encode(email + ":" + password))
    ensures CarriesCredentials(Some(Auth.Request(headers, cookies)), email, password)
  {
    var header := headers["Authorization"];
    assert header[6..] == Base64.Encode(Utf8.Encode(email + ":" + password));
    Base64.DecodeEncode(Utf8.Encode(email + ":" + password));
  }
}
