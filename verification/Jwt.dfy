/**
Token issue and verification (src/utils/jwt_util.cpp). HMAC-SHA256 is OpenSSL's: here it is any
function of the data and the key, so every statement holds whatever the MAC computes.
 */
module Jwt {
  import opened Strings
  import opened Base64Url

  type Mac = (seq<byte>, seq<byte>) -> seq<byte>

  const SECRET_KEY := "Anhui_Engineering_University_Super_Secret_Key_2026"
  const JWT_HEADER := "{\"alg\":\"HS256\",\"typ\":\"JWT\"}"
  const USER_FIELD := "\"user\":\""
  const QUOTE := "\""

  /** A `std::string`: every character is one octet. */
  predicate IsText(s: string) {
    forall k | 0 <= k < |s| :: s[k] as int < 256
  }

  function BytesOf(s: string): seq<byte> {
    Map(Octet, s)
  }

  function Char(b: byte): char {
    b as int as char
  }

  function TextOf(b: seq<byte>): string {
    Map(Char, b)
  }

  lemma TextOfBytes(s: string)
    requires IsText(s)
    ensures TextOf(BytesOf(s)) == s
  {
    forall k | 0 <= k < |s| ensures TextOf(BytesOf(s))[k] == s[k] {
      CharAgain(s[k]);
    }
  }

  function Encode(s: string): string {
    UrlText(BytesOf(s))
  }

  /** `HmacSha256`. */
  function Signature(mac: Mac, data: string): string {
    UrlText(mac(BytesOf(data), BytesOf(SECRET_KEY)))
  }

  function Payload(username: string): string {
    "{\"user\":\"" + username + "\"}"
  }

  function Generate(mac: Mac, username: string): string {
    var signed := Encode(JWT_HEADER) + "." + Encode(Payload(username));
    signed + "." + Signature(mac, signed)
  }

  /** The name between the first `"user":"` and the next quote. */
  function UserIn(json: string): Option<string> {
    match Find(json, USER_FIELD, 0)
    case None => None
    case Some(at) =>
      var pos := at + 8;
      match Find(json, QUOTE, pos)
      case None => None
      case Some(endPos) => Some(json[pos..endPos])
  }

  /** `Verify`: None where the source returns false and leaves its out-parameter alone. */
  function Verify(mac: Mac, token: string): Option<string> {
    match (FindChar(token, '.'), RFindChar(token, '.'))
    case (Some(firstDot), Some(secondDot)) =>
      if firstDot == secondDot then None
      else
        assert token[secondDot] == '.';
        var header := token[..firstDot];
        var payload := token[firstDot + 1..secondDot];
        var provided := token[secondDot + 1..];
        var signed := header + "." + payload;
        if provided != Signature(mac, signed) then None
        else UserIn(TextOf(UrlBytes(payload)))
    case _ => None
  }

  // ---------------------------------------------------------------- what verification means

  lemma FirstDot(h: string, rest: string)
    requires '.' !in h
    ensures FindChar(h + "." + rest, '.') == Some(|h|)
  {
    hide FindChar;
    FirstCharIs(h, '.', rest);
  }

  lemma LastDot(d: string, sig: string)
    requires '.' !in sig
    ensures RFindChar(d + "." + sig, '.') == Some(|d|)
  {
    hide RFindChar;
    LastCharIs(d, '.', sig);
  }

  /** The text after the first dot. */
  function AfterDot(d: string): string
    requires '.' in d
  {
    d[FindChar(d, '.').value + 1..]
  }

  /** A token is signed data, a dot, and its signature; anything else is refused, whatever its payload says. */
  lemma VerifyMeans(mac: Mac, d: string, sig: string)
    requires '.' !in sig
    ensures Verify(mac, d + "." + sig) ==
            if '.' in d && sig == Signature(mac, d) then UserIn(TextOf(UrlBytes(AfterDot(d)))) else None
  {
    hide UserIn, TextOf, UrlBytes, Signature, FindChar, RFindChar;
    var token := d + "." + sig;
    LastDot(d, sig);
    if '.' in d {
      var f := FindChar(d, '.').value;
      FirstDot(d[..f], d[f + 1..] + "." + sig);
      assert d == d[..f] + "." + d[f + 1..];
      assert token == d[..f] + "." + (d[f + 1..] + "." + sig);
      assert token[..f] == d[..f] && token[f + 1..|d|] == d[f + 1..] && token[|d| + 1..] == sig;
    } else {
      FirstDot(d, sig);
    }
  }

  /** Every token with a dot has exactly one reading as data, dot, signature. */
  lemma TokensSplit(token: string) returns (d: string, sig: string)
    ensures '.' in token ==> token == d + "." + sig && '.' !in sig
  {
    match RFindChar(token, '.')
    case None => d, sig := "", "";
    case Some(k) =>
      d, sig := token[..k], token[k + 1..];
      assert token == token[..k] + [token[k]] + token[k + 1..];
  }

  /** What is accepted carries the signature of all that precedes it. */
  lemma AcceptedIsSigned(mac: Mac, token: string)
    requires Verify(mac, token).Some?
    ensures exists d :: '.' in d && token == d + "." + Signature(mac, d)
  {
    var d, sig := TokensSplit(token);
    VerifyMeans(mac, d, sig);
  }

  // ---------------------------------------------------------------- the round trip

  /** The part of a user name that survives: all of it, or what precedes its first quote. */
  function UpToQuote(u: string): string {
    match FindChar(u, '"')
    case None => u
    case Some(k) => u[..k]
  }

  lemma NoDot(b: seq<byte>)
    ensures '.' !in UrlText(b)
  {
    UrlTextIsUrl(b);
  }

  lemma PayloadDecodes(u: string)
    requires IsText(u)
    ensures TextOf(UrlBytes(Encode(Payload(u)))) == Payload(u)
  {
    hide UrlText, UrlBytes, TextOf, BytesOf;
    RoundTrip(BytesOf(Payload(u)));
    assert IsText("{\"user\":\"") && IsText("\"}");
    TextOfBytes(Payload(u));
  }

  lemma UserFieldAt(u: string)
    ensures Find(Payload(u), USER_FIELD, 0) == Some(1)
  {
    var p := Payload(u);
    assert p[1..9] == USER_FIELD;
    assert MatchesAt(p, USER_FIELD, 1);
    assert p[0] == '{' && p[0..8][0] == p[0];
    assert !MatchesAt(p, USER_FIELD, 0);
  }

  lemma ClosingQuoteAt(u: string)
    ensures Find(Payload(u), QUOTE, 9) == Some(9 + |UpToQuote(u)|)
  {
    hide Find, FindChar;
    var name := UpToQuote(u);
    var behind := if FindChar(u, '"') == None then "}" else u[|name| + 1..] + "\"}";
    assert Payload(u) == "{\"user\":\"" + name + ['"'] + behind;
    FindFrom("{\"user\":\"", name, '"', behind);
  }

  lemma UserInPayload(u: string)
    ensures UserIn(Payload(u)) == Some(UpToQuote(u))
  {
    UserFieldAt(u);
    ClosingQuoteAt(u);
    assert Payload(u)[9..9 + |UpToQuote(u)|] == UpToQuote(u);
  }

  /** A token issued for `u` verifies and yields `u` up to its first quote. */
  lemma TokenRoundTrip(mac: Mac, u: string)
    requires IsText(u)
    ensures Verify(mac, Generate(mac, u)) == Some(UpToQuote(u))
    ensures Verify(mac, Generate(mac, u)) == Some(u) <==> '"' !in u
  {
    hide UrlText, UrlBytes, UserIn, TextOf, BytesOf, Payload;
    var h, p := Encode(JWT_HEADER), Encode(Payload(u));
    var d := h + "." + p;
    NoDot(BytesOf(JWT_HEADER));
    NoDot(mac(BytesOf(d), BytesOf(SECRET_KEY)));
    assert d[|h|] == '.';
    VerifyMeans(mac, d, Signature(mac, d));
    FirstDot(h, p);
    assert AfterDot(d) == p;
    PayloadDecodes(u);
    UserInPayload(u);
  }

  // ---------------------------------------------------------------- what a token vouches for

  /** The text names `user`: between the first `"user":"` and the next quote. */
  ghost predicate Names(json: string, user: string) {
    exists before, after ::
      && json == before + USER_FIELD + user + QUOTE + after && '"' !in user
      && forall k | 0 <= k < |before| :: !MatchesAt(json, USER_FIELD, k)
  }

  /**
  Three parts with dots between them, the last one the MAC, under the key, of all that stands before it, and the middle
  one naming `user`.
   */
  ghost predicate Vouches(mac: Mac, token: string, user: string) {
    exists head, payload, sig ::
      && token == head + "." + payload + "." + sig && '.' !in head && '.' !in sig
      && sig == UrlText(mac(BytesOf(head + "." + payload), BytesOf(SECRET_KEY)))
      && Names(TextOf(UrlBytes(payload)), user)
  }

  lemma UserNamed(before: string, user: string, after: string)
    requires '"' !in user
    requires var json := before + USER_FIELD + user + QUOTE + after;
             forall k | 0 <= k < |before| :: !MatchesAt(json, USER_FIELD, k)
    ensures UserIn(before + USER_FIELD + user + QUOTE + after) == Some(user)
  {
    hide Find;
    var json, at := before + USER_FIELD + user + QUOTE + after, |before|;
    assert json[at..at + 8] == USER_FIELD;
    assert MatchesAt(json, USER_FIELD, at);
    FindFrom(before + USER_FIELD, user, '"', after);
    assert json == before + USER_FIELD + user + ['"'] + after;
    assert json[at + 8..at + 8 + |user|] == user;
  }

  lemma UserInNames(json: string, user: string)
    ensures UserIn(json) == Some(user) <==> Names(json, user)
  {
    hide Find;
    if UserIn(json) == Some(user) {
      var at := Find(json, USER_FIELD, 0).value;
      var end := Find(json, QUOTE, at + 8).value;
      var before, after := json[..at], json[end + 1..];
      assert json[at..at + 8] == USER_FIELD && json[end..end + 1] == QUOTE;
      assert json == before + USER_FIELD + user + QUOTE + after;
      forall k | 0 <= k < |user| ensures user[k] != '"' {
        assert !MatchesAt(json, QUOTE, at + 8 + k);
        assert json[at + 8 + k..at + 8 + k + 1] == [user[k]];
      }
    }
    if Names(json, user) {
      var before, after :|
        && json == before + USER_FIELD + user + QUOTE + after && '"' !in user
        && forall k | 0 <= k < |before| :: !MatchesAt(json, USER_FIELD, k);
      UserNamed(before, user, after);
    }
  }

  lemma SignedParts(mac: Mac, head: string, payload: string, sig: string)
    requires '.' !in head && '.' !in sig
    ensures Verify(mac, head + "." + payload + "." + sig) ==
            if sig == UrlText(mac(BytesOf(head + "." + payload), BytesOf(SECRET_KEY)))
            then UserIn(TextOf(UrlBytes(payload))) else None
  {
    hide UserIn, TextOf, UrlBytes, BytesOf, FindChar, RFindChar, UrlText, Verify;
    var d := head + "." + payload;
    assert d[|head|] == '.';
    VerifyMeans(mac, d, sig);
    FirstDot(head, payload);
    assert AfterDot(d) == payload;
  }

  lemma AcceptedParts(mac: Mac, token: string)
    requires Verify(mac, token).Some?
    ensures exists head, payload, sig ::
              token == head + "." + payload + "." + sig && '.' !in head && '.' !in sig
  {
    hide UserIn, TextOf, UrlBytes, Signature, FindChar, RFindChar;
    var f, l := FindChar(token, '.').value, RFindChar(token, '.').value;
    var head, payload, sig := token[..f], token[f + 1..l], token[l + 1..];
    assert token == head + "." + payload + "." + sig;
    assert forall k | 0 <= k < |head| :: head[k] == token[k];
    assert forall k | 0 <= k < |sig| :: sig[k] == token[l + 1 + k];
    assert '.' !in head && '.' !in sig;
  }

  /** A token is accepted, for a user, if and only if it vouches for that user. */
  lemma VerifyAccepts(mac: Mac, token: string, user: string)
    ensures Verify(mac, token) == Some(user) <==> Vouches(mac, token, user)
  {
    hide UserIn, Names, TextOf, UrlBytes, BytesOf, UrlText, Verify;
    if Verify(mac, token) == Some(user) {
      AcceptedParts(mac, token);
      var head, payload, sig :| token == head + "." + payload + "." + sig && '.' !in head && '.' !in sig;
      SignedParts(mac, head, payload, sig);
      UserInNames(TextOf(UrlBytes(payload)), user);
    }
    if Vouches(mac, token, user) {
      var head, payload, sig :|
        && token == head + "." + payload + "." + sig && '.' !in head && '.' !in sig
        && sig == UrlText(mac(BytesOf(head + "." + payload), BytesOf(SECRET_KEY)))
        && Names(TextOf(UrlBytes(payload)), user);
      SignedParts(mac, head, payload, sig);
      UserInNames(TextOf(UrlBytes(payload)), user);
    }
  }

  /** The last part of an accepted token decodes to the MAC of everything before the last dot. */
  lemma AcceptedDecodes(mac: Mac, d: string, sig: string)
    requires '.' !in sig && Verify(mac, d + "." + sig).Some?
    ensures UrlBytes(sig) == mac(BytesOf(d), BytesOf(SECRET_KEY))
  {
    hide UserIn, TextOf, UrlBytes, UrlText, BytesOf, Verify;
    VerifyMeans(mac, d, sig);
    RoundTrip(mac(BytesOf(d), BytesOf(SECRET_KEY)));
  }

  /** A signature taken from one token does not pass behind data with another MAC. */
  lemma StolenSignature(mac: Mac, d1: string, d2: string, sig: string)
    requires '.' !in sig && Verify(mac, d1 + "." + sig).Some?
    requires mac(BytesOf(d1), BytesOf(SECRET_KEY)) != mac(BytesOf(d2), BytesOf(SECRET_KEY))
    ensures Verify(mac, d2 + "." + sig) == None
  {
    hide Verify, UrlBytes, BytesOf;
    AcceptedDecodes(mac, d1, sig);
    if Verify(mac, d2 + "." + sig).Some? {
      AcceptedDecodes(mac, d2, sig);
    }
  }

  /** The three parts of a new token decode to the fixed header, the name in its payload, and the MAC of both. */
  lemma TokenParts(mac: Mac, u: string) returns (head: string, payload: string, sig: string)
    ensures Generate(mac, u) == head + "." + payload + "." + sig
    ensures '.' !in head && '.' !in payload && '.' !in sig
    ensures UrlBytes(head) == BytesOf("{\"alg\":\"HS256\",\"typ\":\"JWT\"}")
    ensures UrlBytes(payload) == BytesOf("{\"user\":\"" + u + "\"}")
    ensures UrlBytes(sig) == mac(BytesOf(head + "." + payload), BytesOf(SECRET_KEY))
  {
    hide UrlText, UrlBytes, BytesOf;
    head, payload := Encode(JWT_HEADER), Encode(Payload(u));
    sig := Signature(mac, head + "." + payload);
    NoDot(BytesOf(JWT_HEADER));
    NoDot(BytesOf(Payload(u)));
    NoDot(mac(BytesOf(head + "." + payload), BytesOf(SECRET_KEY)));
    RoundTrip(BytesOf(JWT_HEADER));
    RoundTrip(BytesOf(Payload(u)));
    RoundTrip(mac(BytesOf(head + "." + payload), BytesOf(SECRET_KEY)));
  }
}
