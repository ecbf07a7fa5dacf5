/** Stateless bearer tokens: base64(username:role:expiry).base64(hmac). */
module Tokens {
  import opened Documents
  import opened Base64
  import Catalogs
  import Decimal

  datatype TokenError = Malformed | BadSignature | Expired

  datatype Validated = Accepted(username: string, role: string) | Refused(error: TokenError)

  /** `mac` stands for HMAC-SHA256 under the server's secret. */
  datatype AuthConfig = AuthConfig(mac: seq<Byte> -> seq<Byte>)

  /** Strings as Go holds them, one byte a character. */
  type ByteString = s: string | forall i | 0 <= i < |s| :: s[i] as int < 256

  function BytesOf(s: ByteString): seq<Byte> {
    seq(|s|, i requires 0 <= i < |s| => s[i] as int)
  }

  function StringOf(bytes: seq<Byte>): ByteString {
    seq(|bytes|, i requires 0 <= i < |bytes| => bytes[i] as char)
  }

  lemma StringOfBytes(s: ByteString)
    ensures StringOf(BytesOf(s)) == s
  {
  }

  function Payload(username: string, role: string, expiry: int): string {
    username + ":" + role + ":" + Decimal.Format(expiry)
  }

  /** strings.Split with a one-character separator. */
  function Split(s: string, sep: char): (parts: seq<string>)
    ensures |parts| >= 1
  {
    if |s| == 0 then [""]
    else
      var rest := Split(s[1..], sep);
      if s[0] == sep then [""] + rest else [[s[0]] + rest[0]] + rest[1..]
  }

  /** The position of the first separator, or the length. */
  function FirstOf(s: string, sep: char): (i: nat)
    ensures i <= |s| && (i < |s| ==> s[i] == sep) && forall j | 0 <= j < i :: s[j] != sep
  {
    if |s| == 0 || s[0] == sep then 0 else 1 + FirstOf(s[1..], sep)
  }

  function Token(cfg: AuthConfig, payload: ByteString): string {
    Encode(BytesOf(payload)) + "." + Encode(cfg.mac(BytesOf(payload)))
  }

  const ROLES := {"admin", "read-only"}

  predicate Claims(username: string, role: string, expiry: int) {
    Catalogs.IsName(username) && role in ROLES && Decimal.MIN_INT64 <= expiry <= Decimal.MAX_INT64
  }

  lemma PayloadIsBytes(username: string, role: string, expiry: int)
    requires Claims(username, role, expiry)
    ensures forall i | 0 <= i < |Payload(username, role, expiry)| :: Payload(username, role, expiry)[i] as int < 256
  {
  }

  /** generateToken for a token that expires at `expiry`. */
  function GenerateToken(cfg: AuthConfig, username: string, role: string, expiry: int): string
    requires Claims(username, role, expiry)
  {
    PayloadIsBytes(username, role, expiry);
    Token(cfg, Payload(username, role, expiry))
  }

  /** validateToken at time `now`, in Unix seconds. */
  function ValidateToken(cfg: AuthConfig, token: string, now: int): Validated {
    var dot := FirstOf(token, '.');
    if dot == |token| then Refused(Malformed)
    else
      match (Decode(token[..dot]), Decode(token[dot + 1..]))
      case (Some(payload), Some(signature)) =>
        if signature != cfg.mac(payload) then Refused(BadSignature)
        else
          var fields := Split(StringOf(payload), ':');
          if |fields| != 3 then Refused(Malformed)
          else
            (match Decimal.ParseInt(fields[2])
             case None => Refused(Malformed)
             case Some(expiry) => if now > expiry then Refused(Expired) else Accepted(fields[0], fields[1]))
      case _ => Refused(Malformed)
  }

  predicate Free(s: string, sep: char) { forall i | 0 <= i < |s| :: s[i] != sep }

  lemma {:induction false} SplitFree(s: string, sep: char)
    requires Free(s, sep)
    ensures Split(s, sep) == [s]
  {
    if |s| > 0 {
      SplitFree(s[1..], sep);
      assert [s[0]] + s[1..] == s;
    }
  }

  lemma {:induction false} SplitFirst(a: string, sep: char, rest: string)
    requires Free(a, sep)
    ensures Split(a + [sep] + rest, sep) == [a] + Split(rest, sep)
  {
    var s := a + [sep] + rest;
    if |a| == 0 {
      assert s[1..] == rest;
    } else {
      SplitFirst(a[1..], sep, rest);
      assert s[1..] == a[1..] + [sep] + rest;
      assert [a[0]] + a[1..] == a;
    }
  }

  lemma PayloadFields(username: string, role: string, expiry: int)
    requires Claims(username, role, expiry)
    ensures Split(Payload(username, role, expiry), ':') == [username, role, Decimal.Format(expiry)]
  {
    var number := Decimal.Format(expiry);
    Decimal.FormatChars(expiry);
    SplitFree(number, ':');
    SplitFirst(role, ':', number);
    SplitFirst(username, ':', role + ":" + number);
    assert Payload(username, role, expiry) == username + ":" + (role + ":" + number);
  }

  lemma TokenParts(cfg: AuthConfig, payload: ByteString)
    ensures var token := Token(cfg, payload);
      && FirstOf(token, '.') == |Encode(BytesOf(payload))|
      && Decode(token[..|Encode(BytesOf(payload))|]) == Some(BytesOf(payload))
      && Decode(token[|Encode(BytesOf(payload))| + 1..]) == Some(cfg.mac(BytesOf(payload)))
  {
    var head, tail := Encode(BytesOf(payload)), Encode(cfg.mac(BytesOf(payload)));
    var token := Token(cfg, payload);
    NoSeparator(BytesOf(payload));
    RoundTrip(BytesOf(payload));
    RoundTrip(cfg.mac(BytesOf(payload)));
    assert token[|head|] == '.' && token[..|head|] == head && token[|head| + 1..] == tail;
    assert forall i | 0 <= i < |head| :: token[i] == head[i];
  }

  /** A generated token gives back its username and role up to and including its expiry, and is
      refused as expired at every later time. */
  lemma TokenRoundTrip(cfg: AuthConfig, username: string, role: string, expiry: int, now: int)
    requires Claims(username, role, expiry)
    ensures ValidateToken(cfg, GenerateToken(cfg, username, role, expiry), now)
            == if now <= expiry then Accepted(username, role) else Refused(Expired)
  {
    PayloadIsBytes(username, role, expiry);
    var payload := Payload(username, role, expiry);
    TokenParts(cfg, payload);
    StringOfBytes(payload);
    PayloadFields(username, role, expiry);
    Decimal.FormatRoundTrip(expiry);
  }

  // ---------------------------------------------------------------- every string

  function Join(parts: seq<string>, sep: char): string
    requires |parts| >= 1
  {
    if |parts| == 1 then parts[0] else parts[0] + [sep] + Join(parts[1..], sep)
  }

  /** Splitting cuts at every separator and loses nothing. */
  lemma {:induction false} SplitJoins(s: string, sep: char)
    ensures Join(Split(s, sep), sep) == s && forall part | part in Split(s, sep) :: Free(part, sep)
  {
    if |s| > 0 {
      var rest, parts := Split(s[1..], sep), Split(s, sep);
      SplitJoins(s[1..], sep);
      if s[0] == sep {
        assert parts[1..] == rest && Join(parts, sep) == "" + [sep] + s[1..];
      } else {
        assert parts[1..] == rest[1..];
        assert rest[0] in rest && Free(rest[0], sep) && parts[0] == [s[0]] + rest[0];
        if |rest| > 1 {
          assert Join(parts, sep) == [s[0]] + (rest[0] + [sep] + Join(rest[1..], sep));
        }
      }
      assert s == [s[0]] + s[1..];
    }
  }

  /** The token carries these claims under a valid signature: a head without dots, a dot, and a tail
      that decodes to the signature of what the head decodes to, three parts without colons of
      which the last is the expiry. */
  ghost predicate SignedAs(cfg: AuthConfig, token: string, head: string, tail: string, payload: seq<Byte>,
                           u: string, r: string, e: string, expiry: int)
  {
    && token == head + "." + tail && Free(head, '.')
    && Decode(head) == Some(payload) && Decode(tail) == Some(cfg.mac(payload))
    && StringOf(payload) == u + ":" + r + ":" + e && Free(u, ':') && Free(r, ':') && Free(e, ':')
    && Decimal.ParseInt(e) == Some(expiry)
  }

  ghost predicate Signed(cfg: AuthConfig, token: string, u: string, r: string, expiry: int) {
    exists head, tail, payload, e :: SignedAs(cfg, token, head, tail, payload, u, r, e, expiry)
  }

  lemma DotAfterHead(head: string, tail: string)
    requires Free(head, '.')
    ensures var token := head + "." + tail;
      FirstOf(token, '.') == |head| && token[..|head|] == head && token[|head| + 1..] == tail
  {
    var token := head + "." + tail;
    assert token[|head|] == '.' && forall i | 0 <= i < |head| :: token[i] == head[i];
  }

  lemma ThreeParts(u: string, r: string, e: string)
    requires Free(u, ':') && Free(r, ':') && Free(e, ':')
    ensures Split(u + ":" + r + ":" + e, ':') == [u, r, e]
  {
    SplitFree(e, ':');
    SplitFirst(r, ':', e);
    SplitFirst(u, ':', r + ":" + e);
    assert u + ":" + r + ":" + e == u + ":" + (r + ":" + e);
  }

  lemma PartsOfThree(s: string)
    requires |Split(s, ':')| == 3
    ensures var parts := Split(s, ':');
      s == parts[0] + ":" + parts[1] + ":" + parts[2] && Free(parts[0], ':') && Free(parts[1], ':') && Free(parts[2], ':')
  {
    var parts := Split(s, ':');
    SplitJoins(s, ':');
    assert parts[0] in parts && parts[1] in parts && parts[2] in parts;
    assert parts == [parts[0], parts[1], parts[2]];
    JoinThree(parts[0], parts[1], parts[2], ':');
  }

  lemma JoinThree(a: string, b: string, c: string, sep: char)
    ensures Join([a, b, c], sep) == a + [sep] + b + [sep] + c
  {
    assert [a, b, c][1..] == [b, c] && [b, c][1..] == [c];
    assert Join([c], sep) == c;
    assert Join([b, c], sep) == b + [sep] + c;
    assert Join([a, b, c], sep) == a + [sep] + (b + [sep] + c);
    assert a + [sep] + (b + [sep] + c) == a + [sep] + b + [sep] + c;
  }

  /** What a token with a valid signature is answered. */
  lemma SignedIsAnswered(cfg: AuthConfig, token: string, u: string, r: string, expiry: int, now: int)
    requires Signed(cfg, token, u, r, expiry)
    ensures ValidateToken(cfg, token, now) == if now <= expiry then Accepted(u, r) else Refused(Expired)
  {
    var head, tail, payload, e :| SignedAs(cfg, token, head, tail, payload, u, r, e, expiry);
    DotAfterHead(head, tail);
    ThreeParts(u, r, e);
  }

  /** Only those get as far as the expiry. */
  lemma AnsweredIsSigned(cfg: AuthConfig, token: string, now: int) returns (u: string, r: string, expiry: int)
    requires ValidateToken(cfg, token, now).Accepted? || ValidateToken(cfg, token, now) == Refused(Expired)
    ensures Signed(cfg, token, u, r, expiry)
  {
    var dot := FirstOf(token, '.');
    var head, tail := token[..dot], token[dot + 1..];
    assert token == head + "." + tail && Free(head, '.');
    var payload := Decode(head).value;
    PartsOfThree(StringOf(payload));
    var fields := Split(StringOf(payload), ':');
    u, r, expiry := fields[0], fields[1], Decimal.ParseInt(fields[2]).value;
    assert SignedAs(cfg, token, head, tail, payload, u, r, fields[2], expiry);
  }

  /** For every string: it is accepted exactly when it carries the claims under a valid signature
      and has not expired. */
  lemma AcceptedIff(cfg: AuthConfig, token: string, u: string, r: string, now: int)
    ensures ValidateToken(cfg, token, now) == Accepted(u, r) <==> exists expiry :: Signed(cfg, token, u, r, expiry) && now <= expiry
  {
    if ValidateToken(cfg, token, now) == Accepted(u, r) {
      var u', r', expiry := AnsweredIsSigned(cfg, token, now);
      SignedIsAnswered(cfg, token, u', r', expiry, now);
    }
    if expiry :| Signed(cfg, token, u, r, expiry) && now <= expiry {
      SignedIsAnswered(cfg, token, u, r, expiry, now);
    }
  }

  /** It is refused as expired exactly when it carries some claims under a valid signature and its
      expiry has passed. */
  lemma ExpiredIff(cfg: AuthConfig, token: string, now: int)
    ensures ValidateToken(cfg, token, now) == Refused(Expired)
            <==> exists u, r, expiry :: Signed(cfg, token, u, r, expiry) && now > expiry
  {
    if ValidateToken(cfg, token, now) == Refused(Expired) {
      var u, r, expiry := AnsweredIsSigned(cfg, token, now);
      SignedIsAnswered(cfg, token, u, r, expiry, now);
    }
    if u, r, expiry :| Signed(cfg, token, u, r, expiry) && now > expiry {
      SignedIsAnswered(cfg, token, u, r, expiry, now);
    }
  }

  /** A token with any other signature is refused for it, whatever it claims. */
  lemma ForgedIsRefused(cfg: AuthConfig, head: string, tail: string, payload: seq<Byte>, signature: seq<Byte>, now: int)
    requires Free(head, '.') && Decode(head) == Some(payload) && Decode(tail) == Some(signature)
    ensures ValidateToken(cfg, head + "." + tail, now) == Refused(BadSignature) <==> signature != cfg.mac(payload)
  {
    DotAfterHead(head, tail);
  }

  /** Distinct claims never share a token. */
  lemma TokenDeterminesClaims(cfg: AuthConfig, u: string, r: string, e: int, u': string, r': string, e': int)
    requires Claims(u, r, e) && Claims(u', r', e')
    requires GenerateToken(cfg, u, r, e) == GenerateToken(cfg, u', r', e')
    ensures u == u' && r == r' && e == e'
  {
    TokenRoundTrip(cfg, u, r, e, e);
    TokenRoundTrip(cfg, u', r', e', e);
    TokenRoundTrip(cfg, u, r, e, e');
    TokenRoundTrip(cfg, u', r', e', e');
  }
}
