/**
 * The `/signatures` route: the role check, and the join signature built
 * from the API key, the meeting number, a timestamp thirty seconds before
 * `now`, the role and an HMAC-SHA256 over all four, under the API secret.
 *
 * The HMAC is a parameter: any function that maps a key and a message to 32
 * bytes.  The clock reading `now` (milliseconds) is a parameter too.
 */
module Signature {
  import opened Wrappers
  import opened Bytes
  import opened JsText
  import Utf8
  import Base64

  /** An HMAC-SHA256 result: 32 bytes. */
  type Digest = s: seq<byte> | |s| == 32 witness seq(32, _ => 0)

  /** HMAC-SHA256 (RFC 2104 over FIPS 180-4 SHA-256), keyed by its first argument. */
  type Hmac = (seq<byte>, seq<byte>) -> Digest

  /** The process-wide credentials. */
  datatype Config = Config(apiKey: string, apiSecret: string)

  /**
   * What the handler does after the presence check: issue a signature,
   * reject the role with a message, or throw while making text of a value.
   */
  datatype Signed = Signed(signature: string) | Rejected(message: string) | Threw

  const Participant: int := 0
  const Manager: int := 1

  /** How far the timestamp is set back from the clock, in milliseconds. */
  const SkewMillis: int := 30000

  /** The role check: strict equality with the number 0 or the number 1. */
  predicate IsRole(role: Value)
  {
    role == Number(Participant) || role == Number(Manager)
  }

  /** The 400 message for a bad role, given the role's text. */
  function RoleMessage(roleText: string): string
  {
    "role should be 0 (participant) or 1 (manager). Got: " + roleText
  }

  function Timestamp(now: int): int
  {
    now - SkewMillis
  }

  /** The signed text: key, meeting number, timestamp and role, with no separators. */
  function MessageText(apiKey: string, meetingText: string, timestamp: int, roleText: string): string
  {
    apiKey + meetingText + Decimal(timestamp) + roleText
  }

  /** `msg`: the signed text's UTF-8 bytes in base 64. */
  function Message(apiKey: string, meetingText: string, timestamp: int, roleText: string): string
  {
    Base64.Encode(Utf8.Encode(MessageText(apiKey, meetingText, timestamp, roleText)))
  }

  /** `hash`: the HMAC of `msg` under the secret, in base 64. */
  function Hash(hmac: Hmac, secret: string, msg: string): string
  {
    Base64.Encode(hmac(Utf8.Encode(secret), Utf8.Encode(msg)))
  }

  /** The five fields of a signature, in order. */
  function Fields(apiKey: string, meetingText: string, timestamp: int, roleText: string, hash: string): seq<string>
  {
    [apiKey, meetingText, Decimal(timestamp), roleText, hash]
  }

  /** The text inside a signature: its fields joined by '.'. */
  function Payload(apiKey: string, meetingText: string, timestamp: int, roleText: string, hash: string): string
  {
    Join(Fields(apiKey, meetingText, timestamp, roleText, hash), '.')
  }

  /** The signature for the given texts: the base 64 of the payload, whose last field hashes `msg`. */
  function Token(cfg: Config, hmac: Hmac, meetingText: string, timestamp: int, roleText: string): string
  {
    var msg := Message(cfg.apiKey, meetingText, timestamp, roleText);
    var hash := Hash(hmac, cfg.apiSecret, msg);
    Base64.Encode(Utf8.Encode(Payload(cfg.apiKey, meetingText, timestamp, roleText, hash)))
  }

  /**
   * The handler body after the presence check.  A bad role is answered
   * before anything else, with its text in the message; a good role is
   * "0" or "1" as text, and the meeting number is made text when `msg` is
   * built.  Either conversion can throw.
   */
  function Sign(cfg: Config, hmac: Hmac, meetingNumber: Value, role: Value, now: int): Signed
  {
    if !IsRole(role) then
      match ToText(role)
      case None => Threw
      case Some(roleText) => Rejected(RoleMessage(roleText))
    else
      match ToText(meetingNumber)
      case None => Threw
      case Some(meetingText) => Signed(Token(cfg, hmac, meetingText, Timestamp(now), Decimal(role.n)))
  }

  /**
   * The route signs exactly for a good role and a meeting number that has
   * a text; it rejects exactly the bad roles that have a text; it throws
   * on the value it was making text of.
   */
  lemma SignOutcomes(cfg: Config, hmac: Hmac, meetingNumber: Value, role: Value, now: int)
    ensures var r := Sign(cfg, hmac, meetingNumber, role, now);
      && (r.Signed? <==> IsRole(role) && !TextThrows(meetingNumber))
      && (r.Rejected? <==> !IsRole(role) && !TextThrows(role))
      && (r.Threw? <==> if IsRole(role) then TextThrows(meetingNumber) else TextThrows(role))
  {
    ToTextThrows(meetingNumber);
    ToTextThrows(role);
  }

  /**
   * A bad role is answered whatever the credentials, the HMAC, the meeting
   * number and the clock, so nothing of the signature is computed for it:
   * the role message, ending with the role's text, unless that text throws.
   */
  lemma BadRoleRejectedFirst(cfg: Config, hmac: Hmac, meetingNumber: Value, role: Value, now: int,
                             cfg': Config, hmac': Hmac, meetingNumber': Value, now': int)
    requires !IsRole(role)
    ensures Sign(cfg, hmac, meetingNumber, role, now) == Sign(cfg', hmac', meetingNumber', role, now')
    ensures TextThrows(role) ==> Sign(cfg, hmac, meetingNumber, role, now) == Threw
    ensures !TextThrows(role) ==>
      && ToText(role).Some?
      && Sign(cfg, hmac, meetingNumber, role, now) == Rejected(RoleMessage(ToText(role).value))
      && var m, t := RoleMessage(ToText(role).value), ToText(role).value; |m| >= |t| && m[|m| - |t|..] == t
  {
    ToTextThrows(role);
  }

  /** The strings "0" and "manager" are not roles: equality is strict. */
  lemma StringRolesRejected(cfg: Config, hmac: Hmac, meetingNumber: Value, now: int)
    ensures Sign(cfg, hmac, meetingNumber, Str("0"), now)
            == Rejected("role should be 0 (participant) or 1 (manager). Got: 0")
    ensures Sign(cfg, hmac, meetingNumber, Str("manager"), now)
            == Rejected("role should be 0 (participant) or 1 (manager). Got: manager")
  {
    var prefix := "role should be 0 (participant) or 1 (manager). Got: ";
    assert prefix + "0" == "role should be 0 (participant) or 1 (manager). Got: 0";
    assert prefix + "manager" == "role should be 0 (participant) or 1 (manager). Got: manager";
  }

  /**
   * An object with its own `toString` property makes the handler throw
   * as the role, instead of getting the role message.
   */
  lemma OwnToStringRoleThrows(cfg: Config, hmac: Hmac, now: int)
    ensures Sign(cfg, hmac, Str("1"), Object([("toString", Number(1))]), now) == Threw
  {
    var own := Object([("toString", Number(1))]);
    assert own.fields[0].0 == "toString";
  }

  /**
   * An object with its own `toString` property, or an array holding one,
   * makes the handler throw as the meeting number, instead of being signed.
   */
  lemma OwnToStringMeetingNumberThrows(cfg: Config, hmac: Hmac, now: int)
    ensures Sign(cfg, hmac, Object([("toString", Number(1))]), Number(Participant), now) == Threw
    ensures Sign(cfg, hmac, Array([Null, Object([("toString", Null)])]), Number(Manager), now) == Threw
  {
    var own := Object([("toString", Number(1))]);
    assert own.fields[0].0 == "toString";
    var bad := Object([("toString", Null)]);
    assert TextThrows(bad) by {
      assert bad.fields[0].0 == "toString";
    }
    ToTextThrows(Array([Null, bad]));
    assert TextThrows(Array([Null, bad])) by {
      assert Array([Null, bad]).items[1] == bad;
    }
  }

  /** The signed message is the base 64 of the plain concatenation, in that order. */
  lemma MessageDecodes(apiKey: string, meetingText: string, timestamp: int, roleText: string)
    ensures Base64.Decode(Message(apiKey, meetingText, timestamp, roleText))
            == Some(Utf8.Encode(apiKey + meetingText + Decimal(timestamp) + roleText))
  {
    Base64.DecodeEncode(Utf8.Encode(MessageText(apiKey, meetingText, timestamp, roleText)));
  }

  lemma JoinFive(a: string, b: string, c: string, d: string, e: string)
    ensures Join([a, b, c, d, e], '.') == a + "." + b + "." + c + "." + d + "." + e
  {
    assert Join([e], '.') == e;
    assert [d, e][1..] == [e];
    assert Join([d, e], '.') == d + "." + e;
    assert [c, d, e][1..] == [d, e];
    assert Join([c, d, e], '.') == c + "." + (d + "." + e);
    assert [b, c, d, e][1..] == [c, d, e];
    assert Join([b, c, d, e], '.') == b + "." + (c + "." + (d + "." + e));
    assert [a, b, c, d, e][1..] == [b, c, d, e];
    assert Join([a, b, c, d, e], '.') == a + "." + (b + "." + (c + "." + (d + "." + e)));
  }

  /** A good role's text, "0" or "1". */
  lemma RoleText(role: Value)
    requires IsRole(role)
    ensures ToText(role) == Some(Decimal(role.n))
    ensures Decimal(role.n) == if role == Number(Participant) then "0" else "1"
  {
  }

  /**
   * Base 64 decoding a signature gives the UTF-8 bytes of
   * key.meetingNumber.timestamp.role.hash, with the timestamp thirty seconds
   * before `now`; those bytes decode back to that text, and re-encoding
   * them gives the signature again.
   */
  lemma SignatureDecodes(cfg: Config, hmac: Hmac, meetingNumber: Value, meetingText: string, role: Value, now: int)
    requires IsRole(role) && ToText(meetingNumber) == Some(meetingText)
    ensures Sign(cfg, hmac, meetingNumber, role, now).Signed?
    ensures var sig := Sign(cfg, hmac, meetingNumber, role, now).signature;
      var roleText := if role == Number(Participant) then "0" else "1";
      var hash := Hash(hmac, cfg.apiSecret, Message(cfg.apiKey, meetingText, now - 30000, roleText));
      var text := cfg.apiKey + "." + meetingText + "." + Decimal(now - 30000) + "." + roleText + "." + hash;
      && Base64.Decode(sig) == Some(Utf8.Encode(text))
      && Utf8.Decode(Utf8.Encode(text)) == Some(text)
      && Base64.Encode(Base64.Decode(sig).value) == sig
  {
    RoleText(role);
    var ts, roleText := Timestamp(now), Decimal(role.n);
    var hash := Hash(hmac, cfg.apiSecret, Message(cfg.apiKey, meetingText, ts, roleText));
    var text := Payload(cfg.apiKey, meetingText, ts, roleText, hash);
    JoinFive(cfg.apiKey, meetingText, Decimal(ts), roleText, hash);
    Base64.DecodeEncode(Utf8.Encode(text));
    Utf8.DecodeEncode(text);
  }

  /**
   * When neither the API key nor the meeting number's text holds a '.',
   * the signature's text splits into exactly its five fields: the
   * timestamp reads back as `now - 30000` and the role field is "0" or "1".
   */
  lemma SignatureSplits(cfg: Config, hmac: Hmac, meetingText: string, role: Value, now: int)
    requires IsRole(role)
    requires '.' !in cfg.apiKey && '.' !in meetingText
    ensures var ts, roleText := now - 30000, Decimal(role.n);
      var hash := Hash(hmac, cfg.apiSecret, Message(cfg.apiKey, meetingText, ts, roleText));
      var f := Split(Payload(cfg.apiKey, meetingText, ts, roleText, hash), '.');
      && f == [cfg.apiKey, meetingText, Decimal(ts), roleText, hash]
      && ParseDecimal(f[2]) == Some(ts)
      && (f[3] == "0" || f[3] == "1")
  {
    RoleText(role);
    var ts, roleText := Timestamp(now), Decimal(role.n);
    var hash := Hash(hmac, cfg.apiSecret, Message(cfg.apiKey, meetingText, ts, roleText));
    var parts := Fields(cfg.apiKey, meetingText, ts, roleText, hash);
    DecimalChars(ts);
    Base64.NoDotInEncode(hmac(Utf8.Encode(cfg.apiSecret), Utf8.Encode(Message(cfg.apiKey, meetingText, ts, roleText))));
    SplitJoin(parts, '.');
    ParseDecimalOfDecimal(ts);
  }

  /**
   * What a client that shares the secret checks: the token decodes to
   * five '.'-separated fields and the last is the hash of the first four.
   */
  function Verify(hmac: Hmac, secret: string, token: string): bool
  {
    match Base64.Decode(token)
    case None => false
    case Some(bytes) =>
      match Utf8.Decode(bytes)
      case None => false
      case Some(text) =>
        var f := Split(text, '.');
        |f| == 5 && f[4] == Base64.Encode(hmac(Utf8.Encode(secret),
                                               Utf8.Encode(Base64.Encode(Utf8.Encode(f[0] + f[1] + f[2] + f[3])))))
  }

  /** A client holding the same secret and HMAC accepts every signature the route issues. */
  lemma SignatureVerifies(cfg: Config, hmac: Hmac, meetingNumber: Value, meetingText: string, role: Value, now: int)
    requires IsRole(role) && ToText(meetingNumber) == Some(meetingText)
    requires '.' !in cfg.apiKey && '.' !in meetingText
    ensures Sign(cfg, hmac, meetingNumber, role, now).Signed?
    ensures Verify(hmac, cfg.apiSecret, Sign(cfg, hmac, meetingNumber, role, now).signature)
  {
    var ts, roleText := Timestamp(now), Decimal(role.n);
    var hash := Hash(hmac, cfg.apiSecret, Message(cfg.apiKey, meetingText, ts, roleText));
    var text := Payload(cfg.apiKey, meetingText, ts, roleText, hash);
    Base64.DecodeEncode(Utf8.Encode(text));
    Utf8.DecodeEncode(text);
    SignatureSplits(cfg, hmac, meetingText, role, now);
  }

  /**
   * The signature depends on the secret only through the HMAC of the
   * message: two secrets (or HMACs) that agree there give the same answer.
   */
  lemma SecretOnlyThroughHmac(cfg: Config, cfg': Config, hmac: Hmac, hmac': Hmac,
                              meetingNumber: Value, role: Value, now: int)
    requires cfg.apiKey == cfg'.apiKey
    requires IsRole(role) && ToText(meetingNumber).Some? ==>
      var msg := Utf8.Encode(Message(cfg.apiKey, ToText(meetingNumber).value, now - 30000, Decimal(role.n)));
      hmac(Utf8.Encode(cfg.apiSecret), msg) == hmac'(Utf8.Encode(cfg'.apiSecret), msg)
    ensures Sign(cfg, hmac, meetingNumber, role, now) == Sign(cfg', hmac', meetingNumber, role, now)
  {
  }

  /** `msg` and `hash` use only the alphabet and '='; the hash of 32 bytes is 44 long. */
  lemma MessageHashShape(cfg: Config, hmac: Hmac, meetingText: string, roleText: string, timestamp: int)
    ensures var msg := Message(cfg.apiKey, meetingText, timestamp, roleText);
      var hash := Hash(hmac, cfg.apiSecret, msg);
      && |hash| == 44
      && (forall i :: 0 <= i < |hash| ==> Base64.IsOutputChar(hash[i]))
      && (forall i :: 0 <= i < |msg| ==> Base64.IsOutputChar(msg[i]))
  {
    var msgBytes := Utf8.Encode(MessageText(cfg.apiKey, meetingText, timestamp, roleText));
    var msg := Base64.Encode(msgBytes);
    var digest := hmac(Utf8.Encode(cfg.apiSecret), Utf8.Encode(msg));
    assert Hash(hmac, cfg.apiSecret, msg) == Base64.Encode(digest);
    Base64.EncodeAlphabet(msgBytes);
    Base64.EncodeAlphabet(digest);
  }

  /**
   * The signature uses only the alphabet and '=', and has four characters
   * per started group of three payload bytes.
   */
  lemma SignatureShape(cfg: Config, hmac: Hmac, meetingText: string, roleText: string, timestamp: int)
    ensures var hash := Hash(hmac, cfg.apiSecret, Message(cfg.apiKey, meetingText, timestamp, roleText));
      var sig := Token(cfg, hmac, meetingText, timestamp, roleText);
      var n := |Utf8.Encode(Payload(cfg.apiKey, meetingText, timestamp, roleText, hash))|;
      && |sig| == 4 * ((n + 2) / 3)
      && (forall i :: 0 <= i < |sig| ==> Base64.IsOutputChar(sig[i]))
  {
    var hash := Hash(hmac, cfg.apiSecret, Message(cfg.apiKey, meetingText, timestamp, roleText));
    var payload := Utf8.Encode(Payload(cfg.apiKey, meetingText, timestamp, roleText, hash));
    assert Token(cfg, hmac, meetingText, timestamp, roleText) == Base64.Encode(payload);
    Base64.EncodeAlphabet(payload);
  }
}
