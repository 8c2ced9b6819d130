/**
 * The signature route end to end, from request body to HTTP answer: the
 * presence check, the role check and the signature, with the JSON bodies
 * the client receives.
 */
module Route {
  import opened Wrappers
  import opened JsText
  import opened Presence
  import opened Signature

  datatype Response = Response(status: int, body: Value)

  /**
   * The answer when the route throws: Express's error handler sends status
   * 500 with an error page, whose text is not modelled.
   */
  const ServerError := Response(500, Null)

  /** `{ signature }`, sent with status 200. */
  function SignatureBody(signature: string): Value
  {
    Object([("signature", Str(signature))])
  }

  /** A 400 body that carries its message as `{ error: message }`. */
  function ErrorBody(message: string): (r: Value)
    ensures ErrorMessage(r) == Some(message)
  {
    Object([("error", Str(message))])
  }

  /**
   * The wire form of `{ error: new Error(message) }`: JSON serialisation
   * keeps only enumerable own properties, and an Error's message is not
   * one, so the error member is an empty object.
   */
  function ErrorBodyAsWritten(message: string): (r: Value)
    ensures ErrorMessage(r) == None
  {
    Object([("error", Object([]))])
  }

  /** The client's reading of a 400 body: the text of its error member, if it has one. */
  function ErrorMessage(body: Value): Option<string>
  {
    match body
    case Object(fields) =>
      if |fields| == 1 && fields[0].0 == "error" && fields[0].1.Str? then Some(fields[0].1.s)
      else None
    case _ => None
  }

  /** A missing role and a bad role reach the client as the same body. */
  lemma ErrorBodyAsWrittenDropsMessage()
    ensures MissingMessage("role") != RoleMessage("manager")
    ensures ErrorBodyAsWritten(MissingMessage("role")) == ErrorBodyAsWritten(RoleMessage("manager"))
  {
    assert |MissingMessage("role")| == 23;
    assert |RoleMessage("manager")| == 59;
  }

  /** Reading a property the body does not have gives `undefined`. */
  function Property(body: Body, name: string): Value
  {
    if name in body then body[name] else Undefined
  }

  /**
   * The route's answer.  The presence check throws on a body with its own
   * `hasOwnProperty` property, which is never callable; otherwise it
   * answers 400 naming the first missing field.  The handler then answers
   * 400 for a bad role, 200 with the signature, or throws while making
   * text of the role or the meeting number.
   */
  function Respond(cfg: Config, hmac: Hmac, body: Body, now: int): (r: Response)
    ensures r.status == 200 || r.status == 400 || r.status == 500
    ensures r.status == 200 <==>
      && "hasOwnProperty" !in body && "meetingNumber" in body && "role" in body
      && IsRole(body["role"]) && !TextThrows(body["meetingNumber"])
    ensures r.status == 500 <==>
      || "hasOwnProperty" in body
      || ("meetingNumber" in body && "role" in body &&
          (if IsRole(body["role"]) then TextThrows(body["meetingNumber"]) else TextThrows(body["role"])))
  {
    if "hasOwnProperty" in body then ServerError
    else match Gate(SignatureFields, body)
    case BadRequest(message) => Response(400, ErrorBody(message))
    case Next =>
      assert SignatureFields[0] == "meetingNumber" && SignatureFields[1] == "role";
      SignOutcomes(cfg, hmac, body["meetingNumber"], body["role"], now);
      match Sign(cfg, hmac, Property(body, "meetingNumber"), Property(body, "role"), now)
      case Rejected(message) => Response(400, ErrorBody(message))
      case Threw => ServerError
      case Signed(signature) => Response(200, SignatureBody(signature))
  }

  /**
   * Each 400 names what is wrong: the first missing field in order, or the
   * bad role with its text; a body with its own `hasOwnProperty` gets 500.
   */
  lemma RespondErrors(cfg: Config, hmac: Hmac, body: Body, now: int)
    ensures "hasOwnProperty" in body ==> Respond(cfg, hmac, body, now) == ServerError
    ensures "hasOwnProperty" !in body && "meetingNumber" !in body ==>
      Respond(cfg, hmac, body, now) == Response(400, ErrorBody("Missing body data: meetingNumber"))
    ensures "hasOwnProperty" !in body && "meetingNumber" in body && "role" !in body ==>
      Respond(cfg, hmac, body, now) == Response(400, ErrorBody("Missing body data: role"))
    ensures "hasOwnProperty" !in body && "meetingNumber" in body && "role" in body
            && !IsRole(body["role"]) && !TextThrows(body["role"]) ==>
      && ToText(body["role"]).Some?
      && Respond(cfg, hmac, body, now) == Response(400, ErrorBody(RoleMessage(ToText(body["role"]).value)))
  {
    assert SignatureFields[0] == "meetingNumber" && SignatureFields[1] == "role";
    assert MissingMessage("meetingNumber") == "Missing body data: meetingNumber";
    assert MissingMessage("role") == "Missing body data: role";
    if "hasOwnProperty" in body {
    } else if "meetingNumber" !in body {
      assert Gate(SignatureFields, body) == BadRequest(MissingMessage("meetingNumber"));
    } else if "role" !in body {
      assert SignatureFields[1..] == ["role"];
      assert Gate(SignatureFields[1..], body) == BadRequest(MissingMessage("role"));
    } else {
      ToTextThrows(body["role"]);
    }
  }

  /**
   * A well-formed request whose meeting number has a text is answered 200
   * with the signature over that text, the timestamp and the role.
   */
  lemma RespondSigns(cfg: Config, hmac: Hmac, body: Body, now: int)
    requires "hasOwnProperty" !in body && "meetingNumber" in body && "role" in body
    requires IsRole(body["role"]) && !TextThrows(body["meetingNumber"])
    ensures ToText(body["meetingNumber"]).Some?
    ensures Respond(cfg, hmac, body, now)
            == Response(200, SignatureBody(Token(cfg, hmac, ToText(body["meetingNumber"]).value,
                                                 now - 30000, Decimal(body["role"].n))))
  {
    ToTextThrows(body["meetingNumber"]);
  }
}
