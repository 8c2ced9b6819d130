/**
 * The request-body presence check that guards the signature route: for each
 * required property name, in order, either pass the request on (`next()`)
 * or answer 400 with "Missing body data: <name>".
 */
module Presence {
  import opened JsText

  /** A parsed JSON request body: its own property names and their values. */
  type Body = map<string, Value>

  /** What one step of the check does: pass on, or answer 400 with a message. */
  datatype Outcome = Next | BadRequest(message: string)

  /** The properties the signature route requires, in the order it checks them. */
  const SignatureFields: seq<string> := ["meetingNumber", "role"]

  function MissingMessage(name: string): string
  {
    "Missing body data: " + name
  }

  /** The name a missing-data message is about. */
  lemma MissingMessageNames(name: string)
    ensures |MissingMessage(name)| == 19 + |name| && MissingMessage(name)[19..] == name
  {
  }

  /**
   * The check as the route runs it: one outcome per required name, in
   * order, each decided by that name alone.
   */
  method CheckPresence(names: seq<string>, body: Body) returns (outcomes: seq<Outcome>)
    ensures |outcomes| == |names|
    ensures forall i :: 0 <= i < |names| ==> (outcomes[i] == Next <==> names[i] in body)
    ensures forall i :: 0 <= i < |names| && names[i] !in body ==>
              outcomes[i] == BadRequest(MissingMessage(names[i]))
  {
    outcomes := [];
    for k := 0 to |names|
      invariant |outcomes| == k
      invariant forall i :: 0 <= i < k ==> (outcomes[i] == Next <==> names[i] in body)
      invariant forall i :: 0 <= i < k && names[i] !in body ==>
                  outcomes[i] == BadRequest(MissingMessage(names[i]))
    {
      if names[k] in body {
        outcomes := outcomes + [Next];
      } else {
        outcomes := outcomes + [BadRequest(MissingMessage(names[k]))];
      }
    }
  }

  /**
   * The check on the signature route's two fields: a body with both gets
   * two `next()` calls, one missing the meeting number gets a 400 and then
   * a `next()` all the same.
   */
  method CheckSignatureFields(body: Body) returns (outcomes: seq<Outcome>)
    ensures "meetingNumber" in body && "role" in body ==> outcomes == [Next, Next]
    ensures "meetingNumber" !in body && "role" in body ==>
              outcomes == [BadRequest("Missing body data: meetingNumber"), Next]
    ensures "meetingNumber" in body && "role" !in body ==>
              outcomes == [Next, BadRequest("Missing body data: role")]
    ensures "meetingNumber" !in body && "role" !in body ==>
              outcomes == [BadRequest("Missing body data: meetingNumber"),
                           BadRequest("Missing body data: role")]
  {
    outcomes := CheckPresence(SignatureFields, body);
    assert SignatureFields[0] == "meetingNumber" && SignatureFields[1] == "role";
    assert outcomes == [outcomes[0], outcomes[1]];
    assert MissingMessage("meetingNumber") == "Missing body data: meetingNumber";
    assert MissingMessage("role") == "Missing body data: role";
  }

  /**
   * The check as a single decision: pass on once when every name is in the
   * body, otherwise one 400 about the first name that is missing.
   */
  function Gate(names: seq<string>, body: Body): (r: Outcome)
    ensures r == Next <==> forall i :: 0 <= i < |names| ==> names[i] in body
    ensures r.BadRequest? ==>
              exists i :: (0 <= i < |names| && names[i] !in body
                           && r.message == MissingMessage(names[i])
                           && forall j :: 0 <= j < i ==> names[j] in body)
    decreases |names|
  {
    if |names| == 0 then Next
    else if names[0] !in body then BadRequest(MissingMessage(names[0]))
    else
      var r := Gate(names[1..], body);
      assert forall i :: 1 <= i < |names| ==> names[i] == names[1..][i - 1];
      r
  }
}
