/** Messages of the incident transport, and the checks of `verify_message` that look at no state. */
module IncidentMessages {
  import opened Wrappers

  const CONTRACT_VERSION := "incident-transport/1"

  datatype Kind = Incident | Diagnosis | DeployVerification | Ack | OtherKind(name: string)

  /** A float of the wire: a number of seconds, or a NaN or an infinity. */
  datatype Stamp = Finite(t: real) | NotFinite

  datatype Json = JNull | JBool(b: bool) | JText(s: string) | JOther(text: string)

  datatype Body = Body(
    messageId: string,
    fromNode: string,
    toNode: string,
    kind: Kind,
    contractVersion: string,
    nonce: string,
    sentAt: Stamp,
    payload: map<string, Json>
  )

  datatype Message = Message(body: Body, mac: string)

  datatype Policy = Policy(contractVersion: string, replayWindow: real, maxPerMinute: int)

  datatype Code =
    | UnknownIdentity
    | Impersonation
    | WrongRecipient
    | IncompatibleVersion
    | BadSignature
    | Stale
    | Replay
    | Overloaded(recent: nat)

  datatype Verdict = Accepted | Refused(code: Code)

  /** What a verifier is configured with. `sign` is the keyed hash over the canonical text of a body. */
  datatype Verifier = Verifier(sign: (string, Body) -> string, secrets: map<string, string>, policy: Policy)

  datatype Request = Request(message: Message, authenticatedAs: string, expectedTo: Option<string>, at: real)

  predicate Compatible(version: string) {
    version == CONTRACT_VERSION || "incident-transport/1." <= version
  }

  function Signed(sign: (string, Body) -> string, secret: string, body: Body): Message {
    Message(body, sign(secret, body))
  }

  function Distance(a: real, b: real): real {
    if a >= b then a - b else b - a
  }

  /** The checks in their order; None when the message passes them all. */
  function Screen(v: Verifier, req: Request): Option<Code> {
    var body := req.message.body;
    if req.authenticatedAs !in v.secrets then Some(UnknownIdentity)
    else if body.fromNode != req.authenticatedAs then Some(Impersonation)
    else if req.expectedTo.Some? && body.toNode != req.expectedTo.value then Some(WrongRecipient)
    else if !Compatible(body.contractVersion) then Some(IncompatibleVersion)
    else if req.message.mac == "" || req.message.mac != v.sign(v.secrets[req.authenticatedAs], body) then Some(BadSignature)
    else if body.sentAt.NotFinite? then Some(Stale)
    else if Distance(req.at, body.sentAt.t) > v.policy.replayWindow then Some(Stale)
    else None
  }

  /** What passing the checks guarantees about a message, each clause on its own. */
  lemma ScreenPasses(v: Verifier, req: Request)
    ensures Screen(v, req).None? <==>
            var body := req.message.body;
            && req.authenticatedAs in v.secrets
            && body.fromNode == req.authenticatedAs
            && (req.expectedTo == None || req.expectedTo == Some(body.toNode))
            && Compatible(body.contractVersion)
            && req.message.mac == v.sign(v.secrets[req.authenticatedAs], body) != ""
            && body.sentAt.Finite?
            && req.at - v.policy.replayWindow <= body.sentAt.t <= req.at + v.policy.replayWindow
  {
  }
}
