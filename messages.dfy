/** The protocol entities exchanged between the transaction processor, its
    handlers and the validator, with the transport and the wire encoding
    replaced by abstract outcomes. */
module Messages {

  datatype Option<+T> = None | Some(value: T)

  newtype byte = x: int | 0 <= x < 256

  /** The validator message types the processor distinguishes; every other
      type is carried by its numeric code. */
  datatype MessageType =
    | TpRegisterRequest
    | TpProcessRequest
    | TpProcessResponse
    | OtherType(code: int)

  /** One message received from the validator. */
  datatype Envelope = Envelope(messageType: MessageType, correlationId: string, content: seq<byte>)

  /** A decoded TpProcessRequest. */
  datatype ProcessRequest = ProcessRequest(contextId: string, payload: seq<byte>)

  datatype Status = StatusOk | StatusInvalidTransaction | StatusInternalError

  /** A TpProcessResponse; `message` is None when it was never set. */
  datatype ProcessResponse = ProcessResponse(status: Status, message: Option<string>)

  /** How a handler's `apply` can fail: an invalid transaction with its
      message, or any other error with its description. */
  datatype ApplyError = InvalidTransaction(message: string) | InternalError(description: string)

  datatype ApplyResult = Applied | Failed(error: ApplyError)

  /** What the processor knows of a registered handler. Its `apply` is not
      modelled: each received request says how it turned out. */
  datatype Handler = Handler(familyName: string, familyVersions: seq<string>, namespaces: seq<string>)

  /** A TpRegisterRequest. */
  datatype RegisterRequest = RegisterRequest(family: string, version: string, namespaces: seq<string>)

  /** How one registration exchange ends: the request failed to serialise,
      `send` refused it, the acknowledgement failed, or it was acknowledged. */
  datatype RegAnswer = SerializeFailed | SendFailed | AckFailed | Acked

  /** The result of `sender.reply`. */
  datatype ReplyOutcome = ReplyOk | ReplyDisconnected | ReplyTimeout | ReplyUnknown

  /** What the environment does with one received envelope: the parse of its
      content, the handler's outcome, whether the response serialises, and
      what the transport says to the reply. A field the processor never
      consults for that envelope is simply ignored. */
  datatype Fate = Fate(parsed: Option<ProcessRequest>, applied: ApplyResult, serialized: bool, reply: ReplyOutcome)

  /** One result of `receiver.recv()`: the outer transport error, the inner
      disconnect, any other inner receive error, or an envelope. */
  datatype Recv =
    | TransportError
    | RecvDisconnected
    | RecvError
    | Received(envelope: Envelope, fate: Fate)

  /** What the processor does on the transport, in order. `RegisterReq`
      records a call of `send` with a registration request and the
      correlation id of random draw number `draw` (see CorrelationId),
      whether or not `send` then fails. */
  datatype Output =
    | Connect(endpoint: string, generation: nat)
    | RegisterReq(draw: nat, request: RegisterRequest)
    | Invoke(family: string, contextId: string)
    | Reply(messageType: MessageType, correlationId: string, response: ProcessResponse)
    | Close

  lemma AppendAssoc<T>(a: seq<T>, b: seq<T>, c: seq<T>)
    ensures (a + b) + c == a + (b + c)
  {
  }
}
