/** The two encodings of the WebSocket `Frame` protocol: binary protobuf frames and flat JSON text frames.
    Protobuf and JSON text are opaque here: a binary message is the `Frame` it decodes to (or nothing), a
    text message the object it parses to (or nothing), and a JSON value is its serialized bytes. */
module WsFrames {
  import opened Common

  /** Text-valued metadata, one value per key. */
  type Meta = map<string, string>

  datatype Frame =
    | Subscribe(headers: Meta, timeoutMillis: nat, initialPayload: Bytes)
    | Message(payload: Bytes)
    | HalfClose
    | Reset(code: nat, text: string)
    | Header(metadata: Meta)
    | Trailer(code: nat, text: string, metadata: Meta)

  datatype JsonStatus = JsonStatus(code: nat, message: string)

  datatype JsonFrame = JsonFrame(
    metadata: Option<Meta>,
    timeoutMillis: Option<nat>,
    message: Option<Bytes>,
    halfClose: Option<bool>,
    status: Option<JsonStatus>)

  /** The JSON value null: present in an object, but absent to a reader whose field is optional. */
  const JsonNull: Bytes := [110, 117, 108, 108]

  const EmptyJson := JsonFrame(None, None, None, None, None)

  /** A data-carrying WebSocket message; `None` is a payload its decoder rejects. */
  datatype WsData = Binary(frame: Option<Frame>) | Text(json: Option<JsonFrame>)

  /** What the client surfaces to its caller. */
  datatype Callback = OnHeaders(metadata: Meta) | OnMessage(payload: Bytes) | OnStatus(code: nat, details: string, metadata: Meta)

  function GetOr<T>(o: Option<T>, default: T): T {
    if o.Some? then o.value else default
  }

  // ----- server side -----

  /** The server's reading of a text object: a null message is no message. */
  function ReadJson(f: JsonFrame): JsonFrame {
    if f.message == Some(JsonNull) then f.(message := None) else f
  }

  function JsonOpenToSubscribe(f: JsonFrame): Frame {
    Subscribe(GetOr(f.metadata, map[]), GetOr(f.timeoutMillis, 0), GetOr(f.message, []))
  }

  function JsonFrameToProto(f: JsonFrame): Frame {
    if f.status.Some? then Reset(f.status.value.code, f.status.value.message)
    else if f.halfClose == Some(true) then HalfClose
    else if f.message.Some? then Message(f.message.value)
    else HalfClose
  }

  function ProtoFrameToJson(f: Frame): Option<JsonFrame> {
    match f
    case Message(p) => Some(EmptyJson.(message := Some(p)))
    case Header(md) => Some(EmptyJson.(metadata := Some(md)))
    case Trailer(c, t, md) =>
      Some(EmptyJson.(status := Some(JsonStatus(c, t)), metadata := if md == map[] then None else Some(md)))
    case Reset(c, t) => Some(EmptyJson.(status := Some(JsonStatus(c, t))))
    case _ => None
  }

  function ToTung(f: Frame, json: bool): WsData {
    if json && ProtoFrameToJson(f).Some? then Text(ProtoFrameToJson(f)) else Binary(Some(f))
  }

  /** Decode one binary message: the frame to dispatch, and the new `opened` flag. */
  function DecodeBinary(data: Option<Frame>, begun: bool): (Option<Frame>, bool) {
    if data.None? then (None, begun)
    else if data.value.Subscribe? then (data, true)
    else if !begun then (None, begun)
    else (data, begun)
  }

  /** Decode one text message: the first one that parses opens the stream whatever fields it has. */
  function DecodeText(data: Option<JsonFrame>, begun: bool): (Option<Frame>, bool) {
    if data.None? then (None, begun)
    else if !begun then (Some(JsonOpenToSubscribe(ReadJson(data.value))), true)
    else (Some(JsonFrameToProto(ReadJson(data.value))), begun)
  }

  function Decode(data: WsData, begun: bool): (Option<Frame>, bool) {
    match data
    case Binary(f) => DecodeBinary(f, begun)
    case Text(j) => DecodeText(j, begun)
  }

  // ----- client side -----

  function OnJsonFrame(f: JsonFrame): Option<Callback> {
    if f.status.Some? then Some(OnStatus(f.status.value.code, f.status.value.message, GetOr(f.metadata, map[])))
    else if f.message.Some? then Some(OnMessage(f.message.value))
    else if f.metadata.Some? then Some(OnHeaders(f.metadata.value))
    else None
  }

  function OnBinaryFrame(f: Frame): Option<Callback> {
    match f
    case Header(md) => Some(OnHeaders(md))
    case Message(p) => Some(OnMessage(p))
    case Trailer(c, t, md) => Some(OnStatus(c, t, md))
    case Reset(c, t) => Some(OnStatus(c, t, map[]))
    case _ => None
  }

  function OnData(d: WsData): Option<Callback> {
    match d
    case Binary(Some(f)) => OnBinaryFrame(f)
    case Text(Some(j)) => OnJsonFrame(j)
    case _ => None
  }

  /** The frames a server sends. */
  predicate ServerKind(f: Frame) {
    f.Message? || f.Header? || f.Trailer? || f.Reset?
  }

  function EncodeOpen(json: bool, headers: Meta, timeoutMillis: nat): WsData {
    if json then
      Text(Some(EmptyJson.(
                metadata := if headers == map[] then None else Some(headers),
                timeoutMillis := if timeoutMillis == 0 then None else Some(timeoutMillis))))
    else Binary(Some(Subscribe(headers, timeoutMillis, [])))
  }

  function EncodeMessage(json: bool, payload: Bytes): WsData {
    if json then Text(Some(EmptyJson.(message := Some(payload)))) else Binary(Some(Message(payload)))
  }

  function EncodeHalfClose(json: bool): WsData {
    if json then Text(Some(EmptyJson.(halfClose := Some(true)))) else Binary(Some(HalfClose))
  }

  function EncodeReset(json: bool, code: nat, text: string): WsData {
    if json then Text(Some(EmptyJson.(status := Some(JsonStatus(code, text))))) else Binary(Some(Reset(code, text)))
  }

  // ----- the two sides agree -----

  /** A request payload that does not survive its codec: the text codec loses null. */
  predicate Lost(json: bool, p: Bytes) {
    json && p == JsonNull
  }

  /** Whatever the codec, the client reads every server frame back as the same callback, and the server reads
      every client frame back as the frame the client meant (the opening frame as a `Subscribe` only when it
      comes first), with one exception: a text message comes back exactly when it is not null, and a null one is read
      as a half-close. */
  lemma CodecsAgree(json: bool, f: Frame, headers: Meta, t: nat, p: Bytes, code: nat, text: string)
    requires ServerKind(f)
    ensures OnData(ToTung(f, json)) == OnBinaryFrame(f) && OnBinaryFrame(f).Some?
    ensures ToTung(f, json).Text? == json
    ensures Decode(EncodeOpen(json, headers, t), false) == (Some(Subscribe(headers, t, [])), true)
    ensures Decode(EncodeMessage(json, p), true) == (Some(Message(p)), true) <==> !Lost(json, p)
    ensures Lost(json, p) ==> Decode(EncodeMessage(json, p), true) == (Some(HalfClose), true)
    ensures Decode(EncodeHalfClose(json), true) == (Some(HalfClose), true)
    ensures Decode(EncodeReset(json, code, text), true) == (Some(Reset(code, text)), true)
  {
  }
}
