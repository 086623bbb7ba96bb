/** The unary Fetch path: the two length-prefixed blocks of a response body, the streams that turn gRPC frames into
    such blocks and back without buffering, and the two decoders. A protobuf `Trailer` is the bytes it encodes to, and
    each decoder comes with its own library's verdict on which bytes decode as one. */
module FetchBody {
  import opened Common
  import opened LengthPrefixed

  const PREFIX := 4

  type Headers = map<string, string>

  /** One frame of an HTTP body, or the error its reading ends with. */
  datatype BodyFrame = DataFrame(data: Bytes) | TrailersFrame(trailers: Headers) | OtherFrame | BodyError

  // ----- blocks -----

  /** `[u32 len | bytes]` */
  function Block(b: Bytes): Bytes {
    PutU32(|b|) + b
  }

  /** A buffered unary response: the message block, then the trailer block. */
  function EncodeResponse(message: Bytes, trailer: Bytes): Bytes {
    Block(message) + Block(trailer)
  }

  /** A gRPC frame is its compression flag followed by the message block. */
  lemma FrameIsFlaggedBlock(m: Bytes)
    ensures FrameOf(m) == [0] + Block(m)
  {
  }

  datatype FetchError = TooLarge(limit: nat) | Truncated(expected: nat, had: nat) | BadTrailer

  /** One block off the front: its bytes and what follows it. */
  function TakenBlock(body: Bytes): Result<(Bytes, Bytes), FetchError> {
    if |body| < PREFIX then Err(Truncated(PREFIX, |body|))
    else
      var len := BeValue(body[..PREFIX]);
      if |body| - PREFIX < len then Err(Truncated(len, |body| - PREFIX))
      else Ok((body[PREFIX..PREFIX + len], body[PREFIX + len..]))
  }

  /** Message and trailer of a whole body; `decodes` is the protobuf library's verdict on trailer bytes. */
  function Decoded(body: Bytes, limit: nat, decodes: Bytes -> bool): Result<(Bytes, Bytes), FetchError> {
    if |body| > limit then Err(TooLarge(limit))
    else
      var first := TakenBlock(body);
      if first.Err? then Err(first.error)
      else
        var second := TakenBlock(first.value.1);
        if second.Err? then Err(second.error)
        else if !decodes(second.value.0) then Err(BadTrailer)
        else Ok((first.value.0, second.value.0))
  }

  lemma TakeBlockBack(b: Bytes, tail: Bytes)
    requires Fits(b)
    ensures TakenBlock(Block(b) + tail) == Ok((b, tail))
  {
    hide BeValue, PutBe;
    PutU32Value(|b|);
    var body := Block(b) + tail;
    assert body[..PREFIX] == PutU32(|b|);
    assert body[PREFIX..PREFIX + |b|] == b && body[PREFIX + |b|..] == tail;
  }

  /** Decoding what was encoded gives the message and trailer back, whenever it is within the limit. */
  lemma ResponseRoundTrip(message: Bytes, trailer: Bytes, limit: nat, decodes: Bytes -> bool)
    requires Fits(message) && Fits(trailer) && decodes(trailer)
    ensures var body := EncodeResponse(message, trailer);
            Decoded(body, limit, decodes) == if |body| <= limit then Ok((message, trailer)) else Err(TooLarge(limit))
  {
    TakeBlockBack(message, Block(trailer));
    TakeBlockBack(trailer, []);
    assert Block(trailer) + [] == Block(trailer);
  }

  /** A body that stops inside, or right after, its message block is rejected whatever the limit and the library. */
  lemma PrefixIsRejected(message: Bytes, cut: Bytes, limit: nat, decodes: Bytes -> bool)
    requires Fits(message) && cut <= Block(message)
    ensures Decoded(cut, limit, decodes).Err?
  {
    hide BeValue, PutBe;
    PutU32Value(|message|);
    if |cut| >= PREFIX {
      assert cut[..PREFIX] == PutU32(|message|);
    }
  }

  // ----- the decoders -----

  /** The server library's `take_block`: reads one block and advances the body. */
  method TakeBlock(body: Bytes) returns (r: Result<Bytes, FetchError>, rest: Bytes)
    ensures r.Err? ==> TakenBlock(body) == Err(r.error)
    ensures r.Ok? ==> TakenBlock(body) == Ok((r.value, rest))
  {
    hide BeValue;
    rest := body;
    if |rest| < PREFIX {
      return Err(Truncated(PREFIX, |rest|)), rest;
    }
    var len := BeValue(rest[..PREFIX]);
    rest := rest[PREFIX..];
    if |rest| < len {
      return Err(Truncated(len, |rest|)), rest;
    }
    assert rest[..len] == body[PREFIX..PREFIX + len] && rest[len..] == body[PREFIX + len..];
    r, rest := Ok(rest[..len]), rest[len..];
  }

  method DecodeResponseBody(body: Bytes, limit: nat, decodes: Bytes -> bool) returns (r: Result<(Bytes, Bytes), FetchError>)
    ensures r == Decoded(body, limit, decodes)
  {
    hide BeValue;
    if |body| > limit {
      return Err(TooLarge(limit));
    }
    var message, rest := TakeBlock(body);
    if message.Err? {
      return Err(message.error);
    }
    var trailer, _ := TakeBlock(rest);
    if trailer.Err? {
      return Err(trailer.error);
    }
    if !decodes(trailer.value) {
      return Err(BadTrailer);
    }
    r := Ok((message.value, trailer.value));
  }

  /** The browser client's `takeBlock`, over an offset into the whole body; `None` is a thrown error. */
  method TakeBlockAt(body: Bytes, offset: nat) returns (r: Option<(Bytes, nat)>)
    requires offset <= |body|
    ensures r.Some? <==> TakenBlock(body[offset..]).Ok?
    ensures r.Some? ==> r.value.1 <= |body| && TakenBlock(body[offset..]) == Ok((r.value.0, body[r.value.1..]))
  {
    hide BeValue;
    if offset + PREFIX > |body| {
      return None;
    }
    var len := BeValue(body[offset..offset + PREFIX]);
    assert body[offset..][..PREFIX] == body[offset..offset + PREFIX];
    var start := offset + PREFIX;
    var end := start + len;
    if end > |body| {
      return None;
    }
    assert body[offset..][PREFIX..PREFIX + len] == body[start..end];
    assert body[offset..][PREFIX + len..] == body[end..];
    r := Some((body[start..end], end));
  }

  /** The browser client's decoder takes the same two blocks. Its protobuf library has its own verdict on the trailer, so
      it accepts what the server library does exactly as far as the two libraries agree on that. */
  method DecodeFetchResponseBody(body: Bytes, limit: nat, decodes: Bytes -> bool) returns (r: Option<(Bytes, Bytes)>)
    ensures r == if Decoded(body, limit, decodes).Ok? then Some(Decoded(body, limit, decodes).value) else None
  {
    hide BeValue;
    if |body| > limit {
      return None;
    }
    assert body[0..] == body;
    var message := TakeBlockAt(body, 0);
    if message.None? {
      return None;
    }
    var trailer := TakeBlockAt(body, message.value.1);
    if trailer.None? {
      return None;
    }
    if !decodes(trailer.value.0) {
      return None;
    }
    r := Some((message.value.0, trailer.value.0));
  }

  // ----- the response stream -----

  /** The bytes of the data frames. */
  function DataOf(frames: seq<BodyFrame>): Bytes {
    if frames == [] then []
    else
      var f := frames[|frames| - 1];
      DataOf(frames[..|frames| - 1]) + (if f.DataFrame? then f.data else [])
  }

  /** The last trailers frame wins. */
  function TrailersOf(frames: seq<BodyFrame>): Headers {
    if frames == [] then map[]
    else
      var f := frames[|frames| - 1];
      if f.TrailersFrame? then f.trailers else TrailersOf(frames[..|frames| - 1])
  }

  predicate NoError(frames: seq<BodyFrame>) {
    forall f :: f in frames ==> !f.BodyError?
  }

  /** How the response stream ends: with a trailer block, cut short by the deadline, or broken by the upstream. */
  datatype Ending = Complete | Cut | Broken

  /** The frames read before the deadline fires. */
  function ReadBefore(frames: seq<BodyFrame>, deadline: Option<nat>): seq<BodyFrame> {
    if deadline.Some? && deadline.value <= |frames| then frames[..deadline.value] else frames
  }

  predicate TimesOut(frames: seq<BodyFrame>, deadline: Option<nat>) {
    deadline.Some? && deadline.value <= |frames|
  }

  /** The body without its compression flag. */
  function Unflagged(body: Bytes): Bytes {
    if body == [] then [] else body[1..]
  }

  lemma DataSnoc(frames: seq<BodyFrame>, f: BodyFrame)
    ensures DataOf(frames + [f]) == DataOf(frames) + (if f.DataFrame? then f.data else [])
    ensures TrailersOf(frames + [f]) == if f.TrailersFrame? then f.trailers else TrailersOf(frames)
  {
    assert (frames + [f])[..|frames|] == frames;
  }

  lemma DataNone()
    ensures DataOf([]) == [] && TrailersOf([]) == map[] && Flatten<byte>([]) == []
  {
  }

  /** Dropping the flag as chunks arrive is dropping it from the whole. */
  lemma UnflaggedAppend(body: Bytes, data: Bytes)
    ensures Unflagged(body + data) == if body == [] then Unflagged(data) else Unflagged(body) + data
  {
    if body == [] {
      assert body + data == data;
    }
  }

  /** Drop up to `skip` leading bytes of a chunk. */
  method Skip(data: Bytes, skip: nat) returns (rest: Bytes, left: nat)
    ensures left == if skip <= |data| then 0 else skip - |data|
    ensures rest == if skip <= |data| then data[skip..] else []
  {
    rest, left := data, skip;
    while left > 0 && rest != []
      invariant left <= skip && skip - left <= |data| && rest == data[skip - left..]
      decreases left
    {
      var n := if left < |rest| then left else |rest|;
      rest, left := rest[n..], left - n;
    }
  }

  lemma NoErrorSteps(frames: seq<BodyFrame>)
    ensures NoError([])
    ensures forall i :: 0 <= i < |frames| ==>
              NoError(frames[..i + 1]) == (NoError(frames[..i]) && !frames[i].BodyError?)
    ensures forall i, n :: 0 <= i < n <= |frames| && frames[i].BodyError? ==> !NoError(frames[..n])
    ensures frames[..|frames|] == frames
  {
    forall i | 0 <= i < |frames|
      ensures NoError(frames[..i + 1]) == (NoError(frames[..i]) && !frames[i].BodyError?)
    {
      assert frames[..i + 1] == frames[..i] + [frames[i]];
    }
    forall i, n | 0 <= i < n <= |frames| && frames[i].BodyError?
      ensures !NoError(frames[..n])
    {
      assert frames[..n][i] == frames[i];
    }
  }

  /** What the stream sends, chunking aside, and how it ends (nothing is promised about a broken one). */
  function Streamed(frames: seq<BodyFrame>, deadline: Option<nat>, trailer: (bool, Headers) -> Bytes): (Bytes, Ending) {
    var read := ReadBefore(frames, deadline);
    var late := TimesOut(frames, deadline);
    var message := Unflagged(DataOf(read));
    if !NoError(read) then ([], Broken)
    else if late && message != [] then (message, Cut)
    else ((if message == [] then Block([]) else message) + Block(trailer(late, TrailersOf(read))), Complete)
  }

  /** The streamed response. `trailer` encodes the final status: whether the deadline fired, and the trailers seen.
      `deadline` is how many frames are read before it fires. */
  method StreamResponse(frames: seq<BodyFrame>, deadline: Option<nat>, trailer: (bool, Headers) -> Bytes)
    returns (out: seq<Bytes>, ending: Ending)
    ensures ending == Streamed(frames, deadline, trailer).1
    ensures ending != Broken ==> Flatten(out) == Streamed(frames, deadline, trailer).0
  {
    hide Block, DataOf, TrailersOf, Flatten, NoError;
    DataNone();
    NoErrorSteps(frames);
    assert frames[..0] == [];
    out := [];
    var skip := 1; // one byte to go: the frame's flag
    var sawMessage := false;
    var trailers: Headers := map[];
    var timedOut := false;
    var i := 0;
    while true
      invariant 0 <= i <= |frames| && !timedOut
      invariant i <= |ReadBefore(frames, deadline)| && NoError(frames[..i])
      invariant skip == (if DataOf(frames[..i]) == [] then 1 else 0)
      invariant Flatten(out) == Unflagged(DataOf(frames[..i]))
      invariant sawMessage <==> Unflagged(DataOf(frames[..i])) != []
      invariant trailers == TrailersOf(frames[..i])
      decreases |frames| - i
    {
      if deadline == Some(i) {
        timedOut := true;
        break;
      }
      if i == |frames| {
        break;
      }
      assert frames[..i + 1] == frames[..i] + [frames[i]];
      assert i < |ReadBefore(frames, deadline)|;
      if frames[i].BodyError? {
        return out, Broken;
      }
      DataSnoc(frames[..i], frames[i]);
      match frames[i] {
        case DataFrame(data) =>
          UnflaggedAppend(DataOf(frames[..i]), data);
          var rest;
          rest, skip := Skip(data, skip);
          if rest != [] {
            sawMessage := true;
            FlattenSnoc(out, rest);
            out := out + [rest];
          }
        case TrailersFrame(t) =>
          trailers := t;
        case _ =>
      }
      i := i + 1;
    }
    assert frames[..i] == ReadBefore(frames, deadline);
    // Too late for a status of its own: the length is out.
    if timedOut && sawMessage {
      return out, Cut;
    }
    if !sawMessage {
      FlattenSnoc(out, Block([]));
      out := out + [Block([])];
    }
    FlattenSnoc(out, Block(trailer(timedOut, trailers)));
    out := out + [Block(trailer(timedOut, trailers))];
    ending := Complete;
  }

  // ----- the response, end to end -----

  /** A response of one uncompressed frame, however its frames are split: the stream is the buffered encoding, and
      decodes to the message and trailer. */
  lemma UnaryEndToEnd(
    frames: seq<BodyFrame>, deadline: Option<nat>, trailer: (bool, Headers) -> Bytes, message: Bytes, limit: nat,
    decodes: Bytes -> bool)
    requires NoError(frames) && DataOf(frames) == FrameOf(message) && Fits(message)
    requires deadline.None? || deadline.value > |frames|
    ensures var t := trailer(false, TrailersOf(frames));
            && Streamed(frames, deadline, trailer) == (EncodeResponse(message, t), Complete)
            && (Fits(t) && decodes(t) && |EncodeResponse(message, t)| <= limit ==>
                  Decoded(EncodeResponse(message, t), limit, decodes) == Ok((message, t)))
  {
    var t := trailer(false, TrailersOf(frames));
    FrameIsFlaggedBlock(message);
    assert Unflagged(FrameOf(message)) == Block(message);
    if Fits(t) && decodes(t) {
      ResponseRoundTrip(message, t, limit, decodes);
    }
  }

  /** A response with no message bytes at all is the encoding of an empty message, with the deadline's status if that fired
      first. */
  lemma TrailersOnlyEndToEnd(
    frames: seq<BodyFrame>, deadline: Option<nat>, read: seq<BodyFrame>, trailer: (bool, Headers) -> Bytes)
    requires deadline.Some? ==> deadline.value <= |frames|
    requires read == if deadline.Some? then frames[..deadline.value] else frames
    requires NoError(read) && |DataOf(read)| <= 1
    ensures Streamed(frames, deadline, trailer) == (EncodeResponse([], trailer(deadline.Some?, TrailersOf(read))), Complete)
  {
  }

  /** The trailers of a response are those of its last trailers frame; without one there are none. */
  lemma {:induction false} TrailersAreTheLast(before: seq<BodyFrame>, t: Headers, after: seq<BodyFrame>)
    requires forall f :: f in after ==> !f.TrailersFrame?
    ensures TrailersOf(before + [TrailersFrame(t)] + after) == t
    ensures TrailersOf(after) == map[]
    decreases |after|
  {
    var front := before + [TrailersFrame(t)];
    if after == [] {
      assert front + after == front && front[|front| - 1] == TrailersFrame(t);
    } else {
      var rest, last := after[..|after| - 1], after[|after| - 1];
      assert last in after && forall f :: f in rest ==> f in after;
      TrailersAreTheLast(before, t, rest);
      assert after == rest + [last] && front + after == (front + rest) + [last];
      DataSnoc(front + rest, last);
      DataSnoc(rest, last);
    }
  }

  /** A deadline that fires while the one response frame is under way (or just after it) cuts the stream, and no
      decoder reads the result as complete. */
  lemma CutIsRejected(
    frames: seq<BodyFrame>, deadline: nat, trailer: (bool, Headers) -> Bytes, message: Bytes, limit: nat,
    decodes: Bytes -> bool)
    requires deadline <= |frames| && NoError(frames[..deadline]) && Fits(message)
    requires 1 < |DataOf(frames[..deadline])| && DataOf(frames[..deadline]) <= FrameOf(message)
    ensures Streamed(frames, Some(deadline), trailer).1 == Cut
    ensures Decoded(Streamed(frames, Some(deadline), trailer).0, limit, decodes).Err?
  {
    var body := DataOf(frames[..deadline]);
    FrameIsFlaggedBlock(message);
    assert Unflagged(body) <= Block(message);
    PrefixIsRejected(message, Unflagged(body), limit, decodes);
  }

  lemma LeadingZero(w: Bytes)
    ensures BeValue([0] + w) == BeValue(w)
    decreases |w|
  {
    if w != [] {
      LeadingZero(w[..|w| - 1]);
      assert ([0] + w)[..|w|] == [0] + w[..|w| - 1];
    } else {
      assert ([0] + w)[..0] == [];
    }
  }

  lemma PutU32Split(n: nat)
    ensures PutU32(n) == PutBe(n / 256, 3) + [n % 256]
  {
  }

  /** The first four bytes of a frame, read as a length. */
  lemma MisreadLength(m: Bytes)
    requires Fits(m)
    ensures BeValue(FrameOf(m)[..PREFIX]) == |m| / 256
  {
    hide BeValue, PutBe;
    var n := |m|;
    var w := PutBe(n / 256, 3);
    PutU32Split(n);
    assert FrameOf(m)[..PREFIX] == [0] + w;
    LeadingZero(w);
    PutU32Value(n);
    PutBeValue(n, 4);
    assert BeValue(w) * 256 + n % 256 == n;
  }

  /** What a decoder makes of the beginning `cut` of a first frame's block and a second frame behind it. */
  lemma SecondFrameMisread(m: Bytes, n: Bytes, tail: Bytes, cut: Bytes, limit: nat, decodes: Bytes -> bool)
    requires Fits(m) && Fits(n) && cut <= Block(m) + (FrameOf(n) + tail)
    ensures var at := |Block(m)| + PREFIX;
            var end := at + |n| / 256;
            && (Decoded(cut, limit, decodes).Ok? <==> |cut| <= limit && |cut| >= end && decodes(cut[at..end]))
            && (Decoded(cut, limit, decodes).Ok? ==> Decoded(cut, limit, decodes).value == (m, cut[at..end]))
  {
    hide BeValue, PutBe;
    var k := |Block(m)|;
    var rest := FrameOf(n) + tail;
    if |cut| <= k {
      assert cut <= Block(m);
      PrefixIsRejected(m, cut, limit, decodes);
    } else {
      var more := cut[k..];
      assert cut == Block(m) + more && more <= rest;
      TakeBlockBack(m, more);
      if |more| >= PREFIX {
        MisreadLength(n);
        assert more[..PREFIX] == FrameOf(n)[..PREFIX];
        var len := |n| / 256;
        if |more| >= PREFIX + len {
          assert more[PREFIX..PREFIX + len] == cut[k + PREFIX..k + PREFIX + len];
        }
      }
    }
  }

  /** With more than one frame in the response, rejecting a cut is not guaranteed: the second frame's header is read
      as the trailer's length. A stream cut by the deadline is then read as complete exactly when it is within the
      limit, reaches far enough into the second frame, and what it holds there decodes as a trailer. */
  lemma CutAcceptedIff(
    frames: seq<BodyFrame>, deadline: nat, trailer: (bool, Headers) -> Bytes, m: Bytes, n: Bytes, tail: Bytes, limit: nat,
    decodes: Bytes -> bool)
    requires deadline <= |frames| && NoError(frames[..deadline]) && Fits(m) && Fits(n)
    requires 1 < |DataOf(frames[..deadline])| && DataOf(frames[..deadline]) <= FrameOf(m) + (FrameOf(n) + tail)
    ensures var sent := Streamed(frames, Some(deadline), trailer);
            var at := PREFIX + |m| + PREFIX;
            var end := at + |n| / 256;
            && sent.1 == Cut
            && (Decoded(sent.0, limit, decodes).Ok? <==>
                  |sent.0| <= limit && |sent.0| >= end && decodes(sent.0[at..end]))
            && (Decoded(sent.0, limit, decodes).Ok? ==> Decoded(sent.0, limit, decodes).value == (m, sent.0[at..end]))
  {
    hide BeValue, PutBe, Decoded, DataOf, NoError;
    var body := DataOf(frames[..deadline]);
    FrameIsFlaggedBlock(m);
    assert FrameOf(m) + (FrameOf(n) + tail) == [0] + (Block(m) + (FrameOf(n) + tail));
    assert Unflagged(body) <= Block(m) + (FrameOf(n) + tail);
    SecondFrameMisread(m, n, tail, Unflagged(body), limit, decodes);
  }

  /** For instance: two frames, the second empty, cut at their end, are read as the first message with an empty trailer,
      by every library to which no bytes are a trailer. */
  lemma CutMisread(
    frames: seq<BodyFrame>, trailer: (bool, Headers) -> Bytes, m: Bytes, limit: nat, decodes: Bytes -> bool)
    requires NoError(frames) && Fits(m) && DataOf(frames) == FrameOf(m) + FrameOf([]) && |FrameOf(m) + FrameOf([])| <= limit
    requires decodes([])
    ensures Streamed(frames, Some(|frames|), trailer).1 == Cut
    ensures Decoded(Streamed(frames, Some(|frames|), trailer).0, limit, decodes) == Ok((m, []))
  {
    hide BeValue, PutBe, Decoded, DataOf, NoError;
    assert frames[..|frames|] == frames;
    assert FrameOf(m) + (FrameOf([]) + []) == FrameOf(m) + FrameOf([]);
    CutAcceptedIff(frames, |frames|, trailer, m, [], [], limit, decodes);
    var sent := Streamed(frames, Some(|frames|), trailer).0;
    var at := PREFIX + |m| + PREFIX;
    assert sent[at..at] == [];
  }

  // ----- the request stream -----

  lemma PutU32Bytes(n: nat)
    ensures PutU32(n) == [n / 0x100_0000 % 256, n / 0x1_0000 % 256, n / 256 % 256, n % 256]
  {
    var b, c := n / 256, n / 256 / 256;
    assert c == n / 0x1_0000 && c / 256 == n / 0x100_0000;
    assert PutBe(c / 256 / 256, 0) == [];
    assert PutBe(c / 256, 1) == [c / 256 % 256];
    assert PutBe(c, 2) == [c / 256 % 256, c % 256];
    assert PutBe(b, 3) == [c / 256 % 256, c % 256, b % 256];
  }

  /** A `+proto` request body, filled in byte by byte: the length first, then a copy of the message. */
  method EncodeFetchRequestBody(message: Bytes) returns (out: array<byte>)
    ensures fresh(out) && out[..] == Block(message)
  {
    var n := |message|;
    out := new byte[PREFIX + n];
    out[0], out[1], out[2], out[3] := n / 0x100_0000 % 256, n / 0x1_0000 % 256, n / 256 % 256, n % 256;
    PutU32Bytes(n);
    assert out[..PREFIX] == PutU32(n);
    for i := 0 to n
      invariant out[..PREFIX] == PutU32(n)
      invariant out[PREFIX..PREFIX + i] == message[..i]
    {
      out[PREFIX + i] := message[i];
    }
    assert message[..n] == message;
    assert out[..] == out[..PREFIX] + out[PREFIX..PREFIX + n];
  }

  datatype RequestError = MissingPrefix | PayloadTooLarge | ReadFailed

  /** The frames before the first read error. */
  function Readable(frames: seq<BodyFrame>): (r: seq<BodyFrame>)
    ensures r <= frames
  {
    if frames == [] then []
    else
      var front := Readable(frames[..|frames| - 1]);
      if |front| == |frames| - 1 && !frames[|frames| - 1].BodyError? then frames else front
  }

  /** What becomes of a request body, for every chunking: the refusal, or the bytes sent upstream and whether they end
      in a read error. An error counts against the prefix only if it comes before the prefix is complete. */
  function Upstream(frames: seq<BodyFrame>, max: nat): Result<(Bytes, bool), RequestError> {
    var body := DataOf(Readable(frames));
    var broken := |Readable(frames)| < |frames|;
    if |body| < PREFIX then Err(if broken then ReadFailed else MissingPrefix)
    else if BeValue(body[..PREFIX]) > max then Err(PayloadTooLarge)
    else Ok(([0] + body, broken))
  }

  lemma {:induction false} ReadableUpTo(frames: seq<BodyFrame>, i: nat)
    requires i <= |frames| && NoError(frames[..i]) && (i == |frames| || frames[i].BodyError?)
    ensures Readable(frames) == frames[..i]
    decreases |frames|
  {
    if i < |frames| {
      var front := frames[..|frames| - 1];
      assert front[..i] == frames[..i];
      ReadableUpTo(front, i);
    } else if frames != [] {
      var front := frames[..|frames| - 1];
      NoErrorSteps(frames);
      assert front[..i - 1] == frames[..i - 1] == front;
      ReadableUpTo(front, i - 1);
      assert frames[..i] == frames;
    }
  }

  /** The part that is read ends at the first read error, and is everything exactly when there is none. */
  lemma {:induction false} ReadableSpec(frames: seq<BodyFrame>)
    ensures NoError(Readable(frames))
    ensures |Readable(frames)| < |frames| ==> frames[|Readable(frames)|].BodyError?
    ensures Readable(frames) == frames <==> NoError(frames)
  {
    if frames != [] {
      var front, last := frames[..|frames| - 1], frames[|frames| - 1];
      ReadableSpec(front);
      assert frames == front + [last] && last in frames;
      assert forall f :: f in frames <==> f in front || f == last;
    }
  }

  /** A forwarded upload is marked broken exactly when some read of it failed, and otherwise is the flag and every byte of
      the body; and one whose every read succeeded is never refused as failed. */
  lemma UpstreamBreaksIff(frames: seq<BodyFrame>, max: nat)
    ensures Upstream(frames, max).Ok? ==> (Upstream(frames, max).value.1 <==> !NoError(frames))
    ensures Upstream(frames, max).Ok? && NoError(frames) ==> Upstream(frames, max).value.0 == [0] + DataOf(frames)
    ensures NoError(frames) ==> Upstream(frames, max) != Err(ReadFailed)
  {
    hide NoError, Readable, DataOf, BeValue;
    ReadableSpec(frames);
    assert Readable(frames) <= frames;
  }

  /** The forwarding loop: frames from the prefix on go out as they come, until the end or an error. */
  method FrameUpstreamRequest(frames: seq<BodyFrame>, max: nat) returns (r: Result<(seq<Bytes>, bool), RequestError>)
    ensures r.Err? ==> Upstream(frames, max) == Err(r.error)
    ensures r.Ok? ==> Upstream(frames, max) == Ok((Flatten(r.value.0), r.value.1))
  {
    hide BeValue, DataOf, Flatten, NoError, Readable;
    var lead, i, failed := ReadLead(frames);
    if failed {
      return Err(ReadFailed);
    }
    if |lead| < PREFIX {
      return Err(MissingPrefix);
    }
    var out, broken := Forward(frames, i, [[0], lead]);
    LeadIsPrefix(frames, i);
    assert lead[..PREFIX] == DataOf(Readable(frames))[..PREFIX];
    if BeValue(lead[..PREFIX]) > max {
      return Err(PayloadTooLarge);
    }
    r := Ok((out, broken));
  }

  lemma FlattenTwo(a: Bytes, b: Bytes)
    ensures Flatten([a, b]) == a + b
  {
    assert [a, b] == [a] + [b] && [a] == [] + [a];
    FlattenSnoc([a], b);
    FlattenSnoc([], a);
  }

  /** Collect frames until the prefix is there, the body ends or a read fails; `next` is the first frame not read. */
  method ReadLead(frames: seq<BodyFrame>) returns (lead: Bytes, next: nat, failed: bool)
    ensures next <= |frames| && NoError(frames[..next]) && lead == DataOf(frames[..next])
    ensures failed ==> |lead| < PREFIX && Readable(frames) == frames[..next] && next < |frames|
    ensures !failed && |lead| < PREFIX ==> Readable(frames) == frames == frames[..next]
    ensures Flatten([[0], lead]) == [0] + DataOf(frames[..next])
  {
    hide DataOf, Flatten, NoError, Readable;
    DataNone();
    NoErrorSteps(frames);
    lead, next, failed := [], 0, false;
    assert frames[..0] == [];
    while |lead| < PREFIX && next < |frames|
      invariant 0 <= next <= |frames| && lead == DataOf(frames[..next]) && NoError(frames[..next])
    {
      assert frames[..next + 1] == frames[..next] + [frames[next]];
      DataSnoc(frames[..next], frames[next]);
      if frames[next].BodyError? {
        failed := true;
        break;
      }
      if frames[next].DataFrame? {
        lead := lead + frames[next].data;
      }
      next := next + 1;
    }
    if failed || next == |frames| {
      ReadableUpTo(frames, next);
    }
    FlattenTwo([0], lead);
  }

  /** Pass the remaining data frames through. */
  method Forward(frames: seq<BodyFrame>, start: nat, sent: seq<Bytes>) returns (out: seq<Bytes>, broken: bool)
    requires start <= |frames| && NoError(frames[..start]) && Flatten(sent) == [0] + DataOf(frames[..start])
    ensures Flatten(out) == [0] + DataOf(Readable(frames))
    ensures broken <==> |Readable(frames)| < |frames|
    ensures start <= |Readable(frames)|
  {
    hide DataOf, Flatten, NoError, Readable;
    NoErrorSteps(frames);
    out, broken := sent, false;
    var i := start;
    while i < |frames|
      invariant start <= i <= |frames| && Flatten(out) == [0] + DataOf(frames[..i]) && NoError(frames[..i])
    {
      assert frames[..i + 1] == frames[..i] + [frames[i]];
      DataSnoc(frames[..i], frames[i]);
      if frames[i].BodyError? {
        broken := true;
        break;
      }
      if frames[i].DataFrame? {
        FlattenSnoc(out, frames[i].data);
        out := out + [frames[i].data];
      }
      i := i + 1;
    }
    ReadableUpTo(frames, i);
  }

  /** What was read first stays first. */
  lemma LeadIsPrefix(frames: seq<BodyFrame>, i: nat)
    requires i <= |Readable(frames)|
    ensures DataOf(frames[..i]) <= DataOf(Readable(frames))
  {
    DataPrefix(Readable(frames), i);
    assert Readable(frames)[..i] == frames[..i];
  }

  lemma {:induction false} DataPrefix(frames: seq<BodyFrame>, i: nat)
    requires i <= |frames|
    ensures DataOf(frames[..i]) <= DataOf(frames)
  {
    if i < |frames| {
      DataPrefix(frames[..|frames| - 1], i);
      assert frames[..|frames| - 1][..i] == frames[..i];
    } else {
      assert frames[..i] == frames;
    }
  }

  /** What the client sends is what the backend parses, for every chunking of the upload: a message within the limit is
      forwarded as one gRPC frame holding it, a larger one is refused, and an upload that breaks off is forwarded as
      broken, or refused, and never as a message. */
  lemma RequestEndToEnd(frames: seq<BodyFrame>, message: Bytes, max: nat)
    requires Fits(message) && DataOf(Readable(frames)) <= Block(message)
    ensures Readable(frames) == frames && DataOf(frames) == Block(message) ==>
      Upstream(frames, max) == if |message| <= max then Ok((FrameOf(message), false)) else Err(PayloadTooLarge)
    ensures Messages(FrameOf(message)) == [message]
    ensures DataOf(Readable(frames)) != Block(message) && Upstream(frames, max).Ok? ==>
      Messages(Upstream(frames, max).value.0) == []
  {
    hide BeValue, DataOf, Readable;
    FrameIsFlaggedBlock(message);
    FrameRoundTripIff(message);
    PutU32Value(|message|);
    var body := DataOf(Readable(frames));
    if |body| >= PREFIX {
      assert body[..PREFIX] == PutU32(|message|);
      if body != Block(message) {
        PartialFrame(message, body);
      }
    }
  }

  /** A frame that is not all there holds no message. */
  lemma PartialFrame(message: Bytes, body: Bytes)
    requires Fits(message) && body <= Block(message) && body != Block(message) && |body| >= PREFIX
    ensures Messages([0] + body) == []
  {
    hide BeValue;
    var s := [0] + body;
    assert s[1..HEADER] == body[..PREFIX] == PutU32(|message|);
    PutU32Value(|message|);
    assert !CompleteAt(s, 0);
    Incomplete(s);
  }
}
