/** The incremental deframers and the size limiter, each proved against the pure parse for every chunking. */
module Deframers {
  import opened Common
  import opened LengthPrefixed

  /** The empty stream. */
  lemma NothingYet(max: Option<nat>)
    ensures Messages([]) == [] && Rest([]) == [] && !HasBadHeader([], max)
  {
  }

  /** The server's de-framer: push raw chunks, pull complete messages. */
  class Deframer {
    var buf: Bytes

    constructor ()
      ensures buf == []
    {
      buf := [];
    }

    method Push(chunk: Bytes)
      modifies this
      ensures buf == old(buf) + chunk
    {
      hide BeValue;
      buf := buf + chunk;
    }

    /** Takes the first message off the buffer once all of it has arrived. */
    method NextMessage() returns (m: Option<Bytes>)
      modifies this
      ensures m.Some? <==> Messages(old(buf)) != []
      ensures m.None? ==> buf == old(buf) == Rest(old(buf))
      ensures m.Some? ==> [m.value] + Messages(buf) == Messages(old(buf)) && Rest(buf) == Rest(old(buf))
      ensures m.Some? ==> |buf| < |old(buf)|
    {
      hide BeValue;
      if |buf| < HEADER {
        return None;
      }
      // Read the length but leave it there: the rest of the frame may be missing.
      var len := BeValue(buf[1..HEADER]);
      if |buf| < HEADER + len {
        return None;
      }
      Shift(buf, HEADER + len, 0);
      buf := buf[HEADER..];
      m := Some(buf[..len]);
      buf := buf[len..];
      assert m.value == old(buf)[HEADER..HEADER + len];
      assert buf == old(buf)[HEADER + len..];
    }

    /** Pull until nothing is complete. */
    method Drain() returns (out: seq<Bytes>)
      modifies this
      ensures out == Messages(old(buf)) && buf == Rest(old(buf))
    {
      hide BeValue;
      out := [];
      var m := NextMessage();
      while m.Some?
        invariant m.None? ==> Messages(buf) == [] && buf == Rest(buf)
        invariant out + (if m.Some? then [m.value] else []) + Messages(buf) == Messages(old(buf))
        invariant Rest(buf) == Rest(old(buf))
        decreases |buf| + (if m.Some? then 1 else 0)
      {
        ghost var pulled := [m.value] + Messages(buf);
        ghost var done := out;
        out := out + [m.value];
        assert out + Messages(buf) == done + pulled;
        m := NextMessage();
      }
      assert out + [] + [] == out;
    }
  }

  /** A fully buffered body. */
  method DeframeAll(body: Bytes) returns (out: seq<Bytes>)
    ensures out == Messages(body)
  {
    hide BeValue;
    var d := new Deframer();
    d.Push(body);
    assert [] + body == body;
    out := d.Drain();
  }

  /** The response pump's use of the deframer: whatever the chunking, exactly the messages of the whole stream, and
      exactly its rest left over. */
  method PumpChunks(chunks: seq<Bytes>) returns (out: seq<Bytes>, rest: Bytes)
    ensures out == Messages(Flatten(chunks)) && rest == Rest(Flatten(chunks))
  {
    hide Messages, Rest, HasBadHeader, HasOversize;
    NothingYet(None);
    var d := new Deframer();
    out := [];
    for i := 0 to |chunks|
      invariant out == Messages(Flatten(chunks[..i])) && d.buf == Rest(Flatten(chunks[..i]))
    {
      FlattenSnoc(chunks[..i], chunks[i]);
      assert chunks[..i + 1] == chunks[..i] + [chunks[i]];
      ParseResumes(Flatten(chunks[..i]), chunks[i]);
      d.Push(chunks[i]);
      var more := d.Drain();
      out := out + more;
    }
    assert chunks[..|chunks|] == chunks;
    rest := d.buf;
  }

  /** The TypeScript parser: one pass per chunk over an offset. */
  class GrpcFrameParser {
    var buf: Bytes

    constructor ()
      ensures buf == []
    {
      buf := [];
    }

    method Push(chunk: Bytes) returns (out: seq<Bytes>)
      modifies this
      ensures out == Messages(old(buf) + chunk) && buf == Rest(old(buf) + chunk)
    {
      hide BeValue;
      if |chunk| > 0 {
        buf := buf + chunk;
      }
      ghost var all := buf;
      assert all == old(buf) + chunk;
      out := [];
      var offset := 0;
      while true
        invariant 0 <= offset <= |buf| && buf == all
        invariant out + MessagesFrom(all, offset) == Messages(all)
        invariant RestFrom(all, offset) == RestFrom(all, 0)
        decreases |buf| - offset
      {
        if |buf| - offset < HEADER {
          break;
        }
        var len := BeValue(buf[offset + 1..offset + HEADER]);
        if |buf| - offset - HEADER < len {
          break;
        }
        var m := buf[offset + HEADER..offset + HEADER + len];
        Assoc(out, [m], MessagesFrom(all, offset + HEADER + len));
        out, offset := out + [m], offset + HEADER + len;
      }
      buf := buf[offset..];
    }

    /** Every chunking gives the messages of the whole stream. */
    method PushAll(chunks: seq<Bytes>) returns (out: seq<Bytes>)
      requires buf == []
      modifies this
      ensures out == Messages(Flatten(chunks)) && buf == Rest(Flatten(chunks))
    {
      hide Messages, Rest, HasBadHeader, HasOversize;
      NothingYet(None);
      out := [];
      for i := 0 to |chunks|
        invariant out == Messages(Flatten(chunks[..i])) && buf == Rest(Flatten(chunks[..i]))
      {
        FlattenSnoc(chunks[..i], chunks[i]);
        assert chunks[..i + 1] == chunks[..i] + [chunks[i]];
        ParseResumes(Flatten(chunks[..i]), chunks[i]);
        var more := Push(chunks[i]);
        out := out + more;
      }
      assert chunks[..|chunks|] == chunks;
    }
  }

  datatype Refusal = Unimplemented | ResourceExhausted

  /** What the first refused header from `p` on is refused for. */
  function RefusalFrom(s: Bytes, p: nat, max: Option<nat>): Refusal
    requires BadFrom(s, p, max)
    decreases |s| - p
  {
    if BadHeader(s, p, max) then (if s[p] != 0 then Unimplemented else ResourceExhausted)
    else RefusalFrom(s, EndAt(s, p), max)
  }

  /** What a client deframer makes of a whole buffer. */
  function Verdict(s: Bytes, max: Option<nat>): Result<seq<Bytes>, Refusal> {
    if HasBadHeader(s, max) then Err(RefusalFrom(s, 0, max)) else Ok(Messages(s))
  }

  lemma {:induction false} RefusalStays(a: Bytes, b: Bytes, p: nat, max: Option<nat>)
    requires p <= |a| && BadFrom(a, p, max)
    ensures BadFrom(a + b, p, max) && RefusalFrom(a + b, p, max) == RefusalFrom(a, p, max)
    decreases |a| - p
  {
    hide BeValue;
    assert (a + b)[p + 1..p + HEADER] == a[p + 1..p + HEADER];
    if !BadHeader(a, p, max) {
      CompleteGrows(a, b, p);
      RefusalStays(a, b, EndAt(a, p), max);
    }
  }

  /** The parse and its refusals, one frame further. */
  lemma FrameStep(s: Bytes, p: nat, max: Option<nat>)
    requires p <= |s|
    ensures BadHeader(s, p, max) ==>
      BadFrom(s, p, max) && RefusalFrom(s, p, max) == (if s[p] != 0 then Unimplemented else ResourceExhausted)
    ensures !BadHeader(s, p, max) && !CompleteAt(s, p) ==>
      !BadFrom(s, p, max) && MessagesFrom(s, p) == [] && RestFrom(s, p) == p
    ensures !BadHeader(s, p, max) && CompleteAt(s, p) ==>
      var e := EndAt(s, p);
      && MessagesFrom(s, p) == [s[p + HEADER..e]] + MessagesFrom(s, e) && RestFrom(s, p) == RestFrom(s, e)
      && BadFrom(s, p, max) == BadFrom(s, e, max)
      && (BadFrom(s, p, max) ==> RefusalFrom(s, p, max) == RefusalFrom(s, e, max))
  {
    hide BeValue;
  }

  /** What a refusal means: the first complete header at a frame boundary that is compressed or too long, and which of the
      two it is. */
  lemma {:induction false} RefusalIsTheFirst(s: Bytes, p: nat, max: Option<nat>) returns (q: nat)
    requires p <= |s| && BadFrom(s, p, max)
    ensures Boundary(s, p, q) && BadHeader(s, q, max)
    ensures forall b: nat :: Boundary(s, p, b) && b < q ==> !BadHeader(s, b, max)
    ensures RefusalFrom(s, p, max) == if s[q] != 0 then Unimplemented else ResourceExhausted
    decreases |s| - p
  {
    hide BeValue;
    if BadHeader(s, p, max) {
      q := p;
      BoundariesGrow(s, p);
    } else {
      q := RefusalIsTheFirst(s, EndAt(s, p), max);
      BoundariesGrow(s, p);
    }
  }

  lemma BoundariesGrow(s: Bytes, p: nat)
    requires p <= |s|
    ensures Boundary(s, p, p)
    ensures forall b: nat :: Boundary(s, p, b) ==> b == p || (CompleteAt(s, p) && b > p && Boundary(s, EndAt(s, p), b))
    ensures CompleteAt(s, p) ==> forall b: nat :: Boundary(s, EndAt(s, p), b) ==> Boundary(s, p, b)
  {
    hide BeValue;
    forall b: nat | Boundary(s, p, b)
      ensures b >= p
    {
      BoundaryIsLater(s, p, b);
    }
    if CompleteAt(s, p) {
      forall b: nat | Boundary(s, EndAt(s, p), b)
        ensures b > p
      {
        BoundaryIsLater(s, EndAt(s, p), b);
      }
    }
  }

  lemma {:induction false} BoundaryIsLater(s: Bytes, p: nat, b: nat)
    requires Boundary(s, p, b)
    ensures b >= p
    decreases |s| - p
  {
    hide BeValue;
    if b != p {
      BoundaryIsLater(s, EndAt(s, p), b);
    }
  }

  /** More bytes do not change the verdict, so a failed client deframer keeps failing in the same way. */
  lemma RefusalIsFinal(a: Bytes, b: Bytes, max: Option<nat>)
    requires Verdict(a, max).Err?
    ensures Verdict(a + b, max) == Verdict(a, max)
  {
    hide BeValue;
    RefusalStays(a, b, 0, max);
  }

  /** The Rust client's de-framer, which refuses compressed and oversize messages by their header. */
  class ClientDeframer {
    var buffer: Bytes
    const max: Option<nat>

    constructor (max: Option<nat>)
      ensures buffer == [] && this.max == max
    {
      buffer := [];
      this.max := max;
    }

    /** Fails exactly when a complete refused header has arrived at a frame boundary, without draining anything;
        otherwise agrees with the pure parse and, under a limit, holds less than a header plus the limit. */
    method Push(chunk: Bytes) returns (r: Result<seq<Bytes>, Refusal>)
      modifies this
      ensures r == Verdict(old(buffer) + chunk, max)
      ensures buffer == if r.Ok? then Rest(old(buffer) + chunk) else old(buffer) + chunk
      ensures r.Ok? && max.Some? ==> |buffer| < HEADER + max.value
    {
      hide BeValue, MessagesFrom, RestFrom, BadFrom, RefusalFrom;
      buffer := buffer + chunk;
      ghost var all := buffer;
      var out := [];
      var offset := 0;
      assert [] + Messages(all) == Messages(all);
      while true
        invariant 0 <= offset <= |buffer| && buffer == all
        invariant RestFrom(all, offset) == RestFrom(all, 0)
        invariant out + MessagesFrom(all, offset) == Messages(all)
        invariant BadFrom(all, offset, max) == HasBadHeader(all, max)
        invariant HasBadHeader(all, max) ==> RefusalFrom(all, offset, max) == RefusalFrom(all, 0, max)
        decreases |buffer| - offset
      {
        FrameStep(all, offset, max);
        if |buffer| - offset < HEADER {
          break;
        }
        if buffer[offset] != 0 {
          return Err(Unimplemented);
        }
        var len := BeValue(buffer[offset + 1..offset + HEADER]);
        if max.Some? && len > max.value {
          return Err(ResourceExhausted);
        }
        if |buffer| - offset - HEADER < len {
          break;
        }
        var m := buffer[offset + HEADER..offset + HEADER + len];
        Assoc(out, [m], MessagesFrom(all, offset + HEADER + len));
        out, offset := out + [m], offset + HEADER + len;
      }
      buffer := buffer[offset..];
      assert out + [] == out;
      if max.Some? {
        RestIsBounded(all, 0, max.value);
      }
      r := Ok(out);
    }

    /** Pushing chunks until one fails. It fails on some push exactly when the whole stream has a refused header,
        and then on the push that completes the first such header; until then it agrees with the pure parse. */
    method PushAll(chunks: seq<Bytes>) returns (out: seq<Bytes>, failed: Option<nat>)
      requires buffer == []
      modifies this
      ensures failed.Some? <==> HasBadHeader(Flatten(chunks), max)
      ensures failed.None? ==> out == Messages(Flatten(chunks)) && buffer == Rest(Flatten(chunks))
      ensures failed.Some? ==>
                && failed.value < |chunks|
                && !HasBadHeader(Flatten(chunks[..failed.value]), max)
                && HasBadHeader(Flatten(chunks[..failed.value + 1]), max)
                && out == Messages(Flatten(chunks[..failed.value]))
    {
      hide Messages, Rest, HasBadHeader, HasOversize;
      NothingYet(max);
      out := [];
      for i := 0 to |chunks|
        invariant out == Messages(Flatten(chunks[..i])) && buffer == Rest(Flatten(chunks[..i]))
        invariant !HasBadHeader(Flatten(chunks[..i]), max)
      {
        ghost var before := Flatten(chunks[..i]);
        FlattenSnoc(chunks[..i], chunks[i]);
        assert chunks[..i + 1] == chunks[..i] + [chunks[i]];
        ParseResumes(before, chunks[i]);
        BadHeaderResumes(before, chunks[i], max);
        var r := Push(chunks[i]);
        if r.Err? {
          assert chunks == chunks[..i + 1] + chunks[i + 1..];
          FlattenAppend(chunks[..i + 1], chunks[i + 1..]);
          BadHeaderResumes(Flatten(chunks[..i + 1]), Flatten(chunks[i + 1..]), max);
          return out, Some(i);
        }
        out := out + r.value;
      }
      assert chunks[..|chunks|] == chunks;
      failed := None;
    }
  }

  /** A stream of at most one frame. */
  lemma AtMostOne(s: Bytes, max: nat)
    ensures !CompleteAt(s, 0) ==> Rest(s) == s && (HasOversize(s, max) <==> |s| >= HEADER && DeclaredAt(s, 0) > max)
    ensures CompleteAt(s, 0) && EndAt(s, 0) == |s| ==>
              Rest(s) == [] && (HasOversize(s, max) <==> DeclaredAt(s, 0) > max)
  {
    hide BeValue;
    if CompleteAt(s, 0) {
      assert !CompleteAt(s, |s|);
      assert OversizeFrom(s, |s|, max) == false;
    } else {
      Incomplete(s);
    }
  }

  /** The byte-at-a-time size limiter. `seen` is history: every byte inspected so far. */
  class GrpcSizeLimit {
    const max: nat
    var headerSeen: nat
    var lenBuf: array<byte>
    var bodyRemaining: nat
    ghost var seen: Bytes

    /** The counters describe where in its frame the stream `s` stands. */
    ghost predicate Tracks(s: Bytes)
      reads this, lenBuf
    {
      var rest := Rest(s);
      && lenBuf.Length == 4
      && headerSeen <= HEADER
      && (headerSeen < HEADER ==> |rest| == headerSeen && bodyRemaining == 0)
      && (headerSeen == HEADER ==>
            if bodyRemaining == 0 then rest == []
            else |rest| >= HEADER && |rest| + bodyRemaining == HEADER + DeclaredAt(rest, 0))
      && (headerSeen < HEADER ==> forall k :: 1 <= k < headerSeen ==> lenBuf[k - 1] == rest[k])
    }

    ghost predicate Valid()
      reads this, lenBuf
    {
      Tracks(seen) && !HasOversize(seen, max)
    }

    constructor (max: nat)
      ensures Valid() && seen == [] && this.max == max && fresh(lenBuf)
    {
      this.max := max;
      headerSeen, bodyRemaining, seen := 0, 0, [];
      lenBuf := new byte[4](_ => 0);
    }

    /** One header byte. */
    method TakeHeaderByte(b: byte, ghost s: Bytes) returns (ok: bool)
      requires Tracks(s) && !HasOversize(s, max) && headerSeen < HEADER
      modifies this`headerSeen, this`bodyRemaining, lenBuf
      ensures ok <==> !HasOversize(s + [b], max)
      ensures ok ==> Tracks(s + [b]) && headerSeen == old(headerSeen) + 1
    {
      hide BeValue;
      ParseResumes(s, [b]);
      OversizeResumes(s, [b], max);
      ghost var rest := Rest(s) + [b];
      if headerSeen >= 1 {
        lenBuf[headerSeen - 1] := b;
      }
      headerSeen := headerSeen + 1;
      if headerSeen == HEADER {
        var len := BeValue(lenBuf[..]);
        assert lenBuf[..] == rest[1..HEADER];
        if len > max {
          return false;
        }
        bodyRemaining := len;
      }
      AtMostOne(rest, max);
      ok := true;
    }

    /** A run of body bytes that does not go past the end of the message. */
    method TakeBody(run: Bytes, ghost s: Bytes)
      requires Tracks(s) && !HasOversize(s, max) && headerSeen == HEADER && |run| <= bodyRemaining
      requires run == [] ==> bodyRemaining == 0
      modifies this`headerSeen, this`bodyRemaining
      ensures Tracks(s + run) && !HasOversize(s + run, max)
      ensures headerSeen < old(headerSeen) || |run| > 0
    {
      hide BeValue;
      ParseResumes(s, run);
      OversizeResumes(s, run, max);
      OversizeResumes(s, [], max);
      assert s + [] == s && Rest(s) + [] == Rest(s);
      ghost var rest := Rest(s) + run;
      bodyRemaining := bodyRemaining - |run|;
      if |Rest(s)| > 0 {
        assert rest[1..HEADER] == Rest(s)[1..HEADER];
      } else {
        assert run == [] && rest == [];
      }
      AtMostOne(rest, max);
      if bodyRemaining == 0 {
        headerSeen := 0;
      }
    }

    /** One turn of the loop at `data[i..]`, after the stream `s`. */
    method Turn(data: Bytes, i: nat, ghost s: Bytes) returns (ok: bool, next: nat)
      requires i < |data| && Tracks(s) && !HasOversize(s, max)
      modifies this`headerSeen, this`bodyRemaining, lenBuf
      ensures i <= next <= |data| && (ok <==> !HasOversize(s + data[i..next], max))
      ensures ok ==> Tracks(s + data[i..next])
      ensures ok ==> i < next || headerSeen < old(headerSeen)
    {
      hide BeValue;
      if headerSeen < HEADER {
        assert data[i..i + 1] == [data[i]];
        ok := TakeHeaderByte(data[i], s);
        next := i + 1;
      } else {
        var take := if bodyRemaining < |data| - i then bodyRemaining else |data| - i;
        TakeBody(data[i..i + take], s);
        ok, next := true, i + take;
      }
    }

    /** Walk one chunk: it is accepted exactly when no frame of the stream so far declares more than `max`. */
    method Inspect(data: Bytes) returns (ok: bool)
      requires Valid()
      modifies this, lenBuf
      ensures ok <==> !HasOversize(old(seen) + data, max)
      ensures lenBuf == old(lenBuf)
      ensures ok ==> Valid() && seen == old(seen) + data
    {
      hide BeValue;
      var i := 0;
      assert seen + data[..0] == seen;
      while i < |data|
        invariant 0 <= i <= |data| && lenBuf == old(lenBuf) && seen == old(seen)
        invariant Tracks(seen + data[..i]) && !HasOversize(seen + data[..i], max)
        // An empty message takes one turn that consumes nothing.
        decreases |data| - i, headerSeen
      {
        ghost var s := seen + data[..i];
        var fine, next := Turn(data, i, s);
        assert s + data[i..next] == seen + data[..next];
        if !fine {
          assert seen + data == (s + data[i..next]) + data[next..];
          OversizeResumes(s + data[i..next], data[next..], max);
          return false;
        }
        i := next;
      }
      assert data[..|data|] == data;
      seen := seen + data;
      ok := true;
    }

    /** Whatever the chunking, the stream is accepted exactly when every declared length is within the limit. */
    method InspectAll(chunks: seq<Bytes>) returns (ok: bool)
      requires Valid() && seen == []
      modifies this, lenBuf
      ensures ok <==> !HasOversize(Flatten(chunks), max)
    {
      hide Messages, Rest, HasBadHeader, HasOversize;
      for i := 0 to |chunks|
        invariant Valid() && seen == Flatten(chunks[..i]) && lenBuf == old(lenBuf)
      {
        FlattenSnoc(chunks[..i], chunks[i]);
        assert chunks[..i + 1] == chunks[..i] + [chunks[i]];
        var fine := Inspect(chunks[i]);
        if !fine {
          assert chunks == chunks[..i + 1] + chunks[i + 1..];
          FlattenAppend(chunks[..i + 1], chunks[i + 1..]);
          OversizeResumes(Flatten(chunks[..i + 1]), Flatten(chunks[i + 1..]), max);
          return false;
        }
      }
      assert chunks[..|chunks|] == chunks;
      ok := true;
    }
  }
}
