/** gRPC's Length-Prefixed-Message as a pure parse of a byte stream, and what cutting the stream into chunks does
    to it: nothing. */
module LengthPrefixed {
  import opened Common

  const HEADER := 5
  const U32 := 0x1_0000_0000

  /** The big-endian value of a byte string. */
  function BeValue(w: Bytes): nat {
    if w == [] then 0 else BeValue(w[..|w| - 1]) * 256 + w[|w| - 1]
  }

  /** The low `k` bytes of `n`, in big-endian order. */
  function PutBe(n: nat, k: nat): (s: Bytes)
    ensures |s| == k
  {
    if k == 0 then [] else PutBe(n / 256, k - 1) + [n % 256]
  }

  /** `n as u32` in big-endian order: the length is cut to 32 bits. */
  function PutU32(n: nat): (s: Bytes)
    ensures |s| == 4
  {
    PutBe(n, 4)
  }

  lemma PutBeValue(n: nat, k: nat)
    ensures BeValue(PutBe(n, k)) == if k == 0 then 0 else BeValue(PutBe(n / 256, k - 1)) * 256 + n % 256
  {
    if k > 0 {
      assert PutBe(n, k)[..k - 1] == PutBe(n / 256, k - 1);
    }
  }

  /** The low digit, and the digits above it. */
  lemma LowDigit(n: nat)
    ensures n % 0x1_0000 == n / 256 % 256 * 256 + n % 256
    ensures n % 0x100_0000 == n / 256 % 0x1_0000 * 256 + n % 256
    ensures n % U32 == n / 256 % 0x100_0000 * 256 + n % 256
  {
    var q, r := n / 256, n % 256;
    assert n == 256 * q + r;
    Unique(n, 0x1_0000, q / 256, q % 256 * 256 + r);
    Unique(n, 0x100_0000, q / 0x1_0000, q % 0x1_0000 * 256 + r);
    Unique(n, U32, q / 0x100_0000, q % 0x100_0000 * 256 + r);
  }

  lemma Unique(n: nat, m: nat, q: nat, r: nat)
    requires r < m && n == m * q + r
    ensures n % m == r
  {
    var d := n / m - q;
    assert m * d == r - n % m;
    Multiple(m, d);
  }

  lemma Multiple(m: nat, d: int)
    ensures d >= 1 ==> m * d >= m
    ensures d <= -1 ==> m * d <= 0 - m
  {
    if d >= 1 {
      assert m * d == m + m * (d - 1);
    } else if d <= -1 {
      assert m * d == 0 - m + m * (d + 1);
    }
  }

  lemma PutU32Value(n: nat)
    ensures BeValue(PutU32(n)) == n % U32
  {
    hide BeValue, PutBe;
    var b, c, d := n / 256, n / 256 / 256, n / 256 / 256 / 256;
    PutBeValue(d / 256, 0);
    PutBeValue(d, 1);
    PutBeValue(c, 2);
    PutBeValue(b, 3);
    PutBeValue(n, 4);
    LowDigit(c);
    LowDigit(b);
    LowDigit(n);
  }

  /** The message length declared by the header at offset `p`. */
  function DeclaredAt(s: Bytes, p: nat): nat
    requires p + HEADER <= |s|
  {
    BeValue(s[p + 1..p + HEADER])
  }

  /** A whole frame stands at offset `p`. */
  predicate CompleteAt(s: Bytes, p: nat) {
    p + HEADER <= |s| && p + HEADER + DeclaredAt(s, p) <= |s|
  }

  /** Where the frame at `p` ends. */
  function EndAt(s: Bytes, p: nat): (e: nat)
    requires CompleteAt(s, p)
    ensures p < e <= |s|
  {
    p + HEADER + DeclaredAt(s, p)
  }

  /** Every complete message from offset `p` on, in order; the compression flag is not looked at. */
  function MessagesFrom(s: Bytes, p: nat): seq<Bytes>
    decreases |s| - p
  {
    if !CompleteAt(s, p) then [] else [s[p + HEADER..EndAt(s, p)]] + MessagesFrom(s, EndAt(s, p))
  }

  /** Where the last complete message ends. */
  function RestFrom(s: Bytes, p: nat): (r: nat)
    requires p <= |s|
    ensures p <= r <= |s| && !CompleteAt(s, r)
    decreases |s| - p
  {
    if !CompleteAt(s, p) then p else RestFrom(s, EndAt(s, p))
  }

  /** The pure parse of a stream: its complete messages, and what is left after them. */
  function Messages(s: Bytes): seq<Bytes> {
    MessagesFrom(s, 0)
  }

  function Rest(s: Bytes): Bytes {
    s[RestFrom(s, 0)..]
  }

  /** Nothing complete yet. */
  lemma Incomplete(s: Bytes)
    requires !CompleteAt(s, 0)
    ensures Messages(s) == [] && Rest(s) == s
  {
    assert s[0..] == s;
  }

  /** Frame one message, uncompressed. */
  function FrameOf(m: Bytes): Bytes {
    [0] + PutU32(|m|) + m
  }

  function FramesOf(ms: seq<Bytes>): Bytes {
    if ms == [] then [] else FrameOf(ms[0]) + FramesOf(ms[1..])
  }

  /** A length fits the prefix. */
  predicate Fits(m: Bytes) {
    |m| < U32
  }

  // ----- chunking -----

  /** Parsing a suffix is parsing at an offset. */
  lemma {:induction false} Shift(s: Bytes, p: nat, q: nat)
    requires p <= |s| && q <= |s| - p
    ensures MessagesFrom(s[p..], q) == MessagesFrom(s, p + q)
    ensures p + RestFrom(s[p..], q) == RestFrom(s, p + q)
    decreases |s| - p - q
  {
    hide BeValue;
    if p + q + HEADER <= |s| {
      assert s[p..][q + 1..q + HEADER] == s[p + q + 1..p + q + HEADER];
    }
    if CompleteAt(s, p + q) {
      var e := EndAt(s, p + q);
      assert s[p..][q + HEADER..e - p] == s[p + q + HEADER..e];
      Shift(s, p, e - p);
    }
  }

  /** A complete frame stays where it is when more bytes arrive. */
  lemma CompleteGrows(a: Bytes, b: Bytes, p: nat)
    requires CompleteAt(a, p)
    ensures CompleteAt(a + b, p) && EndAt(a + b, p) == EndAt(a, p)
    ensures (a + b)[p + HEADER..EndAt(a, p)] == a[p + HEADER..EndAt(a, p)]
  {
    hide BeValue;
    assert (a + b)[p + 1..p + HEADER] == a[p + 1..p + HEADER];
  }

  lemma {:induction false} ResumeFrom(a: Bytes, b: Bytes, p: nat)
    requires p <= |a|
    ensures MessagesFrom(a + b, p) == MessagesFrom(a, p) + MessagesFrom(a + b, RestFrom(a, p))
    ensures RestFrom(a + b, p) == RestFrom(a + b, RestFrom(a, p))
    decreases |a| - p
  {
    hide BeValue;
    if CompleteAt(a, p) {
      CompleteGrows(a, b, p);
      ResumeFrom(a, b, EndAt(a, p));
    }
  }

  /** Parsing resumes from the rest: the parse of a longer stream is the parse of the shorter one, followed by the
      parse of its rest with the new bytes. */
  lemma ParseResumes(a: Bytes, b: Bytes)
    ensures Messages(a + b) == Messages(a) + Messages(Rest(a) + b)
    ensures Rest(a + b) == Rest(Rest(a) + b)
  {
    hide BeValue;
    var r := RestFrom(a, 0);
    ResumeFrom(a, b, 0);
    assert Rest(a) + b == (a + b)[r..];
    Shift(a + b, r, 0);
  }

  // ----- round trips -----

  lemma HeaderOf(m: Bytes, tail: Bytes)
    ensures |FrameOf(m)| == HEADER + |m| && DeclaredAt(FrameOf(m) + tail, 0) == |m| % U32
  {
    hide BeValue;
    PutU32Value(|m|);
    var s := FrameOf(m) + tail;
    assert s[1..HEADER] == PutU32(|m|);
  }

  lemma FrameOfParses(m: Bytes, tail: Bytes)
    requires Fits(m)
    ensures Messages(FrameOf(m) + tail) == [m] + Messages(tail)
    ensures Rest(FrameOf(m) + tail) == Rest(tail)
  {
    hide BeValue;
    var s := FrameOf(m) + tail;
    HeaderOf(m, tail);
    assert s[HEADER..HEADER + |m|] == m;
    assert s[HEADER + |m|..] == tail;
    Shift(s, HEADER + |m|, 0);
  }

  /** Parsing any sequence of framed messages gives the messages back and leaves what follows them, provided that
      does not itself start with a whole frame. */
  lemma {:induction false} FramesRoundTrip(ms: seq<Bytes>, tail: Bytes)
    requires forall m :: m in ms ==> Fits(m)
    requires !CompleteAt(tail, 0)
    ensures Messages(FramesOf(ms) + tail) == ms && Rest(FramesOf(ms) + tail) == tail
  {
    hide BeValue;
    if ms == [] {
      assert FramesOf(ms) + tail == tail;
    } else {
      assert ms[0] in ms;
      FramesRoundTrip(ms[1..], tail);
      FrameOfParses(ms[0], FramesOf(ms[1..]) + tail);
      Assoc(FrameOf(ms[0]), FramesOf(ms[1..]), tail);
    }
  }

  /** One frame comes back exactly when its length fits the 32-bit prefix. */
  lemma FrameRoundTripIff(m: Bytes)
    ensures Fits(m) <==> Messages(FrameOf(m)) == [m]
  {
    hide BeValue;
    assert FrameOf(m) + [] == FrameOf(m);
    HeaderOf(m, []);
    if Fits(m) {
      FrameOfParses(m, []);
    } else {
      assert |Messages(FrameOf(m))[0]| == |m| % U32 < |m|;
    }
  }

  // ----- headers at frame boundaries -----

  /** A frame starts at offset `q`: at `p`, and wherever a complete frame from `p` on ends. */
  predicate Boundary(s: Bytes, p: nat, q: nat)
    decreases |s| - p
  {
    p == q || (CompleteAt(s, p) && Boundary(s, EndAt(s, p), q))
  }

  /** A header the client refuses: a compressed message, or one over the limit. */
  predicate BadHeader(s: Bytes, p: nat, max: Option<nat>) {
    p + HEADER <= |s| && (s[p] != 0 || (max.Some? && DeclaredAt(s, p) > max.value))
  }

  /** Some frame of `s` from `p` on has a complete header that is refused. */
  predicate BadFrom(s: Bytes, p: nat, max: Option<nat>)
    decreases |s| - p
  {
    BadHeader(s, p, max) || (CompleteAt(s, p) && BadFrom(s, EndAt(s, p), max))
  }

  /** Some frame of `s` from `p` on declares more than `max`. */
  predicate OversizeFrom(s: Bytes, p: nat, max: nat)
    decreases |s| - p
  {
    p + HEADER <= |s| && (DeclaredAt(s, p) > max || (CompleteAt(s, p) && OversizeFrom(s, EndAt(s, p), max)))
  }

  predicate HasBadHeader(s: Bytes, max: Option<nat>) {
    BadFrom(s, 0, max)
  }

  predicate HasOversize(s: Bytes, max: nat) {
    OversizeFrom(s, 0, max)
  }

  /** Refused headers, said without recursion: a complete refused header stands at some frame boundary. */
  lemma {:induction false} BadAtBoundary(s: Bytes, p: nat, max: Option<nat>)
    ensures BadFrom(s, p, max) <==> exists q: nat :: Boundary(s, p, q) && BadHeader(s, q, max)
    decreases |s| - p
  {
    hide BeValue;
    assert Boundary(s, p, p);
    if CompleteAt(s, p) {
      var e := EndAt(s, p);
      BadAtBoundary(s, e, max);
      if BadFrom(s, e, max) {
        var q: nat :| Boundary(s, e, q) && BadHeader(s, q, max);
        assert Boundary(s, p, q);
      }
      if q: nat :| Boundary(s, p, q) && BadHeader(s, q, max) && q != p {
        assert Boundary(s, e, q);
      }
    }
  }

  /** Likewise for oversize messages. */
  lemma {:induction false} OversizeAtBoundary(s: Bytes, p: nat, max: nat)
    ensures OversizeFrom(s, p, max)
       <==> exists q: nat :: Boundary(s, p, q) && q + HEADER <= |s| && DeclaredAt(s, q) > max
    decreases |s| - p
  {
    hide BeValue;
    assert Boundary(s, p, p);
    if CompleteAt(s, p) {
      var e := EndAt(s, p);
      OversizeAtBoundary(s, e, max);
      if OversizeFrom(s, e, max) {
        var q: nat :| Boundary(s, e, q) && q + HEADER <= |s| && DeclaredAt(s, q) > max;
        assert Boundary(s, p, q);
      }
      if q: nat :| Boundary(s, p, q) && q + HEADER <= |s| && DeclaredAt(s, q) > max && q != p {
        assert Boundary(s, e, q);
      }
    }
  }

  lemma {:induction false} ShiftBad(s: Bytes, p: nat, q: nat, max: Option<nat>)
    requires p <= |s|
    ensures BadFrom(s[p..], q, max) == BadFrom(s, p + q, max)
    decreases |s| - p - q
  {
    hide BeValue;
    if p + q + HEADER <= |s| {
      assert s[p..][q + 1..q + HEADER] == s[p + q + 1..p + q + HEADER];
    }
    if CompleteAt(s, p + q) {
      ShiftBad(s, p, EndAt(s, p + q) - p, max);
    }
  }

  lemma {:induction false} ShiftOversize(s: Bytes, p: nat, q: nat, max: nat)
    requires p <= |s|
    ensures OversizeFrom(s[p..], q, max) == OversizeFrom(s, p + q, max)
    decreases |s| - p - q
  {
    hide BeValue;
    if p + q + HEADER <= |s| {
      assert s[p..][q + 1..q + HEADER] == s[p + q + 1..p + q + HEADER];
    }
    if CompleteAt(s, p + q) {
      ShiftOversize(s, p, EndAt(s, p + q) - p, max);
    }
  }

  lemma {:induction false} ResumeBad(a: Bytes, b: Bytes, p: nat, max: Option<nat>)
    requires p <= |a|
    ensures BadFrom(a + b, p, max) <==> BadFrom(a, p, max) || BadFrom(a + b, RestFrom(a, p), max)
    decreases |a| - p
  {
    hide BeValue;
    if p + HEADER <= |a| {
      assert (a + b)[p + 1..p + HEADER] == a[p + 1..p + HEADER];
    }
    if CompleteAt(a, p) {
      CompleteGrows(a, b, p);
      ResumeBad(a, b, EndAt(a, p), max);
    }
  }

  /** A refused header stays refused, and the search resumes from the rest. */
  lemma BadHeaderResumes(a: Bytes, b: Bytes, max: Option<nat>)
    ensures HasBadHeader(a + b, max) <==> HasBadHeader(a, max) || HasBadHeader(Rest(a) + b, max)
  {
    hide BeValue;
    var r := RestFrom(a, 0);
    ResumeBad(a, b, 0, max);
    assert Rest(a) + b == (a + b)[r..];
    ShiftBad(a + b, r, 0, max);
  }

  lemma {:induction false} ResumeOversize(a: Bytes, b: Bytes, p: nat, max: nat)
    requires p <= |a|
    ensures OversizeFrom(a + b, p, max) <==> OversizeFrom(a, p, max) || OversizeFrom(a + b, RestFrom(a, p), max)
    decreases |a| - p
  {
    hide BeValue;
    if p + HEADER <= |a| {
      assert (a + b)[p + 1..p + HEADER] == a[p + 1..p + HEADER];
    }
    if CompleteAt(a, p) {
      CompleteGrows(a, b, p);
      ResumeOversize(a, b, EndAt(a, p), max);
    }
  }

  lemma OversizeResumes(a: Bytes, b: Bytes, max: nat)
    ensures HasOversize(a + b, max) <==> HasOversize(a, max) || HasOversize(Rest(a) + b, max)
  {
    hide BeValue;
    var r := RestFrom(a, 0);
    ResumeOversize(a, b, 0, max);
    assert Rest(a) + b == (a + b)[r..];
    ShiftOversize(a + b, r, 0, max);
  }

  /** Without a refused header, what is held back under a limit is smaller than a header plus the limit. */
  lemma {:induction false} RestIsBounded(s: Bytes, p: nat, max: nat)
    requires p <= |s| && !BadFrom(s, p, Some(max))
    ensures |s| - RestFrom(s, p) < HEADER + max
    decreases |s| - p
  {
    hide BeValue;
    if CompleteAt(s, p) {
      RestIsBounded(s, EndAt(s, p), max);
    }
  }
}
