/** A `FileDescriptorSet` written file by file with protobuf framing, and its inverse. */
module FileSet {
  import opened Common

  const Tag: byte := 0x0A
  const Word: nat := 0x1_0000_0000_0000_0000

  function Pow2(n: nat): (r: nat)
    ensures r > 0
  {
    if n == 0 then 1 else 2 * Pow2(n - 1)
  }

  // ----- writing -----

  function Varint(n: nat): (v: Bytes)
    ensures v != []
  {
    if n < 128 then [n] else [n % 128 + 128] + Varint(n / 128)
  }

  function FileField(raw: Bytes): Bytes {
    [Tag] + Varint(|raw|) + raw
  }

  function Framed(files: seq<Bytes>): Bytes {
    if files == [] then [] else FileField(files[0]) + Framed(files[1..])
  }

  /** The writer itself: seven bits at a time, low first, the top bit set while more follow. */
  method PushFileDescriptor(buf: Bytes, raw: Bytes) returns (out: Bytes)
    ensures out == buf + FileField(raw)
  {
    out := buf + [Tag];
    var len: nat := |raw|;
    while true
      invariant out + Varint(len) == buf + [Tag] + Varint(|raw|)
      decreases len
    {
      var low := len % 128;
      ghost var was: nat := len;
      len := len / 128;
      if len != 0 {
        assert Varint(was) == [low + 128] + Varint(len);
        Assoc(out, [low + 128], Varint(len));
        out := out + [low + 128];
      } else {
        assert Varint(was) == [low];
        out := out + [low];
        break;
      }
    }
    out := out + raw;
    assert out == buf + ([Tag] + Varint(|raw|) + raw);
  }

  method FrameAll(files: seq<Bytes>) returns (framed: Bytes)
    ensures framed == Framed(files)
  {
    framed := [];
    for i := 0 to |files|
      invariant framed + Framed(files[i..]) == Framed(files)
    {
      assert files[i..][1..] == files[i + 1..];
      Assoc(framed, FileField(files[i]), Framed(files[i + 1..]));
      framed := PushFileDescriptor(framed, files[i]);
    }
    assert files[|files|..] == [];
  }

  /** The tag is field number 1 with the length-delimited wire type, 2. */
  lemma TagIsFileField()
    ensures Tag as int == 1 * 8 + 2
  {
  }

  /** The value of base-128 digits, the lowest first. */
  function Base128(v: Bytes): nat {
    if v == [] then 0 else v[0] % 128 + 128 * Base128(v[1..])
  }

  /** A written varint is its value in base 128, lowest digit first, and exactly its last byte has the top bit clear. */
  lemma {:induction false} VarintIsBase128(n: nat, k: nat)
    ensures Base128(Varint(n)) == n
    ensures k < |Varint(n)| ==> (Varint(n)[k] < 128 <==> k == |Varint(n)| - 1)
    decreases n
  {
    var v := Varint(n);
    if n >= 128 {
      VarintIsBase128(n / 128, if k > 0 then k - 1 else 0);
      assert v[1..] == Varint(n / 128) && v[0] % 128 == n % 128;
    } else {
      assert v[1..] == [];
    }
  }

  // ----- reading -----

  /** A varint in a 64-bit word from offset `i`: its value and where it ends. A missing byte or a shift past the word is
      a panic. */
  function ReadVarint(s: Bytes, i: nat, shift: nat, acc: nat): (r: Option<(nat, nat)>)
    ensures r.Some? ==> i < r.value.1 <= |s|
    decreases |s| - i
  {
    if i >= |s| || shift >= 64 then None
    else
      var len := acc + (s[i] % 128 * Pow2(shift)) % Word;
      if s[i] < 128 then Some((len, i + 1)) else ReadVarint(s, i + 1, shift + 7, len)
  }

  /** The files of a set from offset `i`; `None` where the reader panics. */
  function FilesFrom(s: Bytes, i: nat): Option<seq<Bytes>>
    requires i <= |s|
    decreases |s| - i
  {
    if i == |s| then Some([])
    else if s[i] != Tag then None
    else
      match ReadVarint(s, i + 1, 0, 0)
      case None => None
      case Some((len, j)) =>
        if j + len > |s| then None
        else
          match FilesFrom(s, j + len)
          case None => None
          case Some(later) => Some([s[j..j + len]] + later)
  }

  /** The reader itself, over one advancing offset. */
  method SplitFiles(s: Bytes) returns (r: Option<seq<Bytes>>)
    ensures r == FilesFrom(s, 0)
  {
    hide FilesFrom, ReadVarint, Pow2;
    var out, at := [], 0;
    Nothing(FilesFrom(s, 0));
    while at < |s|
      invariant 0 <= at <= |s|
      invariant FilesFrom(s, 0) == Onto(out, FilesFrom(s, at))
      decreases |s| - at
    {
      FilesStep(s, at);
      if s[at] != Tag {
        return None;
      }
      var i: nat, len: nat, shift: nat := at + 1, 0, 0;
      while true
        invariant at < i <= |s|
        invariant ReadVarint(s, at + 1, 0, 0) == ReadVarint(s, i, shift, len)
        decreases |s| - i
      {
        VarintStep(s, i, shift, len);
        if i >= |s| || shift >= 64 {
          return None;
        }
        var b := s[i];
        i := i + 1;
        len := len + (b % 128 * Pow2(shift)) % Word;
        if b < 128 {
          break;
        }
        shift := shift + 7;
      }
      assert ReadVarint(s, at + 1, 0, 0) == Some((len, i));
      if i + len > |s| {
        return None;
      }
      OntoOnto(out, s[i..i + len], FilesFrom(s, i + len));
      out := out + [s[i..i + len]];
      at := i + len;
    }
    FilesEnd(s);
    assert out + [] == out;
    return Some(out);
  }

  ghost function Onto(out: seq<Bytes>, later: Option<seq<Bytes>>): Option<seq<Bytes>> {
    if later.None? then None else Some(out + later.value)
  }

  lemma Nothing(later: Option<seq<Bytes>>)
    ensures Onto([], later) == later
  {
    if later.Some? {
      assert [] + later.value == later.value;
    }
  }

  lemma OntoOnto(out: seq<Bytes>, x: Bytes, later: Option<seq<Bytes>>)
    ensures Onto(out, Onto([x], later)) == Onto(out + [x], later)
  {
    if later.Some? {
      Assoc(out, [x], later.value);
    }
  }

  lemma FilesEnd(s: Bytes)
    ensures FilesFrom(s, |s|) == Some([])
  {
  }

  lemma FilesStep(s: Bytes, at: nat)
    requires at < |s|
    ensures s[at] != Tag ==> FilesFrom(s, at) == None
    ensures s[at] == Tag && ReadVarint(s, at + 1, 0, 0).None? ==> FilesFrom(s, at) == None
    ensures s[at] == Tag && ReadVarint(s, at + 1, 0, 0).Some? ==>
      var v := ReadVarint(s, at + 1, 0, 0).value;
      FilesFrom(s, at) ==
        if v.1 + v.0 > |s| then None else Onto([s[v.1..v.1 + v.0]], FilesFrom(s, v.1 + v.0))
  {
    hide ReadVarint;
  }

  lemma VarintStep(s: Bytes, i: nat, shift: nat, acc: nat)
    ensures i >= |s| || shift >= 64 ==> ReadVarint(s, i, shift, acc) == None
    ensures i < |s| && shift < 64 ==>
      var len := acc + (s[i] % 128 * Pow2(shift)) % Word;
      ReadVarint(s, i, shift, acc) == if s[i] < 128 then Some((len, i + 1)) else ReadVarint(s, i + 1, shift + 7, len)
  {
    hide Pow2;
  }

  // ----- the round trip -----

  lemma {:induction false} Pow2Add(a: nat, b: nat)
    ensures Pow2(a + b) == Pow2(a) * Pow2(b)
  {
    if a > 0 {
      Pow2Add(a - 1, b);
      assert Pow2(a) * Pow2(b) == 2 * (Pow2(a - 1) * Pow2(b));
    }
  }

  lemma {:induction false} Pow2Grows(a: nat, b: nat)
    requires a <= b
    ensures Pow2(a) <= Pow2(b)
  {
    if a < b {
      Pow2Grows(a, b - 1);
    }
  }

  lemma Pow2Word()
    ensures Pow2(7) == 128 && Pow2(64) == Word
  {
    hide Pow2;
    Pow2Small();
    Pow2Add(4, 3);
    Pow2Add(4, 4);
    Pow2Add(8, 8);
    Pow2Add(16, 16);
    Pow2Add(32, 32);
  }

  lemma Pow2Small()
    ensures Pow2(3) == 8 && Pow2(4) == 16
  {
    assert Pow2(0) == 1 && Pow2(1) == 2 && Pow2(2) == 4;
  }

  /** One byte's share of a value that fits the word is not cut. */
  lemma Fits(n: nat, shift: nat)
    requires n * Pow2(shift) < Word
    ensures n > 0 ==> shift < 64
    ensures (n % 128 * Pow2(shift)) % Word == n % 128 * Pow2(shift)
    ensures n % 128 * Pow2(shift) + n / 128 * Pow2(shift + 7) == n * Pow2(shift)
  {
    var p := Pow2(shift);
    Pow2Word();
    Pow2Add(shift, 7);
    assert n == n % 128 + n / 128 * 128;
    Spread(n % 128, n / 128, p);
    if n > 0 && shift >= 64 {
      Pow2Grows(64, shift);
      assert n * p >= p by { Times(n, p); }
      assert false;
    }
    assert 0 <= n % 128 * p && 0 <= n / 128 * 128 * p by { Times(n, p); }
  }

  lemma Times(n: nat, p: nat)
    ensures n > 0 ==> n * p >= p
    ensures n % 128 * p >= 0 && n / 128 * 128 * p >= 0
  {
    if n > 0 {
      assert n * p == p + (n - 1) * p;
    }
  }

  lemma Spread(low: nat, high: nat, p: nat)
    ensures (low + high * 128) * p == low * p + high * 128 * p == low * p + high * (p * 128)
  {
  }

  /** Reading a varint that was written gives its value and its end. */
  lemma {:induction false} VarintBack(s: Bytes, i: nat, n: nat, shift: nat, acc: nat)
    requires i + |Varint(n)| <= |s| && s[i..i + |Varint(n)|] == Varint(n)
    requires n * Pow2(shift) < Word && (shift == 0 || n > 0)
    ensures ReadVarint(s, i, shift, acc) == Some((acc + n * Pow2(shift), i + |Varint(n)|))
    decreases n
  {
    hide Pow2, ReadVarint;
    var v := Varint(n);
    assert s[i] == v[0] by { assert s[i..i + |v|][0] == s[i]; }
    Fits(n, shift);
    VarintStep(s, i, shift, acc);
    if n >= 128 {
      assert s[i + 1..i + |v|] == v[1..] by { assert s[i..i + |v|][1..] == s[i + 1..i + |v|]; }
      Times(n, Pow2(shift));
      VarintBack(s, i + 1, n / 128, shift + 7, acc + n % 128 * Pow2(shift));
    }
  }

  /** Where the parts of one field lie. */
  lemma FieldAt(s: Bytes, i: nat, v: Bytes, raw: Bytes, later: Bytes)
    requires i <= |s| && s[i..] == [Tag] + v + raw + later
    ensures |s| == i + 1 + |v| + |raw| + |later| && s[i] == Tag
    ensures
      var j := i + 1 + |v|;
      s[i + 1..j] == v && s[j..j + |raw|] == raw && s[j + |raw|..] == later
  {
    var t := [Tag] + v + raw + later;
    var j := 1 + |v|;
    assert |s| == i + |t| && s[i] == t[0];
    assert s[i..][1..j] == s[i + 1..i + j] && t[1..j] == v;
    assert s[i..][j..j + |raw|] == s[i + j..i + j + |raw|] && t[j..j + |raw|] == raw;
    assert s[i..][j + |raw|..] == s[i + j + |raw|..] && t[j + |raw|..] == later;
  }

  lemma {:induction false} FilesBack(s: Bytes, i: nat, files: seq<Bytes>)
    requires i <= |s| && s[i..] == Framed(files)
    requires forall f :: f in files ==> |f| < Word
    ensures FilesFrom(s, i) == Some(files)
    decreases |files|
  {
    hide FilesFrom, ReadVarint;
    if files == [] {
      assert |s[i..]| == 0;
      FilesEnd(s);
    } else {
      var raw, later := files[0], Framed(files[1..]);
      var v := Varint(|raw|);
      var j := i + 1 + |v|;
      assert raw in files;
      FieldAt(s, i, v, raw, later);
      assert Pow2(0) == 1;
      VarintBack(s, i + 1, |raw|, 0, 0);
      FilesStep(s, i);
      FilesBack(s, j + |raw|, files[1..]);
      assert [raw] + files[1..] == files;
    }
  }

  /** Framing any list of files is undone by splitting. */
  lemma FramedRoundTrip(files: seq<Bytes>)
    requires forall f :: f in files ==> |f| < Word
    ensures FilesFrom(Framed(files), 0) == Some(files)
  {
    assert Framed(files)[0..] == Framed(files);
    FilesBack(Framed(files), 0, files);
  }
}
