/**
  The 48-byte NTP packet of RFC 5905, section 7.3, as the client's `msg`
  struct lays it out: every field in declaration order, big-endian, no padding.
 */
module Wire {
  import opened Results

  /** A 64-bit NTP timestamp: seconds since 1900 and a binary fraction of a second. */
  datatype NtpTime = NtpTime(seconds: bv32, fraction: bv32)

  datatype Msg = Msg(
    liVnMode: bv8,         // leap indicator (2 bits), version (3 bits), mode (3 bits)
    stratum: bv8,
    poll: bv8,
    precision: bv8,
    rootDelay: bv32,
    rootDispersion: bv32,
    referenceId: bv32,
    referenceTime: NtpTime,
    originTime: NtpTime,
    receiveTime: NtpTime,
    transmitTime: NtpTime)

  /** The size of a packet on the wire. */
  const WireSize: nat := 48

  /** The zero value of `msg`, the client's starting point. */
  const Zero: Msg := Msg(0, 0, 0, 0, 0, 0, 0, NtpTime(0, 0), NtpTime(0, 0), NtpTime(0, 0), NtpTime(0, 0))

  /** The word whose big-endian bytes are `b3 b2 b1 b0`, most significant first. */
  function Join(b3: bv8, b2: bv8, b1: bv8, b0: bv8): bv32
  {
    ((b3 as bv32) << 24) | ((b2 as bv32) << 16) | ((b1 as bv32) << 8) | (b0 as bv32)
  }

  /** A word as four bytes, most significant byte first. */
  function WordBytes(x: bv32): (bs: seq<bv8>)
    ensures |bs| == 4
  {
    [(x >> 24) as bv8, ((x >> 16) & 0xFF) as bv8, ((x >> 8) & 0xFF) as bv8, (x & 0xFF) as bv8]
  }

  /** Joining the four bytes of a word gives back the word. */
  lemma JoinOfWordBytes(x: bv32)
    ensures var bs := WordBytes(x); Join(bs[0], bs[1], bs[2], bs[3]) == x
  {
  }

  /** Every four bytes are the big-endian form of exactly one word. */
  lemma WordBytesOfJoin(bs: seq<bv8>)
    requires |bs| == 4
    ensures WordBytes(Join(bs[0], bs[1], bs[2], bs[3])) == bs
  {
    JoinSplits(bs[0], bs[1], bs[2], bs[3]);
  }

  lemma JoinSplits(b3: bv8, b2: bv8, b1: bv8, b0: bv8)
    ensures var x := Join(b3, b2, b1, b0);
      && (x >> 24) as bv8 == b3 && ((x >> 16) & 0xFF) as bv8 == b2
      && ((x >> 8) & 0xFF) as bv8 == b1 && (x & 0xFF) as bv8 == b0
  {
  }

  // `binary.Write` and `binary.Read` walk a struct's fields in declaration
  // order, recursing into nested structs, and move each fixed-size field to or
  // from the buffer at a running offset, with no padding in between. `msg`
  // holds two kinds of field: bytes and uint32.

  /** One fixed-size field value. */
  datatype Value = U8(b: bv8) | U32(w: bv32)

  datatype Kind = Byte | Word

  function KindOf(v: Value): Kind
  {
    if v.U8? then Byte else Word
  }

  function KindSize(k: Kind): nat
  {
    if k == Byte then 1 else 4
  }

  /** The fields `vs` have the kinds `ks`, in order. */
  predicate HasShape(vs: seq<Value>, ks: seq<Kind>)
  {
    |vs| == |ks| && forall i :: 0 <= i < |vs| ==> KindOf(vs[i]) == ks[i]
  }

  /** `binary.Size` of the fields from the `k`-th on: their sizes added up, no padding. */
  function SizeFrom(ks: seq<Kind>, k: nat): nat
    requires k <= |ks|
    decreases |ks| - k
  {
    if k == |ks| then 0 else KindSize(ks[k]) + SizeFrom(ks, k + 1)
  }

  /** One field, big-endian. */
  function PutValue(v: Value): (bs: seq<bv8>)
    ensures |bs| == KindSize(KindOf(v))
  {
    match v
    case U8(b) => [b]
    case U32(w) => WordBytes(w)
  }

  /** The encoder's walk from the `k`-th field on: each field right after the one before. */
  function PutFrom(vs: seq<Value>, k: nat): seq<bv8>
    requires k <= |vs|
    decreases |vs| - k
  {
    if k == |vs| then [] else PutValue(vs[k]) + PutFrom(vs, k + 1)
  }

  /** The walk writes exactly `binary.Size` bytes. */
  lemma {:induction false} PutSize(vs: seq<Value>, ks: seq<Kind>, k: nat)
    requires HasShape(vs, ks) && k <= |vs|
    ensures |PutFrom(vs, k)| == SizeFrom(ks, k)
    decreases |vs| - k
  {
    if k < |vs| {
      PutSize(vs, ks, k + 1);
    }
  }

  /** One field of kind `k` from its bytes, big-endian. */
  function GetValue(bs: seq<bv8>, k: Kind): (v: Value)
    requires |bs| == KindSize(k)
    ensures KindOf(v) == k
  {
    if k == Byte then U8(bs[0]) else U32(Join(bs[0], bs[1], bs[2], bs[3]))
  }

  /** The decoder's walk: the fields of kinds `ks[k..]` from exactly as many bytes as they take. */
  function GetFrom(bs: seq<bv8>, ks: seq<Kind>, k: nat): (vs: seq<Value>)
    requires k <= |ks| && |bs| == SizeFrom(ks, k)
    ensures |vs| == |ks| - k
    decreases |ks| - k
  {
    if k == |ks| then []
    else
      var n := KindSize(ks[k]);
      [GetValue(bs[..n], ks[k])] + GetFrom(bs[n..], ks, k + 1)
  }

  /** The decoder reads each field as the kind it was asked for. */
  lemma {:induction false} GetShape(bs: seq<bv8>, ks: seq<Kind>, k: nat)
    requires k <= |ks| && |bs| == SizeFrom(ks, k)
    ensures forall i :: 0 <= i < |ks| - k ==> KindOf(GetFrom(bs, ks, k)[i]) == ks[k + i]
    decreases |ks| - k
  {
    if k < |ks| {
      var n := KindSize(ks[k]);
      GetShape(bs[n..], ks, k + 1);
      var vs := GetFrom(bs, ks, k);
      assert vs == [GetValue(bs[..n], ks[k])] + GetFrom(bs[n..], ks, k + 1);
      forall i | 0 < i < |ks| - k
        ensures KindOf(vs[i]) == ks[k + i]
      {
        assert vs[i] == GetFrom(bs[n..], ks, k + 1)[i - 1];
      }
    }
  }

  /** Decoding what the encoder wrote gives back every field. */
  lemma {:induction false} GetPut(vs: seq<Value>, ks: seq<Kind>, k: nat)
    requires HasShape(vs, ks) && k <= |vs|
    ensures |PutFrom(vs, k)| == SizeFrom(ks, k) && GetFrom(PutFrom(vs, k), ks, k) == vs[k..]
    decreases |vs| - k
  {
    PutSize(vs, ks, k);
    if k < |vs| {
      PutSize(vs, ks, k + 1);
      GetStep(vs[k], PutFrom(vs, k + 1), ks, k);
      GetPut(vs, ks, k + 1);
      assert vs[k..] == [vs[k]] + vs[k + 1..];
    }
  }

  /** The decoder reads a field written in front of the rest back as that field, then goes on with the rest. */
  lemma GetStep(v: Value, rest: seq<bv8>, ks: seq<Kind>, k: nat)
    requires k < |ks| && KindOf(v) == ks[k] && |rest| == SizeFrom(ks, k + 1)
    ensures |PutValue(v) + rest| == SizeFrom(ks, k)
    ensures GetFrom(PutValue(v) + rest, ks, k) == [v] + GetFrom(rest, ks, k + 1)
  {
    var head, bs := PutValue(v), PutValue(v) + rest;
    assert bs[..|head|] == head && bs[|head|..] == rest;
    assert GetValue(head, ks[k]) == v by {
      match v
      case U8(_) =>
      case U32(w) => JoinOfWordBytes(w);
    }
  }

  /** Encoding what the decoder read gives back every byte. */
  lemma {:induction false} PutGet(bs: seq<bv8>, ks: seq<Kind>, k: nat)
    requires k <= |ks| && |bs| == SizeFrom(ks, k)
    ensures PutFrom(GetFrom(bs, ks, k), 0) == bs
    decreases |ks| - k
  {
    if k < |ks| {
      var n := KindSize(ks[k]);
      var v, rest := GetValue(bs[..n], ks[k]), GetFrom(bs[n..], ks, k + 1);
      assert GetFrom(bs, ks, k) == [v] + rest;
      assert PutValue(v) == bs[..n] by {
        if ks[k] == Word {
          WordBytesOfJoin(bs[..n]);
        }
      }
      assert PutFrom([v] + rest, 1) == bs[n..] by {
        PutGet(bs[n..], ks, k + 1);
        PutShift(v, rest, 0);
      }
      assert bs == bs[..n] + bs[n..];
    }
  }

  /** Putting a field in front of a run moves the rest of the walk one field along. */
  lemma {:induction false} PutShift(v: Value, vs: seq<Value>, k: nat)
    requires k <= |vs|
    ensures PutFrom([v] + vs, k + 1) == PutFrom(vs, k)
    decreases |vs| - k
  {
    if k < |vs| {
      assert ([v] + vs)[k + 1] == vs[k];
      PutShift(v, vs, k + 1);
    }
  }

  /** The fields of a `msg` in declaration order, the nested timestamps flattened. */
  function Fields(m: Msg): seq<Value>
  {
    [U8(m.liVnMode), U8(m.stratum), U8(m.poll), U8(m.precision),
      U32(m.rootDelay), U32(m.rootDispersion), U32(m.referenceId),
      U32(m.referenceTime.seconds), U32(m.referenceTime.fraction),
      U32(m.originTime.seconds), U32(m.originTime.fraction),
      U32(m.receiveTime.seconds), U32(m.receiveTime.fraction),
      U32(m.transmitTime.seconds), U32(m.transmitTime.fraction)]
  }

  /** Four bytes, then eleven uint32 words. */
  const MsgShape: seq<Kind> := [Byte, Byte, Byte, Byte, Word, Word, Word, Word, Word, Word, Word, Word, Word, Word, Word]

  /** Field `j` of a packet is a byte for the first four, a word after. */
  lemma MsgKindAt(j: nat)
    requires j < 15
    ensures MsgShape[j] == if j < 4 then Byte else Word
  {
  }

  /** Every packet's fields have the packet's shape. */
  lemma FieldsShape(m: Msg)
    ensures HasShape(Fields(m), MsgShape)
  {
    var vs := Fields(m);
    forall i | 0 <= i < 15
      ensures KindOf(vs[i]) == MsgShape[i]
    {
      MsgKindAt(i);
    }
  }

  /** A packet takes exactly `WireSize` bytes. */
  lemma MsgShapeSize()
    ensures SizeFrom(MsgShape, 0) == WireSize
  {
    WordsSize(MsgShape, 4);
  }

  /** A run of words takes four bytes each. */
  lemma {:induction false} WordsSize(ks: seq<Kind>, k: nat)
    requires k <= |ks|
    requires forall i :: k <= i < |ks| ==> ks[i] == Word
    ensures SizeFrom(ks, k) == 4 * (|ks| - k)
    decreases |ks| - k
  {
    if k < |ks| {
      WordsSize(ks, k + 1);
    }
  }

  /** The `msg` whose fields, in declaration order, are `vs`. */
  function FromFields(vs: seq<Value>): (m: Msg)
    requires HasShape(vs, MsgShape)
    ensures Fields(m) == vs
  {
    ShapeKinds(vs);
    Msg(vs[0].b, vs[1].b, vs[2].b, vs[3].b, vs[4].w, vs[5].w, vs[6].w,
        NtpTime(vs[7].w, vs[8].w), NtpTime(vs[9].w, vs[10].w),
        NtpTime(vs[11].w, vs[12].w), NtpTime(vs[13].w, vs[14].w))
  }

  /** The fields of the packet's shape: four bytes, then eleven words. */
  lemma ShapeKinds(vs: seq<Value>)
    requires HasShape(vs, MsgShape)
    ensures |vs| == 15
    ensures vs[0].U8? && vs[1].U8? && vs[2].U8? && vs[3].U8?
    ensures vs[4].U32? && vs[5].U32? && vs[6].U32? && vs[7].U32? && vs[8].U32? && vs[9].U32?
    ensures vs[10].U32? && vs[11].U32? && vs[12].U32? && vs[13].U32? && vs[14].U32?
  {
    forall i | 0 <= i < 15
      ensures KindOf(vs[i]) == MsgShape[i]
    {
      MsgKindAt(i);
    }
  }

  /** `binary.Write(con, binary.BigEndian, m)`: the bytes of the packet. */
  function Encode(m: Msg): (bs: seq<bv8>)
    ensures |bs| == WireSize
  {
    MsgShapeSize();
    FieldsShape(m);
    PutSize(Fields(m), MsgShape, 0);
    PutFrom(Fields(m), 0)
  }

  /**
    The decoding half of `binary.Read`: the packet held in 48 bytes. Encoding
    it gives back every byte, so together with `ParseEncode` the codec is a
    bijection between packets and 48-byte strings.
   */
  function Parse(bs: seq<bv8>): (m: Msg)
    requires |bs| == WireSize
    ensures Encode(m) == bs
  {
    MsgShapeSize();
    GetShape(bs, MsgShape, 0);
    PutGet(bs, MsgShape, 0);
    FromFields(GetFrom(bs, MsgShape, 0))
  }

  /** Where field `j` of a packet starts: one byte each for the four header fields, four bytes each after. */
  function FieldStart(j: nat): nat
    requires j < 15
  {
    if j < 4 then j else 4 * j - 12
  }

  /**
    The layout of section 7.3 of RFC 5905: each field of a packet, in
    declaration order, sits at its offset, right after the one before.
   */
  lemma EncodeFieldAt(m: Msg, j: nat)
    requires j < 15
    ensures var f := PutValue(Fields(m)[j]);
      FieldStart(j) + |f| <= WireSize && Encode(m)[FieldStart(j)..FieldStart(j) + |f|] == f
  {
    FieldsShape(m);
    FieldOffset(Fields(m), j);
  }

  /** The four header bytes come first, in declaration order. */
  lemma EncodeHeader(m: Msg)
    ensures Encode(m)[0] == m.liVnMode && Encode(m)[1] == m.stratum
    ensures Encode(m)[2] == m.poll && Encode(m)[3] == m.precision
  {
    FieldsShape(m);
    ByteOffset(Fields(m), 0);
    ByteOffset(Fields(m), 1);
    ByteOffset(Fields(m), 2);
    ByteOffset(Fields(m), 3);
  }

  /** The transmit timestamp is the last eight bytes: its seconds word, then its fraction word. */
  lemma EncodeTransmitTime(m: Msg)
    ensures Encode(m)[40..44] == WordBytes(m.transmitTime.seconds)
    ensures Encode(m)[44..48] == WordBytes(m.transmitTime.fraction)
  {
    EncodeFieldAt(m, 13);
    EncodeFieldAt(m, 14);
  }

  /** Byte field `j` of a packet-shaped field sequence is byte `j` of its encoding. */
  lemma ByteOffset(vs: seq<Value>, j: nat)
    requires HasShape(vs, MsgShape) && j < 4
    ensures vs[j].U8? && |PutFrom(vs, 0)| == WireSize && PutFrom(vs, 0)[j] == vs[j].b
  {
    FieldOffset(vs, j);
    assert KindOf(vs[j]) == Byte by { MsgKindAt(j); }
    assert PutFrom(vs, 0)[j..j + 1][0] == PutFrom(vs, 0)[j];
  }

  /** Field `j` of a packet-shaped field sequence is where `FieldStart` says. */
  lemma FieldOffset(vs: seq<Value>, j: nat)
    requires HasShape(vs, MsgShape) && j < 15
    ensures |PutFrom(vs, 0)| == WireSize && FieldStart(j) + |PutValue(vs[j])| <= WireSize
    ensures PutFrom(vs, 0)[FieldStart(j)..FieldStart(j) + |PutValue(vs[j])|] == PutValue(vs[j])
  {
    WalkSizes(vs, j);
    FieldAt(vs, j, FieldStart(j));
  }

  /** The walk puts field `j` right after the fields before it, `d` bytes in. */
  lemma FieldAt(vs: seq<Value>, j: nat, d: int)
    requires j < |vs| && d == |PutFrom(vs, 0)| - |PutFrom(vs, j)|
    ensures 0 <= d && d + |PutValue(vs[j])| <= |PutFrom(vs, 0)|
    ensures PutFrom(vs, 0)[d..d + |PutValue(vs[j])|] == PutValue(vs[j])
  {
    WalkSuffix(vs, 0, j);
    var f, rest := PutValue(vs[j]), PutFrom(vs, j + 1);
    assert PutFrom(vs, j) == f + rest;
    TakeOfDrop(PutFrom(vs, 0), d, f, rest);
  }

  lemma TakeOfDrop(s: seq<bv8>, d: nat, f: seq<bv8>, rest: seq<bv8>)
    requires d <= |s| && s[d..] == f + rest
    ensures d + |f| <= |s| && s[d..d + |f|] == f
  {
    assert s[d..d + |f|] == s[d..][..|f|];
  }

  /** What the walk writes from field `k` on ends with what it writes from field `j` on. */
  lemma {:induction false} WalkSuffix(vs: seq<Value>, k: nat, j: nat)
    requires k <= j <= |vs|
    ensures |PutFrom(vs, j)| <= |PutFrom(vs, k)|
    ensures PutFrom(vs, k)[|PutFrom(vs, k)| - |PutFrom(vs, j)|..] == PutFrom(vs, j)
    decreases j - k
  {
    if k < j {
      WalkSuffix(vs, k + 1, j);
      var head, rest := PutValue(vs[k]), PutFrom(vs, k + 1);
      assert PutFrom(vs, k) == head + rest;
      DropAfter(head, rest, |rest| - |PutFrom(vs, j)|);
    }
  }

  lemma DropAfter(a: seq<bv8>, b: seq<bv8>, x: nat)
    requires x <= |b|
    ensures (a + b)[|a| + x..] == b[x..]
  {
  }

  /** The offsets of a packet's fields: one byte each for the first four, four bytes each after. */
  lemma MsgSizes(j: nat)
    requires j <= 15
    ensures SizeFrom(MsgShape, j) == if j < 4 then 48 - j else 4 * (15 - j)
  {
    WordsSize(MsgShape, 4);
    if j >= 4 {
      WordsSize(MsgShape, j);
    } else {
      assert SizeFrom(MsgShape, 3) == 45;
      assert SizeFrom(MsgShape, 2) == 46;
    }
  }

  /** How much of a packet the walk has left to write when it reaches field `j`. */
  lemma WalkSizes(vs: seq<Value>, j: nat)
    requires HasShape(vs, MsgShape) && j <= 15
    ensures |PutFrom(vs, 0)| == WireSize
    ensures |PutFrom(vs, j)| == if j < 4 then 48 - j else 60 - 4 * j
  {
    MsgSizes(0);
    MsgSizes(j);
    PutSize(vs, MsgShape, 0);
    PutSize(vs, MsgShape, j);
  }

  /** A zero field, the value every field of a fresh `msg` holds. */
  predicate IsZero(v: Value)
  {
    v == U8(0) || v == U32(0)
  }

  /** Zero fields are written as zero bytes. */
  lemma {:induction false} PutZeros(vs: seq<Value>, k: nat)
    requires k <= |vs|
    requires forall i :: k <= i < |vs| ==> IsZero(vs[i])
    ensures forall i :: 0 <= i < |PutFrom(vs, k)| ==> PutFrom(vs, k)[i] == 0
    decreases |vs| - k
  {
    if k < |vs| {
      PutZeros(vs, k + 1);
      assert PutFrom(vs, k) == PutValue(vs[k]) + PutFrom(vs, k + 1);
    }
  }

  /** A packet that is zero but for its first byte: that byte, then 47 zero bytes. */
  lemma EncodeFirstByteOnly(m: Msg)
    requires m == Zero.(liVnMode := m.liVnMode)
    ensures Encode(m)[0] == m.liVnMode
    ensures forall i :: 1 <= i < WireSize ==> Encode(m)[i] == 0
  {
    var vs := Fields(m);
    assert forall i :: 1 <= i < |vs| ==> IsZero(vs[i]);
    PutZeros(vs, 1);
    assert PutFrom(vs, 0) == PutValue(vs[0]) + PutFrom(vs, 1);
  }

  /** Decoding an encoded packet gives back every field. */
  lemma ParseEncode(m: Msg)
    ensures Parse(Encode(m)) == m
  {
    var vs := Fields(m);
    FieldsShape(m);
    GetPut(vs, MsgShape, 0);
    assert vs[0..] == vs;
  }


  /**
    `io.ReadFull` of `n` bytes from a connection that delivers `inbound` and then
    reports `end`. It succeeds exactly when `n` bytes arrive; when some but not
    all arrive before io.EOF it reports io.ErrUnexpectedEOF, and otherwise it
    reports the connection's own error unchanged.
   */
  function ReadFull(inbound: seq<bv8>, end: Error, n: nat): (r: Result<seq<bv8>>)
    ensures r.Ok? <==> n <= |inbound|
    ensures r.Ok? ==> r.value == inbound[..n]
    ensures r.Err? ==> r.error == (if 0 < |inbound| && end == Eof then UnexpectedEof else end)
  {
    if n <= |inbound| then Ok(inbound[..n])
    else if 0 < |inbound| && end == Eof then Err(UnexpectedEof)
    else Err(end)
  }

  /**
    `binary.Read(con, binary.BigEndian, m)`: reads one packet's worth of bytes
    and decodes it. A short reply is an error and is never padded with zeros.
   */
  function ReadMsg(inbound: seq<bv8>, end: Error): (r: Result<Msg>)
    ensures r.Ok? <==> WireSize <= |inbound|
    ensures r.Ok? ==> r.value == Parse(inbound[..WireSize])
    ensures r.Err? ==> r.error == (if 0 < |inbound| && end == Eof then UnexpectedEof else end)
  {
    match ReadFull(inbound, end, WireSize)
    case Ok(bs) => Ok(Parse(bs))
    case Err(e) => Err(e)
  }


  /** A reply that starts with an encoded packet reads back as that packet. */
  lemma ReadMsgEncode(m: Msg, rest: seq<bv8>, end: Error)
    ensures ReadMsg(Encode(m) + rest, end) == Ok(m)
  {
    assert (Encode(m) + rest)[..WireSize] == Encode(m);
    ParseEncode(m);
  }
}
