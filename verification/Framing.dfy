/**
 The frame layout of protocol 1 (`ndp_tx.h`, `ndp_rx.h`): a four-byte header with
 two little-endian 16-bit sizes, optional metadata, the packet data, both padded to
 eight bytes. The writer computes sizes in 16-bit variables, so does the reader.
 */
module Framing {
  import opened Options
  import opened Bytes

  const HEADER_SIZE: nat := 4

  /** The lengths an application asks for: `header_length` has 16 bits, `data_length` 32. */
  datatype Packet = Packet(headerLength: nat, dataLength: nat)

  function Align8(x: nat): (r: nat)
    ensures r % 8 == 0 && x <= r < x + 8
  {
    (x + 7) / 8 * 8
  }

  lemma AlignUnique(x: nat, r: nat)
    requires r % 8 == 0 && x <= r < x + 8
    ensures Align8(x) == r
  {
  }

  /** A store into a `uint16_t`. */
  function Low16(x: int): (r: nat)
    ensures r < 0x1_0000
    ensures 0 <= x < 0x1_0000 ==> r == x
  {
    x % 0x1_0000
  }

  function Low32(x: int): (r: nat)
    ensures r < 0x1_0000_0000
    ensures 0 <= x < 0x1_0000_0000 ==> r == x
  {
    x % 0x1_0000_0000
  }

  // ---- Sizes -------------------------------------------------------------

  /** The bytes the writer reserves for the metadata and for the whole frame, in its `uint16_t` variables. */
  function HeaderRoom(p: Packet): (r: nat)
    ensures r < 0x1_0000
  {
    Low16(Align8(p.headerLength + HEADER_SIZE))
  }

  function FrameSize(p: Packet): (r: nat)
    ensures r < 0x1_0000
  {
    Low16(Align8(p.dataLength) + HeaderRoom(p))
  }

  /** The bytes the frame really takes. */
  function RealSize(p: Packet): nat {
    Align8(p.dataLength) + Align8(p.headerLength + HEADER_SIZE)
  }

  /** Exactly when the writer reserves as many bytes as the packet takes. */
  predicate Fits(p: Packet) {
    RealSize(p) < 0x1_0000
  }

  lemma SizesExact(p: Packet)
    ensures FrameSize(p) == RealSize(p) <==> Fits(p)
    ensures Fits(p) ==> HeaderRoom(p) == Align8(p.headerLength + HEADER_SIZE) && TakesRoom(p)
  {
  }

  /** The writer reserves something, if not always enough. */
  predicate TakesRoom(p: Packet) {
    FrameSize(p) > 0
  }

  lemma TakesEight(p: Packet)
    requires TakesRoom(p)
    ensures FrameSize(p) >= 8
  {
    hide Align8, Low16;
    Low16OfEights(p);
  }

  lemma Low16OfEights(p: Packet)
    ensures FrameSize(p) % 8 == 0
  {
    var a := Align8(p.dataLength);
    var b := Align8(p.headerLength + HEADER_SIZE);
    assert a % 8 == 0 && b % 8 == 0;
    hide Align8;
    LowEights(b);
    LowEights(a + Low16(b));
  }

  lemma LowEights(x: nat)
    requires x % 8 == 0
    ensures Low16(x) % 8 == 0
  {
    var q := x / 0x1_0000;
    assert Low16(x) == x - 0x1_0000 * q;
    assert x == 8 * (x / 8);
    assert Low16(x) == 8 * (x / 8 - 0x2000 * q);
  }

  lemma FitsTakesEight(p: Packet)
    requires Fits(p)
    ensures FrameSize(p) >= 8
  {
    SizesExact(p);
    TakesEight(p);
  }

  /** Packets whose padded size is a multiple of 65536 are given no room at all. */
  lemma OversizedReservesNothing()
    ensures var p := Packet(0, 0xFFF8); !Fits(p) && !TakesRoom(p)
  {
  }

  // ---- Headers -----------------------------------------------------------

  function Le16(x: nat): (b: seq<byte>)
    requires x < 0x1_0000
    ensures |b| == 2 && FromLe16(b[0], b[1]) == x
  {
    [x % 256, x / 256]
  }

  function FromLe16(lo: byte, hi: byte): (x: nat)
    ensures x < 0x1_0000
  {
    lo + 256 * hi
  }

  /** The header the writer stores: the size up to the end of the data, and the metadata's size. */
  function Header(p: Packet): (h: seq<byte>)
    ensures |h| == HEADER_SIZE
  {
    Le16(Low16(p.dataLength + HeaderRoom(p))) + Le16(Low16(p.headerLength))
  }

  datatype Sizes = Sizes(packetSize: nat, headerSize: nat)

  function ReadSizes(b: seq<byte>): (s: Sizes)
    requires |b| >= HEADER_SIZE
    ensures s.packetSize < 0x1_0000 && s.headerSize < 0x1_0000
  {
    Sizes(FromLe16(b[0], b[1]), FromLe16(b[2], b[3]))
  }

  /** The reader's two checks of a header, with `bytes` locked bytes left. */
  predicate Malformed(s: Sizes) {
    s.packetSize == 0 || s.headerSize > s.packetSize - HEADER_SIZE
  }

  predicate OutOfSync(s: Sizes, bytes: nat) {
    s.packetSize > bytes
  }

  /** What the reader hands out, and how far it moves. */
  function Described(s: Sizes): Packet {
    Packet(s.headerSize, Low32(s.packetSize - Low16(Align8(s.headerSize + HEADER_SIZE))))
  }

  function Advance(s: Sizes): nat {
    Low16(Align8(s.packetSize))
  }

  /** A header some packet that fits has. */
  predicate Proper(s: Sizes) {
    Align8(s.headerSize + HEADER_SIZE) <= s.packetSize && Align8(s.packetSize) < 0x1_0000
  }

  lemma HeaderReads(p: Packet)
    requires Fits(p)
    ensures var s := ReadSizes(Header(p));
            && s == Sizes(p.dataLength + HeaderRoom(p), p.headerLength)
            && Proper(s) && !Malformed(s)
            && Described(s) == p && Advance(s) == FrameSize(p)
  {
    hide Align8, Low16, Low32, Le16, FromLe16;
    var room := HeaderRoom(p);
    AlignUnique(p.dataLength + room, Align8(p.dataLength) + room);
    var h := Header(p);
    var a, b := Le16(Low16(p.dataLength + HeaderRoom(p))), Le16(Low16(p.headerLength));
    assert h[0] == a[0] && h[1] == a[1] && h[2] == b[0] && h[3] == b[1];
  }

  /** The four bytes of a header, in plain numbers. */
  lemma HeaderBytes(p: Packet)
    ensures Header(p)[0] as int + 256 * (Header(p)[1] as int) == Low16(p.dataLength + HeaderRoom(p))
    ensures Header(p)[2] as int + 256 * (Header(p)[3] as int) == Low16(p.headerLength)
  {
    LowBytes(Low16(p.dataLength + HeaderRoom(p)));
    LowBytes(Low16(p.headerLength));
    hide Align8, FromLe16, Le16, Low16;
    var x, y := Le16(Low16(p.dataLength + HeaderRoom(p))), Le16(Low16(p.headerLength));
    var h := Header(p);
    assert h[0] == x[0] && h[1] == x[1] && h[2] == y[0] && h[3] == y[1];
  }

  /** So for a packet that fits they are the length up to the end of the data, and the metadata's. */
  lemma FittingBytes(p: Packet)
    requires Fits(p)
    ensures Header(p)[0] as int + 256 * (Header(p)[1] as int) == p.dataLength + Align8(p.headerLength + HEADER_SIZE)
    ensures Header(p)[2] as int + 256 * (Header(p)[3] as int) == p.headerLength
  {
    HeaderBytes(p);
    SizesExact(p);
    assert p.dataLength <= Align8(p.dataLength);
    hide Align8, Header;
  }

  /** The low byte comes first. */
  lemma LowBytes(x: nat)
    requires x < 0x1_0000
    ensures Le16(x)[0] as int + 256 * (Le16(x)[1] as int) == x
  {
  }

  /** The sizes the reader takes from four bytes. */
  lemma SizesBytes(b: seq<byte>)
    requires |b| >= HEADER_SIZE
    ensures ReadSizes(b).packetSize == b[0] as int + 256 * (b[1] as int)
    ensures ReadSizes(b).headerSize == b[2] as int + 256 * (b[3] as int)
  {
  }

  lemma Le16Reads(lo: byte, hi: byte)
    ensures Le16(FromLe16(lo, hi)) == [lo, hi]
  {
  }

  lemma Eights(k: nat)
    ensures 8 * k % 8 == 0
  {
  }

  lemma SumOfEights(a: nat, b: nat)
    requires a % 8 == 0 && b % 8 == 0
    ensures (a + b) % 8 == 0
  {
  }

  lemma Low16Again(x: nat)
    ensures Low16(Align8(Low16(x))) == Low16(Align8(x))
  {
    SplitLow(x);
    AlignShift(x / 0x1_0000, Low16(x));
    LowShift(x / 0x1_0000, Align8(Low16(x)));
    hide Align8, Low16;
  }

  lemma SplitLow(x: nat)
    ensures x == 0x1_0000 * (x / 0x1_0000) + Low16(x)
  {
  }

  lemma AlignShift(q: nat, r: nat)
    ensures Align8(0x1_0000 * q + r) == 0x1_0000 * q + Align8(r)
  {
    var a := Align8(r);
    assert a % 8 == 0;
    hide Align8;
    Eights(0x2000 * q);
    assert 8 * (0x2000 * q) == 0x1_0000 * q;
    SumOfEights(0x1_0000 * q, a);
    AlignUnique(0x1_0000 * q + r, 0x1_0000 * q + a);
  }

  lemma LowShift(q: nat, y: nat)
    ensures Low16(0x1_0000 * q + y) == Low16(y)
  {
  }

  /** For any packet, larger than 16-bit sizes or not, the reader moves by exactly what the writer reserved. */
  lemma ReaderMovesByFrame(p: Packet)
    ensures Advance(ReadSizes(Header(p))) == FrameSize(p)
  {
    hide Align8, Low16, Le16, FromLe16;
    var room := HeaderRoom(p);
    LowEights(Align8(p.headerLength + HEADER_SIZE));
    SumOfEights(Align8(p.dataLength), room);
    AlignUnique(p.dataLength + room, Align8(p.dataLength) + room);
    Low16Again(p.dataLength + room);
    var a, b := Le16(Low16(p.dataLength + room)), Le16(Low16(p.headerLength));
    var h := Header(p);
    assert h[0] == a[0] && h[1] == a[1] && h[2] == b[0] && h[3] == b[1];
  }

  /** A proper header is accepted, and read as a packet that fits and takes the bytes the reader moves by. */
  lemma ProperSizes(s: Sizes)
    requires Proper(s) && s.packetSize < 0x1_0000 && s.headerSize < 0x1_0000
    ensures !Malformed(s) && s.packetSize <= Advance(s) == FrameSize(Described(s)) && Fits(Described(s))
    ensures Described(s).headerLength == s.headerSize
    ensures Described(s).dataLength + HeaderRoom(Described(s)) == s.packetSize
    ensures Low16(Align8(s.headerSize + HEADER_SIZE)) == HeaderRoom(Described(s))
  {
    hide Align8, Low16, Low32, FrameSize, HeaderRoom;
    var room := Align8(s.headerSize + HEADER_SIZE);
    var p := Described(s);
    assert p == Packet(s.headerSize, s.packetSize - room);
    SumOfEights(Align8(p.dataLength), room);
    AlignUnique(s.packetSize, Align8(p.dataLength) + room);
    SizesExact(p);
  }

  /**
   The reader's check asks for less than a proper header: it lets through metadata whose padding
   does not fit the packet. The data length is then computed below zero, and is inside the
   packet exactly when the padded metadata, as a 16-bit number, is.
   */
  lemma CheckedLength(s: Sizes)
    requires s.packetSize < 0x1_0000 && s.headerSize < 0x1_0000 && !Malformed(s)
    ensures Described(s).dataLength <= s.packetSize <==> Low16(Align8(s.headerSize + HEADER_SIZE)) <= s.packetSize
  {
    var room := Low16(Align8(s.headerSize + HEADER_SIZE));
    hide Align8;
    if room > s.packetSize {
      assert Low32(s.packetSize - room) == s.packetSize - room + 0x1_0000_0000;
    }
  }

  lemma CheckedNotProper()
    ensures var s := Sizes(6, 1);
            !Malformed(s) && !Proper(s) && Described(s).dataLength == 0xFFFF_FFFE
  {
  }

  lemma ProperHeader(b: seq<byte>)
    requires |b| == HEADER_SIZE && Proper(ReadSizes(b))
    ensures Header(Described(ReadSizes(b))) == b
  {
    Le16Reads(b[0], b[1]);
    Le16Reads(b[2], b[3]);
    ProperSizes(ReadSizes(b));
    hide Align8, Low16, Low32, Le16, FromLe16, Described, HeaderRoom, Proper;
    assert b == [b[0], b[1]] + [b[2], b[3]];
  }

  // ---- Streams of frames -------------------------------------------------

  /** The packets a reader of `b` finds, or None when `b` is not a run of whole proper frames. */
  function Parse(b: seq<byte>): Option<seq<Packet>>
    decreases |b|
  {
    if b == [] then Some([])
    else if |b| < HEADER_SIZE then None
    else
      var s := ReadSizes(b);
      if !Proper(s) || Advance(s) > |b| then None
      else match Parse(b[Advance(s)..])
        case None => None
        case Some(rest) => Some([Described(s)] + rest)
  }

  /** Where the frame of packet `i` starts. */
  function Offset(ps: seq<Packet>, i: nat): nat
    requires i <= |ps|
  {
    if i == 0 then 0 else Offset(ps, i - 1) + FrameSize(ps[i - 1])
  }

  /** `b` holds the frames of `ps` one after another; the padding and the payload are free. */
  ghost predicate Encodes(b: seq<byte>, ps: seq<Packet>) {
    && |b| == Offset(ps, |ps|)
    && forall i | 0 <= i < |ps| :: HeaderAt(b, Offset(ps, i), ps[i])
  }

  ghost predicate HeaderAt(b: seq<byte>, at: nat, p: Packet) {
    at + HEADER_SIZE <= |b| && b[at..at + HEADER_SIZE] == Header(p)
  }

  lemma HeaderInside(a: seq<byte>, b: seq<byte>, c: seq<byte>, at: nat, p: Packet)
    requires HeaderAt(b, at, p)
    ensures HeaderAt(a + b + c, |a| + at, p)
  {
    assert (a + b + c)[|a| + at..|a| + at + HEADER_SIZE] == b[at..at + HEADER_SIZE];
  }

  lemma OffsetStep(ps: seq<Packet>, i: nat)
    requires i < |ps|
    ensures Offset(ps, 0) == 0
    ensures Offset(ps, i + 1) == Offset(ps, i) + FrameSize(ps[i])
  {
  }

  lemma {:induction false} OffsetAppend(ps: seq<Packet>, qs: seq<Packet>, i: nat)
    requires i <= |qs|
    ensures Offset(ps + qs, |ps| + i) == Offset(ps, |ps|) + Offset(qs, i)
    decreases i
  {
    if i > 0 {
      OffsetAppend(ps, qs, i - 1);
    } else {
      OffsetPrefix(ps, qs, |ps|);
    }
  }

  lemma {:induction false} OffsetPrefix(ps: seq<Packet>, qs: seq<Packet>, i: nat)
    requires i <= |ps|
    ensures Offset(ps + qs, i) == Offset(ps, i)
    decreases i
  {
    if i > 0 {
      OffsetPrefix(ps, qs, i - 1);
    }
  }

  lemma {:induction false} OffsetGrows(ps: seq<Packet>, i: nat, j: nat)
    requires i <= j <= |ps|
    ensures Offset(ps, i) <= Offset(ps, j)
    ensures i < j && TakesRoom(ps[j - 1]) ==> Offset(ps, i) < Offset(ps, j)
    decreases j
  {
    if i < j {
      OffsetGrows(ps, i, j - 1);
    }
  }

  lemma EncodesConcat(a: seq<byte>, ps: seq<Packet>, b: seq<byte>, qs: seq<Packet>)
    requires Encodes(a, ps) && Encodes(b, qs)
    ensures Encodes(a + b, ps + qs)
  {
    hide Offset, HeaderAt;
    OffsetAppend(ps, qs, |qs|);
    forall i | 0 <= i < |ps + qs|
      ensures HeaderAt(a + b, Offset(ps + qs, i), (ps + qs)[i])
    {
      if i < |ps| {
        OffsetPrefix(ps, qs, i);
        HeaderInside([], a, b, Offset(ps, i), ps[i]);
        assert [] + a + b == a + b;
      } else {
        OffsetAppend(ps, qs, i - |ps|);
        HeaderInside(a, b, [], Offset(qs, i - |ps|), qs[i - |ps|]);
        assert a + b + [] == a + b;
      }
    }
  }

  lemma EncodesOne(b: seq<byte>, p: Packet)
    requires HEADER_SIZE <= |b| == FrameSize(p) && b[..HEADER_SIZE] == Header(p)
    ensures Encodes(b, [p])
  {
    hide FrameSize, Header;
    assert Offset([p], 1) == Offset([p], 0) + FrameSize(p);
  }

  lemma HeaderLater(b: seq<byte>, from: nat, at: nat, p: Packet)
    requires HeaderAt(b, from + at, p)
    ensures HeaderAt(b[from..], at, p)
  {
    assert b[from..][at..at + HEADER_SIZE] == b[from + at..from + at + HEADER_SIZE];
  }

  lemma OffsetRest(ps: seq<Packet>, i: nat)
    requires i < |ps|
    ensures Offset(ps, i + 1) == FrameSize(ps[0]) + Offset(ps[1..], i)
  {
    assert [ps[0]] + ps[1..] == ps;
    assert Offset([ps[0]], 1) == Offset([ps[0]], 0) + FrameSize(ps[0]);
    OffsetAppend([ps[0]], ps[1..], i);
  }

  lemma FirstHeader(b: seq<byte>, ps: seq<Packet>)
    requires Encodes(b, ps) && ps != []
    ensures FrameSize(ps[0]) <= |b| && |b| >= HEADER_SIZE && b[..HEADER_SIZE] == Header(ps[0])
    ensures |b| - FrameSize(ps[0]) == Offset(ps[1..], |ps| - 1)
  {
    OffsetRest(ps, |ps| - 1);
    assert HeaderAt(b, Offset(ps, 0), ps[0]);
  }

  lemma LaterHeader(b: seq<byte>, ps: seq<Packet>, i: nat)
    requires Encodes(b, ps) && i + 1 < |ps| && FrameSize(ps[0]) <= |b|
    ensures HeaderAt(b[FrameSize(ps[0])..], Offset(ps[1..], i), ps[i + 1])
  {
    hide Offset, FrameSize, Header;
    assert HeaderAt(b, Offset(ps, i + 1), ps[i + 1]);
    OffsetRest(ps, i);
    HeaderLater(b, FrameSize(ps[0]), Offset(ps[1..], i), ps[i + 1]);
  }

  /** The frames after the first. */
  lemma EncodesRest(b: seq<byte>, ps: seq<Packet>)
    requires Encodes(b, ps) && ps != [] && FrameSize(ps[0]) <= |b|
    ensures Encodes(b[FrameSize(ps[0])..], ps[1..])
  {
    hide Offset, FrameSize, HeaderAt;
    var tail, rest := b[FrameSize(ps[0])..], ps[1..];
    FirstHeader(b, ps);
    forall i | 0 <= i < |rest|
      ensures HeaderAt(tail, Offset(rest, i), rest[i])
    {
      LaterHeader(b, ps, i);
      assert rest[i] == ps[i + 1];
    }
  }

  lemma EncodesNone(b: seq<byte>)
    ensures Encodes(b, []) <==> b == []
  {
  }

  lemma SizesOfHeader(b: seq<byte>)
    requires |b| >= HEADER_SIZE
    ensures ReadSizes(b) == ReadSizes(b[..HEADER_SIZE])
  {
  }

  /** The reader finds the packets the writer laid out, and nothing else parses. */
  lemma {:induction false} RoundTrip(b: seq<byte>, ps: seq<Packet>)
    ensures Parse(b) == Some(ps) <==> Encodes(b, ps) && forall p | p in ps :: Fits(p)
    decreases |b|
  {
    hide FrameSize, Header, ReadSizes, Proper, Malformed, Described, Advance, Fits, Encodes;
    EncodesNone(b);
    if Encodes(b, ps) && forall p | p in ps :: Fits(p) {
      if ps != [] {
        FirstHeader(b, ps);
        EncodesRest(b, ps);
        HeaderReads(ps[0]);
        FitsTakesEight(ps[0]);
        SizesOfHeader(b);
        RoundTrip(b[FrameSize(ps[0])..], ps[1..]);
        assert [ps[0]] + ps[1..] == ps;
      }
    }
    if Parse(b) == Some(ps) && b != [] {
      SizesOfHeader(b);
      ProperHeader(b[..HEADER_SIZE]);
      ProperSizes(ReadSizes(b));
      var f := Advance(ReadSizes(b));
      FitsTakesEight(Described(ReadSizes(b)));
      assert ps == [ps[0]] + ps[1..] && Parse(b[f..]) == Some(ps[1..]);
      RoundTrip(b[f..], ps[1..]);
      assert b[..f][..HEADER_SIZE] == b[..HEADER_SIZE];
      EncodesOne(b[..f], ps[0]);
      EncodesConcat(b[..f], [ps[0]], b[f..], ps[1..]);
      assert b[..f] + b[f..] == b;
    }
  }

  /**
   Only packets that take room can be laid out: any other shares its header's place with the
   next one, or has none.
   */
  lemma {:induction false} OnlyRoomEncodes(b: seq<byte>, ps: seq<Packet>, i: nat)
    requires Encodes(b, ps) && i < |ps|
    ensures TakesRoom(ps[i])
    decreases |ps| - i
  {
    hide FrameSize, Header, Offset, Advance, ReadSizes;
    if FrameSize(ps[i]) == 0 {
      OffsetStep(ps, i);
      assert HeaderAt(b, Offset(ps, i), ps[i]);
      if i + 1 < |ps| {
        assert HeaderAt(b, Offset(ps, i + 1), ps[i + 1]);
        ReaderMovesByFrame(ps[i]);
        ReaderMovesByFrame(ps[i + 1]);
        OnlyRoomEncodes(b, ps, i + 1);
      }
    }
  }

  /** Payload bytes: everything outside the headers. */
  predicate IsPayload(ps: seq<Packet>, at: nat) {
    && at < Offset(ps, |ps|)
    && forall i | 0 <= i < |ps| :: at < Offset(ps, i) || at >= Offset(ps, i) + HEADER_SIZE
  }

  lemma PayloadWrite(b: seq<byte>, ps: seq<Packet>, at: nat, x: byte)
    requires Encodes(b, ps) && IsPayload(ps, at)
    ensures at < |b| && Encodes(b[at := x], ps)
  {
    forall i | 0 <= i < |ps|
      ensures HeaderAt(b[at := x], Offset(ps, i), ps[i])
    {
      var o := Offset(ps, i);
      assert HeaderAt(b, o, ps[i]);
      assert b[at := x][o..o + HEADER_SIZE] == b[o..o + HEADER_SIZE];
    }
  }

  lemma ParseConcat(a: seq<byte>, b: seq<byte>)
    requires Parse(a).Some? && Parse(b).Some?
    ensures Parse(a + b) == Some(Parse(a).value + Parse(b).value)
  {
    RoundTrip(a, Parse(a).value);
    RoundTrip(b, Parse(b).value);
    EncodesConcat(a, Parse(a).value, b, Parse(b).value);
    RoundTrip(a + b, Parse(a).value + Parse(b).value);
  }

  lemma OnePacket(b: seq<byte>)
    requires |b| >= HEADER_SIZE && Proper(ReadSizes(b)) && |b| == Advance(ReadSizes(b))
    ensures Parse(b) == Some([Described(ReadSizes(b))])
  {
    var s := ReadSizes(b);
    assert b[Advance(s)..] == [] && Parse([]) == Some([]);
    assert [Described(s)] + [] == [Described(s)];
  }

  /** What the reader finds at the front of whole proper frames: its checks pass, and it moves by one frame. */
  lemma FirstFrame(b: seq<byte>)
    requires Parse(b).Some? && b != []
    ensures |b| >= HEADER_SIZE
    ensures var s := ReadSizes(b);
            && !Malformed(s) && !OutOfSync(s, |b|)
            && Fits(Described(s)) && Advance(s) == FrameSize(Described(s)) <= |b|
            && Low16(Align8(s.headerSize + HEADER_SIZE)) == HeaderRoom(Described(s))
            && Parse(b[..Advance(s)]) == Some([Described(s)])
            && Parse(b[Advance(s)..]).Some?
  {
    ProperSizes(ReadSizes(b));
    hide FrameSize, Header, Described, FromLe16, Align8, Low16, HeaderRoom, Proper, Malformed, ReadSizes, Advance, Fits;
    SizesOfHeader(b);
    var f := b[..Advance(ReadSizes(b))];
    SizesOfHeader(f);
    assert f[..HEADER_SIZE] == b[..HEADER_SIZE];
    OnePacket(f);
  }

  /** The bytes at the front of a stream, and the lengths of the first packet a reader finds there. */
  lemma FirstLengths(b: seq<byte>)
    requires Parse(b).Some? && b != []
    ensures |b| >= HEADER_SIZE && Parse(b).value != []
    ensures Parse(b).value[0].headerLength == b[2] as int + 256 * (b[3] as int)
    ensures Parse(b).value[0].dataLength + Align8(Parse(b).value[0].headerLength + HEADER_SIZE)
         == b[0] as int + 256 * (b[1] as int)
  {
    var s := ReadSizes(b);
    SizesBytes(b);
    ProperSizes(s);
    SizesExact(Described(s));
    hide Align8, Low16, Low32, ReadSizes, FromLe16, Proper, Fits, HeaderRoom, FrameSize, Advance, Described;
  }

  /** The first bytes of a frame that is laid out, wherever it is in the stream. */
  lemma FrameBytes(b: seq<byte>, ps: seq<Packet>, i: nat, o: nat)
    requires Encodes(b, ps) && i < |ps| && Fits(ps[i]) && o == Offset(ps, i)
    ensures o + HEADER_SIZE <= |b|
    ensures b[o] as int + 256 * (b[o + 1] as int) == ps[i].dataLength + Align8(ps[i].headerLength + HEADER_SIZE)
    ensures b[o + 2] as int + 256 * (b[o + 3] as int) == ps[i].headerLength
  {
    hide Align8, Header, Fits, Offset;
    FittingBytes(ps[i]);
    assert HeaderAt(b, o, ps[i]);
    var h := b[o..o + HEADER_SIZE];
    assert h[0] == b[o] && h[1] == b[o + 1] && h[2] == b[o + 2] && h[3] == b[o + 3];
  }
}
