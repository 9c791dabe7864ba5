/**
 The packet headers of protocol 2 (`ndp_tx.h`, `ndp_rx.h`), one ring cell for each packet:
 what the writer stores for a request, and what the reader hands out for a header.
 */
module PacketHeaders {
  import opened Options

  /** What an application asks for: 32 bits of data length, 16 of header length, 16 of flags. */
  datatype Request = Request(dataLength: nat, headerLength: nat, flags: nat)

  /** `struct ndp_v2_packethdr`: 16 bits of size, 8 of header size, 8 of flags. */
  datatype Header = Header(packetSize: nat, headerSize: nat, flags: nat)

  /** A received packet: the index of its buffer, the lengths and the flags. */
  datatype Received = Received(index: int, headerLength: nat, dataLength: nat, flags: nat)

  /** The header written for a packet, or None when it is larger than a frame can be. */
  function Describe(r: Request, frameMin: nat, frameMax: nat): Option<Header> {
    var packetSize := (r.dataLength + r.headerLength) % 0x1_0000_0000;
    if packetSize >= frameMin && packetSize > frameMax then None
    else
      Some(Header((if packetSize < frameMin then frameMin else packetSize) % 0x1_0000,
                  r.headerLength % 0x100, r.flags % 0x10))
  }

  /** A header found at ring index `index`, handed out; the length is computed in 32 bits. */
  function HandOut(index: int, h: Header): (r: Received)
    ensures r.index == index
  {
    Received(index, h.headerSize, (h.packetSize - h.headerSize) % 0x1_0000_0000, h.flags % 0x10)
  }

  /** A packet's size on the wire: short ones are made up to the least frame. */
  function WireSize(r: Request, frameMin: nat): nat {
    if r.dataLength + r.headerLength < frameMin then frameMin else r.dataLength + r.headerLength
  }

  /** Packets that 32-bit lengths can add up are refused exactly when they are larger than a frame. */
  lemma RefusesOversized(r: Request, frameMin: nat, frameMax: nat)
    requires r.dataLength + r.headerLength < 0x1_0000_0000 && frameMin <= frameMax
    ensures Describe(r, frameMin, frameMax) == None <==> r.dataLength + r.headerLength > frameMax
  {
  }

  /** The fields of a header, in plain numbers. */
  lemma StoredHeader(r: Request, frameMin: nat, frameMax: nat)
    requires r.dataLength + r.headerLength < 0x1_0000_0000 && frameMin < 0x1_0000_0000
    requires Describe(r, frameMin, frameMax).Some?
    ensures var h, size := Describe(r, frameMin, frameMax).value, r.dataLength + r.headerLength;
            && h.packetSize == (if size < frameMin then frameMin else size) % 0x1_0000
            && h.headerSize == r.headerLength % 0x100 && h.flags == r.flags % 0x10
  {
  }

  /** What a reader makes of these fields, when the metadata lie inside the packet. */
  lemma FieldsHandedOut(index: int, h: Header)
    requires h.headerSize <= h.packetSize < 0x1_0000
    ensures HandOut(index, h) == Received(index, h.headerSize, h.packetSize - h.headerSize, h.flags % 0x10)
  {
  }

  /**
   The reader of a header gets the lengths the writer asked for, with short data made up,
   if and only if the header length has eight bits and the packet's size sixteen.
   */
  lemma HeaderRoundTrip(r: Request, frameMin: nat, frameMax: nat, index: int)
    requires r.dataLength + r.headerLength < 0x1_0000_0000 && frameMin < 0x1_0000_0000
    requires Describe(r, frameMin, frameMax).Some?
    ensures var s := HandOut(index, Describe(r, frameMin, frameMax).value);
            (s.headerLength == r.headerLength && s.headerLength + s.dataLength == WireSize(r, frameMin)
             <==> r.headerLength < 0x100 && WireSize(r, frameMin) < 0x1_0000)
  {
    var h, size := Describe(r, frameMin, frameMax).value, WireSize(r, frameMin);
    assert h == Header(size % 0x1_0000, r.headerLength % 0x100, r.flags % 0x10);
    if r.headerLength < 0x100 && size >= 0x1_0000 {
      assert h.packetSize < size;
      var d := h.packetSize - r.headerLength;
      assert HandOut(index, h).dataLength == if d >= 0 then d else d + 0x1_0000_0000;
    }
  }

  /** Within the frame limits a queue has, that is when the header length has eight bits. */
  lemma FrameRoundTrip(r: Request, frameMin: nat, frameMax: nat, index: int)
    requires r.dataLength + r.headerLength <= frameMax < 0x1_0000 && frameMin <= frameMax && r.headerLength < 0x100
    ensures Describe(r, frameMin, frameMax).Some?
    ensures HandOut(index, Describe(r, frameMin, frameMax).value)
         == Received(index, r.headerLength, WireSize(r, frameMin) - r.headerLength, r.flags % 0x10)
  {
    var h, size := Describe(r, frameMin, frameMax).value, WireSize(r, frameMin);
    assert h == Header(size, r.headerLength, r.flags % 0x10);
  }
}
