/** WebSocket frame headers (websocketpp frame.hpp; section 5.2 of RFC 6455): building
    them, reading their fields, and what they look like on the wire. The machine is
    little-endian. */
module FrameHeader {
  import opened Common
  import opened IntegerText
  import opened Masking

  /** The two bytes every header has. */
  datatype Basic = Basic(b0: Octet, b1: Octet)

  /** The rest of a header, in the order of memory. */
  type Extended = e: seq<Octet> | |e| == 12 witness [0, 0, 0, 0, 0, 0, 0, 0, 0, 0, 0, 0]

  const PAYLOAD_SIZE_BASIC: Word := 125
  const PAYLOAD_SIZE_EXTENDED: Word := 0xFFFF
  const CODE_16BIT: Octet := 0x7E
  const CODE_64BIT: Octet := 0x7F

  // ---------------------------------------------------------------------
  // Words in memory and in network order
  // ---------------------------------------------------------------------

  function Memory(w: Word): (b: seq<Octet>)
    ensures |b| == 8
  {
    [WordByte(w, 0), WordByte(w, 1), WordByte(w, 2), WordByte(w, 3),
     WordByte(w, 4), WordByte(w, 5), WordByte(w, 6), WordByte(w, 7)]
  }

  /** _htonll and _ntohll: the bytes in memory change places. */
  function SwapBytes(w: Word): Word {
    var c := Memory(w);
    Load([c[7], c[6], c[5], c[4], c[3], c[2], c[1], c[0]])
  }

  lemma MemoryOfSwapped(w: Word)
    ensures var c, d := Memory(w), Memory(SwapBytes(w));
      d == [c[7], c[6], c[5], c[4], c[3], c[2], c[1], c[0]]
  {
    hide WordByte, Load;
    var c := Memory(w);
    var b := [c[7], c[6], c[5], c[4], c[3], c[2], c[1], c[0]];
    forall j | 0 <= j < 8 ensures WordByte(Load(b), j) == b[j] {
      LoadBytes(b, j);
    }
  }

  lemma LoadMemory(w: Word)
    ensures Load(Memory(w)) == w
  {
  }

  /** Swapping twice changes nothing. */
  lemma SwapTwice(w: Word)
    ensures SwapBytes(SwapBytes(w)) == w
  {
    hide WordByte, Load;
    var c := Memory(w);
    MemoryOfSwapped(w);
    assert [c[0], c[1], c[2], c[3], c[4], c[5], c[6], c[7]] == c;
    LoadMemory(w);
  }

  // ---------------------------------------------------------------------
  // Reading the fields
  // ---------------------------------------------------------------------

  function GetFin(h: Basic): bool { h.b0 & 0x80 == 0x80 }
  function GetRsv1(h: Basic): bool { h.b0 & 0x40 == 0x40 }
  function GetRsv2(h: Basic): bool { h.b0 & 0x20 == 0x20 }
  function GetRsv3(h: Basic): bool { h.b0 & 0x10 == 0x10 }
  function GetOpcode(h: Basic): Octet { h.b0 & 0x0F }
  function GetMasked(h: Basic): bool { h.b1 & 0x80 == 0x80 }
  function GetBasicSize(h: Basic): Octet { h.b1 & 0x7F }

  function GetMaskingKeyOffset(h: Basic): (n: nat)
    ensures n <= 8
  {
    if GetBasicSize(h) == CODE_16BIT then 2 else if GetBasicSize(h) == CODE_64BIT then 8 else 0
  }

  function GetHeaderLen(h: Basic): (n: nat)
    ensures 2 <= n <= 14
  {
    2 + GetMaskingKeyOffset(h) + (if GetMasked(h) then 4 else 0)
  }

  function GetMaskingKey(h: Basic, e: Extended): Key {
    if !GetMasked(h) then Key(0, 0, 0, 0)
    else
      var at := GetMaskingKeyOffset(h);
      Key(e[at], e[at + 1], e[at + 2], e[at + 3])
  }

  /** Two bytes loaded and swapped by ntohs. */
  function GetExtendedSize(e: Extended): bv16 {
    var i := (e[0] as bv16) | ((e[1] as bv16) << 8);
    (i >> 8) | (i << 8)
  }

  function GetJumboSize(e: Extended): Word {
    SwapBytes(Load(e[..8]))
  }

  function GetPayloadSize(h: Basic, e: Extended): Word {
    var val := GetBasicSize(h);
    if val <= 125 then val as Word
    else if val == CODE_16BIT then GetExtendedSize(e) as Word
    else GetJumboSize(e)
  }

  function PrepareHeader(h: Basic, e: Extended): (s: seq<Octet>)
    ensures |s| == GetHeaderLen(h)
  {
    [h.b0, h.b1] + e[..GetHeaderLen(h) - 2]
  }

  // ---------------------------------------------------------------------
  // Building a header
  // ---------------------------------------------------------------------

  datatype Flags = Flags(fin: bool, masked: bool, rsv1: bool, rsv2: bool, rsv3: bool)

  function SizeCode(size: Word): Octet {
    if size <= PAYLOAD_SIZE_BASIC then (size & 0x7F) as Octet
    else if size <= PAYLOAD_SIZE_EXTENDED then CODE_16BIT
    else CODE_64BIT
  }

  function Bit(on: bool, mask: Octet): Octet {
    if on then mask else 0
  }

  /** The basic header for an opcode, a size and the flags. */
  function BasicHeader(opcode: Octet, size: Word, f: Flags): (h: Basic)
    ensures GetFin(h) == f.fin && GetRsv1(h) == f.rsv1 && GetRsv2(h) == f.rsv2 && GetRsv3(h) == f.rsv3
    ensures GetOpcode(h) == opcode & 0x0F && GetMasked(h) == f.masked
    ensures GetBasicSize(h) == SizeCode(size)
  {
    Basic(Bit(f.fin, 0x80) | Bit(f.rsv1, 0x40) | Bit(f.rsv2, 0x20) | Bit(f.rsv3, 0x10) | (opcode & 0x0F),
          Bit(f.masked, 0x80) | SizeCode(size))
  }

  function PayloadOffset(size: Word): nat {
    if size <= PAYLOAD_SIZE_BASIC then 8 else if size <= PAYLOAD_SIZE_EXTENDED then 6 else 0
  }

  /** The size, if the basic header has no room for it, and then the key. */
  function ExtendedHeader(size: Word, key: Key): Extended {
    var offset := PayloadOffset(size);
    var front := Memory(SwapBytes(size))[offset..] + [key.c0, key.c1, key.c2, key.c3];
    front + seq(12 - |front|, _ => 0)
  }

  /** The size is read back, whichever form it took. */
  lemma SizeRoundTrip(opcode: Octet, size: Word, f: Flags, key: Key)
    ensures GetPayloadSize(BasicHeader(opcode, size, f), ExtendedHeader(size, key)) == size
    ensures GetMaskingKeyOffset(BasicHeader(opcode, size, f)) == 8 - PayloadOffset(size)
  {
    CodeOfSize(size);
    hide BasicHeader, ExtendedHeader, GetExtendedSize, GetJumboSize, SizeCode, GetBasicSize;
    if PAYLOAD_SIZE_EXTENDED < size {
      JumboSizeIsRead(size, key);
    } else if PAYLOAD_SIZE_BASIC < size {
      ExtendedSizeIsRead(size, key);
    }
  }

  lemma CodeOfSize(size: Word)
    ensures if size <= PAYLOAD_SIZE_BASIC then SizeCode(size) <= 125 && SizeCode(size) as Word == size
            else if size <= PAYLOAD_SIZE_EXTENDED then SizeCode(size) == CODE_16BIT
            else SizeCode(size) == CODE_64BIT
  {
  }

  lemma TwoBytesOf(size: Word)
    requires size <= PAYLOAD_SIZE_EXTENDED
    ensures var i := (WordByte(size, 1) as bv16) | ((WordByte(size, 0) as bv16) << 8);
      ((i >> 8) | (i << 8)) as Word == size
  {
  }

  lemma ExtendedSizeIsRead(size: Word, key: Key)
    requires PAYLOAD_SIZE_BASIC < size <= PAYLOAD_SIZE_EXTENDED
    ensures GetExtendedSize(ExtendedHeader(size, key)) as Word == size
  {
    MemoryOfSwapped(size);
    TwoBytesOf(size);
    hide WordByte, Load, SwapBytes;
    var e := ExtendedHeader(size, key);
    assert e[0] == Memory(SwapBytes(size))[6] && e[1] == Memory(SwapBytes(size))[7];
  }

  lemma JumboSizeIsRead(size: Word, key: Key)
    requires PAYLOAD_SIZE_EXTENDED < size
    ensures GetJumboSize(ExtendedHeader(size, key)) == size
  {
    hide WordByte, Load, SwapBytes;
    assert ExtendedHeader(size, key)[..8] == Memory(SwapBytes(size));
    LoadMemory(SwapBytes(size));
    SwapTwice(size);
  }

  lemma KeyRoundTrip(opcode: Octet, size: Word, f: Flags, key: Key)
    ensures GetMaskingKey(BasicHeader(opcode, size, f), ExtendedHeader(size, key)) ==
      if f.masked then key else Key(0, 0, 0, 0)
  {
    SizeRoundTrip(opcode, size, f, key);
    hide BasicHeader, SwapBytes, WordByte, GetPayloadSize, SizeCode;
  }

  // ---------------------------------------------------------------------
  // The wire format of the standard
  // ---------------------------------------------------------------------

  datatype Header = Header(flags: Flags, opcode: Octet, size: Word, key: Key)

  /** Most significant byte first. */
  function BigEndian(b: seq<Octet>): Word {
    if b == [] then 0 else (BigEndian(b[..|b| - 1]) << 8) | (b[|b| - 1] as Word)
  }

  /** The numbered bits of the first two bytes, as the standard draws them. */
  function WireFlags(b0: Octet, b1: Octet): Flags {
    Flags((b0 >> 7) & 1 == 1, b1 >= 0x80, (b0 >> 6) & 1 == 1, (b0 >> 5) & 1 == 1, (b0 >> 4) & 1 == 1)
  }

  function WireOpcode(b0: Octet): Octet {
    b0 % 16
  }

  function WireLength(b1: Octet): Octet {
    if b1 >= 0x80 then b1 - 0x80 else b1
  }

  /** RFC 6455, section 5.2: the header at the front of a frame and what follows it;
      None if the frame is not long enough to tell. */
  function Decode(wire: seq<Octet>): Option<(Header, seq<Octet>)> {
    if |wire| < 2 then None
    else
      var flags, code := WireFlags(wire[0], wire[1]), WireLength(wire[1]);
      var n := if code == 126 then 2 else if code == 127 then 8 else 0;
      var m := if flags.masked then 4 else 0;
      if |wire| < 2 + n + m then None
      else
        var size := if n == 0 then code as Word else BigEndian(wire[2..2 + n]);
        var k := wire[2 + n..2 + n + m];
        var key := if flags.masked then Key(k[0], k[1], k[2], k[3]) else Key(0, 0, 0, 0);
        Some((Header(flags, WireOpcode(wire[0]), size, key), wire[2 + n + m..]))
  }

  /** What the library reads from a header. */
  function HeaderOf(h: Basic, e: Extended): Header {
    Header(Flags(GetFin(h), GetMasked(h), GetRsv1(h), GetRsv2(h), GetRsv3(h)),
           GetOpcode(h), GetPayloadSize(h, e), GetMaskingKey(h, e))
  }

  lemma BytesAgree(h: Basic)
    ensures WireFlags(h.b0, h.b1) == Flags(GetFin(h), GetMasked(h), GetRsv1(h), GetRsv2(h), GetRsv3(h))
    ensures WireOpcode(h.b0) == GetOpcode(h) && WireLength(h.b1) == GetBasicSize(h)
  {
  }

  lemma ExtendedSizeAgrees(e: Extended)
    ensures BigEndian(e[..2]) == GetExtendedSize(e) as Word
  {
    assert e[..2][..1] == [e[0]] && [e[0]][..0] == [];
    assert BigEndian([e[0]]) == (0 << 8) | (e[0] as Word);
  }

  lemma BigEndianStep(e: seq<Octet>, n: nat)
    requires n < |e|
    ensures BigEndian(e[..n + 1]) == (BigEndian(e[..n]) << 8) | (e[n] as Word)
  {
    assert e[..n + 1][..n] == e[..n];
  }

  function Append(w: Word, b: Octet): Word {
    (w << 8) | (b as Word)
  }

  lemma EightBytes(e: Extended)
    ensures Append(Append(Append(Append(Append(Append(Append(Append(0,
      e[0]), e[1]), e[2]), e[3]), e[4]), e[5]), e[6]), e[7])
      == Load([e[7], e[6], e[5], e[4], e[3], e[2], e[1], e[0]])
  {
  }

  lemma JumboSizeAgrees(e: Extended)
    ensures BigEndian(e[..8]) == GetJumboSize(e)
  {
    hide WordByte, Load;
    forall j | 0 <= j < 8 ensures WordByte(Load(e[..8]), j) == e[j] {
      LoadBytes(e[..8], j);
    }
    assert GetJumboSize(e) == Load([e[7], e[6], e[5], e[4], e[3], e[2], e[1], e[0]]);
    BigEndianOfEight(e);
    EightBytes(e);
  }

  lemma BigEndianOfEight(e: Extended)
    ensures BigEndian(e[..8]) == Append(Append(Append(Append(Append(Append(Append(Append(0,
      e[0]), e[1]), e[2]), e[3]), e[4]), e[5]), e[6]), e[7])
  {
    forall n | 0 <= n < 8 ensures BigEndian(e[..n + 1]) == Append(BigEndian(e[..n]), e[n]) {
      BigEndianStep(e, n);
    }
    assert e[..0] == [];
    hide BigEndian, Append;
  }

  // ---------------------------------------------------------------------
  // Theorems
  // ---------------------------------------------------------------------

  lemma SizeAgrees(h: Basic, e: Extended)
    ensures var n := GetMaskingKeyOffset(h);
      GetPayloadSize(h, e) == if n == 0 then GetBasicSize(h) as Word else BigEndian(e[..n])
  {
    hide BigEndian, GetJumboSize, GetExtendedSize;
    ExtendedSizeAgrees(e);
    JumboSizeAgrees(e);
  }

  /** On every header whatever, the library reads what the standard says is there. */
  lemma GettersAgree(h: Basic, e: Extended, payload: seq<Octet>)
    ensures Decode(PrepareHeader(h, e) + payload) == Some((HeaderOf(h, e), payload))
  {
    hide BigEndian, GetPayloadSize, WireFlags, WireOpcode, WireLength, GetBasicSize, GetOpcode,
         GetMasked, GetFin, GetRsv1, GetRsv2, GetRsv3;
    var wire := PrepareHeader(h, e) + payload;
    var n, len := GetMaskingKeyOffset(h), GetHeaderLen(h);
    BytesAgree(h);
    SizeAgrees(h, e);
    assert wire[0] == h.b0 && wire[1] == h.b1 && wire[len..] == payload;
    assert wire[2..2 + n] == e[..n];
    var k := wire[2 + n..len];
    if GetMasked(h) {
      assert k == e[n..n + 4];
      assert k[0] == e[n] && k[1] == e[n + 1] && k[2] == e[n + 2] && k[3] == e[n + 3];
      assert Decode(wire).value.0.key == GetMaskingKey(h, e);
    } else {
      assert Decode(wire).value.0.key == Key(0, 0, 0, 0);
    }
  }

  /** A built header, written out, stands for what it was built from; of the opcode
      four bits count, and the key counts if the flags ask for it. */
  lemma HeaderRoundTrip(opcode: Octet, size: Word, f: Flags, key: Key, payload: seq<Octet>)
    ensures Decode(PrepareHeader(BasicHeader(opcode, size, f), ExtendedHeader(size, key)) + payload) ==
      Some((Header(f, opcode & 0x0F, size, if f.masked then key else Key(0, 0, 0, 0)), payload))
  {
    hide Decode, PrepareHeader, GetPayloadSize, GetMaskingKey, BasicHeader, ExtendedHeader;
    GettersAgree(BasicHeader(opcode, size, f), ExtendedHeader(size, key), payload);
    SizeRoundTrip(opcode, size, f, key);
    KeyRoundTrip(opcode, size, f, key);
  }

  lemma TwoBytesAreSmall(b: seq<Octet>)
    requires |b| == 2
    ensures BigEndian(b) <= 0xFFFF
  {
    assert b[..1][..0] == [] && b[..1] == [b[0]];
    assert BigEndian([b[0]]) == (0 << 8) | (b[0] as Word);
  }

  /** No frame with the same size and mask flag has a shorter header than the one built
      for it. */
  lemma HeaderIsShortest(wire: seq<Octet>, key: Key)
    requires Decode(wire).Some?
    ensures var (header, rest) := Decode(wire).value;
      |PrepareHeader(BasicHeader(header.opcode, header.size, header.flags), ExtendedHeader(header.size, key))|
        <= |wire| - |rest|
  {
    hide BigEndian, BasicHeader, ExtendedHeader, WireFlags, WireOpcode, GetMasked;
    var (header, rest) := Decode(wire).value;
    SizeRoundTrip(header.opcode, header.size, header.flags, key);
    if |wire| >= 4 {
      TwoBytesAreSmall(wire[2..4]);
    }
    CodeFitsSize(WireLength(wire[1]));
  }

  lemma CodeFitsSize(code: Octet)
    ensures code as Word <= 0xFF && (code < 126 ==> code as Word <= 125)
  {
  }
}
