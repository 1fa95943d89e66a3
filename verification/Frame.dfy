/** WebSocket frame headers (section 5.2 of RFC 6455): building one, writing it out, and taking it apart. */
module Frame {
  import opened Bytes
  import opened Masking
  import opened Octets
  import opened Options

  // ----- Numbers as octets -----

  /** The low `len` octets of a number, least significant first. */
  function OctetsOf(n: nat, len: nat): (s: seq<byte>)
    ensures |s| == len
  {
    if len == 0 then [] else [ToByte(n % 256)] + OctetsOf(n / 256, len - 1)
  }

  function Value(s: seq<byte>): nat {
    if s == [] then 0 else FromByte(s[0]) + 256 * Value(s[1..])
  }

  lemma {:induction false} ValueOfOctets(n: nat, len: nat)
    requires n < Pow256(len)
    ensures Value(OctetsOf(n, len)) == n
  {
    hide ToByte, FromByte;
    if len > 0 {
      assert n / 256 < Pow256(len - 1);
      ValueOfOctets(n / 256, len - 1);
      ByteRoundTrip(n % 256);
    }
  }

  /** `_htonll`: swaps the octets on a little-endian host. */
  function Htonll(w: word, little: bool): (r: word)
    ensures |r| == |w|
  {
    if little then Reversed(w) else w
  }

  lemma NetworkOrder(w: word, little: bool)
    ensures WordBytes(Htonll(w, little), little) == Reversed(w)
    ensures Htonll(BytesWord(Reversed(w), little), little) == w
  {
  }

  // ----- Headers -----

  const FIN: byte := 0x80
  const RSV1: byte := 0x40
  const RSV2: byte := 0x20
  const RSV3: byte := 0x10
  const OPCODE: byte := 0x0F
  const PAYLOAD: byte := 0x7F
  const MASK: byte := 0x80
  const SIZE_CODE_16BIT: byte := 0x7E
  const SIZE_CODE_64BIT: byte := 0x7F
  const PAYLOAD_SIZE_BASIC := 125
  const PAYLOAD_SIZE_EXTENDED := 0xFFFF
  const BASIC_HEADER_LENGTH := 2
  const MAX_EXTENDED_HEADER_LENGTH := 12

  datatype BasicHeader = BasicHeader(b0: byte, b1: byte)

  const NO_BYTES: seq<byte> := [0, 0, 0, 0, 0, 0, 0, 0, 0, 0, 0, 0]

  /** The twelve bytes of room for the extended size and the masking key. */
  type extended_header = e: seq<byte> | |e| == MAX_EXTENDED_HEADER_LENGTH witness NO_BYTES

  /** The one-byte size, or the code for a longer size field. */
  function BasicValue(size: nat): byte {
    if size <= PAYLOAD_SIZE_BASIC then ToByte(size)
    else if size <= PAYLOAD_SIZE_EXTENDED then SIZE_CODE_16BIT
    else SIZE_CODE_64BIT
  }

  predicate GetFin(h: BasicHeader) { h.b0 & FIN == FIN }
  predicate GetRsv1(h: BasicHeader) { h.b0 & RSV1 == RSV1 }
  predicate GetRsv2(h: BasicHeader) { h.b0 & RSV2 == RSV2 }
  predicate GetRsv3(h: BasicHeader) { h.b0 & RSV3 == RSV3 }
  function GetOpcode(h: BasicHeader): byte { h.b0 & OPCODE }
  predicate GetMasked(h: BasicHeader) { h.b1 & MASK == MASK }
  function GetBasicSize(h: BasicHeader): byte { h.b1 & PAYLOAD }

  function GetMaskingKeyOffset(h: BasicHeader): (n: nat)
    ensures n <= 8
  {
    if GetBasicSize(h) == SIZE_CODE_16BIT then 2
    else if GetBasicSize(h) == SIZE_CODE_64BIT then 8
    else 0
  }

  function GetHeaderLen(h: BasicHeader): (n: nat)
    ensures 2 <= n <= 14
  {
    BASIC_HEADER_LENGTH + GetMaskingKeyOffset(h) + if GetMasked(h) then 4 else 0
  }

  /** `get_masking_key`; an unmasked frame has the key zero. */
  function GetMaskingKey(h: BasicHeader, e: extended_header): key {
    if !GetMasked(h) then [0, 0, 0, 0]
    else var offset := GetMaskingKeyOffset(h); e[offset..offset + 4]
  }

  /** `ntohs` of the first two bytes. */
  function GetExtendedSize(e: extended_header): nat {
    Value([e[1], e[0]])
  }

  /** `_ntohll` of the first eight bytes. */
  function GetJumboSize(e: extended_header, little: bool): nat {
    Value(Htonll(BytesWord(e[..8], little), little))
  }

  function GetPayloadSize(h: BasicHeader, e: extended_header, little: bool): nat {
    var val := GetBasicSize(h);
    if FromByte(val) <= PAYLOAD_SIZE_BASIC then FromByte(val)
    else if val == SIZE_CODE_16BIT then GetExtendedSize(e)
    else GetJumboSize(e, little)
  }

  /** `prepare_header` */
  function PrepareHeader(h: BasicHeader, e: extended_header): (s: seq<byte>)
    ensures |s| == GetHeaderLen(h)
  {
    [h.b0, h.b1] + e[..GetHeaderLen(h) - BASIC_HEADER_LENGTH]
  }

  // ----- What section 5.2 of RFC 6455 asks for -----

  /** The fields of a frame header. */
  datatype Header = Header(fin: bool, rsv1: bool, rsv2: bool, rsv3: bool, opcode: byte, size: nat, mask: Option<key>)

  const WORD_LIMIT := 0x1_0000_0000_0000_0000

  predicate Valid(x: Header) {
    x.opcode < 16 && x.size < WORD_LIMIT
  }

  function Bit(b: bool, at: byte): byte {
    if b then at else 0
  }

  /** Four flags and the opcode, side by side. */
  function FlagByte(fin: bool, rsv1: bool, rsv2: bool, rsv3: bool, op: byte): byte {
    Bit(fin, 128) + Bit(rsv1, 64) + Bit(rsv2, 32) + Bit(rsv3, 16) + op
  }

  /** The mask bit and the seven-bit length, side by side. */
  function SizeByte(mask: bool, size: nat): byte {
    Bit(mask, 128) + BasicValue(size)
  }

  /** The octets that carry the size: none, two or eight, the fewest that hold it; most significant first. */
  function SizeField(size: nat): seq<byte> {
    if size <= PAYLOAD_SIZE_BASIC then []
    else if size <= PAYLOAD_SIZE_EXTENDED then [ToByte(size / 256), ToByte(size % 256)]
    else Reversed(OctetsOf(size, 8))
  }

  function KeyField(mask: Option<key>): seq<byte> {
    match mask case None => [] case Some(k) => k
  }

  /** The header on the wire: the flags and the opcode side by side, the mask bit and the length, then the size and the key. */
  function Wire(x: Header): seq<byte>
    requires Valid(x)
  {
    [FlagByte(x.fin, x.rsv1, x.rsv2, x.rsv3, x.opcode), SizeByte(x.mask.Some?, x.size)]
    + SizeField(x.size) + KeyField(x.mask)
  }

  // ----- The constructors -----

  method MakeBasicHeader(op: byte, size: nat, fin: bool, mask: bool, rsv1: bool, rsv2: bool, rsv3: bool)
    returns (h: BasicHeader)
    requires op < 16 && size < WORD_LIMIT
    ensures h == BasicHeader(FlagByte(fin, rsv1, rsv2, rsv3, op), SizeByte(mask, size))
  {
    var b0: byte, b1: byte := 0, 0;
    if fin { b0 := b0 | FIN; }
    if rsv1 { b0 := b0 | RSV1; }
    if rsv2 { b0 := b0 | RSV2; }
    if rsv3 { b0 := b0 | RSV3; }
    b0 := b0 | (op & OPCODE);
    b1 := SecondByte(size, mask);
    h := BasicHeader(b0, b1);
  }

  method SecondByte(size: nat, mask: bool) returns (b1: byte)
    ensures b1 == SizeByte(mask, size)
  {
    hide BasicValue;
    BasicValueFits(size);
    b1 := 0;
    if mask { b1 := b1 | MASK; }
    b1 := b1 | BasicValue(size);
  }

  lemma BasicValueFits(size: nat)
    ensures BasicValue(size) < 128
    ensures size <= PAYLOAD_SIZE_BASIC <==> FromByte(BasicValue(size)) <= PAYLOAD_SIZE_BASIC
    ensures size <= PAYLOAD_SIZE_BASIC ==> FromByte(BasicValue(size)) == size
    ensures BasicValue(size) == SIZE_CODE_16BIT <==> PAYLOAD_SIZE_BASIC < size <= PAYLOAD_SIZE_EXTENDED
    ensures BasicValue(size) == SIZE_CODE_64BIT <==> PAYLOAD_SIZE_EXTENDED < size
  {
    hide ToByte, FromByte;
    SizeCodes();
    if size <= PAYLOAD_SIZE_BASIC { ByteRoundTrip(size); }
  }

  lemma SizeCodes()
    ensures FromByte(SIZE_CODE_16BIT) == 126 && FromByte(SIZE_CODE_64BIT) == 127
  {
    assert FromBits(0x03, 3) == 3;
    assert FromBits(0x0F, 5) == 15;
    assert FromBits(0x3F, 7) == 63;
  }

  /** `copy_payload`: the low octets of the size in network order go to the front of the room. */
  method CopyPayload(bytes: array<byte>, size: nat, little: bool) returns (n: nat)
    requires bytes.Length == MAX_EXTENDED_HEADER_LENGTH && size < WORD_LIMIT
    modifies bytes
    ensures n == |SizeField(size)| <= 8
    ensures bytes[..n] == SizeField(size)
    ensures bytes[n..] == old(bytes[n..])
  {
    hide WordBytes, Htonll, OctetsOf, SizeField, Reversed;
    var offset := 0;
    if size <= PAYLOAD_SIZE_BASIC {
      offset := 8;
    } else if size <= PAYLOAD_SIZE_EXTENDED {
      offset := 6;
    }
    var temp64 := WordBytes(Htonll(OctetsOf(size, 8), little), little);
    ghost var field := SizeField(size);
    SizeFieldInMemory(size, little);
    n := 8 - offset;
    for i := 0 to n
      invariant forall j :: 0 <= j < i ==> bytes[j] == field[j]
      invariant forall j :: i <= j < bytes.Length ==> bytes[j] == old(bytes[j])
    {
      bytes[i] := temp64[offset + i];
    }
    assert bytes[..n] == field;
  }

  /** The size field is the end of the eight octets of the size, as the host stores them in network order. */
  lemma SizeFieldInMemory(size: nat, little: bool)
    requires size < WORD_LIMIT
    ensures var n := if size <= PAYLOAD_SIZE_BASIC then 0 else if size <= PAYLOAD_SIZE_EXTENDED then 2 else 8;
            SizeField(size) == WordBytes(Htonll(OctetsOf(size, 8), little), little)[8 - n..]
  {
    hide *;
    var w := OctetsOf(size, 8);
    NetworkOrder(w, little);
    SizeFieldIs(size);
    var r := Reversed(w);
    assert r[8..] == [] && r[6..] == [w[1], w[0]] && r[0..] == r;
  }

  lemma SizeFieldIs(size: nat)
    ensures var w := OctetsOf(size, 8);
            SizeField(size) ==
            if size <= PAYLOAD_SIZE_BASIC then []
            else if size <= PAYLOAD_SIZE_EXTENDED then [w[1], w[0]]
            else Reversed(w)
  {
    LowestTwo(size);
    hide OctetsOf, ToByte, Reversed;
  }

  lemma LowestTwo(size: nat)
    ensures OctetsOf(size, 8)[0] == ToByte(size % 256)
    ensures size / 256 < 256 ==> OctetsOf(size, 8)[1] == ToByte(size / 256)
  {
    hide ToByte;
    assert OctetsOf(size / 256, 7)[0] == OctetsOf(size, 8)[1];
    assert size / 256 < 256 ==> size / 256 % 256 == size / 256;
  }

  /** The extended header with or without a masking key. */
  method MakeExtendedHeader(size: nat, mask: Option<key>, little: bool) returns (e: extended_header)
    requires size < WORD_LIMIT
    ensures |SizeField(size)| <= 8 && |KeyField(mask)| <= 4
    ensures e == SizeField(size) + KeyField(mask) + NO_BYTES[..12 - |SizeField(size)| - |KeyField(mask)|]
  {
    hide SizeField;
    var bytes := new byte[MAX_EXTENDED_HEADER_LENGTH](_ => 0);
    var offset := CopyPayload(bytes, size, little);
    if mask.Some? {
      for i := 0 to 4
        invariant bytes[..offset] == SizeField(size)
        invariant forall j :: 0 <= j < i ==> bytes[offset + j] == mask.value[j]
        invariant forall j :: offset + i <= j < 12 ==> bytes[j] == 0
      {
        bytes[offset + i] := mask.value[i];
      }
    }
    e := bytes[..];
    assert e[..offset] == SizeField(size);
    ExtendedIs(e, SizeField(size), KeyField(mask));
  }

  lemma ExtendedIs(e: extended_header, field: seq<byte>, keyBytes: seq<byte>)
    requires |field| + |keyBytes| <= 12 && e[..|field|] == field
    requires forall j :: 0 <= j < |keyBytes| ==> e[|field| + j] == keyBytes[j]
    requires forall j :: |field| + |keyBytes| <= j < 12 ==> e[j] == 0
    ensures e == field + keyBytes + NO_BYTES[..12 - |field| - |keyBytes|]
  {
    assert forall j :: 0 <= j < |field| ==> e[j] == e[..|field|][j];
  }

  // ----- The header survives the wire -----

  lemma FlagBits(fin: bool, rsv1: bool, rsv2: bool, rsv3: bool, op: byte)
    requires op < 16
    ensures var b := FlagByte(fin, rsv1, rsv2, rsv3, op);
            && (b & FIN == FIN) == fin && (b & RSV1 == RSV1) == rsv1
            && (b & RSV2 == RSV2) == rsv2 && (b & RSV3 == RSV3) == rsv3
            && b & OPCODE == op
  {
  }

  lemma MaskBits(mask: bool, size: nat)
    ensures var b := SizeByte(mask, size); (b & MASK == MASK) == mask && b & PAYLOAD == BasicValue(size)
  {
    BasicValueFits(size);
    hide BasicValue;
  }

  /** What the constructors make of a header. */
  function Basic(x: Header): BasicHeader {
    BasicHeader(FlagByte(x.fin, x.rsv1, x.rsv2, x.rsv3, x.opcode), SizeByte(x.mask.Some?, x.size))
  }

  lemma BasicFields(x: Header)
    requires Valid(x)
    ensures var h := Basic(x);
            && GetFin(h) == x.fin && GetRsv1(h) == x.rsv1 && GetRsv2(h) == x.rsv2 && GetRsv3(h) == x.rsv3
            && GetOpcode(h) == x.opcode && GetMasked(h) == x.mask.Some? && GetBasicSize(h) == BasicValue(x.size)
  {
    hide BasicValue, FlagByte, SizeByte;
    FlagBits(x.fin, x.rsv1, x.rsv2, x.rsv3, x.opcode);
    MaskBits(x.mask.Some?, x.size);
  }

  lemma SizeFieldLength(x: Header)
    requires Valid(x)
    ensures GetMaskingKeyOffset(Basic(x)) == |SizeField(x.size)|
    ensures GetHeaderLen(Basic(x)) == 2 + |SizeField(x.size)| + |KeyField(x.mask)| == |Wire(x)|
  {
    hide BasicValue, ToByte, GetBasicSize, GetMasked, Basic, OctetsOf;
    BasicFields(x);
    BasicValueFits(x.size);
  }

  lemma ValueOfTwo(size: nat)
    requires size <= PAYLOAD_SIZE_EXTENDED
    ensures Value([ToByte(size % 256), ToByte(size / 256)]) == size
  {
    hide ToByte, FromByte;
    ByteRoundTrip(size % 256);
    ByteRoundTrip(size / 256);
    var s := [ToByte(size % 256), ToByte(size / 256)];
    assert s[1..] == [ToByte(size / 256)];
    assert [ToByte(size / 256)][1..] == [];
    assert Value([ToByte(size / 256)]) == size / 256;
  }

  lemma WordLimit()
    ensures Pow256(8) == WORD_LIMIT
  {
    assert Pow256(4) == 0x1_0000_0000;
  }

  /** Any extended header that begins with the size field gives the payload size back. */
  lemma PayloadSizeRead(x: Header, e: extended_header, little: bool)
    requires Valid(x) && |SizeField(x.size)| <= 8 && e[..|SizeField(x.size)|] == SizeField(x.size)
    ensures GetPayloadSize(Basic(x), e, little) == x.size
  {
    hide BasicValue, ToByte, FromByte, GetBasicSize, Basic, OctetsOf, Value, Htonll, BytesWord;
    BasicFields(x);
    BasicValueFits(x.size);
    if x.size <= PAYLOAD_SIZE_BASIC {
    } else if x.size <= PAYLOAD_SIZE_EXTENDED {
      assert e[0] == e[..2][0] && e[1] == e[..2][1];
      ValueOfTwo(x.size);
    } else {
      NetworkOrder(OctetsOf(x.size, 8), little);
      WordLimit();
      ValueOfOctets(x.size, 8);
    }
  }

  /** The getters recover every field of the header. */
  lemma HeaderRead(x: Header, e: extended_header, little: bool)
    requires Valid(x) && |SizeField(x.size)| <= 8
    requires e[..|SizeField(x.size)| + |KeyField(x.mask)|] == SizeField(x.size) + KeyField(x.mask)
    ensures GetPayloadSize(Basic(x), e, little) == x.size
    ensures GetMaskingKey(Basic(x), e) == match x.mask case None => [0, 0, 0, 0] case Some(k) => k
  {
    hide SizeField, GetPayloadSize, Basic, GetMaskingKeyOffset, GetMasked;
    var n := |SizeField(x.size)|;
    assert e[..n] == e[..n + |KeyField(x.mask)|][..n];
    PayloadSizeRead(x, e, little);
    BasicFields(x);
    SizeFieldLength(x);
    if x.mask.Some? {
      assert e[n..n + 4] == e[..n + 4][n..];
    }
  }

  /** Building a header with the constructors and writing it out gives the wire format of RFC 6455. */
  method WriteFrameHeader(x: Header, little: bool) returns (s: seq<byte>)
    requires Valid(x)
    ensures s == Wire(x)
  {
    hide SizeField, KeyField, FlagByte, SizeByte, PrepareHeader, Wire;
    var h := MakeBasicHeader(x.opcode, x.size, x.fin, x.mask.Some?, x.rsv1, x.rsv2, x.rsv3);
    var e := MakeExtendedHeader(x.size, x.mask, little);
    PrepareHeaderIsWire(x, e);
    s := PrepareHeader(h, e);
  }

  lemma PrepareHeaderIsWire(x: Header, e: extended_header)
    requires Valid(x) && |SizeField(x.size)| <= 8 && |KeyField(x.mask)| <= 4
    requires e == SizeField(x.size) + KeyField(x.mask) + NO_BYTES[..12 - |SizeField(x.size)| - |KeyField(x.mask)|]
    ensures PrepareHeader(Basic(x), e) == Wire(x)
  {
    hide SizeField, KeyField, FlagByte, SizeByte, GetHeaderLen;
    SizeFieldLength(x);
    var n := |SizeField(x.size)| + |KeyField(x.mask)|;
    assert e[..n] == SizeField(x.size) + KeyField(x.mask);
  }

  /** The header that a receiver holds after it has copied a header of the length that the first two bytes tell. */
  function Received(s: seq<byte>): (r: (BasicHeader, extended_header))
    requires |s| >= 2 && |s| == GetHeaderLen(BasicHeader(s[0], s[1]))
  {
    (BasicHeader(s[0], s[1]), s[2..] + NO_BYTES[..14 - |s|])
  }

  /**
   Every frame header survives the wire: its length can be told from its first two bytes, the size
   is in the shortest form that holds it, and the getters give back all fields and the masking key.
   */
  lemma HeaderRoundTrip(x: Header, little: bool)
    requires Valid(x)
    ensures var s := Wire(x);
            && |s| == GetHeaderLen(BasicHeader(s[0], s[1]))
            && var (h, e) := Received(s);
               && GetFin(h) == x.fin && GetRsv1(h) == x.rsv1 && GetRsv2(h) == x.rsv2 && GetRsv3(h) == x.rsv3
               && GetOpcode(h) == x.opcode && GetMasked(h) == x.mask.Some?
               && GetPayloadSize(h, e, little) == x.size
               && GetMaskingKey(h, e) == match x.mask case None => [0, 0, 0, 0] case Some(k) => k
  {
    hide SizeField, BasicValue, GetHeaderLen, GetPayloadSize, GetMaskingKey, GetFin, GetRsv1, GetRsv2, GetRsv3, GetOpcode, GetMasked, FlagByte, SizeByte;
    var s := Wire(x);
    SizeFieldLength(x);
    SizeFieldShort(x.size);
    assert BasicHeader(s[0], s[1]) == Basic(x);
    var e := Received(s).1;
    var n := |SizeField(x.size)| + |KeyField(x.mask)|;
    assert e[..n] == SizeField(x.size) + KeyField(x.mask);
    BasicFields(x);
    HeaderRead(x, e, little);
  }

  lemma SizeFieldShort(size: nat)
    ensures |SizeField(size)| <= 8
  {
  }

  /** The seven-bit lengths above 125 are the two codes. */
  lemma CodesOnly(b: byte)
    requires b < 128 && FromByte(b) > PAYLOAD_SIZE_BASIC
    ensures b == SIZE_CODE_16BIT || b == SIZE_CODE_64BIT
  {
    SizeCodes();
    NumberRoundTrip(b);
    NumberRoundTrip(SIZE_CODE_16BIT);
    NumberRoundTrip(SIZE_CODE_64BIT);
    hide ToByte, FromByte;
    assert FromByte(b) == 126 || FromByte(b) == 127;
  }

  /** Whatever a header holds, the size read from it could not be written with a longer size field than it has. */
  lemma ShortestForm(h: BasicHeader, e: extended_header, little: bool)
    ensures |SizeField(GetPayloadSize(h, e, little))| <= GetMaskingKeyOffset(h)
  {
    hide ToByte, FromByte, OctetsOf;
    assert GetBasicSize(h) < 128;
    if FromByte(GetBasicSize(h)) > PAYLOAD_SIZE_BASIC {
      CodesOnly(GetBasicSize(h));
      if GetBasicSize(h) == SIZE_CODE_16BIT { TwoOctets(e[1], e[0]); }
    }
  }

  lemma TwoOctets(low: byte, high: byte)
    ensures Value([low, high]) <= PAYLOAD_SIZE_EXTENDED
  {
    NumberRoundTrip(low);
    NumberRoundTrip(high);
    hide ToByte, FromByte;
    assert [low, high][1..] == [high] && [high][1..] == [];
    assert Value([high]) == FromByte(high);
  }

  /** The length code and the size field determine the size. */
  lemma FormTellsSize(size: nat, other: nat)
    requires size < WORD_LIMIT && other < WORD_LIMIT
    requires SizeField(size) == SizeField(other) && BasicValue(size) == BasicValue(other)
    ensures size == other
  {
    hide ToByte, FromByte, OctetsOf, Value;
    BasicValueFits(size);
    BasicValueFits(other);
    if PAYLOAD_SIZE_EXTENDED < size {
      WordLimit();
      ValueOfOctets(size, 8);
      ValueOfOctets(other, 8);
      assert Reversed(Reversed(OctetsOf(size, 8))) == OctetsOf(size, 8);
      assert Reversed(Reversed(OctetsOf(other, 8))) == OctetsOf(other, 8);
    } else if PAYLOAD_SIZE_BASIC < size {
      ValueOfTwo(size);
      ValueOfTwo(other);
      assert SizeField(size)[0] == SizeField(other)[0] && SizeField(size)[1] == SizeField(other)[1];
    }
  }

  // ----- The layout of a header, bit by bit and octet by octet -----

  /** Octets as a number, the most significant one first. */
  function BigEndian(s: seq<byte>): nat {
    if s == [] then 0 else 256 * BigEndian(s[..|s| - 1]) + FromByte(s[|s| - 1])
  }

  lemma {:induction false} BigEndianReverses(s: seq<byte>)
    ensures BigEndian(Reversed(s)) == Value(s)
    decreases |s|
  {
    hide FromByte, Reversed;
    if s != [] {
      var r := Reversed(s);
      assert r[..|r| - 1] == Reversed(s[1..]);
      BigEndianReverses(s[1..]);
    }
  }

  lemma SizeOnWire(size: nat)
    requires size < 0x1_0000_0000_0000_0000
    ensures |SizeField(size)| == if size <= 125 then 0 else if size <= 65535 then 2 else 8
    ensures size > 125 ==> BigEndian(SizeField(size)) == size
  {
    WordLimit();
    var w := OctetsOf(size, 8);
    ValueOfOctets(size, 8);
    BigEndianReverses(w);
    if 125 < size <= 65535 {
      ValueOfTwo(size);
      var s := [ToByte(size % 256), ToByte(size / 256)];
      BigEndianReverses(s);
      assert Reversed(s) == [ToByte(size / 256), ToByte(size % 256)];
    }
    hide BigEndian, OctetsOf, ToByte, Value, Reversed;
  }

  predicate FlagsLaidOut(b: byte, x: Header) {
    && (b & 0x80 != 0) == x.fin && (b & 0x40 != 0) == x.rsv1
    && (b & 0x20 != 0) == x.rsv2 && (b & 0x10 != 0) == x.rsv3
    && b & 0x0F == x.opcode
  }

  /** What follows the first octet of a header. */
  predicate SizeLaidOut(s: seq<byte>, x: Header) {
    && s != [] && (s[0] & 0x80 != 0) == x.mask.Some?
    && var code := FromByte(s[0] & 0x7F);
       && code == (if x.size <= 125 then x.size else if x.size <= 65535 then 126 else 127)
       && var n := if code < 126 then 0 else if code == 126 then 2 else 8;
          && 1 + n <= |s|
          && (n > 0 ==> BigEndian(s[1..1 + n]) == x.size)
          && s[1 + n..] == if x.mask.Some? then x.mask.value else []
  }

  /**
    * The first octet holds four flags and the opcode, the second one the mask bit and a size of up to 125 or a code: 126 in
    * front of two octets with the size, 127 in front of eight, most significant octet first; the key is last.
    */
  lemma Layout(x: Header)
    requires x.opcode < 16 && x.size < 0x1_0000_0000_0000_0000
    ensures var s := Wire(x);
            s != [] && FlagsLaidOut(s[0], x) && SizeLaidOut(s[1..], x)
  {
    assert Valid(x);
    hide *;
    WireParts(x);
    FlagsOnWire(x);
    SizePartLaidOut(x);
  }

  lemma WireParts(x: Header)
    requires Valid(x)
    ensures Wire(x) != [] && Wire(x)[0] == FlagByte(x.fin, x.rsv1, x.rsv2, x.rsv3, x.opcode)
    ensures Wire(x)[1..] == [SizeByte(x.mask.Some?, x.size)] + SizeField(x.size) + KeyField(x.mask)
  {
    hide FlagByte, SizeByte, SizeField, KeyField;
  }

  lemma SizePartLaidOut(x: Header)
    requires x.size < 0x1_0000_0000_0000_0000
    ensures SizeLaidOut([SizeByte(x.mask.Some?, x.size)] + SizeField(x.size) + KeyField(x.mask), x)
  {
    MaskOnWire(x.mask.Some?, x.size);
    SizeOnWire(x.size);
    hide BigEndian, SizeByte, SizeField, FromByte;
    var field, key := SizeField(x.size), KeyField(x.mask);
    var s := [SizeByte(x.mask.Some?, x.size)] + field + key;
    assert s[1..1 + |field|] == field && s[1 + |field|..] == key;
  }

  lemma FlagsOnWire(x: Header)
    requires x.opcode < 16
    ensures FlagsLaidOut(FlagByte(x.fin, x.rsv1, x.rsv2, x.rsv3, x.opcode), x)
  {
  }

  lemma MaskOnWire(mask: bool, size: nat)
    ensures var b := SizeByte(mask, size);
            && (b & 0x80 != 0) == mask
            && FromByte(b & 0x7F) == if size <= 125 then size else if size <= 65535 then 126 else 127
  {
    BasicValueFits(size);
    SizeCodes();
    hide BasicValue, FromByte;
    LowBits(BasicValue(size));
  }

  lemma LowBits(v: byte)
    requires v < 128
    ensures (v & 0x7F) == v && ((128 + v) & 0x7F) == v && (v & 0x80) == 0 && ((128 + v) & 0x80) != 0
  {
  }
}
