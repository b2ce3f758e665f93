// WebSocket frame headers (frame.hpp; section 5.2 of RFC 6455) and the checks
// hybi13.hpp makes on incoming ones.
module Frame {
  import opened Bytes
  import opened Masking

  // Opcodes
  const CONTINUATION: nat := 0x0
  const TEXT: nat := 0x1
  const BINARY: nat := 0x2
  const CLOSE: nat := 0x8
  const PING: nat := 0x9
  const PONG: nat := 0xA

  type Opcode = x: nat | x < 16

  predicate IsControl(op: Opcode) { op >= 0x8 }

  predicate Reserved(op: Opcode) { 3 <= op <= 7 || 0xB <= op <= 0xF }

  const PAYLOAD_SIZE_BASIC: nat := 125
  const PAYLOAD_SIZE_EXTENDED: nat := 0xFFFF
  const CODE_16BIT: nat := 0x7E
  const CODE_64BIT: nat := 0x7F
  const BASIC_HEADER_LENGTH: nat := 2
  const MAX_EXTENDED_HEADER_LENGTH: nat := 12

  datatype BasicHeader = BasicHeader(b0: byte, b1: byte)

  type ExtendedHeader = e: seq<byte> | |e| == 12
    witness [0, 0, 0, 0, 0, 0, 0, 0, 0, 0, 0, 0]

  const NO_EXTENSION: ExtendedHeader := [0, 0, 0, 0, 0, 0, 0, 0, 0, 0, 0, 0]

  datatype Error =
    | ControlTooBig | InvalidRsvBit | InvalidOpcode | FragmentedControl
    | InvalidContinuation | MaskingRequired | MaskingForbidden
    | NonMinimalEncoding | MessageTooBig | InvalidUtf8
    | InvalidPayload | ProtocolViolation

  // ------------------------------------------------------------ extractors

  predicate GetFin(h: BasicHeader) { h.b0 / 0x80 % 2 == 1 }
  predicate GetRsv1(h: BasicHeader) { h.b0 / 0x40 % 2 == 1 }
  predicate GetRsv2(h: BasicHeader) { h.b0 / 0x20 % 2 == 1 }
  predicate GetRsv3(h: BasicHeader) { h.b0 / 0x10 % 2 == 1 }
  function GetOpcode(h: BasicHeader): Opcode { h.b0 % 0x10 }
  predicate GetMasked(h: BasicHeader) { h.b1 / 0x80 % 2 == 1 }
  function GetBasicSize(h: BasicHeader): (n: nat)
    ensures n < 0x80
  {
    h.b1 % 0x80
  }

  function MaskingKeyOffset(h: BasicHeader): nat {
    if GetBasicSize(h) == CODE_16BIT then 2
    else if GetBasicSize(h) == CODE_64BIT then 8
    else 0
  }

  function HeaderLength(h: BasicHeader): (n: nat)
    ensures 2 <= n <= 14
  {
    BASIC_HEADER_LENGTH + MaskingKeyOffset(h) + if GetMasked(h) then 4 else 0
  }

  /** get_masking_key: the zero key when the frame is not masked. */
  function GetMaskingKey(h: BasicHeader, e: ExtendedHeader): MaskingKey {
    if !GetMasked(h) then NO_KEY
    else e[MaskingKeyOffset(h)..MaskingKeyOffset(h) + 4]
  }

  function GetPayloadSize(h: BasicHeader, e: ExtendedHeader): (n: uint64)
  {
    BigEndianBound(e[..2]);
    BigEndianBound(e[..8]);
    Pow256Values();
    if GetBasicSize(h) <= PAYLOAD_SIZE_BASIC then GetBasicSize(h)
    else if GetBasicSize(h) == CODE_16BIT then BigEndian(e[..2])
    else BigEndian(e[..8])
  }

  // ----------------------------------------------------------- constructors

  function Bit(b: bool, weight: nat): nat { if b then weight else 0 }

  function MakeBasicHeader(op: Opcode, size: uint64, fin: bool, mask: bool,
                           rsv1: bool, rsv2: bool, rsv3: bool): BasicHeader {
    BasicHeader(Bit(fin, 0x80) + Bit(rsv1, 0x40) + Bit(rsv2, 0x20) + Bit(rsv3, 0x10) + op,
                Bit(mask, 0x80) + BasicValue(size))
  }

  function BasicValue(size: uint64): (v: nat)
    ensures v < 0x80
  {
    if size <= PAYLOAD_SIZE_BASIC then size
    else if size <= PAYLOAD_SIZE_EXTENDED then CODE_16BIT
    else CODE_64BIT
  }

  /** copy_payload: the bytes of the size that the extended header holds. */
  function SizeBytes(size: uint64): (s: seq<byte>)
    ensures |s| in {0, 2, 8}
  {
    if size <= PAYLOAD_SIZE_BASIC then []
    else if size <= PAYLOAD_SIZE_EXTENDED then ToBigEndian(size, 2)
    else ToBigEndian(size, 8)
  }

  function Padded(s: seq<byte>): ExtendedHeader
    requires |s| <= 12
  {
    s + Zeros(12 - |s|)
  }

  /** The two constructors of extended_header; key is absent for unmasked frames. */
  function MakeExtendedHeader(size: uint64, key: Option<MaskingKey>): ExtendedHeader {
    Padded(SizeBytes(size) + if key.Some? then key.value else [])
  }

  function PrepareHeader(h: BasicHeader, e: ExtendedHeader): seq<byte> {
    [h.b0, h.b1] + e[..HeaderLength(h) - BASIC_HEADER_LENGTH]
  }

  // ------------------------------------------------------------- validation

  /** validate_incoming_basic_header, permessage-deflate disabled. */
  function ValidateBasic(h: BasicHeader, isServer: bool, newMsg: bool): Option<Error> {
    var op := GetOpcode(h);
    if IsControl(op) && GetBasicSize(h) > PAYLOAD_SIZE_BASIC then Some(ControlTooBig)
    else if GetRsv1(h) then Some(InvalidRsvBit)
    else if GetRsv2(h) || GetRsv3(h) then Some(InvalidRsvBit)
    else if Reserved(op) then Some(InvalidOpcode)
    else if IsControl(op) && !GetFin(h) then Some(FragmentedControl)
    else if newMsg && op == CONTINUATION then Some(InvalidContinuation)
    else if !newMsg && !IsControl(op) && op != CONTINUATION then Some(InvalidContinuation)
    else if isServer && !GetMasked(h) then Some(MaskingRequired)
    else if !isServer && GetMasked(h) then Some(MaskingForbidden)
    else None
  }

  /** validate_incoming_extended_header on a 64-bit machine. */
  function ValidateExtended(h: BasicHeader, e: ExtendedHeader): Option<Error> {
    var basicSize, payloadSize := GetBasicSize(h), GetPayloadSize(h, e);
    if basicSize == CODE_16BIT && payloadSize <= PAYLOAD_SIZE_BASIC then Some(NonMinimalEncoding)
    else if basicSize == CODE_64BIT && payloadSize <= PAYLOAD_SIZE_EXTENDED then Some(NonMinimalEncoding)
    else None
  }

  // ------------------------------------------------------ canonical headers

  /** The header the two constructors and prepare_header build for a frame. */
  function Header(op: Opcode, fin: bool, size: uint64, key: Option<MaskingKey>): seq<byte> {
    PrepareHeader(MakeBasicHeader(op, size, fin, key.Some?, false, false, false), MakeExtendedHeader(size, key))
  }

  /** The extractors of the basic header invert its constructor. */
  lemma BasicHeaderInverse(op: Opcode, size: uint64, fin: bool, mask: bool, rsv1: bool, rsv2: bool, rsv3: bool)
    ensures var h := MakeBasicHeader(op, size, fin, mask, rsv1, rsv2, rsv3);
      && GetOpcode(h) == op && GetFin(h) == fin && GetMasked(h) == mask
      && GetRsv1(h) == rsv1 && GetRsv2(h) == rsv2 && GetRsv3(h) == rsv3
      && GetBasicSize(h) == BasicValue(size)
  {
  }

  /** The extractors of the whole header invert the constructors, for every size. */
  lemma HeaderInverse(op: Opcode, fin: bool, size: uint64, key: Option<MaskingKey>)
    ensures var h := MakeBasicHeader(op, size, fin, key.Some?, false, false, false);
      var e := MakeExtendedHeader(size, key);
      && GetPayloadSize(h, e) == size
      && GetMaskingKey(h, e) == (if key.Some? then key.value else NO_KEY)
      && HeaderLength(h) == 2 + |SizeBytes(size)| + (if key.Some? then 4 else 0)
      && ValidateExtended(h, e) == None
  {
    var h := MakeBasicHeader(op, size, fin, key.Some?, false, false, false);
    var e := MakeExtendedHeader(size, key);
    BasicHeaderInverse(op, size, fin, key.Some?, false, false, false);
    var n := |SizeBytes(size)|;
    assert e[..n] == SizeBytes(size);
    Pow256Values();
    if n == 2 { BigEndianInverts(size, 2); }
    if n == 8 { BigEndianInverts(size, 8); }
    if key.Some? { assert e[n..n + 4] == key.value; }
  }

  /** Every header both validators accept is the one the constructors build from
      what it says: opcode, FIN, length and key leave no other encoding. */
  lemma CanonicalHeader(h: BasicHeader, e: ExtendedHeader, isServer: bool, newMsg: bool)
    requires ValidateBasic(h, isServer, newMsg) == None && ValidateExtended(h, e) == None
    ensures PrepareHeader(h, e) ==
      Header(GetOpcode(h), GetFin(h), GetPayloadSize(h, e), if GetMasked(h) then Some(GetMaskingKey(h, e)) else None)
  {
    var size := GetPayloadSize(h, e);
    var key := if GetMasked(h) then Some(GetMaskingKey(h, e)) else None;
    var h' := MakeBasicHeader(GetOpcode(h), size, GetFin(h), GetMasked(h), false, false, false);
    var n := MaskingKeyOffset(h);
    CanonicalSize(h, e);
    CanonicalBits(h, size);
    assert h' == h;
    assert SizeBytes(size) == e[..n];
    assert GetMasked(h) ==> e[..n + 4] == e[..n] + e[n..n + 4];
    assert MakeExtendedHeader(size, key)[..HeaderLength(h) - 2] == e[..HeaderLength(h) - 2];
  }

  lemma CanonicalSize(h: BasicHeader, e: ExtendedHeader)
    requires ValidateExtended(h, e) == None
    ensures BasicValue(GetPayloadSize(h, e)) == GetBasicSize(h)
    ensures SizeBytes(GetPayloadSize(h, e)) == e[..MaskingKeyOffset(h)]
  {
    Pow256Values();
    if GetBasicSize(h) == CODE_16BIT {
      BigEndianBound(e[..2]);
      ToBigEndianInverts(e[..2]);
    } else if GetBasicSize(h) == CODE_64BIT {
      ToBigEndianInverts(e[..8]);
    }
  }

  lemma CanonicalBits(h: BasicHeader, size: uint64)
    requires !GetRsv1(h) && !GetRsv2(h) && !GetRsv3(h)
    requires BasicValue(size) == GetBasicSize(h)
    ensures MakeBasicHeader(GetOpcode(h), size, GetFin(h), GetMasked(h), false, false, false) == h
  {
  }
}
