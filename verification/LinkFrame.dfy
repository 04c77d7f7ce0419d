/** DNP3 link frames (clause 9, data link layer, of IEEE Std 1815-2012): a header block,
    then blocks of up to 16 octets of user data, each block followed by its CRC. */
module LinkFraming {
  import opened Octets
  import opened Crc
  import opened CrcBursts
  import CrcDivision

  const MIN_LENGTH: nat := 5
  const HEADER_SIZE: nat := 10
  const BLOCK_SIZE: nat := 16
  const MAX_USER_DATA: nat := 250
  const MAX_FRAME: nat := 292

  // ---- Blocks ----

  /** A block with its CRC appended, low octet first. */
  function Seal(d: Bytes): Bytes {
    d + Le16(CalcCrc(d))
  }

  /** IsCorrectCRC on a block and the two octets behind it. */
  predicate Sealed(raw: Bytes) {
    |raw| >= 2 && CalcCrc(raw[..|raw| - 2]) == ReadLe16(raw[|raw| - 2], raw[|raw| - 1])
  }

  /** A block passes the check exactly when it ends with the CRC of the rest. */
  lemma SealedIffSeal(raw: Bytes)
    requires |raw| >= 2
    ensures Sealed(raw) <==> raw == Seal(raw[..|raw| - 2])
  {
    hide CalcCrc, ReadLe16, Le16;
    var d, lo, hi := raw[..|raw| - 2], raw[|raw| - 2], raw[|raw| - 1];
    LeInjective(lo, hi);
    LeRoundTrip(CalcCrc(d));
    LeLength(CalcCrc(d));
    assert raw == d + [lo, hi];
  }

  lemma LeLength(w: bv16)
    ensures |Le16(w)| == 2
  {}

  /** What the register holds after a block and its own CRC. */
  const RESIDUE: bv16 := Bits(0xFFFF, 16)

  lemma PairIsLe16(lo: Byte, hi: Byte)
    ensures Pair(lo, hi) == ReadLe16(lo, hi)
  {
  }

  lemma Complement(c: bv16, p: bv16)
    ensures Xor(c, p) == 0xFFFF <==> Xor(c, 0xFFFF) == p
  {
    hide Xor;
    XorTwice(c, p);
    XorTwice(c, 0xFFFF);
  }

  lemma XorTwice(c: bv16, p: bv16)
    ensures Xor(c, Xor(c, p)) == p
  {
  }

  /** A block passes the check exactly when it leaves the residue in the register: the CRC
      octets are checked like any others. */
  lemma SealedIffResidue(raw: Bytes)
    requires |raw| >= 2
    ensures Sealed(raw) <==> Register(0, raw) == RESIDUE
  {
    hide Register, Bits, Xor, Pair, CalcCrc, ReadLe16;
    var d, lo, hi := raw[..|raw| - 2], raw[|raw| - 2], raw[|raw| - 1];
    var c := Register(0, d);
    assert raw == d + [lo, hi];
    RegisterAppend(0, d, [lo, hi]);
    TwoOctets(c, lo, hi);
    CrcIsRegister(d);
    PairIsLe16(lo, hi);
    Complement(c, Pair(lo, hi));
    if Register(0, raw) == RESIDUE { BitsInjective(Xor(c, Pair(lo, hi)), 0xFFFF, 16); }
  }

  /** A sealed block damaged by one burst, data or CRC, fails the check. */
  lemma SealedBurst(raw: Bytes, bad: Bytes)
    requires Sealed(raw) && Damaged(raw, bad)
    ensures !Sealed(bad)
  {
    hide Register, CalcCrc, ReadLe16, Near;
    SealedIffResidue(raw);
    var i: int :| Near(raw, bad, i);
    SameLength(raw, bad, i);
    SealedIffResidue(bad);
    BurstDetected(0, raw, bad);
  }

  // ---- User data ----

  function BlockLen(n: nat): nat {
    if n <= BLOCK_SIZE then n else BLOCK_SIZE
  }

  function WriteUserData(data: Bytes): Bytes
    decreases |data|
  {
    if data == [] then []
    else
      var n := BlockLen(|data|);
      Seal(data[..n]) + WriteUserData(data[n..])
  }

  /** Octets that n octets of user data take, CRCs included. */
  function BodySize(n: nat): nat {
    if n == 0 then 0 else BlockLen(n) + 2 + BodySize(n - BlockLen(n))
  }

  function ReadUserData(raw: Bytes, length: nat): Bytes
    requires BodySize(length) <= |raw|
    decreases length
  {
    if length == 0 then []
    else
      var n := BlockLen(length);
      raw[..n] + ReadUserData(raw[n + 2..], length - n)
  }

  predicate ValidateBodyCRC(raw: Bytes, length: nat)
    requires BodySize(length) <= |raw|
    decreases length
  {
    length == 0 ||
    var n := BlockLen(length);
    Sealed(raw[..n + 2]) && ValidateBodyCRC(raw[n + 2..], length - n)
  }

  function CalcFrameSize(n: nat): nat {
    if n == 0 then HEADER_SIZE
    else HEADER_SIZE + (n / BLOCK_SIZE) * 18 + (if n % BLOCK_SIZE != 0 then n % BLOCK_SIZE + 2 else 0)
  }

  lemma {:induction false} FrameSize(n: nat)
    ensures CalcFrameSize(n) == HEADER_SIZE + BodySize(n)
    decreases n
  {
    if n > BLOCK_SIZE {
      FrameSize(n - BLOCK_SIZE);
      assert n / BLOCK_SIZE == (n - BLOCK_SIZE) / BLOCK_SIZE + 1;
      assert n % BLOCK_SIZE == (n - BLOCK_SIZE) % BLOCK_SIZE;
    }
  }

  lemma MaxFrameSize(n: nat)
    requires n <= MAX_USER_DATA
    ensures HEADER_SIZE <= CalcFrameSize(n) <= MAX_FRAME
  {
    assert n / BLOCK_SIZE <= 15;
  }

  lemma SealLength(d: Bytes)
    ensures |Seal(d)| == |d| + 2 && Seal(d)[..|d|] == d && Sealed(Seal(d))
  {
    hide CalcCrc, Le16, ReadLe16;
    LeLength(CalcCrc(d));
    SealedIffSeal(Seal(d));
  }

  /** Writing then reading gives the data back, whatever follows in the buffer, and
      every block passes its check. */
  lemma {:induction false} UserDataRoundTrip(data: Bytes, x: Bytes)
    ensures |WriteUserData(data)| == BodySize(|data|)
    ensures ReadUserData(WriteUserData(data) + x, |data|) == data
    ensures ValidateBodyCRC(WriteUserData(data) + x, |data|)
    decreases |data|
  {
    hide Seal, Sealed;
    if data != [] {
      var n := BlockLen(|data|);
      var block, rest := data[..n], data[n..];
      SealLength(block);
      UserDataRoundTrip(rest, x);
      var raw := WriteUserData(data) + x;
      assert raw == Seal(block) + (WriteUserData(rest) + x);
      assert raw[..n + 2] == Seal(block) && raw[n + 2..] == WriteUserData(rest) + x;
      assert raw[..n] == raw[..n + 2][..n];
    }
  }

  /** The converse: a body that passes every check is what writing its data produces. */
  lemma {:induction false} ValidBodyIsWritten(raw: Bytes, length: nat)
    requires |raw| == BodySize(length) && ValidateBodyCRC(raw, length)
    ensures |ReadUserData(raw, length)| == length && WriteUserData(ReadUserData(raw, length)) == raw
    decreases length
  {
    hide Seal, Sealed;
    if length != 0 {
      var n := BlockLen(length);
      var rest := raw[n + 2..];
      ValidBodyIsWritten(rest, length - n);
      SealedIffSeal(raw[..n + 2]);
      assert raw[..n + 2][..n] == raw[..n];
      var data := ReadUserData(raw, length);
      assert data[..n] == raw[..n] && data[n..] == ReadUserData(rest, length - n);
      assert raw == raw[..n + 2] + rest;
    }
  }

  /** A valid body damaged by one burst is refused, also where the burst reaches from one
      block into the next. */
  lemma {:induction false} BodyBurstDetected(raw: Bytes, bad: Bytes, length: nat, i: int)
    requires BodySize(length) <= |raw| && ValidateBodyCRC(raw, length)
    requires Near(raw, bad, i) && raw[..BodySize(length)] != bad[..BodySize(length)]
    ensures !ValidateBodyCRC(bad, length)
    decreases length
  {
    hide Sealed, Near;
    SameLength(raw, bad, i);
    var n := BlockLen(length) + 2;
    NearSplit(raw, bad, i, n);
    if raw[..n] != bad[..n] {
      SealedBurst(raw[..n], bad[..n]);
    } else {
      var m := BodySize(length) - n;
      assert raw[..n + m] == raw[..n] + raw[n..][..m] && bad[..n + m] == bad[..n] + bad[n..][..m];
      BodyBurstDetected(raw[n..], bad[n..], length - BlockLen(length), i - 8 * n);
    }
  }

  lemma SameLength(raw: Bytes, bad: Bytes, i: int)
    requires Near(raw, bad, i)
    ensures |raw| == |bad|
  {
  }

  // ---- Headers ----

  const DIR: Byte := 0x80
  const PRM: Byte := 0x40
  const FCB: Byte := 0x20
  const FCV: Byte := 0x10
  const FUNC_OR_PRM: Byte := 0x4F

  const PRI_RESET_LINK_STATES: Byte := 0x40
  const PRI_TEST_LINK_STATES: Byte := 0x42
  const PRI_CONFIRMED_USER_DATA: Byte := 0x43
  const PRI_UNCONFIRMED_USER_DATA: Byte := 0x44
  const PRI_REQUEST_LINK_STATUS: Byte := 0x49
  const SEC_ACK: Byte := 0x00
  const SEC_NACK: Byte := 0x01
  const SEC_LINK_STATUS: Byte := 0x0B
  const SEC_NOT_SUPPORTED: Byte := 0x0F

  datatype Header = Header(length: Byte, ctrl: Byte, dest: bv16, src: bv16)

  function HeaderOctets(h: Header): Bytes {
    [0x05, 0x64, h.length, h.ctrl] + Le16(h.dest) + Le16(h.src)
  }

  function WriteHeader(h: Header): Bytes {
    Seal(HeaderOctets(h))
  }

  function ReadHeader(raw: Bytes): Header
    requires |raw| >= 8
  {
    Header(raw[2], raw[3], ReadLe16(raw[4], raw[5]), ReadLe16(raw[6], raw[7]))
  }

  function ControlByte(fromMaster: bool, fcb: bool, fcv: bool, code: Byte): Byte {
    code | (if fromMaster then DIR else 0) | (if fcb then FCB else 0) | (if fcv then FCV else 0)
  }

  lemma HeaderRoundTrip(h: Header, x: Bytes)
    ensures |WriteHeader(h)| == HEADER_SIZE && WriteHeader(h)[0] == 0x05 && WriteHeader(h)[1] == 0x64
    ensures ReadHeader(WriteHeader(h) + x) == h
    ensures Sealed(WriteHeader(h))
  {
    hide Seal, Sealed, Le16, ReadLe16;
    LeLength(h.dest);
    LeLength(h.src);
    LeRoundTrip(h.dest);
    LeRoundTrip(h.src);
    var d := HeaderOctets(h);
    SealLength(d);
    assert d[4..6] == Le16(h.dest) && d[6..8] == Le16(h.src);
    assert forall i :: 0 <= i < 8 ==> WriteHeader(h)[i] == WriteHeader(h)[..8][i] == d[i];
  }

  lemma ControlBits(fromMaster: bool, fcb: bool, fcv: bool, code: Byte)
    requires code & FUNC_OR_PRM == code
    ensures var c := ControlByte(fromMaster, fcb, fcv, code);
            && (c & DIR != 0 <==> fromMaster) && (c & FCB != 0 <==> fcb) && (c & FCV != 0 <==> fcv)
            && (c & PRM != 0 <==> code & PRM != 0) && c & FUNC_OR_PRM == code
  {}

  /** Where the header has what: the length and the control octet, then both addresses and
      the CRC, low octets first. */
  lemma HeaderLayout(h: Header)
    ensures var raw := WriteHeader(h);
            && |raw| == 10 && raw[..4] == [0x05, 0x64, h.length, h.ctrl]
            && (raw[4] as bv16 == h.dest & 0xFF && raw[5] as bv16 == h.dest >> 8)
            && (raw[6] as bv16 == h.src & 0xFF && raw[7] as bv16 == h.src >> 8)
            && (raw[8] as bv16 == CalcCrc(raw[..8]) & 0xFF && raw[9] as bv16 == CalcCrc(raw[..8]) >> 8)
  {
    hide CalcCrc, Le16, ReadLe16;
    HeaderRoundTrip(h, []);
    var raw := WriteHeader(h);
    assert raw + [] == raw;
    LeLength(h.dest);
    LeLength(h.src);
    assert raw[..8] == HeaderOctets(h);
    LeHalves(raw[4], raw[5]);
    LeHalves(raw[6], raw[7]);
    LeHalves(raw[8], raw[9]);
  }

  /** Octet i of the user data is behind the CRCs of the whole blocks before it. */
  lemma {:induction false} UserDataAt(data: Bytes, i: nat)
    requires i < |data|
    ensures i + 2 * (i / 16) < |WriteUserData(data)| && WriteUserData(data)[i + 2 * (i / 16)] == data[i]
    decreases |data|
  {
    hide Seal, Sealed;
    var n := BlockLen(|data|);
    var block, rest := Seal(data[..n]), WriteUserData(data[n..]);
    SealLength(data[..n]);
    if i < 16 {
      assert block[i] == block[..n][i];
    } else {
      UserDataAt(data[16..], i - 16);
      assert i / 16 == (i - 16) / 16 + 1;
      assert (block + rest)[i + 2 * (i / 16)] == rest[i - 16 + 2 * ((i - 16) / 16)];
    }
  }

  // ---- Frames ----

  /** What a sender formats and what a receiver hands to its sink. */
  datatype Frame =
    | ResetLinkStates(fromMaster: bool, dest: bv16, src: bv16)
    | TestLinkStatus(fromMaster: bool, fcb: bool, dest: bv16, src: bv16)
    | ConfirmedUserData(fromMaster: bool, fcb: bool, dest: bv16, src: bv16, data: Bytes)
    | UnconfirmedUserData(fromMaster: bool, dest: bv16, src: bv16, data: Bytes)
    | RequestLinkStatus(fromMaster: bool, dest: bv16, src: bv16)
    | Ack(fromMaster: bool, dfc: bool, dest: bv16, src: bv16)
    | Nack(fromMaster: bool, dfc: bool, dest: bv16, src: bv16)
    | LinkStatus(fromMaster: bool, dfc: bool, dest: bv16, src: bv16)
    | NotSupported(fromMaster: bool, dfc: bool, dest: bv16, src: bv16)

  function UserData(f: Frame): Bytes {
    if f.ConfirmedUserData? || f.UnconfirmedUserData? then f.data else []
  }

  /** The sender asserts 1 to 250 octets on frames that carry data. */
  predicate Formattable(f: Frame) {
    f.ConfirmedUserData? || f.UnconfirmedUserData? ==> 0 < |f.data| <= MAX_USER_DATA
  }

  function Control(f: Frame): Byte {
    match f
    case ResetLinkStates(m, _, _) => ControlByte(m, false, false, PRI_RESET_LINK_STATES)
    case TestLinkStatus(m, fcb, _, _) => ControlByte(m, fcb, true, PRI_TEST_LINK_STATES)
    case ConfirmedUserData(m, fcb, _, _, _) => ControlByte(m, fcb, true, PRI_CONFIRMED_USER_DATA)
    case UnconfirmedUserData(m, _, _, _) => ControlByte(m, false, false, PRI_UNCONFIRMED_USER_DATA)
    case RequestLinkStatus(m, _, _) => ControlByte(m, false, false, PRI_REQUEST_LINK_STATUS)
    case Ack(m, dfc, _, _) => ControlByte(m, false, dfc, SEC_ACK)
    case Nack(m, dfc, _, _) => ControlByte(m, false, dfc, SEC_NACK)
    case LinkStatus(m, dfc, _, _) => ControlByte(m, false, dfc, SEC_LINK_STATUS)
    case NotSupported(m, dfc, _, _) => ControlByte(m, false, dfc, SEC_NOT_SUPPORTED)
  }

  function FrameHeader(f: Frame): Header
    requires Formattable(f)
  {
    Header(OctetOf(|UserData(f)| + MIN_LENGTH), Control(f), f.dest, f.src)
  }

  function Format(f: Frame): Bytes
    requires Formattable(f)
  {
    WriteHeader(FrameHeader(f)) + WriteUserData(UserData(f))
  }

  // ---- The receiver's checks ----

  datatype HeaderCheck =
    | Good | BadCrc | BadLength | UnknownFunction | UnexpectedFcv | UnexpectedFcb | NoData | UnexpectedData

  function Code(h: Header): Byte { h.ctrl & FUNC_OR_PRM }

  predicate CarriesData(h: Header) {
    Code(h) == PRI_CONFIRMED_USER_DATA || Code(h) == PRI_UNCONFIRMED_USER_DATA
  }

  function CheckFunctionCode(h: Header): HeaderCheck {
    var code, fcv := Code(h), h.ctrl & FCV != 0;
    if h.ctrl & PRM != 0 then
      if code == PRI_CONFIRMED_USER_DATA || code == PRI_TEST_LINK_STATES then
        (if fcv then Good else UnexpectedFcv)
      else if code == PRI_REQUEST_LINK_STATUS || code == PRI_RESET_LINK_STATES || code == PRI_UNCONFIRMED_USER_DATA then
        (if fcv then UnexpectedFcv else Good)
      else UnknownFunction
    else if code == SEC_ACK || code == SEC_NACK || code == SEC_LINK_STATUS || code == SEC_NOT_SUPPORTED then
      (if h.ctrl & FCB != 0 then UnexpectedFcb else Good)
    else UnknownFunction
  }

  /** ValidateHeader, with the error it reports. */
  function CheckHeader(raw: Bytes): HeaderCheck
    requires |raw| == HEADER_SIZE
  {
    var h := ReadHeader(raw);
    if !Sealed(raw) then BadCrc
    else if !((h.length as nat) > 4) then BadLength
    else if CheckFunctionCode(h) != Good then CheckFunctionCode(h)
    else if CarriesData(h) && h.length as nat == MIN_LENGTH then NoData
    else if !CarriesData(h) && h.length as nat > MIN_LENGTH then UnexpectedData
    else Good
  }

  /** A good header damaged by one burst is refused. */
  lemma HeaderBurstDetected(raw: Bytes, bad: Bytes)
    requires |raw| == HEADER_SIZE && CheckHeader(raw) == Good && Damaged(raw, bad)
    ensures |bad| == HEADER_SIZE && CheckHeader(bad) == BadCrc
  {
    hide Sealed, CheckFunctionCode, CarriesData, ReadHeader;
    SealedBurst(raw, bad);
  }

  function DataLength(h: Header): nat
    requires (h.length as nat) > 4
  {
    (h.length as nat) - MIN_LENGTH
  }

  /** PushFrame: the sink call for a checked header. */
  function ToFrame(h: Header, data: Bytes): Option<Frame> {
    var m, fcb, fcv, code := h.ctrl & DIR != 0, h.ctrl & FCB != 0, h.ctrl & FCV != 0, Code(h);
    if code == PRI_RESET_LINK_STATES then Some(ResetLinkStates(m, h.dest, h.src))
    else if code == PRI_TEST_LINK_STATES then Some(TestLinkStatus(m, fcb, h.dest, h.src))
    else if code == PRI_CONFIRMED_USER_DATA then Some(ConfirmedUserData(m, fcb, h.dest, h.src, data))
    else if code == PRI_UNCONFIRMED_USER_DATA then Some(UnconfirmedUserData(m, h.dest, h.src, data))
    else if code == PRI_REQUEST_LINK_STATUS then Some(RequestLinkStatus(m, h.dest, h.src))
    else if code == SEC_ACK then Some(Ack(m, fcv, h.dest, h.src))
    else if code == SEC_NACK then Some(Nack(m, fcv, h.dest, h.src))
    else if code == SEC_LINK_STATUS then Some(LinkStatus(m, fcv, h.dest, h.src))
    else if code == SEC_NOT_SUPPORTED then Some(NotSupported(m, fcv, h.dest, h.src))
    else None
  }

  /** The control octet of every kind of frame, in bits of the standard. */
  lemma ControlOctets(f: Frame)
    ensures Control(f) == (if f.fromMaster then 0x80 else 0x00) |
              match f
              case ResetLinkStates(_, _, _) => 0x40
              case TestLinkStatus(_, fcb, _, _) => if fcb then 0x72 else 0x52
              case ConfirmedUserData(_, fcb, _, _, _) => if fcb then 0x73 else 0x53
              case UnconfirmedUserData(_, _, _, _) => 0x44
              case RequestLinkStatus(_, _, _) => 0x49
              case Ack(_, dfc, _, _) => if dfc then 0x10 else 0x00
              case Nack(_, dfc, _, _) => if dfc then 0x11 else 0x01
              case LinkStatus(_, dfc, _, _) => if dfc then 0x1B else 0x0B
              case NotSupported(_, dfc, _, _) => if dfc then 0x1F else 0x0F
  {
  }

  lemma FrameBits(f: Frame)
    requires Formattable(f)
    ensures var h := FrameHeader(f);
            && CheckFunctionCode(h) == Good && (CarriesData(h) <==> f.ConfirmedUserData? || f.UnconfirmedUserData?)
            && ToFrame(h, UserData(f)) == Some(f)
  {
    hide ControlByte, OctetOf;
    match f
    case ResetLinkStates(m, _, _) => ControlBits(m, false, false, PRI_RESET_LINK_STATES);
    case TestLinkStatus(m, fcb, _, _) => ControlBits(m, fcb, true, PRI_TEST_LINK_STATES);
    case ConfirmedUserData(m, fcb, _, _, _) => ControlBits(m, fcb, true, PRI_CONFIRMED_USER_DATA);
    case UnconfirmedUserData(m, _, _, _) => ControlBits(m, false, false, PRI_UNCONFIRMED_USER_DATA);
    case RequestLinkStatus(m, _, _) => ControlBits(m, false, false, PRI_REQUEST_LINK_STATUS);
    case Ack(m, dfc, _, _) => ControlBits(m, false, dfc, SEC_ACK);
    case Nack(m, dfc, _, _) => ControlBits(m, false, dfc, SEC_NACK);
    case LinkStatus(m, dfc, _, _) => ControlBits(m, false, dfc, SEC_LINK_STATUS);
    case NotSupported(m, dfc, _, _) => ControlBits(m, false, dfc, SEC_NOT_SUPPORTED);
  }

  // ---- The headers that pass are those of frames ----

  /** A primary frame whose frame count is not valid may have its frame count bit set. */
  function Meant(c: Byte): Byte { if c & 0x50 == 0x40 then c & 0xDF else c }

  ghost predicate HeaderOf(f: Frame, h: Header) {
    Formattable(f) && FrameHeader(f) == h.(ctrl := Meant(h.ctrl))
  }

  lemma ControlWhole(c: Byte)
    ensures c == ControlByte(c & DIR != 0, c & FCB != 0, c & FCV != 0, c & FUNC_OR_PRM)
    ensures c & PRM != 0 && c & FCV == 0 ==>
              Meant(c) == ControlByte(c & DIR != 0, false, false, c & FUNC_OR_PRM)
    ensures c & PRM == 0 || c & FCV != 0 ==> Meant(c) == c
  {
  }

  lemma MeantSame(c: Byte)
    ensures Meant(c) & FUNC_OR_PRM == c & FUNC_OR_PRM
    ensures Meant(c) & PRM == c & PRM && Meant(c) & FCV == c & FCV && Meant(c) & DIR == c & DIR
    ensures c & PRM == 0 ==> Meant(c) & FCB == c & FCB
  {
  }

  lemma MeantChecks(h: Header)
    ensures var g := h.(ctrl := Meant(h.ctrl));
            CheckFunctionCode(g) == CheckFunctionCode(h) && (CarriesData(g) <==> CarriesData(h))
  {
    hide Meant;
    MeantSame(h.ctrl);
  }

  /** A frame with the header and any data of the length it announces. */
  lemma FrameFor(h: Header, data: Bytes) returns (f: Frame)
    requires CheckFunctionCode(h) == Good && |data| <= MAX_USER_DATA
    requires h.length == OctetOf(|data| + MIN_LENGTH) && (CarriesData(h) <==> data != [])
    ensures HeaderOf(f, h)
  {
    hide Meant, ControlByte, OctetOf;
    ControlWhole(h.ctrl);
    f := ToFrame(h, data).value;
    CodeBits(h.ctrl);
  }

  lemma CodeBits(c: Byte)
    ensures c & PRM != 0 <==> c & FUNC_OR_PRM >= PRM
  {
  }

  /** A header passes the checks if and only if its CRC is right and it is the header of a
      frame that can be formatted. */
  lemma GoodIffFrame(raw: Bytes)
    requires |raw| == HEADER_SIZE
    ensures CheckHeader(raw) == Good <==> Sealed(raw) && exists f :: HeaderOf(f, ReadHeader(raw))
  {
    hide Sealed, ReadHeader, CheckFunctionCode, CarriesData, Meant;
    var h := ReadHeader(raw);
    if CheckHeader(raw) == Good {
      var n := (h.length as nat) - MIN_LENGTH;
      LengthOctet(h.length);
      var f := FrameFor(h, seq(n, _ => 0));
    }
    if Sealed(raw) && exists f :: HeaderOf(f, h) {
      var f :| HeaderOf(f, h);
      FrameBits(f);
      MeantChecks(h);
      OctetOfNat(|UserData(f)| + MIN_LENGTH);
    }
  }

  lemma LengthOctet(b: Byte)
    ensures b as nat < 256 && OctetOf(b as nat) == b
  {
    OctetOfNat(b as nat);
    SameOctet(OctetOf(b as nat), b);
  }

  lemma SameOctet(a: Byte, b: Byte)
    requires a as nat == b as nat
    ensures a == b
  {
  }

  /** A formatted header passes every check and leads back to its frame. */
  lemma FormattedHeaderGood(f: Frame)
    requires Formattable(f)
    ensures var raw := WriteHeader(FrameHeader(f));
            && |raw| == HEADER_SIZE && CheckHeader(raw) == Good
            && (ReadHeader(raw).length as nat) == |UserData(f)| + MIN_LENGTH
  {
    hide Sealed, Seal, CheckFunctionCode, CarriesData, WriteHeader, ReadHeader;
    var h := FrameHeader(f);
    HeaderRoundTrip(h, []);
    assert WriteHeader(h) + [] == WriteHeader(h);
    FrameBits(f);
    OctetOfNat(|UserData(f)| + MIN_LENGTH);
  }

  /** A formatted frame damaged by one burst anywhere fails in its header, or keeps its header
      and fails in its body. */
  lemma FrameBurstDetected(f: Frame, bad: Bytes)
    requires Formattable(f) && Damaged(Format(f), bad)
    ensures |bad| == |Format(f)| == HEADER_SIZE + BodySize(|UserData(f)|)
    ensures CheckHeader(bad[..HEADER_SIZE]) != Good ||
            (bad[..HEADER_SIZE] == WriteHeader(FrameHeader(f)) && !ValidateBodyCRC(bad[HEADER_SIZE..], |UserData(f)|))
  {
    hide CheckHeader, Sealed, WriteHeader, FrameHeader, UserData, Near;
    var raw, data := Format(f), UserData(f);
    FormattedHeaderGood(f);
    UserDataRoundTrip(data, []);
    var body := WriteUserData(data);
    assert body + [] == body && raw[..HEADER_SIZE] == WriteHeader(FrameHeader(f)) && raw[HEADER_SIZE..] == body;
    var i: int :| Near(raw, bad, i);
    SameLength(raw, bad, i);
    NearSplit(raw, bad, i, HEADER_SIZE);
    if raw[..HEADER_SIZE] != bad[..HEADER_SIZE] {
      HeaderBurstDetected(raw[..HEADER_SIZE], bad[..HEADER_SIZE]);
    } else {
      assert raw == raw[..HEADER_SIZE] + raw[HEADER_SIZE..] && bad == bad[..HEADER_SIZE] + bad[HEADER_SIZE..];
      assert body[..|body|] == body && bad[HEADER_SIZE..][..|body|] == bad[HEADER_SIZE..];
      BodyBurstDetected(body, bad[HEADER_SIZE..], |data|, i - 8 * HEADER_SIZE);
    }
  }

  /** A frame of the protocol's own tests, octet by octet. */
  lemma ResetFrame()
    ensures Format(ResetLinkStates(true, 1, 1024))
            == [0x05, 0x64, 0x05, 0xC0, 0x01, 0x00, 0x00, 0x04, 0xE9, 0x21]
  {
    hide CalcCrc;
    var f := ResetLinkStates(true, 1, 1024);
    var d: Bytes := [0x05, 0x64, 0x05, 0xC0, 0x01, 0x00, 0x00, 0x04];
    assert OctetOf(5) == 5 && Control(f) == 0xC0 && Le16(1) == [1, 0] && Le16(1024) == [0, 4];
    assert HeaderOctets(FrameHeader(f)) == d;
    CrcDivision.CrcOfReset();
    assert Le16(0x21E9) == [0xE9, 0x21];
    assert Format(f) == d + [0xE9, 0x21];
  }
}
