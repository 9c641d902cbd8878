/**
 * The bytes of an NTP packet (RFC 5905 section 7.3) and the arithmetic that
 * turns the Transmit Timestamp of a reply into local epoch seconds.
 *
 * Packet bytes are `bv8`. The firmware's `unsigned long` is 32 bits wide on
 * its target and wraps around; it is modelled by the integer type U32 and
 * an explicit reduction modulo 2^32.
 */
module NtpPacket {
  import Calendar

  type Byte = bv8

  const TWO_32: int := 0x1_0000_0000

  newtype U32 = x: int | 0 <= x < 0x1_0000_0000

  /** The request and the reply both occupy the first 48 bytes of a message. */
  const NTP_PACKET_SIZE: nat := 48

  /** Seconds from 1900-01-01 (the NTP era-0 origin) to 1970-01-01 (the Unix epoch). */
  const SEVENTY_YEARS: int := 2208988800

  const SECS_PER_HOUR: int := 3600

  // ---------------------------------------------------------------------
  // The packet header, field by field

  /** A 64-bit NTP timestamp: whole seconds and a binary fraction of a second. */
  datatype Timestamp = Timestamp(seconds: bv32, fraction: bv32)

  /** The 48-byte header of RFC 5905 section 7.3, one field per member. */
  datatype Header = Header(
    leap: Byte, version: Byte, mode: Byte,
    stratum: Byte, poll: Byte, precision: Byte,
    rootDelay: bv32, rootDispersion: bv32, referenceId: bv32,
    referenceTime: Timestamp, originTime: Timestamp,
    receiveTime: Timestamp, transmitTime: Timestamp)

  /** The three fields that share the first byte fit their widths (2, 3 and 3 bits). */
  predicate WellFormed(h: Header) {
    h.leap < 4 && h.version < 8 && h.mode < 8
  }

  /** Byte j (0 = most significant) of a 32-bit field in network (big-endian) byte order. */
  function FieldByte(x: bv32, j: int): Byte
    requires 0 <= j < 4
  {
    if j == 0 then (x >> 24) as Byte
    else if j == 1 then ((x >> 16) & 0xFF) as Byte
    else if j == 2 then ((x >> 8) & 0xFF) as Byte
    else (x & 0xFF) as Byte
  }

  /**
   * The value of a 32-bit field from its four bytes in network byte order,
   * assembled with the shifts and bitwise ORs that getNtpTime uses.
   */
  function Value32(b0: Byte, b1: Byte, b2: Byte, b3: Byte): bv32 {
    ((b0 as bv32) << 24) | ((b1 as bv32) << 16) | ((b2 as bv32) << 8) | (b3 as bv32)
  }

  lemma Value32OfFieldBytes(x: bv32)
    ensures Value32(FieldByte(x, 0), FieldByte(x, 1), FieldByte(x, 2), FieldByte(x, 3)) == x
  {
  }

  /** The bytes occupy disjoint bits, so ORing the shifted bytes adds them up. */
  lemma Value32AsNumber(b0: Byte, b1: Byte, b2: Byte, b3: Byte)
    ensures Value32(b0, b1, b2, b3) as int
      == b0 as int * 0x100_0000 + b1 as int * 0x1_0000 + b2 as int * 0x100 + b3 as int
  {
    var x := Value32(b0, b1, b2, b3);
    SplitHigh(x);
    SplitMiddle(x);
    SplitLow(x);
    ByteAsInt(x >> 24, b0);
    ByteAsInt((x >> 16) & 0xFF, b1);
    ByteAsInt((x >> 8) & 0xFF, b2);
    ByteAsInt(x & 0xFF, b3);
  }

  lemma ByteAsInt(y: bv32, b: Byte)
    requires y == b as bv32
    ensures y as int == b as int
  {
  }

  lemma SplitHigh(x: bv32)
    ensures x as int == (x >> 24) as int * 0x100_0000 + (x & 0xFF_FFFF) as int
  {
  }

  lemma SplitMiddle(x: bv32)
    ensures (x & 0xFF_FFFF) as int == ((x >> 16) & 0xFF) as int * 0x1_0000 + (x & 0xFFFF) as int
  {
  }

  lemma SplitLow(x: bv32)
    ensures (x & 0xFFFF) as int == ((x >> 8) & 0xFF) as int * 0x100 + (x & 0xFF) as int
  {
  }

  /** Leap Indicator, Version Number and Mode packed into one byte, most significant first. */
  function FirstByte(leap: Byte, version: Byte, mode: Byte): Byte {
    (leap << 6) | (version << 3) | mode
  }

  lemma FirstByteRoundTrip(leap: Byte, version: Byte, mode: Byte)
    requires leap < 4 && version < 8 && mode < 8
    ensures var b := FirstByte(leap, version, mode);
      b >> 6 == leap && (b >> 3) & 7 == version && b & 7 == mode
  {
  }

  /**
   * Bytes 4 to 47 of the header are eleven 32-bit words, the rows of the
   * packet diagram of RFC 5905 section 7.3: word k occupies bytes 4k to 4k + 3.
   */
  function Word(h: Header, k: int): bv32
    requires 1 <= k < 12
  {
    if k == 1 then h.rootDelay
    else if k == 2 then h.rootDispersion
    else if k == 3 then h.referenceId
    else if k == 4 then h.referenceTime.seconds
    else if k == 5 then h.referenceTime.fraction
    else if k == 6 then h.originTime.seconds
    else if k == 7 then h.originTime.fraction
    else if k == 8 then h.receiveTime.seconds
    else if k == 9 then h.receiveTime.fraction
    else if k == 10 then h.transmitTime.seconds
    else h.transmitTime.fraction
  }

  /** The byte at offset i of the encoded header. */
  function HeaderByte(h: Header, i: int): Byte
    requires 0 <= i < NTP_PACKET_SIZE
  {
    if i == 0 then FirstByte(h.leap, h.version, h.mode)
    else if i == 1 then h.stratum
    else if i == 2 then h.poll
    else if i == 3 then h.precision
    else FieldByte(Word(h, i / 4), i % 4)
  }

  function Encode(h: Header): (p: seq<Byte>)
    ensures |p| == NTP_PACKET_SIZE
  {
    seq(NTP_PACKET_SIZE, i requires 0 <= i < NTP_PACKET_SIZE => HeaderByte(h, i))
  }

  /** The 32-bit word k of a packet, assembled from its bytes. */
  function Field32(p: seq<Byte>, k: int): bv32
    requires 1 <= k < 12 && |p| == NTP_PACKET_SIZE
  {
    Value32(p[4 * k], p[4 * k + 1], p[4 * k + 2], p[4 * k + 3])
  }

  function Decode(p: seq<Byte>): (h: Header)
    requires |p| == NTP_PACKET_SIZE
    ensures WellFormed(h)
  {
    Header(p[0] >> 6, (p[0] >> 3) & 7, p[0] & 7, p[1], p[2], p[3],
           Field32(p, 1), Field32(p, 2), Field32(p, 3),
           Timestamp(Field32(p, 4), Field32(p, 5)), Timestamp(Field32(p, 6), Field32(p, 7)),
           Timestamp(Field32(p, 8), Field32(p, 9)), Timestamp(Field32(p, 10), Field32(p, 11)))
  }

  /** Each word survives the trip through the bytes. */
  lemma Field32OfEncode(h: Header, k: int)
    requires 1 <= k < 12
    ensures Field32(Encode(h), k) == Word(h, k)
  {
    var p := Encode(h);
    var w := Word(h, k);
    DivModFour(k, 0);
    DivModFour(k, 1);
    DivModFour(k, 2);
    DivModFour(k, 3);
    assert p[4 * k] == FieldByte(w, 0) && p[4 * k + 1] == FieldByte(w, 1);
    assert p[4 * k + 2] == FieldByte(w, 2) && p[4 * k + 3] == FieldByte(w, 3);
    Field32Of(p, k, w);
  }

  lemma Field32Of(p: seq<Byte>, k: int, w: bv32)
    requires 1 <= k < 12 && |p| == NTP_PACKET_SIZE
    requires p[4 * k] == FieldByte(w, 0) && p[4 * k + 1] == FieldByte(w, 1)
    requires p[4 * k + 2] == FieldByte(w, 2) && p[4 * k + 3] == FieldByte(w, 3)
    ensures Field32(p, k) == w
  {
    Value32OfFieldBytes(w);
  }

  lemma DivModFour(k: int, j: int)
    requires 0 <= j < 4
    ensures (4 * k + j) / 4 == k && (4 * k + j) % 4 == j
  {
  }

  lemma DecodeEncode(h: Header)
    requires WellFormed(h)
    ensures Decode(Encode(h)) == h
  {
    FirstByteRoundTrip(h.leap, h.version, h.mode);
    assert Encode(h)[0] == FirstByte(h.leap, h.version, h.mode);
    forall k | 1 <= k < 12
      ensures Field32(Encode(h), k) == Word(h, k)
    {
      Field32OfEncode(h, k);
    }
  }

  lemma FieldBytesOfValue32(b0: Byte, b1: Byte, b2: Byte, b3: Byte)
    ensures var x := Value32(b0, b1, b2, b3);
      FieldByte(x, 0) == b0 && FieldByte(x, 1) == b1 && FieldByte(x, 2) == b2 && FieldByte(x, 3) == b3
  {
  }

  lemma FirstByteOfFields(b: Byte)
    ensures FirstByte(b >> 6, (b >> 3) & 7, b & 7) == b
  {
  }

  /** Word k of a decoded header is word k of the packet. */
  lemma WordOfDecode(p: seq<Byte>, k: int)
    requires |p| == NTP_PACKET_SIZE && 1 <= k < 12
    ensures Word(Decode(p), k) == Field32(p, k)
  {
  }

  /** Every 48-byte packet is the encoding of the header it decodes to. */
  lemma EncodeDecode(p: seq<Byte>)
    requires |p| == NTP_PACKET_SIZE
    ensures Encode(Decode(p)) == p
  {
    var h := Decode(p);
    forall i | 0 <= i < NTP_PACKET_SIZE
      ensures Encode(h)[i] == p[i]
    {
      if i < 4 {
        FirstByteOfFields(p[0]);
      } else {
        WordByteOfDecode(p, i);
      }
    }
  }

  lemma WordByteOfDecode(p: seq<Byte>, i: int)
    requires |p| == NTP_PACKET_SIZE && 4 <= i < NTP_PACKET_SIZE
    ensures HeaderByte(Decode(p), i) == p[i]
  {
    var k, j := i / 4, i % 4;
    WordOfDecode(p, k);
    FieldByteOfField32(p, k, j);
  }

  lemma FieldByteOfField32(p: seq<Byte>, k: int, j: int)
    requires |p| == NTP_PACKET_SIZE && 1 <= k < 12 && 0 <= j < 4
    ensures FieldByte(Field32(p, k), j) == p[4 * k + j]
  {
    FieldBytesOfValue32(p[4 * k], p[4 * k + 1], p[4 * k + 2], p[4 * k + 3]);
  }

  /** The Transmit Timestamp seconds of a reply: bytes 40 to 43, most significant first. */
  lemma TransmitSecondsValue(p: seq<Byte>)
    requires |p| == NTP_PACKET_SIZE
    ensures Decode(p).transmitTime.seconds as int
      == p[40] as int * 0x100_0000 + p[41] as int * 0x1_0000 + p[42] as int * 0x100 + p[43] as int
  {
    Value32AsNumber(p[40], p[41], p[42], p[43]);
  }

  // ---------------------------------------------------------------------
  // The client request

  /**
   * The header the firmware sends: clock unsynchronized (leap 3), version 4,
   * client mode (3), stratum 0, poll exponent 6 (64 s), precision 0xEC
   * (-20 as a signed byte, about a microsecond), reference identifier "1N14"
   * in ASCII, and everything else zero.
   */
  const ClientRequest: Header :=
    Header(3, 4, 3, 0, 6, 0xEC, 0, 0, 0x314E_3134,
           Timestamp(0, 0), Timestamp(0, 0), Timestamp(0, 0), Timestamp(0, 0))

  /** The request, byte by byte: the header fields at their offsets, zero elsewhere. */
  lemma ClientRequestBytes()
    ensures WellFormed(ClientRequest)
    ensures var p := Encode(ClientRequest);
      p[0] == 0xE3 && p[1] == 0 && p[2] == 6 && p[3] == 0xEC
      && p[12] == 49 && p[13] == 0x4E && p[14] == 49 && p[15] == 52
      && (forall i | 4 <= i < 12 || 16 <= i < NTP_PACKET_SIZE :: p[i] == 0)
  {
    assert forall j | 0 <= j < 4 :: FieldByte(0, j) == 0;
    assert forall k | 1 <= k < 12 && k != 3 :: Word(ClientRequest, k) == 0;
  }

  // ---------------------------------------------------------------------
  // Reading the reply

  /**
   * The statements of getNtpTime that assemble secsSince1900 from bytes 40
   * to 43 of the received packet.
   */
  method ReadTransmitSeconds(packetBuffer: array<Byte>) returns (secsSince1900: bv32)
    requires packetBuffer.Length == NTP_PACKET_SIZE
    ensures secsSince1900 == Decode(packetBuffer[..]).transmitTime.seconds
    ensures secsSince1900 as int == packetBuffer[40] as int * 0x100_0000
      + packetBuffer[41] as int * 0x1_0000 + packetBuffer[42] as int * 0x100 + packetBuffer[43] as int
  {
    secsSince1900 := (packetBuffer[40] as bv32) << 24;
    secsSince1900 := secsSince1900 | ((packetBuffer[41] as bv32) << 16);
    secsSince1900 := secsSince1900 | ((packetBuffer[42] as bv32) << 8);
    secsSince1900 := secsSince1900 | (packetBuffer[43] as bv32);
    Value32AsNumber(packetBuffer[40], packetBuffer[41], packetBuffer[42], packetBuffer[43]);
  }

  // ---------------------------------------------------------------------
  // From NTP seconds to local epoch seconds

  /** An `unsigned long` result: the value modulo 2^32. */
  function Wrap(n: int): U32 {
    (n % TWO_32) as U32
  }

  /**
   * `secsSince1900 - 2208988800UL + timeZone * SECS_PER_HOUR`: both steps
   * wrap around at 2^32, and together they give the exact value modulo 2^32.
   */
  function LocalEpoch(secsSince1900: bv32, timeZone: int): (t: U32)
    ensures t as int == (secsSince1900 as int - SEVENTY_YEARS + timeZone * SECS_PER_HOUR) % TWO_32
  {
    var sinceUnixEpoch := Wrap(secsSince1900 as int - SEVENTY_YEARS);
    WrapAdd(secsSince1900 as int - SEVENTY_YEARS, timeZone * SECS_PER_HOUR);
    Wrap(sinceUnixEpoch as int + timeZone * SECS_PER_HOUR)
  }

  lemma WrapAdd(a: int, b: int)
    ensures (a % TWO_32 + b) % TWO_32 == (a + b) % TWO_32
  {
    var q := a / TWO_32;
    assert a == q * TWO_32 + a % TWO_32;
    ModShift(a % TWO_32 + b, q);
  }

  lemma ModShift(n: int, q: int)
    ensures (n + q * TWO_32) % TWO_32 == n % TWO_32
  {
  }

  /** For a timestamp after 1970 whose local time still fits, nothing wraps. */
  lemma LocalEpochWithoutWrap(secsSince1900: bv32, timeZone: int)
    requires 0 <= timeZone
    requires SEVENTY_YEARS <= secsSince1900 as int
    requires secsSince1900 as int - SEVENTY_YEARS + timeZone * SECS_PER_HOUR < TWO_32
    ensures LocalEpoch(secsSince1900, timeZone) as int
      == secsSince1900 as int - SEVENTY_YEARS + timeZone * SECS_PER_HOUR
  {
  }

  /** The conversion loses nothing: the NTP seconds can be recovered from it. */
  lemma LocalEpochRecoversSeconds(secsSince1900: bv32, timeZone: int)
    ensures Wrap(LocalEpoch(secsSince1900, timeZone) as int + SEVENTY_YEARS - timeZone * SECS_PER_HOUR) as int
      == secsSince1900 as int
  {
    var s := secsSince1900 as int;
    var c := SEVENTY_YEARS - timeZone * SECS_PER_HOUR;
    UndoShift(s - c, c, s);
  }

  lemma UndoShift(n: int, c: int, s: int)
    requires n == s - c && 0 <= s < TWO_32
    ensures (n % TWO_32 + c) % TWO_32 == s
  {
    WrapAdd(n, c);
    assert n + c == s;
  }

  /** The epoch constant is the seventy years 1900-1969, 17 of them leap years, in seconds. */
  lemma SeventyYearsOfSeconds()
    ensures SEVENTY_YEARS == (Calendar.DaysBeforeYear(1970) - Calendar.DaysBeforeYear(1900)) * 86400
  {
    Calendar.DaysBeforeYearClosedForm(1900);
    Calendar.DaysBeforeYearClosedForm(1970);
    assert Calendar.LeapYearsUpTo(1899) == 460;
    assert Calendar.LeapYearsUpTo(1969) == 477;
    assert Calendar.DaysBeforeYear(1970) - Calendar.DaysBeforeYear(1900) == 70 * 365 + 17;
  }

}
