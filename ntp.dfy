/**
 * The state kept by ntp.cpp in file-level variables, and the entry points
 * that read and change it: the day/night classifier with its two setters,
 * the request builder and the reply decoder of the time synchronisation.
 *
 * The device clock, the sunrise/sunset calculator and the network are
 * outside the model: a clock reading, the calculator's answers and the
 * packets received before the deadline are parameters.
 */
module Ntp {
  import opened Wrappers
  import opened SummerTime
  import opened NtpPacket
  import opened DayNight

  /** A reading of the device clock (the calendar date and the time of day). */
  datatype Clock = Clock(year: int, month: int, day: int, hour: int, minute: int)

  class NtpState {
    /** The UTC offset in hours found by the last classification (a byte, CET at start-up). */
    var timeZone: int
    /** A custom sunrise in minutes since midnight; only a positive value is used. */
    var sunRiseCustom: int
    /** Minutes by which night starts before the reported sunset. */
    var sunSetOffset: int
    /** The cached sunrise and sunset, in minutes since midnight. */
    var sunRiseMinutes: int
    var sunSetMinutes: int
    /** The buffer shared by the outgoing request and the incoming reply. */
    var packetBuffer: array<Byte>

    ghost predicate Valid()
      reads this
    {
      packetBuffer.Length == NTP_PACKET_SIZE && (timeZone == CET || timeZone == CEST)
    }

    /** The file's static initialisation: CET, every number zero, the buffer zeroed. */
    constructor ()
      ensures Valid() && fresh(packetBuffer)
      ensures timeZone == CET && sunRiseCustom == 0 && sunSetOffset == 0
      ensures sunRiseMinutes == 0 && sunSetMinutes == 0
      ensures packetBuffer[..] == seq(NTP_PACKET_SIZE, _ => 0)
    {
      timeZone := CET;
      sunRiseCustom, sunSetOffset := 0, 0;
      sunRiseMinutes, sunSetMinutes := 0, 0;
      packetBuffer := new Byte[NTP_PACKET_SIZE](_ => 0);
    }

    /**
     * isNight. sunRise and sunSet are what the calculator answers for the
     * clock's date at the new UTC offset (timeZone * 60 minutes): None when
     * the sun does not rise, or set, that day. The clock is read once per
     * call; a TimeLib resynchronisation triggered from inside a clock read
     * is not part of this method (it is GetNtpTime, run between calls).
     */
    method IsNight(clock: Clock, sunRise: Option<SunTime>, sunSet: Option<SunTime>) returns (night: bool)
      requires Valid()
      modifies this`timeZone, this`sunRiseMinutes, this`sunSetMinutes
      ensures Valid()
      ensures timeZone == TimeZone(clock.year, clock.month, clock.day)
      ensures sunRiseMinutes == NextSunRiseMinutes(old(sunRiseMinutes), sunRiseCustom, sunRise)
      ensures sunSetMinutes == NextSunSetMinutes(old(sunSetMinutes), sunSetOffset, sunSet)
      ensures night <==> IsNightAt(MinuteOfDay(clock.hour, clock.minute), sunRiseMinutes, sunSetMinutes)
    {
      timeZone := TimeZone(clock.year, clock.month, clock.day);
      if sunRise.Some? {
        var t := sunRise.value;
        sunRiseMinutes := if sunRiseCustom > 0 then sunRiseCustom else t.hour * 60 + t.minute;
      }
      if sunSet.Some? {
        var t := sunSet.value;
        sunSetMinutes := t.hour * 60 + t.minute - sunSetOffset;
      }
      var currentMinutes := clock.hour * 60 + clock.minute;
      night := currentMinutes > sunSetMinutes || currentMinutes < sunRiseMinutes;
    }

    /** setSunSetOffset: no validation, used from the next classification on. */
    method SetSunSetOffset(offset: int)
      requires Valid()
      modifies this`sunSetOffset
      ensures Valid()
      ensures sunSetOffset == offset
    {
      sunSetOffset := offset;
    }

    /** setSunRiseHour: despite its name, a custom sunrise in minutes since midnight. */
    method SetSunRiseHour(minutes: int)
      requires Valid()
      modifies this`sunRiseCustom
      ensures Valid()
      ensures sunRiseCustom == minutes
    {
      sunRiseCustom := minutes;
    }

    /**
     * The request layout of sendNTPpacket: the buffer is cleared, then the
     * client header bytes are written.
     */
    method SendNtpPacket()
      requires Valid()
      modifies packetBuffer
      ensures Valid()
      ensures packetBuffer[..] == Encode(ClientRequest)
      ensures packetBuffer[0] == 0xE3 && packetBuffer[1] == 0 && packetBuffer[2] == 6 && packetBuffer[3] == 0xEC
      ensures packetBuffer[12] == 49 && packetBuffer[13] == 0x4E && packetBuffer[14] == 49 && packetBuffer[15] == 52
      ensures forall i | 4 <= i < 12 || 16 <= i < NTP_PACKET_SIZE :: packetBuffer[i] == 0
    {
      forall i | 0 <= i < packetBuffer.Length {
        packetBuffer[i] := 0;
      }
      packetBuffer[0] := 0xE3;
      packetBuffer[1] := 0;
      packetBuffer[2] := 6;
      packetBuffer[3] := 0xEC;
      packetBuffer[12] := 49;
      packetBuffer[13] := 0x4E;
      packetBuffer[14] := 49;
      packetBuffer[15] := 52;
      ClientRequestBytes();
      assert packetBuffer[..] == Encode(ClientRequest);
    }

    /**
     * getNtpTime, from sending the request to returning the local time.
     * arrivals are the packets the wait loop finds, in order, before its
     * 1500 ms deadline. Packets shorter than 48 bytes are skipped; the first
     * one of at least 48 bytes has its first 48 bytes read into the buffer,
     * and its Transmit Timestamp is converted with the UTC offset cached by
     * the last classification. With no such packet the result is 0.
     */
    method GetNtpTime(arrivals: seq<seq<Byte>>) returns (t: U32)
      requires Valid()
      modifies packetBuffer
      ensures Valid()
      ensures match FirstFullPacket(arrivals, 0)
        case Some(k) =>
          packetBuffer[..] == arrivals[k][..NTP_PACKET_SIZE]
          && t == LocalEpoch(Decode(arrivals[k][..NTP_PACKET_SIZE]).transmitTime.seconds, timeZone)
        case None => packetBuffer[..] == Encode(ClientRequest) && t == 0
    {
      SendNtpPacket();
      var i := 0;
      while i < |arrivals|
        invariant 0 <= i <= |arrivals|
        invariant FirstFullPacket(arrivals, i) == FirstFullPacket(arrivals, 0)
        invariant packetBuffer[..] == Encode(ClientRequest)
      {
        var size := |arrivals[i]|;
        if size >= NTP_PACKET_SIZE {
          var received := arrivals[i];
          forall j | 0 <= j < NTP_PACKET_SIZE {
            packetBuffer[j] := received[j];
          }
          assert packetBuffer[..] == received[..NTP_PACKET_SIZE];
          var secsSince1900 := ReadTransmitSeconds(packetBuffer);
          t := LocalEpoch(secsSince1900, timeZone);
          return;
        }
        i := i + 1;
      }
      t := 0;
    }
  }

  /**
   * The packet the wait loop of getNtpTime reads: the first, from index
   * from on, of at least 48 bytes.
   */
  function FirstFullPacket(arrivals: seq<seq<Byte>>, from: nat): (r: Option<nat>)
    requires from <= |arrivals|
    ensures r.Some? ==>
      from <= r.value < |arrivals| && |arrivals[r.value]| >= NTP_PACKET_SIZE
      && forall j | from <= j < r.value :: |arrivals[j]| < NTP_PACKET_SIZE
    ensures r.None? <==> forall j | from <= j < |arrivals| :: |arrivals[j]| < NTP_PACKET_SIZE
    decreases |arrivals| - from
  {
    if from == |arrivals| then None
    else if |arrivals[from]| >= NTP_PACKET_SIZE then Some(from)
    else FirstFullPacket(arrivals, from + 1)
  }

  /**
   * A second classification with the same clock, settings and calculator
   * answers gives the same verdict and leaves the state as the first one
   * left it.
   */
  method ClassifyTwice(s: NtpState, clock: Clock, sunRise: Option<SunTime>, sunSet: Option<SunTime>)
    returns (first: bool, second: bool)
    requires s.Valid()
    modifies s`timeZone, s`sunRiseMinutes, s`sunSetMinutes
    ensures s.Valid()
    ensures first == second
    ensures s.timeZone == TimeZone(clock.year, clock.month, clock.day)
    ensures s.sunRiseMinutes == NextSunRiseMinutes(old(s.sunRiseMinutes), s.sunRiseCustom, sunRise)
    ensures s.sunSetMinutes == NextSunSetMinutes(old(s.sunSetMinutes), s.sunSetOffset, sunSet)
  {
    first := s.IsNight(clock, sunRise, sunSet);
    RefreshIsIdempotent(s.sunRiseMinutes, s.sunSetMinutes, s.sunRiseCustom, s.sunSetOffset, sunRise, sunSet);
    second := s.IsNight(clock, sunRise, sunSet);
  }

  /**
   * A synchronisation before any classification converts with CET, the
   * initial UTC offset.
   */
  method SyncBeforeFirstClassification(arrivals: seq<seq<Byte>>) returns (t: U32)
    ensures match FirstFullPacket(arrivals, 0)
      case Some(k) => t == LocalEpoch(Decode(arrivals[k][..NTP_PACKET_SIZE]).transmitTime.seconds, CET)
      case None => t == 0
  {
    var s := new NtpState();
    t := s.GetNtpTime(arrivals);
  }
}
