# ntp.cpp: summer time, day/night state and NTP packet bytes

This project models the decision logic of `ntp.cpp`, the time module of an
ESP32 firmware. It covers three parts:

- The European summer-time rule. `getLastSunday` finds a transition day,
  `isEuropeanSummerTime` classifies a date, and `getTimeZone` turns the
  verdict into the UTC offset CET (1) or CEST (2).
- The day/night classifier `isNight` and its two setters, over the five
  file-level variables `timeZone`, `sunRiseCustom`, `sunSetOffset`,
  `sunRiseMinutes` and `sunSetMinutes`.
- The 48-byte packet buffer. `sendNTPpacket` fills it with the client
  request of RFC 5905 section 7.3. `getNtpTime` reads the Transmit
  Timestamp seconds (bytes 40 to 43, big-endian) from the reply and converts
  them to local epoch seconds with 32-bit `unsigned long` arithmetic.

Files:

- `calendar.dfy` (module `Calendar`): a reference proleptic Gregorian
  calendar. It gives day numbers and weekdays (0 = Sunday), and the
  summer-time formula is compared against it.
- `summer_time.dfy` (module `SummerTime`): `getLastSunday`,
  `isEuropeanSummerTime` and `getTimeZone` as functions. They use C++'s
  truncating `/` and `%`, so they agree with the firmware for every year
  whose weekday expression fits in a 32-bit `int`, negative years
  included. Lemmas cover the month cases and the [25, 31] bound for all
  of these years. What line 37 computes is proved for every year from 1
  on, which includes every year the device clock can report.
- `ntp_packet.dfy` (module `NtpPacket`): the header as a datatype, its
  byte encoding and decoding proved to be inverse bijections, the request
  constant, the `|=` assembly of `secsSince1900` on the buffer, and the
  modulo-2^32 conversion to local time.
- `day_night.dfy` (module `DayNight`): the verdict of `isNight` and the
  cache updates as functions of the previous cache, the settings and the
  answers of the sunrise/sunset calculator.
- `ntp.dfy` (module `Ntp`): the class `NtpState` holds the file-level
  variables and the buffer. It has one method per entry point.
  - `IsNight`, `SetSunSetOffset` and `SetSunRiseHour` update only the
    fields they own. A clock reading is one `Clock` value per call.
    TimeLib can also resynchronise from inside a clock read; the model
    runs that as a separate `GetNtpTime`, as "## Left out" says.
  - `SendNtpPacket` writes the array in place.
  - `GetNtpTime` sends the request, scans the packets that arrive before
    the deadline, and keeps the first one of at least 48 bytes.
- `wrappers.dfy` (module `Wrappers`): `Option`.

What the code computes, compared with what its names and comments say:

- **The transition day is a Thursday.** The function is named
  `getLastSunday`, and the comments at ntp.cpp:39 and 42 speak of the last
  Sunday, as the European rule does (summer time from the last Sunday of
  March to the last Sunday of October). The comment at ntp.cpp:36 numbers
  the weekdays from Saturday.
  - For every year from 1 on, line 37 actually computes the weekday, with
    0 = Sunday, of day 0 of the month, that is, of the last day of the
    month before (`SummerTime.DayOfWeekIsWeekdayOfDayZero`).
  - For those years, subtracting `(dayOfWeek + 6) % 7` from 31 then lands
    on the last Thursday among days 25 to 31
    (`SummerTime.LastSundayIsLastThursday`).
  - Below year 1 the truncating `/` of line 37 rounds the leap-year terms
    toward zero rather than down, and neither fact holds:
    `getLastSunday(-1, 3)` is 31 (`SummerTime.NegativeYearOffCalendar`).
  - For 2024 the code takes March 28 and October 31
    (`SummerTime.TransitionDays2024`). The real last Sundays are March 31
    and October 27 (`SummerTime.LastSundays2024`).
  - So `isEuropeanSummerTime(2024, 10, 28)` is true in the code, a day
    after the rule has ended summer time. The model follows the code.
- **A cold start reports night.** Lines 21-22 start both cached values
  at 0. Until a lookup succeeds, the verdict `cur > 0 || cur < 0` reports
  night at every minute except 00:00 (`DayNight.ColdStartIsNight`).
- **Cached minutes can leave [0, 1439].** Line 175 stores any positive
  custom sunrise as it is. Line 185 subtracts an unrestricted offset from
  the reported sunset, so the cached sunset can be negative or beyond the
  day. The model keeps these values as unbounded integers. It promises the
  range only for a reported sunrise used as is
  (`DayNight.NextSunRiseMinutes`), and for a sunset with its offset added
  back (`DayNight.NextSunSetMinutes`).

## Model

| member | source | states |
|---|---|---|
| SummerTime.CDiv | ntp.cpp:37 | C++ `/` by a positive divisor truncates toward zero: for a non-negative dividend b * q <= a < b * q + b, for a negative one b * q - b < a <= b * q |
| SummerTime.CMod | ntp.cpp:37-40 | C++ `%` by a positive divisor: Dafny's remainder for a non-negative dividend, the negated remainder of the negated dividend otherwise |
| SummerTime.TruncatedDivision | ntp.cpp:37-40 | a == b * (a / b) + a % b, the remainder is smaller than b in magnitude, and it has the sign of a |
| SummerTime.DayOfWeek | ntp.cpp:29-37 | the weekday expression with January and February moved to months 13 and 14 of the year before; its value lies strictly between -7 and 7 |
| SummerTime.LastSunday | ntp.cpp:27-46 | the day returned lies in [25, 31] for every year and month |
| SummerTime.DayOfWeekIsWeekdayOfDayZero | ntp.cpp:29-37 | for years from 1 on, the expression equals the weekday (0 = Sunday) of day 0 of the month in the reference calendar |
| SummerTime.LastSundayIsLastThursday | ntp.cpp:39-45 | the returned day is a Thursday and the last one of days 25 to 31 (seven days later is past 31) |
| SummerTime.TransitionDays2024 | ntp.cpp:27-46 | for 2024 the March day is 28 and the October day is 31 |
| SummerTime.LastSundays2024 | ntp.cpp:39-43 | in 2024 the real last Sundays are March 31 and October 27, and March 28 and October 31 are Thursdays |
| SummerTime.NegativeYearOffCalendar | ntp.cpp:29-44 | for year -1 line 37 gives Monday and the transition day is the 31st; March of year 399, 146097 days (whole weeks) later, starts after a Sunday, so the March 31st of year -1 is a Wednesday |
| SummerTime.IsEuropeanSummerTime | ntp.cpp:48-74 | summer time only from March to October, and always from April to September |
| SummerTime.TimeZone | ntp.cpp:76-86 | returns CET or CEST, and CEST exactly when the date is summer time |
| SummerTime.SummerTimeByMonth | ntp.cpp:52-73 | false before March and after October; true from April to September; in March true iff day >= the March day; in October true iff day < the October day |
| SummerTime.FixedDaysOfMarchAndOctober | ntp.cpp:59-66 | March 1-24 are never summer time and March 31 always is; October 1-24 always are and October 31 never is |
| SummerTime.SummerTimeIsOneInterval | ntp.cpp:52-73 | within a year, a date between two summer-time dates is summer time |
| SummerTime.SummerTime2024 | ntp.cpp:48-74 | in 2024, March 28 and 30 and October 27, 28 and 30 are summer time, and October 31 is not |
| Calendar.DaysBeforeYearClosedForm | ntp.cpp:37 | the days before year y are 365 (y - 1) plus the leap-year count `n / 4 - n / 100 + n / 400` of n = y - 1, the term of the weekday formula |
| Calendar.DaysBeforeMonthClosedForm | ntp.cpp:37 | the days before month m are 0 for January and 31 for February; from March on they are 30 (m - 1) + 3 (m + 1) / 5 - 3, plus 1 in a leap year, the month term of the weekday formula |
| NtpPacket.Encode | ntp.cpp:143-154 | the header laid out as 48 bytes (RFC 5905 section 7.3), big-endian word by word; Decode is its inverse (DecodeEncode, EncodeDecode) |
| NtpPacket.Decode | ntp.cpp:128-131 | every 48-byte packet decodes to a header whose leap, version and mode fit their bit widths |
| NtpPacket.DecodeEncode | ntp.cpp:143-154 | decoding the encoding of a well-formed header gives the header back |
| NtpPacket.EncodeDecode | ntp.cpp:128-131 | every 48-byte packet is the encoding of the header it decodes to |
| NtpPacket.Field32OfEncode | ntp.cpp:128-131 | each of the eleven 32-bit words survives the trip through its four big-endian bytes |
| NtpPacket.FirstByteRoundTrip | ntp.cpp:146 | Leap Indicator, Version and Mode packed into byte 0 can be read back from bits 7-6, 5-3 and 2-0 |
| NtpPacket.Value32AsNumber | ntp.cpp:128-131 | ORing the four shifted bytes gives b40 * 2^24 + b41 * 2^16 + b42 * 2^8 + b43 |
| NtpPacket.TransmitSecondsValue | ntp.cpp:126-131 | the decoded Transmit Timestamp seconds are that number built from bytes 40 to 43 |
| NtpPacket.ClientRequestBytes | ntp.cpp:143-154 | the request header is well formed; its bytes 0-3 are E3, 00, 06, EC, bytes 12-15 are 49, 0x4E, 49, 52, and every other byte is 0 |
| NtpPacket.ReadTransmitSeconds | ntp.cpp:126-131 | the shift-and-OR assembly on the buffer gives the decoded Transmit Timestamp seconds, b40 * 2^24 + b41 * 2^16 + b42 * 2^8 + b43 |
| NtpPacket.LocalEpoch | ntp.cpp:132 | the two wrapping `unsigned long` steps together give (secs - 2208988800 + timeZone * 3600) mod 2^32 |
| NtpPacket.LocalEpochWithoutWrap | ntp.cpp:132 | for a timestamp after 1970 whose local time fits in 32 bits, the result is the exact difference plus the offset |
| NtpPacket.LocalEpochRecoversSeconds | ntp.cpp:132 | undoing the offset and the epoch shift modulo 2^32 gives back the NTP seconds, so no information is lost |
| NtpPacket.SeventyYearsOfSeconds | ntp.cpp:132 | 2208988800 is the number of seconds in the reference-calendar days from 1900-01-01 to 1970-01-01 |
| DayNight.MinuteOfDayIsOneToOne | ntp.cpp:175 | hour * 60 + minute of a reported time lies in [0, 1439] and determines the time |
| DayNight.IsNightAt | ntp.cpp:188-191 | it is day exactly when sunrise <= current minute <= sunset |
| DayNight.NextSunRiseMinutes | ntp.cpp:168-176 | a failed lookup keeps the cached sunrise; a successful one stores the custom sunrise when it is positive, and otherwise a minute in [0, 1439] |
| DayNight.NextSunSetMinutes | ntp.cpp:178-186 | a failed lookup keeps the cached sunset; after a successful one, the stored value plus the offset is a minute in [0, 1439] |
| DayNight.BoundaryMinutes | ntp.cpp:188-191 | with sunrise 420 and sunset 1080: 419 is night, 420 day, 1080 day, 1081 night |
| DayNight.ColdStartIsNight | ntp.cpp:21-22 | with both cached values 0, every minute of the day except 00:00 is night |
| DayNight.SunRiseUpdate | ntp.cpp:168-176 | a failed lookup keeps the cached sunrise; a successful one stores the custom sunrise when it is positive, and the reported hour * 60 + minute otherwise, which lies in [0, 1439] |
| DayNight.CustomSunRiseOverrides | ntp.cpp:175 | with a positive custom sunrise, the reported sunrise does not affect the stored value |
| DayNight.SunSetUpdate | ntp.cpp:178-186 | a failed lookup keeps the cached sunset; a successful one stores hour * 60 + minute - sunSetOffset |
| DayNight.LargerOffsetKeepsNight | ntp.cpp:185-191 | with a larger sunset offset, every minute that was night stays night |
| DayNight.RefreshIsIdempotent | ntp.cpp:168-186 | refreshing the cache a second time with the same answers changes nothing |
| Ntp.NtpState.constructor | ntp.cpp:10-22 | the start-up state: CET, the four numbers 0, and a zeroed 48-byte buffer |
| Ntp.NtpState.IsNight | ntp.cpp:162-192 | timeZone becomes the summer-time offset of the clock's date; the two cached values follow the update rules; the verdict is night exactly when the current minute is after the new sunset or before the new sunrise; nothing else changes, for one clock reading per call |
| Ntp.NtpState.SetSunSetOffset | ntp.cpp:194-197 | stores the offset and changes no other field |
| Ntp.NtpState.SetSunRiseHour | ntp.cpp:199-201 | stores the custom sunrise and changes no other field |
| Ntp.NtpState.SendNtpPacket | ntp.cpp:140-154 | the buffer becomes the encoding of the client request header: bytes E3 00 06 EC, the identifier 49 0x4E 49 52 at 12-15, and zeros elsewhere |
| Ntp.NtpState.GetNtpTime | ntp.cpp:102-137 | with a packet of at least 48 bytes among those that arrive, the buffer holds the first 48 bytes of the first such packet, and the result is its Transmit Timestamp seconds converted with the cached timeZone; with none, the buffer holds the request and the result is 0 |
| Ntp.FirstFullPacket | ntp.cpp:119-123 | the packet the wait loop reads is the first one of at least 48 bytes; there is none exactly when every packet is shorter |
| Ntp.ClassifyTwice | ntp.cpp:162-192 | two classifications with the same clock, settings and answers give the same verdict and leave the state the first one left |
| Ntp.SyncBeforeFirstClassification | ntp.cpp:18 | a synchronisation before any classification converts with CET, the initial offset |

## Left out

- Wi-Fi and UDP: `Udp.begin`, `hostByName`, `parsePacket`, `read`, `beginPacket`, `write` and `endPacket` (ntp.cpp:88-100, 104-114, 157-159). These are network I/O. The packets that arrive become a parameter of `GetNtpTime`, and the destination address and port 123 of the request are not modelled.
- The loop at ntp.cpp:106-107 that drains old packets before the request is sent is not modelled. It acts only on the network.
- The 1500 ms `millis()` deadline (ntp.cpp:115-119) is reading a clock. It is modelled by a finite sequence of packets that arrive before it.
- The TimeLord sunrise/sunset calculator, its `TimeZone` and `Position` settings, and the floating-point `LATITUDE`/`LONGITUDE` (ntp.cpp:13-14, 98-99, 165-178). It is a foreign library doing floating-point astronomy, so its answers are `Option<SunTime>` parameters of `IsNight`. This also covers the `byte` truncation of the clock values in `today[]` (ntp.cpp:78, 166), which only the calculator reads.
- TimeLib's clock accessors `second()` to `year()` and the sync scheduling `setSyncProvider`/`setSyncInterval` (ntp.cpp:95-96). The accessors live in TimeLib, outside this file. Each goes through TimeLib's `now()`, which calls the registered provider `getNtpTime` once the sync interval has passed. The model gives each call one `Clock` parameter and keeps the synchronisation as the separate method `GetNtpTime`. The unused `today[]` of `getTimeZone` (ntp.cpp:78) has no effect.
- Ntp.NtpState.IsNight: every clock accessor it calls (ntp.cpp:78, 80, 166, 188) may run `getNtpTime` through TimeLib's `now()`. So in the firmware one `isNight` call can overwrite `packetBuffer` (ntp.cpp:125, 143-154) and move the clock between its reads. That sync converts with the previous `timeZone`, because line 164 assigns only after `getTimeZone()` returns. The model takes one clock reading per call, so its frame leaves the buffer unchanged. It does not capture a sync in the middle of a call; a sync is the separate method `GetNtpTime`, run between calls.
- Every `Serial.print` diagnostic (ntp.cpp:50, 90-94, 108, 111-113, 124, 135, 170-183). These are output only.
- `getSunRiseAndSunSetCalculated` and `getDateAndHour` (ntp.cpp:203-212). They only format Arduino `String`s.
- The summer-time rule works on whole days, as the code does. The 01:00 UTC switching hour of the European rule is not part of the code.
- SummerTime.DayOfWeek: the C++ `int` arithmetic of ntp.cpp:33 and 37 overflows, which is undefined behaviour, for years near the 32-bit limits (above about 1.7e9 or at INT_MIN) and for extreme month values. The model uses unbounded integers and does not capture that overflow. Every year TimeLib's `year()` returns is far inside the range.
- Ntp.NtpState.IsNight: the `int` fields are unbounded integers. A 32-bit overflow of `hour * 60 + minute - sunSetOffset` for an extreme offset is undefined behaviour in C++ and is not modelled.
- NtpPacket.LocalEpoch: the result is taken modulo 2^32, as for a 32-bit unsigned `time_t`. With a 64-bit `time_t` only the final addition would not wrap. The two agree whenever nothing wraps (`NtpPacket.LocalEpochWithoutWrap`).
- Ntp.NtpState.GetNtpTime: the result 0 for "no answer" is the code's sentinel. It cannot be told apart from a reply whose converted time is 0, and the model keeps that ambiguity.
