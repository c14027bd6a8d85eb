/** Write times on their way from Windows to the device and back (src/windows_filesystem.rs, src/backend.rs,
    src/afc.rs): ticks of 100 ns since 1601, saturating nanoseconds since 1970, and decimal text. */
module Timestamps {
  import opened Wrappers

  const U64_MAX := 0xFFFF_FFFF_FFFF_FFFF
  const WINDOWS_EPOCH_TICKS := 116_444_736_000_000_000

  function Min(a: int, b: int): int { if a <= b then a else b }

  function Max(a: int, b: int): int { if a >= b then a else b }

  // ----- The conversions. A SystemTime is its distance from 1970 in nanoseconds. -----

  /** system_time_to_windows_time, with its cast to 64 bits. */
  function ToTicks(time: int): nat {
    Max(WINDOWS_EPOCH_TICKS + Max(time, 0) / 100, 0) % (U64_MAX + 1)
  }

  /** windows_time_to_unix_nanos */
  function ToNanos(ticks: nat): nat {
    Min(Max(ticks - WINDOWS_EPOCH_TICKS, 0) * 100, U64_MAX)
  }

  /** What the SetMtime command sends for a time. */
  function SentNanos(time: int): nat {
    Min(Max(time, 0), U64_MAX)
  }

  // ----- The device's decimal text -----

  function Digit(d: nat): char
    requires d < 10
  {
    ('0' as int + d) as char
  }

  predicate IsDigit(c: char) { '0' <= c <= '9' }

  predicate AllDigits(s: string) { forall i | 0 <= i < |s| :: IsDigit(s[i]) }

  function DigitValue(c: char): nat
    requires IsDigit(c)
  {
    (c as int) - ('0' as int)
  }

  function Decimal(n: nat): string {
    if n < 10 then [Digit(n)] else Decimal(n / 10) + [Digit(n % 10)]
  }

  function Value(digits: string): nat
    requires AllDigits(digits)
  {
    if digits == "" then 0
    else Value(digits[..|digits| - 1]) * 10 + DigitValue(digits[|digits| - 1])
  }

  /** `value.parse::<u64>().ok()`: an optional plus sign, then digits, and no overflow. */
  function ParseU64(s: string): Option<nat> {
    var digits := if s != "" && s[0] == '+' then s[1..] else s;
    if digits == "" || !AllDigits(digits) then None
    else if Value(digits) > U64_MAX then None
    else Some(Value(digits))
  }

  /** `timestamp`: anything that does not parse is the epoch. */
  function Timestamp(value: Option<string>): nat {
    if value.None? then 0
    else
      var nanos := ParseU64(value.value);
      if nanos.None? then 0 else nanos.value
  }

  lemma {:induction false} ValueOfDecimal(n: nat)
    ensures Decimal(n) != "" && AllDigits(Decimal(n))
    ensures Value(Decimal(n)) == n
  {
    if n >= 10 {
      ValueOfDecimal(n / 10);
      assert Decimal(n)[..|Decimal(n)| - 1] == Decimal(n / 10);
    }
  }

  /** Every 64-bit number survives being printed and parsed. */
  lemma ParseOfDecimal(n: nat)
    requires n <= U64_MAX
    ensures ParseU64(Decimal(n)) == Some(n) && Timestamp(Some(Decimal(n))) == n
  {
    ValueOfDecimal(n);
    assert IsDigit(Decimal(n)[0]);
  }

  // ----- Setting and reading back -----

  /** A platform's SystemTime keeps multiples of its resolution. */
  function Kept(nanos: nat, resolution: nat): nat
    requires resolution > 0
  {
    nanos / resolution * resolution
  }

  /** `set_basic_info` on the device's stored text: zero ticks mean no change. */
  function SetWriteTime(stored: string, ticks: nat, resolution: nat): string
    requires resolution > 0
  {
    if ticks == 0 then stored else Decimal(SentNanos(Kept(ToNanos(ticks), resolution)))
  }

  /** The write time `file_info` reports for the stored text. */
  function WriteTime(stored: string, resolution: nat): nat
    requires resolution > 0
  {
    ToTicks(Kept(Timestamp(Some(stored)), resolution))
  }

  lemma KeptTwice(nanos: nat, resolution: nat)
    requires resolution == 1 || resolution == 100
    ensures Kept(nanos, resolution) <= nanos && Kept(Kept(nanos, resolution), resolution) / 100 == nanos / 100
  {
    if resolution == 1 {
      assert Kept(nanos, 1) == nanos;
    } else {
      assert nanos / 100 * 100 / 100 == nanos / 100;
    }
  }

  lemma NanosAsTicks(ticks: nat)
    requires ticks <= U64_MAX
    ensures ToNanos(ticks) <= U64_MAX
    ensures ToNanos(ticks) / 100 == Min(Max(ticks - WINDOWS_EPOCH_TICKS, 0), U64_MAX / 100)
  {
  }

  /** Setting a write time and reading it back gives the time clamped to what 64 bits of nanoseconds since
      1970 can say, at either resolution; zero leaves the old time. */
  lemma SetThenRead(stored: string, ticks: nat, resolution: nat)
    requires ticks <= U64_MAX && (resolution == 1 || resolution == 100)
    ensures WriteTime(SetWriteTime(stored, ticks, resolution), resolution) ==
            if ticks == 0 then WriteTime(stored, resolution)
            else WINDOWS_EPOCH_TICKS + Min(Max(ticks - WINDOWS_EPOCH_TICKS, 0), U64_MAX / 100)
  {
    hide Kept, ToNanos, Timestamp, Decimal, ParseU64;
    if ticks != 0 {
      var nanos := ToNanos(ticks);
      NanosAsTicks(ticks);
      KeptTwice(nanos, resolution);
      ParseOfDecimal(Kept(nanos, resolution));
    }
  }

  /** The time comes back unchanged exactly when it lies in that range. */
  lemma SetThenReadExact(stored: string, ticks: nat, resolution: nat)
    requires 0 < ticks <= U64_MAX && (resolution == 1 || resolution == 100)
    ensures WriteTime(SetWriteTime(stored, ticks, resolution), resolution) == ticks
            <==> WINDOWS_EPOCH_TICKS <= ticks <= WINDOWS_EPOCH_TICKS + U64_MAX / 100
  {
    SetThenRead(stored, ticks, resolution);
  }

  /** The ticks of a time are whole hundreds of nanoseconds since 1601, which is 116444736000000000 ticks before 1970;
      anything before 1970 counts as 1970, and what does not fit 64 bits wraps. */
  lemma TicksOfTime(time: int)
    ensures 0 <= ToTicks(time) <= U64_MAX
    ensures time <= 0 ==> ToTicks(time) == 116_444_736_000_000_000
    ensures 0 <= time < 100 * (0x1_0000_0000_0000_0000 - 116_444_736_000_000_000) ==>
              var since := ToTicks(time) - 116_444_736_000_000_000;
              100 * since <= time < 100 * since + 100
    ensures time >= 0 ==> ToTicks(time + 100 * 0x1_0000_0000_0000_0000) == ToTicks(time)
  {
  }

  lemma Monotone(a: nat, b: nat)
    requires a <= b <= U64_MAX
    ensures ToNanos(a) <= ToNanos(b) && ToTicks(a) <= ToTicks(b)
  {
  }

  /** The two conversions are adjoint for every number of nanoseconds below the saturation value, and only there. */
  lemma Adjoint(nanos: nat)
    requires nanos <= U64_MAX
    ensures (forall ticks: nat | ticks <= U64_MAX :: ToNanos(ticks) <= nanos <==> ticks <= ToTicks(nanos))
            <==> nanos != U64_MAX
  {
    if nanos == U64_MAX {
      assert ToNanos(U64_MAX) <= nanos && ToTicks(nanos) < U64_MAX;
    } else {
      forall ticks: nat | ticks <= U64_MAX ensures ToNanos(ticks) <= nanos <==> ticks <= ToTicks(nanos) {
      }
    }
  }

  /** What is sent for a time is the 64-bit number of nanoseconds nearest to it: itself if there is one. */
  lemma SentIsNearest(time: int)
    ensures SentNanos(time) <= U64_MAX
    ensures forall n: nat | n <= U64_MAX :: Distance(time, SentNanos(time)) <= Distance(time, n)
    ensures time < 0 ==> SentNanos(time) == 0
    ensures time > U64_MAX ==> SentNanos(time) == U64_MAX
  {
  }

  function Distance(a: int, b: int): nat { if a <= b then b - a else a - b }

  /** Base ten: in front of digits, a digit counts ten times more for each of them. */
  lemma {:induction false} ValueOfConcat(front: string, back: string)
    requires AllDigits(front) && AllDigits(back)
    ensures AllDigits(front + back)
    ensures Value(front + back) == Value(front) * Power10(|back|) + Value(back)
    decreases |back|
  {
    if back == "" {
      assert front + back == front;
    } else {
      var init := back[..|back| - 1];
      assert (front + back)[..|front + back| - 1] == front + init;
      ValueOfConcat(front, init);
      assert Value(front) * Power10(|init|) * 10 == Value(front) * Power10(|back|);
    }
  }

  function Power10(n: nat): nat { if n == 0 then 1 else 10 * Power10(n - 1) }

  lemma ValueOfDigit(c: char)
    requires '0' <= c <= '9'
    ensures Value([c]) == (c as int) - 48
  {
    assert [c][..0] == "" && Value("") == 0;
  }

  ghost predicate IsNumber(digits: string) {
    digits != "" && AllDigits(digits) && Value(digits) <= U64_MAX
  }

  lemma DigitsAreTen(c: char)
    ensures IsDigit(c) <==> c in "0123456789"
    ensures IsDigit(c) ==> "0123456789"[DigitValue(c)] == c
  {
  }

  /** What parses: one or more digits whose value fits 64 bits, with or without a plus sign, and it parses to that value. */
  lemma ParsedIsNumber(s: string)
    ensures ParseU64(s).Some? <==> exists digits :: (s == digits || s == "+" + digits) && IsNumber(digits)
    ensures forall digits | (s == digits || s == "+" + digits) && IsNumber(digits) :: ParseU64(s) == Some(Value(digits))
  {
    var digits := if s != "" && s[0] == '+' then s[1..] else s;
    assert s == digits || s == "+" + digits;
    if ParseU64(s).Some? {
      assert IsNumber(digits);
    }
    if IsNumber(digits) {
      assert ParseU64(s) == Some(Value(digits));
    }
    forall other | (s == other || s == "+" + other) && IsNumber(other) ensures other == digits {
      assert s == "+" + other ==> s[1..] == other;
    }
  }

  /** No stored time, and any text that does not parse, is the epoch; any other is what it says. */
  lemma TimestampOf(value: Option<string>)
    ensures value.None? || ParseU64(value.value).None? ==> Timestamp(value) == 0
    ensures value.Some? && ParseU64(value.value).Some? ==> ParseU64(value.value) == Some(Timestamp(value))
  {
  }
}
