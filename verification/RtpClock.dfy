/**
 The timestamp rebasing of RTPDump::videoHandler and audioHandler: RTP ticks become milliseconds since the first packet,
 and a jump of more than a second is cut out by moving the base. A base of 0 means that no packet was seen yet.
 */
module RtpClock {
  import opened Bytes

  datatype Clock = Clock(base: int, last: int)

  const NEW_CLOCK := Clock(0, 0)

  /** C++ division of ints, towards zero. */
  function TruncDiv(a: int, b: int): int
    requires b > 0
  {
    if a >= 0 then a / b else -(-a / b)
  }

  /** Milliseconds for `media` ticks, as u_int32_t; `freq` ticks are a millisecond. */
  function Stamp(media: int, freq: int): int
    requires freq > 0
  {
    TruncDiv(media, freq) % 0x1_0000_0000
  }

  /** The timestamp at `time`. Differences wrap as int32_t do. */
  function Timestamp(base: int, time: int, freq: int): int
    requires freq > 0
  {
    Stamp(Signed32(time - base), freq)
  }

  function Started(c: Clock, time: int): Clock { if c.base == 0 then Clock(time, time) else c }

  /** The clock after a packet at `time`. */
  function Advance(c: Clock, time: int, freq: int): Clock {
    var s := Started(c, time);
    var diff := Signed32(time - s.last);
    Clock(if diff > 1000 * freq then Signed32(s.base + diff) else s.base, time)
  }

  /** What the handlers compute for a packet. */
  function StampOf(c: Clock, time: int, freq: int): int
    requires freq > 0
  {
    Timestamp(Advance(c, time, freq).base, time, freq)
  }

  predicate IsInt32(x: int) { -0x8000_0000 <= x < 0x8000_0000 }

  /** Media time since the base. */
  function Played(c: Clock): int { Signed32(c.last - c.base) }

  /** How far a packet is ahead of the last one, read as int32_t. */
  function Ahead(c: Clock, time: int): int { Signed32(time - c.last) }

  /** How far it is ahead on the circle of 2^32 ticks. */
  function Elapsed(last: int, time: int): int { (time - last) % 0x1_0000_0000 }

  /** The last timestamp given out. */
  function LastStamp(c: Clock, freq: int): int
    requires freq > 0
  {
    Timestamp(c.base, c.last, freq)
  }

  /** `next` follows `previous` after `ticks`: by at most a second, and by nothing when the ticks are more than one. */
  predicate Grows(previous: int, next: int, ticks: int, freq: int) {
    previous <= next <= previous + 1000 && (ticks > 1000 * freq ==> next == previous)
  }

  /** Media time that reads as a timestamp without wrapping. */
  predicate GoodMedia(media: int, freq: int) { freq == 1 || media > -freq }

  predicate InRange(c: Clock, freq: int) { IsInt32(c.base) && IsInt32(c.last) && GoodMedia(Played(c), freq) }

  /** Going on from `media` by `ahead` ticks keeps it readable; going on by 2^31 ticks or more, which reads as
      going back, stays within the same millisecond. */
  predicate MoveOk(media: int, ahead: int, freq: int)
    requires freq > 0
  {
    if freq == 1 then ahead >= 0 && media % 0x1_0000_0000 + ahead < 0x1_0000_0000
    else if ahead >= 0 then media + ahead < 0x8000_0000
    else media + ahead > -freq && TruncDiv(media + ahead, freq) == TruncDiv(media, freq)
  }

  /** The clock is not taken for a new one although time was played, and the media time goes on being readable. */
  predicate StepOk(c: Clock, time: int, freq: int)
    requires freq > 0
  {
    if c.base == 0 then LastStamp(c, freq) == 0
    else Ahead(c, time) > 1000 * freq || MoveOk(Played(c), Ahead(c, time), freq)
  }

  // ---------- one step ----------

  /** What a packet does to the media time: a jump leaves it, any other packet adds to it. */
  lemma MediaStep(c: Clock, time: int, freq: int)
    requires freq > 0 && c.base != 0 && IsInt32(c.base) && IsInt32(time)
    ensures var c' := Advance(c, time, freq);
            && IsInt32(c'.base) && c'.last == time && LastStamp(c', freq) == StampOf(c, time, freq)
            && Played(c') == if Ahead(c, time) > 1000 * freq then Played(c) else Signed32(Played(c) + Ahead(c, time))
  {
    if Ahead(c, time) > 1000 * freq {
      Jumped(c, time);
    } else {
      MovedOn(c, time);
    }
  }

  /** Moving the base along keeps the media time. */
  lemma Jumped(c: Clock, time: int)
    ensures Signed32(time - Signed32(c.base + Ahead(c, time))) == Played(c)
  {
    var a := Turns(time - c.last);
    var b := Turns(c.base + Ahead(c, time));
    SignedSame(time - Signed32(c.base + Ahead(c, time)), c.last - c.base, 0 - a - b);
  }

  /** Without a jump, media time adds up. */
  lemma MovedOn(c: Clock, time: int)
    ensures Signed32(time - c.base) == Signed32(Played(c) + Ahead(c, time))
  {
    var a, b := Turns(time - c.last), Turns(c.last - c.base);
    SignedSame(time - c.base, Played(c) + Ahead(c, time), 0 - a - b);
  }

  /** A base of 0 starts the clock at this packet. */
  lemma Restarts(c: Clock, time: int, freq: int)
    requires c.base == 0 && freq > 0 && IsInt32(time)
    ensures Advance(c, time, freq) == Clock(time, time) && StampOf(c, time, freq) == 0
    ensures InRange(Clock(time, time), freq) && LastStamp(Clock(time, time), freq) == 0
  {
    assert Signed32(0) == 0;
    DivSmaller(0, freq);
  }

  /** Reading 32 bits takes off full turns. */
  function Turns(x: int): (k: int)
    ensures Signed32(x) == x + k * 0x1_0000_0000
  {
    if x % 0x1_0000_0000 < 0x8000_0000 then -(x / 0x1_0000_0000) else -(x / 0x1_0000_0000) - 1
  }

  lemma SignedSame(x: int, y: int, k: int)
    requires x == y + k * 0x1_0000_0000
    ensures Signed32(x) == Signed32(y)
  {
    var q, r := y / 0x1_0000_0000, y % 0x1_0000_0000;
    assert x == (q + k) * 0x1_0000_0000 + r;
    ModUnique(x, 0x1_0000_0000, q + k, r);
  }

  lemma ElapsedIs(last: int, time: int)
    ensures Elapsed(last, time) == Signed32(time - last) % 0x1_0000_0000
  {
    var k, d := Turns(time - last), time - last;
    var q, r := d / 0x1_0000_0000, d % 0x1_0000_0000;
    assert Signed32(d) == (q + k) * 0x1_0000_0000 + r;
    ModUnique(Signed32(d), 0x1_0000_0000, q + k, r);
  }

  // ---------- media time ----------

  lemma StampOfGood(media: int, freq: int)
    requires freq > 1 && -freq < media < 0x8000_0000
    ensures Stamp(media, freq) == TruncDiv(media, freq) <= 0x4000_0000
    ensures 0 <= TruncDiv(media, freq) && (media <= 0 ==> TruncDiv(media, freq) == 0)
  {
    if media >= 0 {
      HalfAtMost(media, freq);
      DivSmaller(0, freq);
    } else {
      SmallQuotient(-media, freq);
    }
  }

  lemma SmallQuotient(x: int, freq: int)
    requires 0 <= x < freq
    ensures x / freq == 0
  {
    ModUnique(x, freq, 0, x);
  }

  /** Media time from -2^31 to -freq: a huge timestamp. */
  lemma StampOfBad(media: int, freq: int)
    requires freq > 1 && -0x8000_0000 <= media <= -freq
    ensures Stamp(media, freq) >= 0xC000_0000
  {
    HalfAtMost(-media, freq);
    AtLeastOne(-media, freq);
    NegativeStamp(-media / freq);
  }

  lemma NegativeStamp(x: int)
    requires 0 < x <= 0x4000_0000
    ensures -x % 0x1_0000_0000 == 0x1_0000_0000 - x
  {
  }

  lemma AtLeastOne(x: int, freq: int)
    requires 0 < freq <= x
    ensures x / freq >= 1
  {
    DivMonotone(freq, x, freq);
    DivShift(0, 1, freq);
    DivSmaller(0, freq);
  }

  lemma HalfAtMost(x: int, freq: int)
    requires freq > 1 && 0 <= x
    ensures 0 <= x / freq <= x / 2
  {
    DivMonotone(0, x, freq);
    var q := x / freq;
    if q > 0 {
      MulAtLeast(freq - 1, q);
      assert freq * q == (freq - 1) * q + q;
    }
  }

  lemma DivShift(a: int, k: int, f: int)
    requires f > 0
    ensures (a + k * f) / f == a / f + k
  {
    var q, r := a / f, a % f;
    assert a == q * f + r;
    assert a + k * f == (q + k) * f + r;
    ModUnique(a + k * f, f, q + k, r);
  }

  lemma DivMonotone(a: int, b: int, f: int)
    requires f > 0 && a <= b
    ensures a / f <= b / f
  {
    var q, r := a / f, b / f;
    if q > r {
      MulAtLeast(q - r, f);
    }
  }

  lemma DivSmaller(a: int, f: int)
    requires f > 0 && a >= 0
    ensures 0 <= a / f <= a
  {
    DivMonotone(0, a, f);
    if a / f > a {
      MulAtLeast(f, a / f);
    }
  }

  /** Adding at most 1000 * freq ticks adds between 0 and 1000 milliseconds. */
  lemma TruncQuotient(a: int, d: int, freq: int)
    requires freq > 1 && -freq < a && 0 <= d <= 1000 * freq
    ensures TruncDiv(a, freq) <= TruncDiv(a + d, freq) <= TruncDiv(a, freq) + 1000
  {
    if a >= 0 {
      DivMonotone(a, a + d, freq);
      DivMonotone(a + d, a + 1000 * freq, freq);
      DivShift(a, 1000, freq);
    } else {
      SmallQuotient(-a, freq);
      if a + d < 0 {
        SmallQuotient(-(a + d), freq);
      } else {
        DivMonotone(0, a + d, freq);
        DivMonotone(a + d, 0 + 1000 * freq, freq);
        DivShift(0, 1000, freq);
        DivSmaller(0, freq);
      }
    }
  }

  lemma SignedSmall(x: int)
    requires IsInt32(x)
    ensures Signed32(x) == x
  {
  }

  /** Forward, and the sum fits. */
  lemma MoveFits(media: int, ahead: int, freq: int)
    requires freq > 1 && 1000 * freq < 0x8000_0000 && -freq < media < 0x8000_0000 && 0 <= ahead <= 1000 * freq
    requires media + ahead < 0x8000_0000
    ensures Grows(Stamp(media, freq), Stamp(Signed32(media + ahead), freq), ahead, freq)
    ensures Signed32(media + ahead) == media + ahead > -freq
  {
    SignedSmall(media + ahead);
    hide Signed32, Stamp, TruncDiv;
    StampOfGood(media, freq);
    StampOfGood(media + ahead, freq);
    TruncQuotient(media, ahead, freq);
  }

  /** Forward, and the sum turns negative. */
  lemma MoveOverflows(media: int, ahead: int, freq: int)
    requires freq > 1 && 1000 * freq < 0x8000_0000 && -freq < media < 0x8000_0000 && 0 <= ahead <= 1000 * freq
    requires media + ahead >= 0x8000_0000
    ensures !Grows(Stamp(media, freq), Stamp(Signed32(media + ahead), freq), ahead, freq)
  {
    var next := media + ahead - 0x1_0000_0000;
    SignedSame(media + ahead, next, 1);
    SignedSmall(next);
    hide Signed32, Stamp, TruncDiv;
    StampOfGood(media, freq);
    if next <= -freq {
      StampOfBad(next, freq);
    } else {
      StampOfGood(next, freq);
      assert media > freq;
      LargeStamp(media, freq);
    }
  }

  lemma LargeStamp(media: int, freq: int)
    requires 0 < freq <= media
    ensures TruncDiv(media, freq) >= 1
  {
    AtLeastOne(media, freq);
  }

  /** 2^31 ticks or more forward, which read as going back. */
  lemma MoveBack(media: int, ahead: int, freq: int)
    requires freq > 1 && 1000 * freq < 0x8000_0000 && -freq < media < 0x8000_0000 && -0x8000_0000 <= ahead < 0
    ensures Grows(Stamp(media, freq), Stamp(Signed32(media + ahead), freq), ahead + 0x1_0000_0000, freq)
            <==> media + ahead > -freq && TruncDiv(media + ahead, freq) == TruncDiv(media, freq)
    ensures media + ahead > -freq ==> Signed32(media + ahead) == media + ahead
  {
    var sum := media + ahead;
    if sum >= -0x8000_0000 {
      SignedSmall(sum);
    } else {
      SignedSame(sum, sum + 0x1_0000_0000, -1);
      SignedSmall(sum + 0x1_0000_0000);
    }
    hide Signed32, Stamp, TruncDiv;
    StampOfGood(media, freq);
    if sum > -freq {
      StampOfGood(sum, freq);
    } else if sum >= -0x8000_0000 {
      StampOfBad(sum, freq);
    } else {
      StampOfGood(sum + 0x1_0000_0000, freq);
      LargeStamp(sum + 0x1_0000_0000, freq);
    }
  }

  /** One tick a millisecond: the timestamp is the media time itself. */
  lemma MoveUnit(media: int, ahead: int)
    requires IsInt32(media) && -0x8000_0000 <= ahead <= 1000
    ensures Grows(Stamp(media, 1), Stamp(Signed32(media + ahead), 1), ahead % 0x1_0000_0000, 1)
            <==> MoveOk(media, ahead, 1)
  {
    UnitStamp(media);
    UnitStamp(Signed32(media + ahead));
    UnitSum(media, ahead);
    hide Stamp, Signed32;
  }

  lemma UnitStamp(x: int)
    ensures Stamp(x, 1) == x % 0x1_0000_0000
  {
  }

  lemma UnitSum(media: int, ahead: int)
    ensures Signed32(media + ahead) % 0x1_0000_0000 == (media % 0x1_0000_0000 + ahead) % 0x1_0000_0000
  {
    var k, q := Turns(media + ahead), media / 0x1_0000_0000;
    var u := media % 0x1_0000_0000 + ahead;
    var a, r := u / 0x1_0000_0000, u % 0x1_0000_0000;
    assert Signed32(media + ahead) == (a + q + k) * 0x1_0000_0000 + r;
    ModUnique(Signed32(media + ahead), 0x1_0000_0000, a + q + k, r);
  }

  /** Without a jump the timestamp grows as it should exactly when the move is a good one. */
  lemma MoveExact(media: int, ahead: int, freq: int)
    requires freq > 0 && 1000 * freq < 0x8000_0000 && IsInt32(media) && GoodMedia(media, freq)
    requires -0x8000_0000 <= ahead <= 1000 * freq
    ensures Grows(Stamp(media, freq), Stamp(Signed32(media + ahead), freq), ahead % 0x1_0000_0000, freq)
            <==> MoveOk(media, ahead, freq)
    ensures MoveOk(media, ahead, freq) ==> GoodMedia(Signed32(media + ahead), freq)
  {
    hide Stamp, Signed32, TruncDiv;
    if freq == 1 {
      MoveUnit(media, ahead);
    } else if ahead < 0 {
      MoveBack(media, ahead, freq);
    } else if media + ahead < 0x8000_0000 {
      MoveFits(media, ahead, freq);
    } else {
      MoveOverflows(media, ahead, freq);
    }
  }

  /** A step of the clock grows as it should exactly when it is a good one, and then it keeps the range. */
  lemma StepExact(c: Clock, time: int, freq: int)
    requires freq > 0 && 1000 * freq < 0x8000_0000 && InRange(c, freq) && IsInt32(time)
    ensures Grows(LastStamp(c, freq), StampOf(c, time, freq), Elapsed(c.last, time), freq) <==> StepOk(c, time, freq)
    ensures var c' := Advance(c, time, freq);
            c'.last == time && LastStamp(c', freq) == StampOf(c, time, freq)
            && (StepOk(c, time, freq) ==> InRange(c', freq))
  {
    hide *;
    if c.base == 0 {
      RestartExact(c, time, freq);
    } else if Ahead(c, time) > 1000 * freq {
      JumpExact(c, time, freq);
    } else {
      MovedExact(c, time, freq);
    }
  }

  lemma RestartExact(c: Clock, time: int, freq: int)
    requires freq > 0 && c.base == 0 && IsInt32(time)
    ensures Grows(LastStamp(c, freq), StampOf(c, time, freq), Elapsed(c.last, time), freq) <==> StepOk(c, time, freq)
    ensures var c' := Advance(c, time, freq);
            c'.last == time && LastStamp(c', freq) == StampOf(c, time, freq)
            && (StepOk(c, time, freq) ==> InRange(c', freq))
  {
    Restarts(c, time, freq);
    StampNotNegative(c.base, c.last, freq);
    hide Timestamp, Stamp, Signed32, Elapsed, Advance, StampOf, InRange;
  }

  lemma JumpExact(c: Clock, time: int, freq: int)
    requires freq > 0 && InRange(c, freq) && IsInt32(time) && c.base != 0 && Ahead(c, time) > 1000 * freq
    ensures Grows(LastStamp(c, freq), StampOf(c, time, freq), Elapsed(c.last, time), freq) <==> StepOk(c, time, freq)
    ensures var c' := Advance(c, time, freq);
            c'.last == time && LastStamp(c', freq) == StampOf(c, time, freq)
            && (StepOk(c, time, freq) ==> InRange(c', freq))
  {
    MediaStep(c, time, freq);
    PlayedIs(c, Advance(c, time, freq), freq);
    hide LastStamp, Played, Stamp, Ahead, Elapsed, Advance, StampOf, MoveOk;
  }

  lemma MovedExact(c: Clock, time: int, freq: int)
    requires freq > 0 && 1000 * freq < 0x8000_0000 && InRange(c, freq) && IsInt32(time)
    requires c.base != 0 && Ahead(c, time) <= 1000 * freq
    ensures Grows(LastStamp(c, freq), StampOf(c, time, freq), Elapsed(c.last, time), freq) <==> StepOk(c, time, freq)
    ensures var c' := Advance(c, time, freq);
            c'.last == time && LastStamp(c', freq) == StampOf(c, time, freq)
            && (StepOk(c, time, freq) ==> InRange(c', freq))
  {
    ElapsedIs(c.last, time);
    MediaStep(c, time, freq);
    PlayedIs(c, Advance(c, time, freq), freq);
    assert Elapsed(c.last, time) == Ahead(c, time) % 0x1_0000_0000 && -0x8000_0000 <= Ahead(c, time);
    hide LastStamp, Played, Stamp, Ahead, Elapsed, Advance, StampOf, MoveOk, Signed32, Grows, GoodMedia;
    MoveExact(Played(c), Ahead(c, time), freq);
  }

  lemma StampNotNegative(base: int, time: int, freq: int)
    requires freq > 0
    ensures Timestamp(base, time, freq) >= 0
  {
  }

  lemma PlayedIs(c: Clock, d: Clock, freq: int)
    requires freq > 0
    ensures LastStamp(c, freq) == Stamp(Played(c), freq) && LastStamp(d, freq) == Stamp(Played(d), freq)
    ensures IsInt32(Played(c))
  {
    hide Stamp;
  }

  // ---------- runs ----------

  function Stamps(c: Clock, times: seq<int>, freq: int): (r: seq<int>)
    requires freq > 0
    ensures |r| == |times|
    decreases |times|
  {
    if times == [] then [] else [StampOf(c, times[0], freq)] + Stamps(Advance(c, times[0], freq), times[1..], freq)
  }

  predicate Int32s(times: seq<int>) { forall i :: 0 <= i < |times| ==> IsInt32(times[i]) }

  /** Every timestamp grows by at most a second, and by nothing over a longer jump. */
  predicate Growing(stamps: seq<int>, times: seq<int>, freq: int)
    requires |stamps| == |times|
  {
    forall i :: 0 < i < |times| ==> Grows(stamps[i - 1], stamps[i], Elapsed(times[i - 1], times[i]), freq)
  }

  /** Every step of the run is a good one. */
  predicate Smooth(c: Clock, times: seq<int>, freq: int)
    requires freq > 0
    decreases |times|
  {
    times == [] || (StepOk(c, times[0], freq) && Smooth(Advance(c, times[0], freq), times[1..], freq))
  }

  lemma GrowingCons(s: int, stamps: seq<int>, t: int, times: seq<int>, freq: int)
    requires |stamps| == |times| > 0
    ensures Growing([s] + stamps, [t] + times, freq)
            <==> Grows(s, stamps[0], Elapsed(t, times[0]), freq) && Growing(stamps, times, freq)
  {
    hide Grows, Elapsed;
    var ss, tt := [s] + stamps, [t] + times;
    if Growing(ss, tt, freq) {
      assert Grows(ss[1 - 1], ss[1], Elapsed(tt[1 - 1], tt[1]), freq);
      forall i | 0 < i < |times| ensures Grows(stamps[i - 1], stamps[i], Elapsed(times[i - 1], times[i]), freq) {
        assert Grows(ss[i + 1 - 1], ss[i + 1], Elapsed(tt[i + 1 - 1], tt[i + 1]), freq);
      }
    }
    if Grows(s, stamps[0], Elapsed(t, times[0]), freq) && Growing(stamps, times, freq) {
      forall i | 0 < i < |tt| ensures Grows(ss[i - 1], ss[i], Elapsed(tt[i - 1], tt[i]), freq) {
        if i > 1 {
          assert Grows(stamps[i - 1 - 1], stamps[i - 1], Elapsed(times[i - 1 - 1], times[i - 1]), freq);
        }
      }
    }
  }

  lemma GrowingOne(s: int, t: int, freq: int)
    ensures Growing([s] + [], [t] + [], freq)
  {
  }

  /** From a clock in range, the timestamps grow as they should exactly on smooth runs. */
  lemma {:induction false} GrowingExactlyWhenSmooth(c: Clock, times: seq<int>, freq: int)
    requires freq > 0 && 1000 * freq < 0x8000_0000 && InRange(c, freq) && Int32s(times)
    ensures Growing([LastStamp(c, freq)] + Stamps(c, times, freq), [c.last] + times, freq) <==> Smooth(c, times, freq)
    decreases |times|
  {
    hide InRange, StepOk, Grows, Growing, LastStamp, StampOf, Advance, Elapsed;
    if times == [] {
      GrowingOne(LastStamp(c, freq), c.last, freq);
    } else {
      var t, tail := times[0], times[1..];
      assert Int32s(tail) && IsInt32(t);
      StepExact(c, t, freq);
      var c' := Advance(c, t, freq);
      var stamps := [LastStamp(c', freq)] + Stamps(c', tail, freq);
      assert Stamps(c, times, freq) == stamps && [c'.last] + tail == times;
      GrowingCons(LastStamp(c, freq), stamps, c.last, times, freq);
      if StepOk(c, t, freq) {
        GrowingExactlyWhenSmooth(c', tail, freq);
      }
    }
  }

  /** Main result: on every run of RTP times, wrap-around included, the timestamps start at 0 and grow as they should if
      and only if every step behind the first packet is a good one. */
  lemma RunsGrowExactlyWhenSmooth(times: seq<int>, freq: int)
    requires freq > 0 && 1000 * freq < 0x8000_0000 && times != [] && Int32s(times)
    ensures Stamps(NEW_CLOCK, times, freq)[0] == 0
    ensures Growing(Stamps(NEW_CLOCK, times, freq), times, freq)
            <==> Smooth(Clock(times[0], times[0]), times[1..], freq)
  {
    hide InRange, Growing, LastStamp, StampOf, Advance, Smooth;
    var c := Clock(times[0], times[0]);
    assert IsInt32(times[0]) && Int32s(times[1..]);
    Restarts(NEW_CLOCK, times[0], freq);
    assert [c.last] + times[1..] == times;
    assert [LastStamp(c, freq)] + Stamps(c, times[1..], freq) == Stamps(NEW_CLOCK, times, freq);
    GrowingExactlyWhenSmooth(c, times[1..], freq);
  }

  // ---------- RTP times that do not wrap ----------

  /** Unsigned RTP times that never go back and span less than 2^31 ticks, more than six hours at 90 kHz. */
  predicate Steady(rtp: seq<int>) {
    && (forall i :: 0 <= i < |rtp| ==> 0 <= rtp[i] < 0x1_0000_0000)
    && (forall i, j :: 0 <= i < j < |rtp| ==> rtp[i] <= rtp[j] < rtp[i] + 0x8000_0000)
  }

  /** The int that the handlers get. */
  function AsInt(rtp: seq<int>): (r: seq<int>)
    ensures |r| == |rtp|
  {
    seq(|rtp|, i requires 0 <= i < |rtp| => Signed32(rtp[i]))
  }

  /** The clock stands for the unsigned base `b` and the last time `u`. */
  predicate Stands(c: Clock, b: int, u: int) {
    c == Clock(Signed32(b), Signed32(u)) && 0 <= b <= u < 0x1_0000_0000 && (b == 0 ==> u == 0)
  }

  lemma SignedDifference(x: int, y: int)
    requires 0 <= x - y < 0x8000_0000
    ensures Signed32(Signed32(x) - Signed32(y)) == x - y
  {
    var a, b := Turns(x), Turns(y);
    SignedSame(Signed32(x) - Signed32(y), x - y, a - b);
  }

  lemma StandsStep(c: Clock, b: int, u: int, t: int, freq: int)
    requires Stands(c, b, u) && u <= t < 0x1_0000_0000 && t - b < 0x8000_0000 && freq > 0 && 1000 * freq < 0x8000_0000
    ensures StepOk(c, Signed32(t), freq)
    ensures Stands(Advance(c, Signed32(t), freq), NextBase(b, u, t, freq), t)
  {
    hide *;
    if b == 0 {
      FreshStep(c, u, t, freq);
    } else {
      StandsAhead(c, b, u, t);
      BaseNotZero(c, b, u);
      if t - u > 1000 * freq {
        JumpStep(c, b, u, t, freq);
      } else {
        MoveStep(c, b, u, t, freq);
      }
    }
  }

  lemma StandsAhead(c: Clock, b: int, u: int, t: int)
    requires Stands(c, b, u) && u <= t && t - b < 0x8000_0000
    ensures Ahead(c, Signed32(t)) == t - u && Played(c) == u - b
  {
    SignedDifference(u, b);
    SignedDifference(t, u);
  }

  lemma BaseNotZero(c: Clock, b: int, u: int)
    requires Stands(c, b, u) && b != 0
    ensures c.base != 0
  {
    BaseZero(b);
  }

  lemma FreshStep(c: Clock, u: int, t: int, freq: int)
    requires Stands(c, 0, u) && u <= t < 0x1_0000_0000 && freq > 0
    ensures StepOk(c, Signed32(t), freq) && Stands(Advance(c, Signed32(t), freq), NextBase(0, u, t, freq), t)
  {
    assert c == Clock(0, 0);
    SignedRange(t);
    Restarts(c, Signed32(t), freq);
    Restarts(c, 0, freq);
  }

  lemma JumpStep(c: Clock, b: int, u: int, t: int, freq: int)
    requires Stands(c, b, u) && c.base != 0 && u <= t < 0x1_0000_0000 && freq > 0
    requires t - u > 1000 * freq && Ahead(c, Signed32(t)) == t - u
    ensures StepOk(c, Signed32(t), freq) && Stands(Advance(c, Signed32(t), freq), b + (t - u), t)
    ensures b != 0 ==> NextBase(b, u, t, freq) == b + (t - u)
  {
    SignedSame(Signed32(b) + (t - u), b + (t - u), Turns(b));
    hide Signed32;
  }

  lemma MoveStep(c: Clock, b: int, u: int, t: int, freq: int)
    requires Stands(c, b, u) && c.base != 0 && u <= t < 0x1_0000_0000 && freq > 0 && t - b < 0x8000_0000
    requires t - u <= 1000 * freq && Ahead(c, Signed32(t)) == t - u && Played(c) == u - b
    ensures StepOk(c, Signed32(t), freq) && Stands(Advance(c, Signed32(t), freq), b, t)
    ensures b != 0 ==> NextBase(b, u, t, freq) == b
  {
    SmallModulus(u - b);
    hide Signed32;
  }

  lemma SmallModulus(x: int)
    requires 0 <= x < 0x8000_0000
    ensures x % 0x1_0000_0000 == x
  {
  }

  /** Such a clock is in range, and its timestamp fits 31 bits. */
  lemma StandsStamp(c: Clock, b: int, u: int, freq: int)
    requires Stands(c, b, u) && u - b < 0x8000_0000 && freq > 0
    ensures InRange(c, freq) && 0 <= LastStamp(c, freq) < 0x8000_0000
  {
    hide Signed32, LastStamp;
    StandsStampIs(c, b, u, freq);
    DivSmaller(u - b, freq);
    SignedDifference(u, b);
    SignedRange(b);
    SignedRange(u);
  }

  /** The timestamp is the media time in milliseconds. */
  lemma StandsStampIs(c: Clock, b: int, u: int, freq: int)
    requires Stands(c, b, u) && u - b < 0x8000_0000 && freq > 0
    ensures LastStamp(c, freq) == (u - b) / freq
  {
    hide Signed32;
    SignedDifference(u, b);
    SmallStamp(u - b, freq);
  }

  lemma SmallStamp(x: int, freq: int)
    requires 0 <= x < 0x8000_0000 && freq > 0
    ensures Stamp(x, freq) == x / freq
  {
    DivSmaller(x, freq);
    SmallModulus(x / freq);
  }

  lemma BaseZero(b: int)
    requires 0 <= b < 0x1_0000_0000
    ensures Signed32(b) == 0 <==> b == 0
  {
  }

  /** The unsigned base after the next packet. */
  function NextBase(b: int, u: int, t: int, freq: int): int {
    if b == 0 then t else if t - u > 1000 * freq then b + (t - u) else b
  }

  /** One step along a steady run. */
  lemma SteadyStep(c: Clock, b: int, rtp: seq<int>, freq: int)
    requires |rtp| > 1 && Steady(rtp) && Stands(c, b, rtp[0]) && freq > 0 && 1000 * freq < 0x8000_0000
    requires forall i :: 0 <= i < |rtp| ==> rtp[i] - b < 0x8000_0000
    ensures StepOk(c, Signed32(rtp[1]), freq) && IsInt32(Signed32(rtp[1]))
    ensures var b' := NextBase(b, rtp[0], rtp[1], freq);
            && Stands(Advance(c, Signed32(rtp[1]), freq), b', rtp[1]) && Steady(rtp[1..])
            && forall i :: 0 <= i < |rtp[1..]| ==> rtp[1..][i] - b' < 0x8000_0000
    ensures AsInt(rtp[1..])[1..] == AsInt(rtp[1..][1..]) && AsInt(rtp[1..])[0] == Signed32(rtp[1])
  {
    hide Advance, StepOk, Stands, Signed32;
    var tail, b' := rtp[1..], NextBase(b, rtp[0], rtp[1], freq);
    assert rtp[0] <= rtp[1];
    StandsBounds(c, b, rtp[0]);
    StandsStep(c, b, rtp[0], rtp[1], freq);
    assert b <= b';
    assert forall i :: 0 <= i < |tail| ==> tail[i] == rtp[i + 1];
    SignedRange(rtp[1]);
  }

  lemma SignedRange(x: int)
    ensures IsInt32(Signed32(x))
  {
  }

  lemma {:induction false} SteadyIsSmooth(c: Clock, b: int, rtp: seq<int>, freq: int)
    requires rtp != [] && Steady(rtp) && Stands(c, b, rtp[0]) && freq > 0 && 1000 * freq < 0x8000_0000
    requires forall i :: 0 <= i < |rtp| ==> rtp[i] - b < 0x8000_0000
    ensures Smooth(c, AsInt(rtp[1..]), freq)
    decreases |rtp|
  {
    hide Advance, StepOk, Stands, Signed32, Steady;
    if |rtp| > 1 {
      SteadyStep(c, b, rtp, freq);
      SteadyIsSmooth(Advance(c, Signed32(rtp[1]), freq), NextBase(b, rtp[0], rtp[1], freq), rtp[1..], freq);
    }
  }

  lemma StandsBounds(c: Clock, b: int, u: int)
    requires Stands(c, b, u)
    ensures 0 <= b <= u
  {
  }

  /** The clock after the first packet of such a run, and the run behind it. */
  lemma SteadyStarts(rtp: seq<int>, freq: int)
    requires freq > 0 && 1000 * freq < 0x8000_0000 && rtp != [] && Steady(rtp)
    ensures var times := AsInt(rtp);
            var c := Clock(times[0], times[0]);
            && Advance(NEW_CLOCK, times[0], freq) == c && StampOf(NEW_CLOCK, times[0], freq) == 0
            && InRange(c, freq) && LastStamp(c, freq) == 0 && Int32s(times) && Smooth(c, times[1..], freq)
  {
    hide InRange, LastStamp, StampOf, Advance, Smooth, Steady, Stands, Signed32;
    var times := AsInt(rtp);
    var c := Clock(times[0], times[0]);
    FirstStands(rtp);
    SteadyIsSmooth(c, rtp[0], rtp, freq);
    Restarts(NEW_CLOCK, times[0], freq);
    assert [c.last] + times[1..] == times && AsInt(rtp[1..]) == times[1..];
  }

  /** Main result: on every run of RTP times that do not wrap and span less than 2^31 ticks, the timestamps start at 0,
      never go back, grow by at most a second per packet, and do not grow at all over a jump of more than a second. */
  lemma SteadyRunsGrow(rtp: seq<int>, freq: int)
    requires freq > 0 && 1000 * freq < 0x8000_0000 && rtp != [] && Steady(rtp)
    ensures var s := Stamps(NEW_CLOCK, AsInt(rtp), freq);
            s[0] == 0 && forall i :: 0 < i < |rtp| ==> Grows(s[i - 1], s[i], rtp[i] - rtp[i - 1], freq)
  {
    hide InRange, LastStamp, StampOf, Advance, Smooth, Grows, Signed32, Elapsed;
    var times := AsInt(rtp);
    var c := Clock(times[0], times[0]);
    SteadyStarts(rtp, freq);
    RunsGrowExactlyWhenSmooth(times, freq);
    var s := Stamps(NEW_CLOCK, times, freq);
    forall i | 0 < i < |rtp| ensures Grows(s[i - 1], s[i], rtp[i] - rtp[i - 1], freq) {
      ElapsedOf(rtp[i - 1], rtp[i]);
      assert Grows(s[i - 1], s[i], Elapsed(times[i - 1], times[i]), freq);
    }
  }

  lemma {:induction false} StampsFitFrom(c: Clock, b: int, rtp: seq<int>, freq: int)
    requires rtp != [] && Steady(rtp) && Stands(c, b, rtp[0]) && freq > 0 && 1000 * freq < 0x8000_0000
    requires forall i :: 0 <= i < |rtp| ==> rtp[i] - b < 0x8000_0000
    ensures Fit31(Stamps(c, AsInt(rtp[1..]), freq))
    decreases |rtp|
  {
    hide Advance, StepOk, Stands, Signed32, Steady, StampOf, InRange, LastStamp, Fit31;
    if |rtp| == 1 {
      NoneFits();
    } else {
      SteadyStep(c, b, rtp, freq);
      var t := Signed32(rtp[1]);
      var c', b' := Advance(c, t, freq), NextBase(b, rtp[0], rtp[1], freq);
      StampsFitFrom(c', b', rtp[1..], freq);
      var times := AsInt(rtp[1..]);
      assert times[1..] == AsInt(rtp[1..][1..]);
      assert Stamps(c, times, freq) == [StampOf(c, t, freq)] + Stamps(c', times[1..], freq);
      assert rtp[1..][0] - b' < 0x8000_0000;
      StandsStamp(c', b', rtp[1], freq);
      LastStampIs(c, t, freq);
      OneFits(StampOf(c, t, freq), Stamps(c', times[1..], freq));
    }
  }

  predicate Fit31(stamps: seq<int>) { forall i :: 0 <= i < |stamps| ==> 0 <= stamps[i] < 0x8000_0000 }

  lemma NoneFits()
    ensures Fit31([])
  {
  }

  lemma OneFits(stamp: int, stamps: seq<int>)
    requires 0 <= stamp < 0x8000_0000 && Fit31(stamps)
    ensures Fit31([stamp] + stamps)
  {
  }

  lemma LastStampIs(c: Clock, time: int, freq: int)
    requires freq > 0
    ensures LastStamp(Advance(c, time, freq), freq) == StampOf(c, time, freq)
  {
    hide Timestamp;
  }

  /** The timestamps of such a run fit 31 bits. */
  lemma SteadyStampsFit(rtp: seq<int>, freq: int)
    requires freq > 0 && 1000 * freq < 0x8000_0000 && Steady(rtp)
    ensures Fit31(Stamps(NEW_CLOCK, AsInt(rtp), freq))
  {
    hide InRange, LastStamp, StampOf, Advance, Smooth, Steady, Stands, Signed32, Int32s, Fit31;
    if rtp == [] {
      NoneFits();
    } else {
      SteadyStarts(rtp, freq);
      FirstStands(rtp);
      StampsFitFrom(Clock(AsInt(rtp)[0], AsInt(rtp)[0]), rtp[0], rtp, freq);
      var times := AsInt(rtp);
      assert times[1..] == AsInt(rtp[1..]);
      assert Stamps(NEW_CLOCK, times, freq) == [0] + Stamps(Clock(times[0], times[0]), times[1..], freq);
      OneFits(0, Stamps(Clock(times[0], times[0]), times[1..], freq));
    }
  }

  /** The ticks that count up to packet `k`: every step of at most a second, but none behind a time of 0. */
  function Counted(rtp: seq<int>, k: nat, freq: int): int
    requires k < |rtp|
  {
    if k == 0 then 0
    else
      var step := rtp[k] - rtp[k - 1];
      Counted(rtp, k - 1, freq) + (if rtp[k - 1] == 0 || step > 1000 * freq then 0 else step)
  }

  lemma CountedStep(rtp: seq<int>, k: nat, b: int, freq: int)
    requires k + 1 < |rtp| && 0 <= b <= rtp[k] && (b == 0 ==> rtp[k] == 0) && Counted(rtp, k, freq) == rtp[k] - b
    ensures Counted(rtp, k + 1, freq) == rtp[k + 1] - NextBase(b, rtp[k], rtp[k + 1], freq)
  {
  }

  lemma StandsBase(c: Clock, b: int, u: int)
    requires Stands(c, b, u)
    ensures 0 <= b <= u && (b == 0 ==> u == 0)
  {
  }

  lemma SteadyTail(rtp: seq<int>, k: nat)
    requires Steady(rtp) && k <= |rtp|
    ensures Steady(rtp[k..])
  {
  }

  predicate StampsCounted(stamps: seq<int>, rtp: seq<int>, from: nat, freq: int)
    requires freq > 0
  {
    |stamps| == |rtp| - from && forall i :: 0 <= i < |stamps| ==> stamps[i] == Counted(rtp, from + i, freq) / freq
  }

  lemma CountedCons(stamp: int, stamps: seq<int>, rtp: seq<int>, from: nat, freq: int)
    requires freq > 0 && from < |rtp| && stamp == Counted(rtp, from, freq) / freq
    requires StampsCounted(stamps, rtp, from + 1, freq)
    ensures StampsCounted([stamp] + stamps, rtp, from, freq)
  {
    hide Counted;
    var all := [stamp] + stamps;
    forall i | 0 <= i < |all|
      ensures all[i] == Counted(rtp, from + i, freq) / freq
    {
      if i > 0 { assert all[i] == stamps[i - 1]; }
    }
  }

  lemma {:induction false} StampsCountedFrom(c: Clock, b: int, rtp: seq<int>, k: nat, freq: int)
    requires k < |rtp| && Steady(rtp) && Stands(c, b, rtp[k]) && freq > 0 && 1000 * freq < 0x8000_0000
    requires forall i :: k <= i < |rtp| ==> rtp[i] - b < 0x8000_0000
    requires Counted(rtp, k, freq) == rtp[k] - b
    ensures StampsCounted(Stamps(c, AsInt(rtp[k + 1..]), freq), rtp, k + 1, freq)
    decreases |rtp| - k
  {
    hide Advance, StepOk, Stands, Signed32, Steady, StampOf, InRange, LastStamp, StampsCounted, Counted, NextBase;
    var rest := rtp[k + 1..];
    if rest == [] {
      NoneCounted(rtp, freq);
    } else {
      var tail := rtp[k..];
      SteadyTail(rtp, k);
      assert forall i :: 0 <= i < |tail| ==> tail[i] == rtp[k + i];
      SteadyStep(c, b, tail, freq);
      assert tail[1..] == rest && rest[1..] == rtp[k + 2..];
      var t := Signed32(rtp[k + 1]);
      var c', b' := Advance(c, t, freq), NextBase(b, rtp[k], rtp[k + 1], freq);
      StandsBase(c, b, rtp[k]);
      CountedStep(rtp, k, b, freq);
      forall i | k + 1 <= i < |rtp| ensures rtp[i] - b' < 0x8000_0000 {
        assert rest[i - (k + 1)] == rtp[i];
      }
      StampsCountedFrom(c', b', rtp, k + 1, freq);
      StandsStampIs(c', b', rtp[k + 1], freq);
      LastStampIs(c, t, freq);
      var times := AsInt(rest);
      assert Stamps(c, times, freq) == [StampOf(c, t, freq)] + Stamps(c', times[1..], freq);
      CountedCons(StampOf(c, t, freq), Stamps(c', times[1..], freq), rtp, k + 1, freq);
    }
  }

  lemma NoneCounted(rtp: seq<int>, freq: int)
    requires freq > 0
    ensures StampsCounted([], rtp, |rtp|, freq)
  {
  }

  /** Main result: on such a run every timestamp is exactly the counted ticks in milliseconds, rounded down. */
  lemma SteadyStampsExactly(rtp: seq<int>, freq: int)
    requires freq > 0 && 1000 * freq < 0x8000_0000 && Steady(rtp)
    ensures var s := Stamps(NEW_CLOCK, AsInt(rtp), freq);
            forall k :: 0 <= k < |rtp| ==> s[k] == Counted(rtp, k, freq) / freq
  {
    hide InRange, LastStamp, StampOf, Advance, Smooth, Steady, Stands, Signed32, Int32s;
    if rtp != [] {
      SteadyStarts(rtp, freq);
      FirstStands(rtp);
      var times := AsInt(rtp);
      var c := Clock(times[0], times[0]);
      StampsCountedFrom(c, rtp[0], rtp, 0, freq);
      assert times[1..] == AsInt(rtp[1..]);
      assert Stamps(NEW_CLOCK, times, freq) == [0] + Stamps(c, times[1..], freq);
      CountedCons(0, Stamps(c, times[1..], freq), rtp, 0, freq);
    }
  }

  /** Between unsigned times, the circle gives the difference back. */
  lemma ElapsedOf(u: int, t: int)
    requires 0 <= u <= t < 0x1_0000_0000
    ensures Elapsed(Signed32(u), Signed32(t)) == t - u
  {
    var a, b := Turns(u), Turns(t);
    ModUnique(Signed32(t) - Signed32(u), 0x1_0000_0000, b - a, t - u);
  }

  lemma FirstStands(rtp: seq<int>)
    requires rtp != [] && Steady(rtp)
    ensures Stands(Clock(Signed32(rtp[0]), Signed32(rtp[0])), rtp[0], rtp[0]) && IsInt32(Signed32(rtp[0]))
    ensures forall i :: 0 <= i < |rtp| ==> rtp[i] - rtp[0] < 0x8000_0000
  {
  }

  /** It goes wrong on a wrap-around: a jump can move the base to exactly 0, and the next packet starts the clock
      again. */
  lemma CrossingZeroGoesBack()
    ensures Stamps(NEW_CLOCK, [-200000, -190000, 10000, 10090], 90) == [0, 111, 111, 0]
  {
    var c1 := Advance(NEW_CLOCK, -200000, 90);
    assert c1 == Clock(-200000, -200000);
    var c2 := Advance(c1, -190000, 90);
    assert c2 == Clock(-200000, -190000);
    var c3 := Advance(c2, 10000, 90);
    assert c3 == Clock(0, 10000);
    var c4 := Advance(c3, 10090, 90);
    assert StampOf(NEW_CLOCK, -200000, 90) == 0;
    assert StampOf(c1, -190000, 90) == 111;
    assert StampOf(c2, 10000, 90) == 111;
    assert StampOf(c3, 10090, 90) == 0;
    assert Stamps(c4, [], 90) == [];
    assert [10000, 10090][1..] == [10090];
    assert [-190000, 10000, 10090][1..] == [10000, 10090];
    assert [-200000, -190000, 10000, 10090][1..] == [-190000, 10000, 10090];
    assert Stamps(c3, [10090], 90) == [0];
    assert Stamps(c2, [10000, 10090], 90) == [111, 0];
    assert Stamps(c1, [-190000, 10000, 10090], 90) == [111, 111, 0];
  }
}
