/**
 * The value-level logic of the RARS headless timer: how a compare-register word
 * write changes the 64-bit compare value, how play/pause/reset/stop/tick move
 * the time accounting, and when a tick raises the timer interrupt.
 * The classes in module Tools perform these steps on their fields.
 */
module TimerLogic {
  import opened JavaNum

  // ---------------------------------------------------------------------------
  // Compare register

  /** `AccessNotice.WRITE`: the only access type the compare watcher reacts to. */
  const WRITE: int := 1

  /** What a memory observer is told about one access to the range it watches. */
  datatype MemoryAccessNotice = MemoryAccessNotice(accessType: int, address: Int, value: Int)

  /** The watcher's state: the compare value and the edge-trigger flag. */
  datatype CompareRegister = CompareRegister(value: Long, postInterrupt: bool)

  /** The int literal `0xFFFFFFFF`: its bit pattern is all ones, so Java reads it as -1. */
  const ALL_ONES_INT_LITERAL: Int := -1

  /** The address of the upper word of a two-word register at a: `a + 4` on ints. */
  function UpperAddress(a: Int): (r: Int)
    ensures r != a
    ensures (r - a) % TWO_32 == 4
  {
    WrapInt(a + 4)
  }

  /** A long is determined by its high word h and the unsigned value l of its low word. */
  lemma SplitLong(x: Long, h: int, l: int)
    requires x == h * TWO_32 + l && 0 <= l < TWO_32
    ensures HighWord(x) == h && LowWord(x) == WrapInt(l)
  {
    assert x / TWO_32 == h;
  }

  /** Only the high word of a long wraps when whole words are added to it. */
  lemma WrapHighWord(k: int, l: int)
    requires 0 <= l < TWO_32
    ensures WrapLong(k * TWO_32 + l) == WrapInt(k) * TWO_32 + l
  {
    var j := (WrapInt(k) - k) / TWO_32;
    assert WrapInt(k) * TWO_32 + l == k * TWO_32 + l + j * TWO_64;
  }

  /**
   * `((value >> 32) << 32) + w`, the low-word write. The int w is sign-extended
   * before the addition, so the low word becomes w and, when w is negative, the
   * high word drops by one (with wrap-around).
   */
  function WriteLowWord(value: Long, w: Int): (r: Long)
    ensures LowWord(r) == w
    ensures HighWord(r) == if w >= 0 then HighWord(value) else WrapInt(HighWord(value) - 1)
  {
    var h := ShiftRight32(value);
    var r := LongAdd(ShiftLeft32(h), IntToLong(w));
    assert ShiftLeft32(h) == h * TWO_32;
    if w >= 0 then
      SplitLong(r, h, w);
      r
    else
      WrapHighWord(h - 1, w + TWO_32);
      SplitLong(r, WrapInt(h - 1), w + TWO_32);
      r
  }

  /**
   * `(value & 0xFFFFFFFF) + ((long) w << 32)`, the high-word write. The mask is the
   * int -1 widened to the long -1, so it keeps all 64 bits: the write adds w to
   * the high word (with wrap-around) instead of replacing it.
   */
  function WriteHighWord(value: Long, w: Int): (r: Long)
    ensures r == WrapLong(value + w * TWO_32)
    ensures LowWord(r) == LowWord(value)
    ensures HighWord(r) == WrapInt(HighWord(value) + w)
  {
    LongAndMinusOne(value);
    AddToHighWord(value, w);
    LongAdd(LongAnd(value, IntToLong(ALL_ONES_INT_LITERAL)), ShiftLeft32(IntToLong(w)))
  }

  /** Adding whole words to a long keeps its low word and adds to its high word. */
  lemma AddToHighWord(value: Long, w: Int)
    ensures LowWord(WrapLong(value + w * TWO_32)) == LowWord(value)
    ensures HighWord(WrapLong(value + w * TWO_32)) == WrapInt(HighWord(value) + w)
  {
    var h, l := value / TWO_32, value % TWO_32;
    assert value + w * TWO_32 == (h + w) * TWO_32 + l;
    WrapHighWord(h + w, l);
    SplitLong(WrapLong(value + w * TWO_32), WrapInt(h + w), l);
    SplitLong(value, h, l);
  }

  /** The words of a low-word write followed by a high-word write, whatever the writes compute. */
  lemma ComposeWordWrites(value: Long, v1: Long, v2: Long, lo: Int, hi: Int)
    requires LowWord(v1) == lo
    requires HighWord(v1) == if lo >= 0 then HighWord(value) else WrapInt(HighWord(value) - 1)
    requires LowWord(v2) == LowWord(v1) && HighWord(v2) == WrapInt(HighWord(v1) + hi)
    ensures v2 == FromWords(lo, WrapInt(HighWord(value) + hi - (if lo < 0 then 1 else 0)))
  {
    if lo < 0 {
      WrapIntAdd(HighWord(value) - 1, hi);
    }
    WordsDetermine(v2, FromWords(lo, WrapInt(HighWord(value) + hi - (if lo < 0 then 1 else 0))));
  }

  /**
   * Writing the low word lo and then the high word hi: the low word is lo, and the
   * high word is the old high word plus hi, less a borrow of one for a negative lo.
   */
  lemma LowThenHigh(value: Long, lo: Int, hi: Int)
    ensures WriteHighWord(WriteLowWord(value, lo), hi)
         == FromWords(lo, WrapInt(HighWord(value) + hi - (if lo < 0 then 1 else 0)))
  {
    var v1 := WriteLowWord(value, lo);
    ComposeWordWrites(value, v1, WriteHighWord(v1, hi), lo, hi);
  }

  /** From a cleared register, a non-negative lo then hi give `(hi << 32) + lo`. */
  lemma LowThenHighFromZero(lo: Int, hi: Int)
    requires lo >= 0
    ensures WriteHighWord(WriteLowWord(0, lo), hi) == hi * TWO_32 + lo
  {
    LowThenHigh(0, lo, hi);
  }

  /**
   * A low-then-high write pair leaves exactly the words lo and hi when, and only
   * when, the old high word less the borrow for a negative lo is zero (mod 2^32).
   */
  lemma LowThenHighGivesWords(value: Long, lo: Int, hi: Int)
    ensures WriteHighWord(WriteLowWord(value, lo), hi) == FromWords(lo, hi)
        <==> WrapInt(HighWord(value) - (if lo < 0 then 1 else 0)) == 0
  {
    var d := HighWord(value) - (if lo < 0 then 1 else 0);
    LowThenHigh(value, lo, hi);
    AddedWordUnchanged(d, hi);
    var h := WrapInt(d + hi);
    assert FromWords(lo, h) == FromWords(lo, hi) ==> HighWord(FromWords(lo, h)) == HighWord(FromWords(lo, hi));
  }

  /** Adding d to the int w (with wrap) leaves w exactly when d is zero mod 2^32. */
  lemma AddedWordUnchanged(d: int, w: Int)
    ensures WrapInt(d + w) == w <==> WrapInt(d) == 0
  {
  }

  /** Worked values: 5 then 1; a low write that keeps the high word; one that borrows; a high write that adds. */
  lemma CompareWriteExamples()
    ensures WriteHighWord(WriteLowWord(0, 5), 1) == 0x0000_0001_0000_0005
    ensures WriteLowWord(0x0000_0002_0000_0003, 0x99) == 0x0000_0002_0000_0099
    ensures WriteLowWord(0x0000_0002_0000_0003, -0x8000_0000) == 0x0000_0001_8000_0000
    ensures WriteHighWord(0x0000_0002_0000_0003, 1) == 0x0000_0003_0000_0003
  {
    LowThenHighFromZero(5, 1);
    WordsDetermine(WriteLowWord(0x0000_0002_0000_0003, 0x99), 0x0000_0002_0000_0099);
    WordsDetermine(WriteLowWord(0x0000_0002_0000_0003, -0x8000_0000), 0x0000_0001_8000_0000);
  }

  // ---------------------------------------------------------------------------
  // Time accounting

  /** The controller's fields `time`, `startTime`, `savedTime` and `updateTime`. */
  datatype Clock = Clock(time: Long, startTime: Long, savedTime: Long, updateTime: bool)

  /** The fields as they are initialised: all zero, paused. */
  const InitialClock: Clock := Clock(0, 0, 0, false)

  /** While time does not progress, the current time is the accumulator. */
  predicate Consistent(c: Clock)
  {
    !c.updateTime ==> c.time == c.savedTime
  }

  /** `savedTime + now - startTime`, evaluated left to right on longs. */
  function Elapsed(savedTime: Long, now: Long, startTime: Long): (r: Long)
    ensures r == WrapLong(savedTime + (now - startTime))
  {
    WrapLongAdd(savedTime as int + now, -(startTime as int));
    LongSub(LongAdd(savedTime, now), startTime)
  }

  /** The time the timer stands at when the wall clock reads now. */
  function Reported(c: Clock, now: Long): Long
  {
    if c.updateTime then Elapsed(c.savedTime, now, c.startTime) else c.savedTime
  }

  /** While time progresses, the reported time moves exactly with the wall clock. */
  lemma ReportedAdvances(c: Clock, now: Long, later: Long)
    requires c.updateTime
    ensures Reported(c, later) == WrapLong(Reported(c, now) + (later - now))
  {
    WrapLongAdd(c.savedTime + (now - c.startTime), later - now);
  }

  /** `play`: resume; a second play does not re-anchor the start time. */
  function PlayStep(c: Clock, now: Long): (r: Clock)
    ensures r.updateTime
    ensures c.updateTime ==> r == c
    ensures r.time == c.time && r.savedTime == c.savedTime
    ensures Reported(r, now) == Reported(c, now)
  {
    if !c.updateTime then c.(updateTime := true, startTime := now) else c
  }

  /** `pause`: fold the time played since the last play into the accumulator. */
  function PauseStep(c: Clock, now: Long): (r: Clock)
    ensures !r.updateTime
    ensures !c.updateTime ==> r == c
    ensures c.updateTime ==> r.savedTime == Reported(c, now) && Consistent(r)
    ensures r.startTime == c.startTime
    ensures forall later: Long :: Reported(r, later) == Reported(c, now)
  {
    if c.updateTime then
      var t := Elapsed(c.savedTime, now, c.startTime);
      c.(updateTime := false, time := t, savedTime := t)
    else c
  }

  /** `reset`: time restarts from zero at now; playing or paused is kept. */
  function ResetStep(c: Clock, now: Long): (r: Clock)
    ensures r.updateTime == c.updateTime && Consistent(r)
    ensures r.time == 0 && r.savedTime == 0 && r.startTime == now
    ensures Reported(r, now) == 0
    ensures forall later: Long :: Reported(r, later) == if r.updateTime then WrapLong(later - now) else 0
  {
    c.(time := 0, savedTime := 0, startTime := now)
  }

  /** `stop`: paused at zero. */
  function StopStep(c: Clock, now: Long): (r: Clock)
    ensures !r.updateTime && Consistent(r) && r.time == 0
    ensures forall later: Long :: Reported(r, later) == 0
  {
    ResetStep(c.(updateTime := false), now)
  }

  /** The time computation of one tick: only while time progresses. */
  function TickStep(c: Clock, now: Long): (r: Clock)
    ensures c.updateTime ==> r.time == Reported(c, now)
    ensures !c.updateTime ==> r == c
    ensures r.updateTime == c.updateTime && r.savedTime == c.savedTime && r.startTime == c.startTime
    ensures Consistent(c) ==> Consistent(r)
  {
    if c.updateTime then c.(time := Elapsed(c.savedTime, now, c.startTime)) else c
  }

  /** Successive ticks while playing: time advances by exactly the wall-clock difference. */
  lemma TickTimeAdvances(c: Clock, t1: Long, t2: Long)
    requires c.updateTime
    ensures TickStep(TickStep(c, t1), t2).time == WrapLong(TickStep(c, t1).time + (t2 - t1))
  {
    ReportedAdvances(c, t1, t2);
  }

  /** With a non-decreasing clock and no overflow, time never goes backwards across ticks. */
  lemma TickTimeNonDecreasing(c: Clock, t1: Long, t2: Long)
    requires c.updateTime && t1 <= t2
    requires -TWO_63 <= c.savedTime + (t1 - c.startTime) && c.savedTime + (t2 - c.startTime) < TWO_63
    ensures TickStep(c, t1).time <= TickStep(TickStep(c, t1), t2).time
  {
  }

  /** One lifecycle event at a wall-clock instant. */
  datatype Control = Play(at: Long) | Pause(at: Long) | Tick(at: Long)

  function Step(c: Clock, e: Control): Clock
  {
    match e
    case Play(t) => PlayStep(c, t)
    case Pause(t) => PauseStep(c, t)
    case Tick(t) => TickStep(c, t)
  }

  /** The clock after the events es, in order. */
  function Run(c: Clock, es: seq<Control>): Clock
    decreases |es|
  {
    if es == [] then c else Run(Step(c, es[0]), es[1..])
  }

  /** Whether time is being played, and since which instant. */
  datatype Since = Paused | PlayingFrom(start: Long)

  function SinceOf(c: Clock): Since
  {
    if c.updateTime then PlayingFrom(c.startTime) else Paused
  }

  /** Whether time is being played after e, and since when. */
  function NextSince(since: Since, e: Control): Since
  {
    match e
    case Play(t) => if since.Paused? then PlayingFrom(t) else since
    case Pause(_) => Paused
    case Tick(_) => since
  }

  /** The wall-clock length of the played interval that e closes, if any. */
  function Closed(since: Since, e: Control): int
  {
    match e
    case Pause(t) => if since.PlayingFrom? then t - since.start else 0
    case _ => 0
  }

  /**
   * The exact total wall-clock length of the played intervals that the pauses in
   * es close: a play opens an interval unless one is open, a pause closes the
   * open one, ticks do not count.
   */
  function PlayedTotal(es: seq<Control>, since: Since): int
    decreases |es|
  {
    if es == [] then 0 else Closed(since, es[0]) + PlayedTotal(es[1..], NextSince(since, es[0]))
  }

  /** One event adds the interval it closes to the accumulator. */
  lemma StepAccumulates(c: Clock, e: Control)
    ensures SinceOf(Step(c, e)) == NextSince(SinceOf(c), e)
    ensures Step(c, e).savedTime == WrapLong(c.savedTime + Closed(SinceOf(c), e))
  {
  }

  /** The accumulator is the old one plus the played intervals, wrapped into a long. */
  lemma {:induction false} SavedTimeIsPlayedTotal(c: Clock, es: seq<Control>)
    ensures Run(c, es).savedTime == WrapLong(c.savedTime + PlayedTotal(es, SinceOf(c)))
    decreases |es|
  {
    if es != [] {
      var c1 := Step(c, es[0]);
      assert Run(c, es) == Run(c1, es[1..]);
      StepAccumulates(c, es[0]);
      SavedTimeIsPlayedTotal(c1, es[1..]);
      WrapLongAdd(c.savedTime + Closed(SinceOf(c), es[0]), PlayedTotal(es[1..], SinceOf(c1)));
    }
  }

  /** Every play/pause/tick sequence keeps the current time equal to the accumulator while paused. */
  lemma {:induction false} RunKeepsConsistent(c: Clock, es: seq<Control>)
    requires Consistent(c)
    ensures Consistent(Run(c, es))
    decreases |es|
  {
    if es != [] {
      RunKeepsConsistent(Step(c, es[0]), es[1..]);
    }
  }

  /** From the initial fields, the accumulator is exactly the played total when that fits in a long. */
  lemma SavedTimeFromStart(es: seq<Control>)
    requires 0 <= PlayedTotal(es, Paused) < TWO_63
    ensures Run(InitialClock, es).savedTime == PlayedTotal(es, Paused)
    ensures !Run(InitialClock, es).updateTime ==> Run(InitialClock, es).time == PlayedTotal(es, Paused)
  {
    SavedTimeIsPlayedTotal(InitialClock, es);
    RunKeepsConsistent(InitialClock, es);
  }

  // ---------------------------------------------------------------------------
  // Interrupt condition

  /** The UTIE bit of the `uie` CSR and the UIE bit of the `ustatus` CSR. */
  const UTIE_MASK: Int := 0x10
  const UIE_MASK: Int := 0x1

  /** Both user-level timer-interrupt enable bits are set. */
  function BitsEnabled(uie: Int, ustatus: Int): (r: bool)
    ensures r <==> BitSet(IntBits(uie), 4) && BitSet(IntBits(ustatus), 0)
  {
    IntAndSingleBit(uie, 4, UTIE_MASK);
    IntAndSingleBit(ustatus, 0, UIE_MASK);
    var utip := IntAnd(uie, UTIE_MASK) == UTIE_MASK;
    var uieBit := IntAnd(ustatus, UIE_MASK) == UIE_MASK;
    utip && uieBit
  }

  /** What a tick reads from outside: the wall clock and the two CSR values. */
  datatype TickInput = TickInput(now: Long, uie: Int, ustatus: Int)

  /** The tick's raise decision, with time at least the compare value as a signed comparison. */
  predicate TickRaises(c: Clock, reg: CompareRegister, t: TickInput)
  {
    c.updateTime && Reported(c, t.now) >= reg.value && reg.postInterrupt && BitsEnabled(t.uie, t.ustatus)
  }

  /** A raise disarms the register; nothing else about it changes. */
  function AfterTick(reg: CompareRegister, raised: bool): CompareRegister
  {
    reg.(postInterrupt := reg.postInterrupt && !raised)
  }

  /** The number of interrupts the ticks ts raise, with no compare write in between. */
  function RaiseCount(c: Clock, reg: CompareRegister, ts: seq<TickInput>): nat
    decreases |ts|
  {
    if ts == [] then 0
    else
      var raised := TickRaises(c, reg, ts[0]);
      (if raised then 1 else 0) + RaiseCount(TickStep(c, ts[0].now), AfterTick(reg, raised), ts[1..])
  }

  /** Edge-triggered: ticks without an intervening compare write raise at most once, and not at all when unarmed. */
  lemma {:induction false} AtMostOneRaisePerWrite(c: Clock, reg: CompareRegister, ts: seq<TickInput>)
    ensures RaiseCount(c, reg, ts) <= if reg.postInterrupt then 1 else 0
    decreases |ts|
  {
    if ts != [] {
      var raised := TickRaises(c, reg, ts[0]);
      AtMostOneRaisePerWrite(TickStep(c, ts[0].now), AfterTick(reg, raised), ts[1..]);
    }
  }

  /** The tick at input t would raise if the register were armed. */
  predicate Due(c: Clock, value: Long, t: TickInput)
  {
    c.updateTime && Reported(c, t.now) >= value && BitsEnabled(t.uie, t.ustatus)
  }

  /** An armed register and one due tick among ts: exactly one interrupt. */
  lemma {:induction false} RaisesOnceWhenDue(c: Clock, reg: CompareRegister, ts: seq<TickInput>)
    requires reg.postInterrupt
    requires exists k :: 0 <= k < |ts| && Due(c, reg.value, ts[k])
    ensures RaiseCount(c, reg, ts) == 1
    decreases |ts|
  {
    var raised := TickRaises(c, reg, ts[0]);
    var c1 := TickStep(c, ts[0].now);
    if raised {
      AtMostOneRaisePerWrite(c1, AfterTick(reg, raised), ts[1..]);
    } else {
      var k :| 0 <= k < |ts| && Due(c, reg.value, ts[k]);
      assert k > 0;
      assert Due(c1, reg.value, ts[1..][k - 1]);
      RaisesOnceWhenDue(c1, AfterTick(reg, raised), ts[1..]);
    }
  }
}
