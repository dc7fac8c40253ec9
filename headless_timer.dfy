/**
 * The RARS headless timer tool (package rars.tools): a lifecycle controller over
 * the time fields, a watcher of the two compare-register words, a periodic tick
 * that publishes the time into two memory words and raises the timer interrupt,
 * and the word write into memory they share.
 *
 * The Java class keeps its state in static fields and an inner `Tick` task; here
 * the one timer instance owns them as fields and the tick's two methods are
 * TickRun and TickReset. The wall clock (`System.currentTimeMillis()`) is the
 * argument `now`, the CSR values a tick reads are arguments, the interrupt it
 * registers is its result, and the simulated memory is the map `memory` from
 * word address to word.
 */
module Tools {
  import opened JavaNum
  import opened TimerLogic

  /** Offsets of the time and compare registers from the memory-mapped I/O base. */
  const TIME_OFFSET: int := 0x18
  const TIME_CMP_OFFSET: int := 0x20

  /** Watches the two compare-register words for writes. */
  class TimeCmpDaemon {
    const timeCmpAddress: Int
    var postInterrupt: bool
    var value: Long

    function Register(): CompareRegister
      reads this
    {
      CompareRegister(value, postInterrupt)
    }

    constructor (timeCmpAddress: Int)
      ensures this.timeCmpAddress == timeCmpAddress
      ensures value == 0 && !postInterrupt
    {
      this.timeCmpAddress := timeCmpAddress;
      postInterrupt := false;
      value := 0;
    }

    /** Observer callback: a write to either compare word changes the value and arms. */
    method Update(notice: MemoryAccessNotice)
      modifies this
      ensures notice.accessType == WRITE && notice.address == timeCmpAddress ==>
                value == WriteLowWord(old(value), notice.value) && postInterrupt
      ensures notice.accessType == WRITE && notice.address == UpperAddress(timeCmpAddress) ==>
                value == WriteHighWord(old(value), notice.value) && postInterrupt
      ensures notice.accessType != WRITE
              || (notice.address != timeCmpAddress && notice.address != UpperAddress(timeCmpAddress)) ==>
                value == old(value) && postInterrupt == old(postInterrupt)
    {
      if notice.accessType == WRITE {
        var address := notice.address;
        var written := notice.value;
        if address == timeCmpAddress {
          value := LongAdd(ShiftLeft32(ShiftRight32(value)), IntToLong(written));
          postInterrupt := true;
        } else if address == UpperAddress(timeCmpAddress) {
          value := LongAdd(LongAnd(value, IntToLong(ALL_ONES_INT_LITERAL)), ShiftLeft32(IntToLong(written)));
          postInterrupt := true;
        }
      }
    }
  }

  class HeadlessTimer {
    const timeAddress: Int
    const timeCmpAddress: Int

    var time: Long
    var startTime: Long
    var savedTime: Long
    var timeCmp: TimeCmpDaemon?
    var updateTime: bool
    var running: bool
    /** The simulated memory: the words at the addresses it maps. */
    var memory: map<Int, Int>

    ghost function ClockState(): Clock
      reads this
    {
      Clock(time, startTime, savedTime, updateTime)
    }

    /**
     * The compare watcher exists once the tick is scheduled and watches this
     * timer's compare address, and the two time words are mapped.
     */
    ghost predicate Wired()
      reads this
    {
      && (running ==> timeCmp != null)
      && (timeCmp != null ==> timeCmp.timeCmpAddress == timeCmpAddress)
      && timeAddress in memory && UpperAddress(timeAddress) in memory
    }

    /** Wired, and the time equals the accumulator while paused. */
    ghost predicate Valid()
      reads this
    {
      Wired() && Consistent(ClockState())
    }

    /** A timer wired to the memory-mapped I/O base address; time and compare registers sit at fixed offsets. */
    constructor (memoryMapBaseAddress: Int, memory: map<Int, Int>)
      requires WrapInt(memoryMapBaseAddress + TIME_OFFSET) in memory
      requires UpperAddress(WrapInt(memoryMapBaseAddress + TIME_OFFSET)) in memory
      ensures Valid()
      ensures timeAddress == WrapInt(memoryMapBaseAddress + TIME_OFFSET)
      ensures timeCmpAddress == WrapInt(memoryMapBaseAddress + TIME_CMP_OFFSET)
      ensures ClockState() == InitialClock && !running && timeCmp == null
      ensures this.memory == memory
    {
      timeAddress := WrapInt(memoryMapBaseAddress + TIME_OFFSET);
      timeCmpAddress := WrapInt(memoryMapBaseAddress + TIME_CMP_OFFSET);
      time, startTime, savedTime := 0, 0, 0;
      timeCmp := null;
      updateTime, running := false, false;
      this.memory := memory;
    }

    /** Create the compare watcher unless one exists. */
    method StartTimeCmpDaemon()
      requires Valid()
      modifies this`timeCmp
      ensures Valid() && timeCmp != null
      ensures old(timeCmp) != null ==> timeCmp == old(timeCmp)
      ensures old(timeCmp) == null ==> fresh(timeCmp) && timeCmp.Register() == CompareRegister(0, false)
    {
      if timeCmp == null {
        timeCmp := new TimeCmpDaemon(timeCmpAddress);
      }
    }

    /** Start ticking; the watcher is created at most once, and a second start does nothing. */
    method Start()
      requires Valid()
      modifies this`timeCmp, this`running
      ensures Valid() && running && timeCmp != null
      ensures old(running) ==> timeCmp == old(timeCmp)
      ensures old(timeCmp) != null ==> timeCmp == old(timeCmp)
      ensures old(timeCmp) == null ==> fresh(timeCmp) && timeCmp.Register() == CompareRegister(0, false)
    {
      if !running {
        StartTimeCmpDaemon();
        running := true;
      }
    }

    /** Let time progress from now on, continuing from where it stood. */
    method Play(now: Long)
      requires Valid()
      modifies this`updateTime, this`startTime
      ensures Valid()
      ensures ClockState() == PlayStep(old(ClockState()), now)
    {
      if !updateTime {
        updateTime := true;
        startTime := now;
      }
    }

    /** Freeze time, folding the time played since the last play into the accumulator. */
    method Pause(now: Long)
      requires Valid()
      modifies this`updateTime, this`time, this`savedTime
      ensures Valid()
      ensures ClockState() == PauseStep(old(ClockState()), now)
    {
      if updateTime {
        updateTime := false;
        time := LongSub(LongAdd(savedTime, now), startTime);
        savedTime := time;
      }
    }

    /** Zero the counters, re-anchor at now and zero both time words. */
    method Reset(now: Long)
      requires Wired()
      modifies this`time, this`savedTime, this`startTime, this`memory
      ensures Valid()
      ensures ClockState() == ResetStep(old(ClockState()), now)
      ensures memory == old(memory)[timeAddress := 0][UpperAddress(timeAddress) := 0]
      ensures FromWords(memory[timeAddress], memory[UpperAddress(timeAddress)]) == time
    {
      time := 0;
      savedTime := 0;
      startTime := now;
      TickReset();
    }

    /** Stop ticking and reset; the compare watcher keeps running. */
    method Stop(now: Long)
      requires Valid()
      modifies this`updateTime, this`running, this`time, this`savedTime, this`startTime, this`memory
      ensures Valid() && !running && !updateTime
      ensures ClockState() == StopStep(old(ClockState()), now)
      ensures memory == old(memory)[timeAddress := 0][UpperAddress(timeAddress) := 0]
    {
      updateTime := false;
      running := false;
      Reset(now);
    }

    /**
     * One tick: while time progresses, recompute it, publish it in the two time
     * words and raise the timer interrupt (the result) when time has reached the
     * compare value, the register is armed and both enable bits are set; a raise
     * disarms the register.
     */
    method TickRun(now: Long, uie: Int, ustatus: Int) returns (raised: bool)
      requires Valid() && timeCmp != null
      modifies this`time, this`memory, timeCmp`postInterrupt
      ensures Valid()
      ensures ClockState() == TickStep(old(ClockState()), now)
      ensures raised == TickRaises(old(ClockState()), old(timeCmp.Register()), TickInput(now, uie, ustatus))
      ensures timeCmp.Register() == AfterTick(old(timeCmp.Register()), raised)
      ensures old(updateTime) ==>
                memory == old(memory)[timeAddress := LowWord(time)][UpperAddress(timeAddress) := HighWord(time)]
      ensures old(updateTime) ==> FromWords(memory[timeAddress], memory[UpperAddress(timeAddress)]) == time
      ensures !old(updateTime) ==> memory == old(memory)
    {
      raised := false;
      if updateTime {
        time := LongSub(LongAdd(savedTime, now), startTime);
        LongAndMinusOne(time);
        var ok := UpdateMMIOControlAndData(timeAddress, LongToInt(LongAnd(time, IntToLong(ALL_ONES_INT_LITERAL))));
        ok := UpdateMMIOControlAndData(UpperAddress(timeAddress), LongToInt(ShiftRight32(time)));
        WordsRecombine(time);
        if time >= timeCmp.value && timeCmp.postInterrupt && BitsEnabled(uie, ustatus) {
          raised := true;
          timeCmp.postInterrupt := false;
        }
      }
    }

    /** Zero both time words. */
    method TickReset()
      requires Wired()
      modifies this`memory
      ensures Wired()
      ensures memory == old(memory)[timeAddress := 0][UpperAddress(timeAddress) := 0]
    {
      var ok := UpdateMMIOControlAndData(timeAddress, 0);
      ok := UpdateMMIOControlAndData(UpperAddress(timeAddress), 0);
    }

    /**
     * Write one word into memory. An address outside the mapped memory is a fatal
     * configuration error (ok is false) and leaves memory as it was.
     */
    method UpdateMMIOControlAndData(dataAddr: Int, dataValue: Int) returns (ok: bool)
      modifies this`memory
      ensures ok == (dataAddr in old(memory))
      ensures memory == if ok then old(memory)[dataAddr := dataValue] else old(memory)
      ensures memory.Keys == old(memory).Keys
    {
      ok := dataAddr in memory;
      if ok {
        memory := memory[dataAddr := dataValue];
      }
    }
  }

  /** The values the client below relies on, computed once. */
  lemma ScenarioValues(base: Int)
    requires base == -0x1_0000
    ensures WrapInt(base + TIME_OFFSET) == base + 0x18 && UpperAddress(base + 0x18) == base + 0x1C
    ensures WriteLowWord(0, 5) == 5
    ensures BitsEnabled(0x10, 0x1)
    ensures Elapsed(0, 4, 0) == 4 && Elapsed(0, 5, 0) == 5 && Elapsed(0, 6, 0) == 6
  {
    WordsDetermine(WriteLowWord(0, 5), 5);
    assert IntBits(0x10) == 0x10 && BitSet(0x10, 4);
    assert IntBits(0x1) == 0x1 && BitSet(0x1, 0);
  }

  /**
   * A client: with the memory-mapped I/O base at 0xFFFF0000, start and play at
   * 0 ms, arm the compare register with 5 through a low-word write, then tick at
   * 4, 5 and 6 ms with both enable bits set. Exactly the 5 ms tick raises.
   */
  method CompareDeadlineScenario() returns (raises: seq<bool>)
    ensures raises == [false, true, false]
  {
    var base: Int := -0x1_0000;
    ScenarioValues(base);
    var t := new HeadlessTimer(base, map[base + 0x18 := 0, base + 0x1C := 0]);
    t.Start();
    t.Play(0);
    var daemon := t.timeCmp;
    daemon.Update(MemoryAccessNotice(WRITE, t.timeCmpAddress, 5));
    var r1 := t.TickRun(4, 0x10, 0x1);
    var r2 := t.TickRun(5, 0x10, 0x1);
    var r3 := t.TickRun(6, 0x10, 0x1);
    raises := [r1, r2, r3];
  }
}
