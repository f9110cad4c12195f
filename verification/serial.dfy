/**
  The receive side of the serial driver (kernel/serial.c). What the device answers is a
  parameter of each method that asks it: a function from the number of the question.
*/
module SerialPort {
  import opened Bits
  import opened BootInformation
  import opened Bytes
  import opened ReceiveBuffer

  const POLL_LIMIT: nat := 1_000_000
  /** Overrun, parity, framing and break, in the line status register. */
  const LINE_ERRORS: nat := 0x1e

  // ---------------------------------------------------------------- what the device reports

  /** Overrun, parity, framing or break: bits 4:1 of the line status. */
  predicate HasError(status: byte) {
    status / 2 % 16 != 0
  }

  /** The signals that one look at line status and data gives rise to. */
  ghost function Reported(status: byte, value: byte): seq<Signal> {
    (if HasError(status) then [Error] else []) + (if status % 2 == 1 then [Arrived(value)] else [])
  }

  lemma WrapPlus(x: nat, k: nat)
    ensures Wrap(Wrap(x) + k) == Wrap(x + k)
  {
  }

  lemma WrapSame(x: u64)
    ensures Wrap(x) == x
  {
  }

  /** What the device answers in one round: interrupt identification, line status and data. */
  datatype Answer = Answer(cause: byte, status: byte, value: byte)

  /** The signals of the first `n` rounds, in order. */
  ghost function AllReported(device: nat -> Answer, n: nat): seq<Signal> {
    if n == 0 then [] else AllReported(device, n - 1) + Reported(device(n - 1).status, device(n - 1).value)
  }

  /** An interrupt cause that the handler services: data, FIFO timeout or line status. */
  ghost predicate Serviced(cause: byte) {
    And(cause, 1) == 0 && And(cause, 0x0e) in {0x04, 0x0c, 0x06}
  }

  /**
    An interrupt services `n` rounds: the first `n` causes are serviced, and then the next
    one is not, or the limit of 256 rounds is reached. The answers determine `n`.
  */
  ghost predicate Drains(device: nat -> Answer, n: nat) {
    && n <= RX_CAPACITY
    && (forall i :: 0 <= i < n ==> Serviced(device(i).cause))
    && (n < RX_CAPACITY ==> !Serviced(device(n).cause))
  }

  /** The device had nothing more to report. */
  ghost predicate WentQuiet(device: nat -> Answer, n: nat) {
    n < RX_CAPACITY && And(device(n).cause, 1) != 0
  }

  lemma Causes(device: nat -> Answer, n: nat)
    ensures var cause := device(n).cause;
      && (And(cause, 1) != 0 || And(cause, 0x0e) !in {0x04, 0x0c, 0x06} <==> !Serviced(cause))
      && (WentQuiet(device, n) <==> n < RX_CAPACITY && And(cause, 1) != 0)
    ensures AllReported(device, 0) == []
    ensures AllReported(device, n + 1) == AllReported(device, n) + Reported(device(n).status, device(n).value)
  {
  }

  /** The line-status bits that the driver tests. */
  lemma StatusBits(status: byte)
    ensures And(status, 0x1e) != 0 <==> HasError(status)
    ensures And(status, 1) != 0 <==> status % 2 == 1
  {
    AndStep(status, 0x1e);
    KeepLow(status / 2, 4);
    KeepLow(status, 1);
    assert Pow2(4) == 16 && Pow2(1) == 2;
  }

  lemma ErrorBits(status: byte)
    ensures HasError(status) <==> status / 2 % 16 != 0
  {
  }

  /** What receiving does to the buffer, as far as the counters go. */
  datatype Load = Load(failed: bool, size: nat, dropped: nat, overflows: nat)

  /**
    One look at status and data: an error fails the buffer and counts as a drop; so does
    the 256th pending byte, which also counts as an overflow; and a byte that comes while
    the buffer has failed is dropped.
  */
  function Received(l: Load, status: byte): Load {
    var error, arrived := HasError(status), status % 2 == 1;
    var overflow := arrived && !error && !l.failed && l.size >= 255;
    var failed := l.failed || error || overflow;
    Load(failed, if failed then 0 else if arrived then l.size + 1 else l.size,
         l.dropped + (if error then 1 else 0) + (if arrived && failed then 1 else 0),
         l.overflows + (if overflow then 1 else 0))
  }

  ghost function AfterRounds(l: Load, device: nat -> Answer, n: nat): Load {
    if n == 0 then l else Received(AfterRounds(l, device, n - 1), device(n - 1).status)
  }

  /** The errors that `n` polls of the line status show; 0xff is no device's answer. */
  ghost function Errors(device: nat -> byte, n: nat): seq<Signal> {
    if n == 0 then []
    else Errors(device, n - 1) + (if device(n - 1) != 0xff && HasError(device(n - 1)) then [Error] else [])
  }

  lemma ErrorsStep(device: nat -> byte, n: nat)
    ensures Errors(device, 0) == []
    ensures Errors(device, n + 1) == Errors(device, n) + (if device(n) != 0xff && HasError(device(n)) then [Error] else [])
  {
  }

  lemma {:induction false} ErrorsShown(device: nat -> byte, n: nat, k: nat)
    requires k < n && device(k) != 0xff && HasError(device(k))
    ensures Errors(device, n) != []
  {
    hide HasError;
    if k < n - 1 { ErrorsShown(device, n - 1, k); }
  }

  lemma StillIn(log: seq<Signal>, shorter: seq<Signal>, longer: seq<Signal>)
    requires |log| <= |shorter| && shorter <= longer && Error in shorter[|log|..]
    ensures Error in longer[|log|..]
  {
    assert longer[|log|..] == shorter[|log|..] + longer[|shorter|..];
  }

  lemma ErrorIsLast(log: seq<Signal>, was: seq<Signal>)
    requires log <= was
    ensures Error in (was + [Error])[|log|..]
  {
    assert (was + [Error])[|log|..] == was[|log|..] + [Error];
  }

  lemma AddedErrors(log: seq<Signal>, drops: u64, errors: seq<Signal>, more: seq<Signal>, was: seq<Signal>, drops': u64, quiet: bool)
    requires log <= was && (errors != [] ==> Error in was[|log|..]) && (more == [] || more == [Error])
    requires quiet ==> was == log + errors && drops' == Wrap(drops + |errors|)
    ensures log <= was + more && (errors + more != [] ==> Error in (was + more)[|log|..])
    ensures quiet ==> was + more == log + (errors + more) && Wrap(drops' + |more|) == Wrap(drops + |errors + more|)
  {
    hide Wrap;
    WrapPlus(drops + |errors|, |more|);
    ErrorIsLast(log, was);
    if errors != [] { StillIn(log, was, was + more); }
  }

  /** A line status that ends waiting for the bits of the mask; 0xff means that no device answers. */
  ghost predicate EndsWait(status: byte, mask: byte) {
    status == 0xff || And(status, mask) == mask
  }

  /** Waiting takes `n` polls: the last is the first to end it, or the millionth. The answers determine `n`. */
  ghost predicate WaitTakes(device: nat -> byte, mask: byte, n: nat) {
    && 0 < n <= POLL_LIMIT
    && (forall i :: 0 <= i < n - 1 ==> !EndsWait(device(i), mask))
    && (n < POLL_LIMIT ==> EndsWait(device(n - 1), mask))
  }

  class Serial {
    const cpu: Cpu
    const buffer: RxBuffer
    var receiveEnabled: bool
    var interrupts: u64
    var dropped: u64
    var overflows: u64

    ghost predicate Valid()
      reads buffer, buffer.data
    {
      buffer.Valid() && buffer.cpu == cpu
    }

    /** State of the buffer, and the two loss counters modulo 2^64. */
    ghost predicate Counts(l: Load)
      reads this`dropped, this`overflows, buffer, buffer.data
      requires Valid()
    {
      && buffer.failed == l.failed && |buffer.Contents()| == l.size
      && dropped == Wrap(l.dropped) && overflows == Wrap(l.overflows)
    }

    constructor (cpu: Cpu)
      ensures Valid() && this.cpu == cpu && fresh(buffer) && fresh(buffer.data) && !receiveEnabled
      ensures !buffer.failed && buffer.Contents() == [] && buffer.log == [] && buffer.items == []
    {
      this.cpu := cpu;
      buffer := new RxBuffer(cpu);
      receiveEnabled, interrupts, dropped, overflows := false, 0, 0, 0;
    }

    /** `serial_enable_receive`; `routed` says whether the interrupt controller took the line. */
    method EnableReceive(routed: bool) returns (ok: bool)
      requires Valid()
      modifies this`receiveEnabled, buffer
      ensures Valid()
      ensures ok <==> !old(receiveEnabled) && !cpu.interruptsEnabled && routed
      ensures ok ==> receiveEnabled && !buffer.failed && buffer.Contents() == [] && buffer.log == [] && buffer.items == []
      ensures !ok ==> receiveEnabled == old(receiveEnabled) && buffer.log == old(buffer.log) && buffer.items == old(buffer.items)
    {
      if receiveEnabled || cpu.interruptsEnabled { return false; }
      if !routed { return false; }
      buffer.Reset();
      receiveEnabled := true;
      ok := true;
    }

    /** `receive_error`: runs with interrupts off, whatever the caller's state. */
    method ReceiveError()
      requires Valid()
      modifies cpu`interruptsEnabled, this`dropped, buffer
      ensures Valid() && cpu.interruptsEnabled == old(cpu.interruptsEnabled)
      ensures buffer.failed && buffer.Contents() == []
      ensures buffer.log == old(buffer.log) + [Error] && buffer.items == old(buffer.items)
      ensures dropped == Wrap(old(dropped) + 1)
    {
      var enabled := cpu.interruptsEnabled;
      cpu.interruptsEnabled := false;
      buffer.Fail(Error);
      dropped := Wrap(dropped + 1);
      if enabled { cpu.interruptsEnabled := true; }
    }

    /** `receive_byte`, for the line status and data that the device presents. */
    method ReceiveByte(status: byte, value: byte)
      requires Valid() && !cpu.interruptsEnabled
      modifies cpu`interruptsEnabled, this`dropped, this`overflows, buffer, buffer.data
      ensures Valid() && !cpu.interruptsEnabled && buffer.items == old(buffer.items)
      // Bits 4:1 of the status are errors, bit 0 says that a byte has arrived.
      ensures var error, arrived := status / 2 % 16 != 0, status % 2 == 1;
        var overflow := arrived && !error && !old(buffer.failed) && |old(buffer.Contents())| == 255;
        && buffer.log == old(buffer.log) + (if error then [Error] else []) + (if arrived then [Arrived(value)] else [])
        && buffer.failed == (old(buffer.failed) || error || overflow)
        && dropped == Wrap(old(dropped) + (if error then 1 else 0) + (if arrived && buffer.failed then 1 else 0))
        && overflows == Wrap(old(overflows) + (if overflow then 1 else 0))
      ensures buffer.log == old(buffer.log) + Reported(status, value)
      ensures Counts(Received(Load(old(buffer.failed), |old(buffer.Contents())|, old(dropped), old(overflows)), status))
      ensures old(buffer.failed) ==> buffer.failed
      ensures !buffer.failed ==>
        buffer.Contents() == old(buffer.Contents()) + (if status % 2 == 1 then [value] else [])
    {
      hide And, RxBuffer.Valid, Serial.Counts, Received, HasError, Wrap, RxBuffer.Contents;
      ghost var before := Load(buffer.failed, |buffer.Contents()|, dropped, overflows);
      StatusBits(status);
      ErrorBits(status);
      WrapSame(dropped);
      WrapSame(overflows);
      WrapPlus(dropped + 1, 1);
      buffer.Bounded();
      if And(status, LINE_ERRORS) != 0 { ReceiveError(); }
      if And(status, 1) != 0 { Arrive(value); }
      buffer.Bounded();
      CountsReceived(before, status);
    }

    /** The second half of `receive_byte`: a byte is there. */
    method Arrive(value: byte)
      requires Valid() && !cpu.interruptsEnabled
      modifies this`dropped, this`overflows, buffer, buffer.data
      ensures Valid() && !cpu.interruptsEnabled && buffer.items == old(buffer.items)
      ensures buffer.log == old(buffer.log) + [Arrived(value)]
      ensures var overflow := !old(buffer.failed) && |old(buffer.Contents())| == 255;
        && buffer.failed == (old(buffer.failed) || overflow)
        && dropped == (if buffer.failed then Wrap(old(dropped) + 1) else old(dropped))
        && overflows == (if overflow then Wrap(old(overflows) + 1) else old(overflows))
      ensures !buffer.failed ==> buffer.Contents() == old(buffer.Contents()) + [value]
    {
      hide RxBuffer.Valid, RxBuffer.Contents, Wrap;
      buffer.Bounded();
      var alreadyFailed := buffer.failed;
      var ok := buffer.Push(value);
      if !ok {
        if !alreadyFailed { overflows := Wrap(overflows + 1); }
        dropped := Wrap(dropped + 1);
      }
    }

    lemma CountsReceived(before: Load, status: byte)
      requires Valid() && before.dropped < U64 && before.overflows < U64
      requires var error, arrived := status / 2 % 16 != 0, status % 2 == 1;
        var overflow := arrived && !error && !before.failed && before.size == 255;
        && before.size <= 255 && buffer.failed == (before.failed || error || overflow)
        && |buffer.Contents()| == (if buffer.failed then 0 else if arrived then before.size + 1 else before.size)
        && dropped == Wrap(before.dropped + (if error then 1 else 0) + (if arrived && buffer.failed then 1 else 0))
        && overflows == Wrap(before.overflows + (if overflow then 1 else 0))
      ensures Counts(Received(before, status))
    {
      hide RxBuffer.Valid, RxBuffer.Contents, Wrap;
    }

    /**
      `serial_interrupt`: drains the device, but never for more than 256 rounds. What it
      reads is reported in order; if the device does not go quiet, or names an unknown cause,
      all pending input is given up.
    */
    method Interrupt(device: nat -> Answer) returns (n: nat)
      requires Valid() && !cpu.interruptsEnabled
      modifies cpu`interruptsEnabled, this, buffer, buffer.data
      ensures Valid() && !cpu.interruptsEnabled && receiveEnabled == old(receiveEnabled)
      ensures interrupts == Wrap(old(interrupts) + 1)
      ensures Drains(device, n) && n <= 256
      ensures buffer.log == old(buffer.log) + AllReported(device, n) + (if WentQuiet(device, n) then [] else [Error])
      ensures var l := AfterRounds(Load(old(buffer.failed), |old(buffer.Contents())|, old(dropped), old(overflows)), device, n);
        Counts(if WentQuiet(device, n) then l else Load(true, 0, l.dropped + 1, l.overflows))
      ensures buffer.items == old(buffer.items)
      ensures old(buffer.failed) ==> buffer.failed
      ensures !buffer.failed ==> old(buffer.Contents()) <= buffer.Contents()
    {
      hide And, Reported, RxBuffer.Valid, RxBuffer.Contents, Wrap, AllReported, Serviced, WentQuiet;
      hide Received, AfterRounds, Serial.Counts;
      ghost var l := Load(buffer.failed, |buffer.Contents()|, dropped, overflows);
      interrupts := Wrap(interrupts + 1);
      n := 0;
      Causes(device, 0);
      StartCounts(l, device);
      while n < RX_CAPACITY
        invariant Valid() && !cpu.interruptsEnabled && receiveEnabled == old(receiveEnabled)
        invariant interrupts == Wrap(old(interrupts) + 1)
        invariant n <= RX_CAPACITY && forall k :: 0 <= k < n ==> Serviced(device(k).cause)
        invariant buffer.log == old(buffer.log) + AllReported(device, n)
        invariant buffer.items == old(buffer.items)
        invariant Counts(AfterRounds(l, device, n))
        invariant (old(buffer.failed) ==> buffer.failed) && (!buffer.failed ==> old(buffer.Contents()) <= buffer.Contents())
      {
        Causes(device, n);
        ghost var now := Load(buffer.failed, |buffer.Contents()|, dropped, overflows);
        OpenCounts(AfterRounds(l, device, n));
        var cause := device(n).cause;
        if And(cause, 1) != 0 { return; }
        var source := And(cause, 0x0e);
        if source == 0x04 || source == 0x0c || source == 0x06 {
          ReceiveByte(device(n).status, device(n).value);
          MoreCounts(now, l, device, n);
          n := n + 1;
        } else {
          ReceiveError();
          ErrorCounts(now, AfterRounds(l, device, n));
          return;
        }
      }
      Causes(device, n);
      ghost var now := Load(buffer.failed, |buffer.Contents()|, dropped, overflows);
      OpenCounts(AfterRounds(l, device, n));
      ReceiveError();
      ErrorCounts(now, AfterRounds(l, device, n));
    }

    lemma StartCounts(l: Load, device: nat -> Answer)
      requires Valid() && l == Load(buffer.failed, |buffer.Contents()|, dropped, overflows)
      ensures Counts(AfterRounds(l, device, 0))
    {
    }

    lemma OpenCounts(l: Load)
      requires Valid() && Counts(l)
      ensures buffer.failed == l.failed && |buffer.Contents()| == l.size
      ensures dropped == Wrap(l.dropped) && overflows == Wrap(l.overflows)
    {
    }

    lemma MoreCounts(now: Load, l: Load, device: nat -> Answer, n: nat)
      requires Valid() && Counts(Received(now, device(n).status))
      requires var before := AfterRounds(l, device, n);
        now == Load(before.failed, before.size, Wrap(before.dropped), Wrap(before.overflows))
      ensures Counts(AfterRounds(l, device, n + 1))
    {
      hide HasError, Wrap, RxBuffer.Valid, RxBuffer.Contents;
      var before := AfterRounds(l, device, n);
      WrapPlus(before.dropped, 0);
      WrapPlus(before.dropped, 1);
      WrapPlus(before.dropped, 2);
      WrapPlus(before.overflows, 0);
      WrapPlus(before.overflows, 1);
    }

    lemma ErrorCounts(now: Load, before: Load)
      requires Valid() && buffer.failed && buffer.Contents() == []
      requires dropped == Wrap(now.dropped + 1) && overflows == now.overflows
      requires now == Load(before.failed, before.size, Wrap(before.dropped), Wrap(before.overflows))
      ensures Counts(Load(true, 0, before.dropped + 1, before.overflows))
    {
    }

    /** Interrupts between two statements, as many as the interrupt flag allows. */
    method Preempt()
      requires Valid()
      modifies cpu, this, buffer, buffer.data
      ensures Valid() && cpu.interruptsEnabled == old(cpu.interruptsEnabled) && receiveEnabled == old(receiveEnabled)
      ensures old(buffer.log) <= buffer.log && buffer.items == old(buffer.items)
      ensures !cpu.interruptsEnabled ==> buffer.log == old(buffer.log) && dropped == old(dropped)
      ensures (old(buffer.failed) ==> buffer.failed) && (!buffer.failed ==> old(buffer.Contents()) <= buffer.Contents())
      ensures !cpu.interruptsEnabled || cpu.halted ==>
        buffer.failed == old(buffer.failed) && buffer.Contents() == old(buffer.Contents())
      ensures cpu.halted ==> old(cpu.halted)
    {
      hide RxBuffer.Valid, Drains, WentQuiet, AfterRounds, AllReported, Serial.Counts;
      if !cpu.interruptsEnabled { return; }
      var count: nat := *;
      while count > 0
        invariant Valid() && cpu.interruptsEnabled && receiveEnabled == old(receiveEnabled)
        invariant old(buffer.log) <= buffer.log && buffer.items == old(buffer.items)
        invariant (old(buffer.failed) ==> buffer.failed) && (!buffer.failed ==> old(buffer.Contents()) <= buffer.Contents())
        invariant cpu.halted ==> old(cpu.halted) && buffer.failed == old(buffer.failed) && buffer.Contents() == old(buffer.Contents())
      {
        cpu.interruptsEnabled, cpu.halted := false, false;
        var answers: seq<Answer> := *;
        var rounds := Interrupt((i: nat) => if i < |answers| then answers[i] else Answer(1, 0, 0));
        cpu.interruptsEnabled := true;
        count := count - 1;
      }
    }

    /** What `n` polls have left behind, since the log was `log` and the drop counter `drops`. */
    ghost predicate Noted(log: seq<Signal>, drops: u64, device: nat -> byte, n: nat)
      reads cpu`interruptsEnabled, this`receiveEnabled, this`dropped, buffer
    {
      var errors := if receiveEnabled then Errors(device, n) else [];
      && log <= buffer.log
      && (errors != [] ==> buffer.failed && Error in buffer.log[|log|..])
      && (!cpu.interruptsEnabled ==> buffer.log == log + errors && dropped == Wrap(drops + |errors|))
    }

    lemma NoneNoted(device: nat -> byte)
      ensures Noted(buffer.log, dropped, device, 0)
    {
      ErrorsStep(device, 0);
    }

    /** Interrupts in between hide nothing; `was` and `drops'` are log and counter before them. */
    lemma StillNoted(log: seq<Signal>, drops: u64, device: nat -> byte, n: nat, was: seq<Signal>, drops': u64)
      requires log <= was <= buffer.log
      requires var errors := if receiveEnabled then Errors(device, n) else [];
        && (errors != [] ==> buffer.failed && Error in was[|log|..])
        && (!cpu.interruptsEnabled ==> was == log + errors && drops' == Wrap(drops + |errors|)
                                       && buffer.log == was && dropped == drops')
      ensures Noted(log, drops, device, n)
    {
      hide Errors;
      if receiveEnabled && Errors(device, n) != [] { StillIn(log, was, buffer.log); }
    }

    /** The poll's own effect: `was` and `drops'` are log and counter before it. */
    lemma OneMoreNoted(log: seq<Signal>, drops: u64, device: nat -> byte, n: nat, was: seq<Signal>, drops': u64)
      requires log <= was
      requires var errors := if receiveEnabled then Errors(device, n) else [];
        && (errors != [] ==> buffer.failed && Error in was[|log|..])
        && (!cpu.interruptsEnabled ==> was == log + errors && drops' == Wrap(drops + |errors|))
      requires if receiveEnabled && device(n) != 0xff && HasError(device(n))
               then buffer.failed && buffer.log == was + [Error] && dropped == Wrap(drops' + 1)
               else buffer.log == was && dropped == drops'
      ensures Noted(log, drops, device, n + 1)
    {
      hide HasError, Errors, Wrap;
      ErrorsStep(device, n);
      var errors := if receiveEnabled then Errors(device, n) else [];
      var more := if receiveEnabled && device(n) != 0xff && HasError(device(n)) then [Error] else [];
      assert errors + more == if receiveEnabled then Errors(device, n + 1) else [];
      if more == [] { assert buffer.log == was + more; WrapSame(drops'); }
      AddedErrors(log, drops, errors, more, was, drops', !cpu.interruptsEnabled);
    }

    lemma OpenNoted(log: seq<Signal>, drops: u64, device: nat -> byte, n: nat)
      requires Noted(log, drops, device, n)
      ensures var errors := if receiveEnabled then Errors(device, n) else [];
        && log <= buffer.log
        && (errors != [] ==> buffer.failed && Error in buffer.log[|log|..])
        && (!cpu.interruptsEnabled ==> buffer.log == log + errors && dropped == Wrap(drops + |errors|))
    {
      hide Errors, Wrap;
    }

    lemma AllNoted(log: seq<Signal>, drops: u64, device: nat -> byte, n: nat)
      requires Noted(log, drops, device, n)
      ensures log <= buffer.log
      ensures receiveEnabled ==> forall k :: 0 <= k < n && device(k) != 0xff && HasError(device(k)) ==>
        buffer.failed && Error in buffer.log[|log|..]
      ensures !cpu.interruptsEnabled ==> var errors := if receiveEnabled then Errors(device, n) else [];
        buffer.log == log + errors && dropped == Wrap(drops + |errors|)
    {
      hide HasError, Errors;
      if k :| 0 <= k < n && device(k) != 0xff && HasError(device(k)) { ErrorsShown(device, n, k); }
    }

    /** One look at the line status, with interrupts before it: an error that it shows is reported. */
    method Poll(device: nat -> byte, n: nat, ghost log: seq<Signal>, ghost drops: u64) returns (status: byte)
      requires Valid() && !cpu.halted && Noted(log, drops, device, n)
      modifies cpu, this, buffer, buffer.data
      ensures Valid() && cpu.interruptsEnabled == old(cpu.interruptsEnabled) && receiveEnabled == old(receiveEnabled)
      ensures !cpu.halted && buffer.items == old(buffer.items) && (old(buffer.failed) ==> buffer.failed)
      ensures status == device(n) && Noted(log, drops, device, n + 1)
    {
      hide And, RxBuffer.Valid, RxBuffer.Contents, Wrap, HasError, Errors, Serial.Noted;
      ghost var was, drops' := buffer.log, dropped;
      OpenNoted(log, drops, device, n);
      Preempt();
      StillNoted(log, drops, device, n, was, drops');
      OpenNoted(log, drops, device, n);
      was, drops' := buffer.log, dropped;
      status := device(n);
      StatusBits(status);
      if status != 0xff && receiveEnabled && And(status, LINE_ERRORS) != 0 { ReceiveError(); }
      OneMoreNoted(log, drops, device, n, was, drops');
    }

    /**
      `wait_status`: polls at most a million times, until the bits are set or no device
      answers. Reading the line status clears errors, so they are handled even here.
    */
    method WaitStatus(mask: byte, device: nat -> byte) returns (ok: bool, n: nat)
      requires Valid() && !cpu.halted
      modifies cpu, this, buffer, buffer.data
      ensures Valid() && cpu.interruptsEnabled == old(cpu.interruptsEnabled) && receiveEnabled == old(receiveEnabled)
      ensures !cpu.halted && old(buffer.log) <= buffer.log && buffer.items == old(buffer.items)
      ensures WaitTakes(device, mask, n) && 0 < n <= 1_000_000 && (!ok ==> n == 1_000_000 || device(n - 1) == 0xff)
      ensures ok <==> device(n - 1) != 0xff && And(device(n - 1), mask) == mask
      // Every error that the polls show is reported, once receiving has been enabled.
      ensures receiveEnabled ==> forall k :: 0 <= k < n && device(k) != 0xff && HasError(device(k)) ==>
        buffer.failed && Error in buffer.log[|old(buffer.log)|..]
      ensures !cpu.interruptsEnabled ==> var errors := if receiveEnabled then Errors(device, n) else [];
        buffer.log == old(buffer.log) + errors && dropped == Wrap(old(dropped) + |errors|)
      ensures old(buffer.failed) ==> buffer.failed
    {
      hide And, RxBuffer.Valid, RxBuffer.Contents, Wrap, HasError, Errors, Serial.Noted;
      ghost var log, drops := buffer.log, dropped;
      NoneNoted(device);
      n := 0;
      while n < POLL_LIMIT
        invariant Valid() && cpu.interruptsEnabled == old(cpu.interruptsEnabled) && receiveEnabled == old(receiveEnabled)
        invariant !cpu.halted && buffer.items == old(buffer.items)
        invariant n <= POLL_LIMIT && forall k :: 0 <= k < n ==> !EndsWait(device(k), mask)
        invariant Noted(log, drops, device, n) && (old(buffer.failed) ==> buffer.failed)
      {
        var status := Poll(device, n, log, drops);
        n := n + 1;
        AllNoted(log, drops, device, n);
        if status == 0xff { return false, n; }
        if And(status, mask) == mask { return true, n; }
      }
      AllNoted(log, drops, device, n);
      ok := false;
    }

    /** `serial_read`: only with interrupts off. */
    method Read(unread: byte) returns (status: int, value: byte)
      requires Valid() && !cpu.interruptsEnabled
      modifies buffer
      ensures Valid() && buffer.log == old(buffer.log) && !buffer.failed
      ensures status == (if old(buffer.failed) then -1 else if old(buffer.Contents()) == [] then 0 else 1)
      ensures status == 1 ==> value == old(buffer.Contents())[0] && buffer.Contents() == old(buffer.Contents())[1..]
      ensures status != 1 ==> value == unread && buffer.Contents() == []
      ensures buffer.items == old(buffer.items) + (if status == 1 then [Got(value)] else if status == -1 then [Lost] else [])
    {
      status, value := buffer.Read(unread);
    }
  }
}
