/**
  The console loop and the serial interrupt as interleaved machine steps: who touches the
  receive buffer when, and why the processor never sleeps on input (kernel/console.c,
  kernel/serial.c, include/x86.h).
*/
module InputMachine {
  /** Where the console is. `Fail` to `Restore` are `receive_error` called from its output. */
  datatype Pc = Cli | Read | StiIdle | Hlt | Halted | StiWork | Work | Save | Disable | Fail | Restore

  /**
    The interrupt flag, the one-instruction delay after STI, whether the handler is running
    on top of the console, whether the device asks for service, and what the buffer holds.
  */
  datatype State = State(pc: Pc, enabled: bool, shadow: bool, handler: bool, request: bool,
                         saved: bool, queued: nat, failed: bool)

  datatype Event =
    | Request            // the device raises its line
    | Deliver            // the processor enters the handler
    | HandlerTouches     // rx_push or rx_fail
    | HandlerReturns
    | ConsoleSteps       // the next instruction of the loop

  ghost predicate Initial(s: State) {
    s.pc == Cli && s.enabled && !s.shadow && !s.handler && s.queued == 0 && !s.failed
  }

  /** The handler can start: flag set, no STI delay, and not already inside it. */
  predicate CanDeliver(s: State) {
    s.request && s.enabled && !s.shadow && !s.handler
  }

  predicate TouchesBuffer(s: State, e: Event) {
    e == HandlerTouches || (e == ConsoleSteps && (s.pc == Read || s.pc == Fail))
  }

  /** One instruction of the loop; `delayed` says whether STI holds interrupts off for one instruction. */
  ghost predicate ConsoleStep(s: State, s': State, delayed: bool) {
    match s.pc
    case Cli => s' == s.(pc := Read, enabled := false)
    case Read =>
      if s.failed then s' == s.(pc := StiWork, failed := false, queued := 0)
      else if s.queued == 0 then s' == s.(pc := StiIdle)
      else s' == s.(pc := StiWork, queued := s.queued - 1)
    case StiIdle => s' == s.(pc := Hlt, enabled := true, shadow := delayed)
    case Hlt => s' == s.(pc := Halted, shadow := false)
    case Halted => false
    case StiWork => s' == s.(pc := Work, enabled := true, shadow := delayed)
    case Work => s' == s.(pc := Cli, shadow := false) || s' == s.(pc := Save, shadow := false)
    case Save => s' == s.(pc := Disable, saved := s.enabled)
    case Disable => s' == s.(pc := Fail, enabled := false)
    case Fail => s' == s.(pc := Restore, queued := 0, failed := true)
    case Restore => s' == s.(pc := Work, enabled := s.saved, shadow := s.saved && delayed)
  }

  ghost predicate Step(s: State, e: Event, s': State, delayed: bool) {
    match e
    case Request => s' == s.(request := true)
    case Deliver =>
      && CanDeliver(s)
      && s' == s.(handler := true, enabled := false, request := false, pc := if s.pc == Halted then Cli else s.pc)
    case HandlerTouches =>
      s.handler && exists queued, failed :: s' == s.(queued := queued, failed := failed)
    case HandlerReturns => s.handler && s' == s.(handler := false, enabled := true)
    case ConsoleSteps => !s.handler && ConsoleStep(s, s', delayed)
  }

  ghost predicate Run(states: seq<State>, events: seq<Event>, delayed: bool) {
    && |states| == |events| + 1 && Initial(states[0])
    && forall i :: 0 <= i < |events| ==> Step(states[i], events[i], states[i + 1], delayed)
  }

  /** The console runs with interrupts on except from CLI to STI, and sleeps only on an empty buffer. */
  ghost predicate Invariant(s: State) {
    && (s.handler ==> !s.enabled && s.pc !in {Read, StiIdle, Hlt, Halted, StiWork, Fail, Restore})
    && (!s.handler ==> (s.enabled <==> s.pc !in {Read, StiIdle, StiWork, Fail, Restore}))
    && (s.shadow ==> s.pc in {Hlt, Work})
    && (s.pc == Hlt ==> s.shadow)
    && (s.pc in {Disable, Fail, Restore} ==> s.saved)
    && (s.pc in {StiIdle, Hlt, Halted} ==> s.queued == 0 && !s.failed)
  }

  lemma InvariantKept(s: State, e: Event, s': State)
    requires Invariant(s) && Step(s, e, s', true)
    ensures Invariant(s')
  {
  }

  lemma {:induction false} InvariantHolds(states: seq<State>, events: seq<Event>)
    requires Run(states, events, true)
    ensures Invariant(states[|events|])
    decreases |events|
  {
    if events != [] {
      var n := |events| - 1;
      assert Run(states[..n + 1], events[..n], true);
      InvariantHolds(states[..n + 1], events[..n]);
      InvariantKept(states[n], events[n], states[n + 1]);
    }
  }

  /** Mutual exclusion in every run: whoever touches the buffer does so with interrupts off. */
  lemma MutualExclusion(states: seq<State>, events: seq<Event>, s': State, e: Event)
    requires Run(states, events, true) && Step(states[|events|], e, s', true)
    requires TouchesBuffer(states[|events|], e)
    ensures !states[|events|].enabled && !CanDeliver(states[|events|])
  {
    InvariantHolds(states, events);
  }

  /**
    No lost wake-up in any run: a sleeping processor has nothing to read and no loss to
    report, and a request that comes in while it sleeps can be delivered at once.
  */
  lemma NoLostWakeUp(states: seq<State>, events: seq<Event>)
    requires Run(states, events, true) && states[|events|].pc == Halted
    ensures states[|events|].queued == 0 && !states[|events|].failed
    ensures states[|events|].request ==> CanDeliver(states[|events|])
  {
    InvariantHolds(states, events);
  }

  /** It is the delay after STI that does it: without it, a run puts the processor to sleep on input. */
  lemma SleepsWithoutDelay() returns (states: seq<State>, events: seq<Event>)
    ensures Run(states, events, false) && states[|events|].pc == Halted
    ensures states[|events|].queued > 0 && !states[|events|].request
  {
    var s := State(Cli, true, false, false, false, false, 0, false);
    events := [ConsoleSteps, ConsoleSteps, Request, ConsoleSteps, Deliver, HandlerTouches, HandlerReturns, ConsoleSteps];
    var asleep := s.(pc := Hlt, enabled := true);
    states := [s, s.(pc := Read, enabled := false), s.(pc := StiIdle, enabled := false),
               s.(pc := StiIdle, enabled := false, request := true), asleep.(request := true),
               asleep.(handler := true, enabled := false), asleep.(handler := true, enabled := false, queued := 1),
               asleep.(queued := 1), asleep.(pc := Halted, queued := 1)];
  }
}
