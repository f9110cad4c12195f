/** The ring buffer between the serial interrupt and the console (kernel/rx_buffer.c). */
module ReceiveBuffer {
  import opened Bytes

  const RX_CAPACITY: nat := 256

  /** The processor's maskable-interrupt flag, and whether it sleeps until the next interrupt. */
  class Cpu {
    var interruptsEnabled: bool
    var halted: bool

    constructor ()
      ensures !interruptsEnabled && !halted
    {
      interruptsEnabled, halted := false, false;
    }
  }

  // ---------------------------------------------------------------- what is lost, and what is not

  /** What the interrupt side reports, in order: `rx_push` of a byte, or `rx_fail`. */
  datatype Signal = Arrived(value: byte) | Error

  /** What the console side has been given, in order: a byte, or the news that input was lost. */
  datatype Item = Got(value: byte) | Lost

  ghost function Signals(bytes: seq<byte>): seq<Signal> {
    seq(|bytes|, i requires 0 <= i < |bytes| => Arrived(bytes[i]))
  }

  /** A stretch of signals that may be dropped: an error, or more bytes than the buffer holds. */
  ghost predicate Lossy(stretch: seq<Signal>) {
    Error in stretch || |stretch| >= RX_CAPACITY
  }

  /** The signals that one item stands for. */
  ghost predicate StandsFor(item: Item, stretch: seq<Signal>) {
    match item
    case Got(b) => stretch == [Arrived(b)]
    case Lost => Lossy(stretch)
  }

  ghost function Flatten(stretches: seq<seq<Signal>>): seq<Signal> {
    if stretches == [] then [] else Flatten(stretches[..|stretches| - 1]) + stretches[|stretches| - 1]
  }

  /**
    `stretches` divides the signals given out so far among the items, in order: each byte
    that was read stands for its own arrival, each reported loss for a stretch with a
    reason to be lost. `rest` is still to come.
  */
  ghost predicate Accounts(log: seq<Signal>, items: seq<Item>, stretches: seq<seq<Signal>>, rest: seq<Signal>) {
    && |stretches| == |items|
    && log == Flatten(stretches) + rest
    && forall i :: 0 <= i < |items| ==> StandsFor(items[i], stretches[i])
  }

  lemma AccountsForItem(log: seq<Signal>, items: seq<Item>, stretches: seq<seq<Signal>>, rest: seq<Signal>,
                        item: Item, stretch: seq<Signal>, rest': seq<Signal>)
    requires Accounts(log, items, stretches, rest) && rest == stretch + rest' && StandsFor(item, stretch)
    ensures Accounts(log, items + [item], stretches + [stretch], rest')
  {
    assert (stretches + [stretch])[..|stretches|] == stretches;
    assert Flatten(stretches + [stretch]) + rest' == Flatten(stretches) + (stretch + rest');
  }

  lemma AccountsForSignal(log: seq<Signal>, items: seq<Item>, stretches: seq<seq<Signal>>, rest: seq<Signal>, signal: Signal)
    requires Accounts(log, items, stretches, rest)
    ensures Accounts(log + [signal], items, stretches, rest + [signal])
  {
    assert log + [signal] == Flatten(stretches) + (rest + [signal]);
  }

  /** A run of bytes that were read one after the other is a contiguous part of the log. */
  lemma {:induction false} ReadsAreContiguous(log: seq<Signal>, items: seq<Item>, stretches: seq<seq<Signal>>, rest: seq<Signal>,
                                              from: nat, to: nat) returns (start: nat)
    requires Accounts(log, items, stretches, rest) && from <= to <= |items|
    requires forall i :: from <= i < to ==> items[i].Got?
    ensures start + (to - from) <= |log| && start == |Flatten(stretches[..from])|
    ensures forall i :: from <= i < to ==> log[start + (i - from)] == Arrived(items[i].value)
    decreases |items|
  {
    if from < |items| {
      var n := |items| - 1;
      var last := stretches[n];
      OneLess(log, items, stretches, rest);
      start := ReadsAreContiguous(log, items[..n], stretches[..n], last + rest, from, if to <= n then to else n);
      assert stretches[..n][..from] == stretches[..from];
      if to > n {
        FlattenReads(stretches[..n], items[..n], from);
        assert log[|Flatten(stretches[..n])|] == last[0];
      }
    } else {
      start := |Flatten(stretches)|;
      assert stretches[..from] == stretches;
    }
  }

  lemma OneLess(log: seq<Signal>, items: seq<Item>, stretches: seq<seq<Signal>>, rest: seq<Signal>)
    requires Accounts(log, items, stretches, rest) && items != []
    ensures var n := |items| - 1;
      && Accounts(log, items[..n], stretches[..n], stretches[n] + rest) && StandsFor(items[n], stretches[n])
      && log == Flatten(stretches[..n]) + (stretches[n] + rest)
  {
    var n := |items| - 1;
    assert log == Flatten(stretches[..n]) + (stretches[n] + rest);
  }

  lemma {:induction false} FlattenReads(stretches: seq<seq<Signal>>, items: seq<Item>, from: nat)
    requires |stretches| == |items| && from <= |items|
    requires forall i :: 0 <= i < |items| ==> StandsFor(items[i], stretches[i])
    requires forall i :: from <= i < |items| ==> items[i].Got?
    ensures |Flatten(stretches)| == |Flatten(stretches[..from])| + (|items| - from)
    decreases |items|
  {
    if from < |items| {
      var n := |items| - 1;
      FlattenReads(stretches[..n], items[..n], from);
      assert stretches[..n][..from] == stretches[..from];
      assert StandsFor(items[n], stretches[n]);
    } else {
      assert stretches[..from] == stretches;
    }
  }

  /** Where a run of bytes that were read ends in the log. */
  lemma ReadsTakeOneEach(log: seq<Signal>, items: seq<Item>, stretches: seq<seq<Signal>>, rest: seq<Signal>, from: nat, to: nat)
    requires Accounts(log, items, stretches, rest) && from <= to <= |items|
    requires forall i :: from <= i < to ==> items[i].Got?
    ensures |Flatten(stretches[..to])| == |Flatten(stretches[..from])| + (to - from)
  {
    FlattenReads(stretches[..to], items[..to], from);
    assert stretches[..to][..from] == stretches[..from];
  }

  /** Items stand for later and later parts of the log. */
  lemma {:induction false} ItemsInOrder(items: seq<Item>, stretches: seq<seq<Signal>>, i: nat, j: nat)
    requires |stretches| == |items| && i < j <= |items| && items[i].Got? && StandsFor(items[i], stretches[i])
    ensures |Flatten(stretches[..i])| < |Flatten(stretches[..j])|
    decreases j
  {
    assert stretches[..j][..j - 1] == stretches[..j - 1];
    if i < j - 1 { ItemsInOrder(items, stretches, i, j - 1); }
  }

  lemma NotQuiteLost(stretch: seq<Signal>, signal: Signal)
    ensures Lossy(stretch) ==> Lossy(stretch + [signal])
    ensures Lossy(stretch + [Error])
    ensures |stretch| + 1 >= RX_CAPACITY ==> Lossy(stretch + [signal])
  {
    assert (stretch + [Error])[|stretch|] == Error;
  }

  // ---------------------------------------------------------------- going round

  /** The bytes from `tail` up to `head`, going round. */
  function Queued(data: seq<byte>, tail: nat, head: nat): seq<byte>
    requires |data| == RX_CAPACITY && head < RX_CAPACITY && tail < RX_CAPACITY
  {
    if tail <= head then data[tail..head] else data[tail..] + data[..head]
  }

  function Next(i: nat): (j: nat)
    requires i < RX_CAPACITY
    ensures j < RX_CAPACITY
  {
    (i + 1) % RX_CAPACITY
  }

  lemma QueuedSize(data: seq<byte>, tail: nat, head: nat)
    requires |data| == RX_CAPACITY && head < RX_CAPACITY && tail < RX_CAPACITY
    ensures |Queued(data, tail, head)| < RX_CAPACITY
    ensures head == tail <==> Queued(data, tail, head) == []
    ensures Next(head) == tail <==> |Queued(data, tail, head)| == RX_CAPACITY - 1
    ensures |Signals(Queued(data, tail, head))| == |Queued(data, tail, head)|
  {
  }

  lemma QueuedPush(data: seq<byte>, tail: nat, head: nat, value: byte)
    requires |data| == RX_CAPACITY && head < RX_CAPACITY && tail < RX_CAPACITY && Next(head) != tail
    ensures var before := Queued(data, tail, head);
      && Queued(data[head := value], tail, Next(head)) == before + [value]
      && Signals(before + [value]) == Signals(before) + [Arrived(value)]
  {
  }

  lemma FirstOfSlice(data: seq<byte>, tail: nat, to: nat)
    requires tail < to <= |data|
    ensures data[tail..to] == [data[tail]] + data[tail + 1..to]
  {
  }

  lemma FirstOfTwo(first: byte, a: seq<byte>, b: seq<byte>)
    ensures ([first] + a) + b == [first] + (a + b)
  {
  }

  lemma OldestBelow(data: seq<byte>, tail: nat, head: nat)
    requires |data| == RX_CAPACITY && tail < head < RX_CAPACITY
    ensures Queued(data, tail, head) == [data[tail]] + Queued(data, tail + 1, head)
  {
    FirstOfSlice(data, tail, head);
  }

  lemma OldestAbove(data: seq<byte>, tail: nat, head: nat)
    requires |data| == RX_CAPACITY && head < tail && tail + 1 < RX_CAPACITY
    ensures Queued(data, tail, head) == [data[tail]] + Queued(data, tail + 1, head)
  {
    FirstOfSlice(data, tail, RX_CAPACITY);
    FirstOfTwo(data[tail], data[tail + 1..], data[..head]);
  }

  lemma OldestAtEnd(data: seq<byte>, head: nat)
    requires |data| == RX_CAPACITY && head + 1 < RX_CAPACITY
    ensures Queued(data, RX_CAPACITY - 1, head) == [data[RX_CAPACITY - 1]] + Queued(data, 0, head)
  {
    assert data[RX_CAPACITY - 1..] == [data[RX_CAPACITY - 1]];
  }

  lemma QueuedOldest(data: seq<byte>, tail: nat, head: nat)
    requires |data| == RX_CAPACITY && head < RX_CAPACITY && tail < RX_CAPACITY && head != tail
    ensures Queued(data, tail, head) == [data[tail]] + Queued(data, Next(tail), head)
  {
    hide Queued;
    if tail < head {
      OldestBelow(data, tail, head);
    } else if tail + 1 < RX_CAPACITY {
      OldestAbove(data, tail, head);
    } else {
      OldestAtEnd(data, head);
    }
  }

  lemma QueuedRead(data: seq<byte>, tail: nat, head: nat)
    requires |data| == RX_CAPACITY && head < RX_CAPACITY && tail < RX_CAPACITY && head != tail
    ensures var before := Queued(data, tail, head);
      && before != [] && before[0] == data[tail] && Queued(data, Next(tail), head) == before[1..]
      && Signals(before) == [Arrived(before[0])] + Signals(before[1..])
  {
    hide Signals, Queued;
    QueuedOldest(data, tail, head);
    SignalsOfRead(Queued(data, tail, head));
  }

  lemma SignalsOfRead(bytes: seq<byte>)
    requires bytes != []
    ensures Signals(bytes) == [Arrived(bytes[0])] + Signals(bytes[1..])
  {
  }

  // ---------------------------------------------------------------- the buffer

  class RxBuffer {
    const cpu: Cpu
    const data: array<byte>
    var head: nat
    var tail: nat
    var failed: bool

    // History: all signals, what has been read, and how the one accounts for the other.
    ghost var log: seq<Signal>
    ghost var items: seq<Item>
    ghost var stretches: seq<seq<Signal>>
    ghost var rest: seq<Signal>

    ghost function Contents(): seq<byte>
      reads this`head, this`tail, data
      requires data.Length == RX_CAPACITY && head < RX_CAPACITY && tail < RX_CAPACITY
    {
      Queued(data[..], tail, head)
    }

    /** A bounded queue that is either sound, and then holds the latest signals, or has failed. */
    ghost predicate Valid()
      reads this, data
      ensures Valid() ==> data.Length == RX_CAPACITY && head < RX_CAPACITY && tail < RX_CAPACITY
    {
      && data.Length == RX_CAPACITY && head < RX_CAPACITY && tail < RX_CAPACITY
      && (failed ==> head == tail && Lossy(rest))
      && (!failed ==> rest == Signals(Contents()))
      && Accounts(log, items, stretches, rest)
    }

    lemma Bounded()
      requires Valid()
      ensures |Contents()| < RX_CAPACITY && (failed ==> Contents() == [])
    {
      QueuedSize(data[..], tail, head);
    }

    constructor (cpu: Cpu)
      ensures Valid() && fresh(data) && this.cpu == cpu && !failed && Contents() == [] && log == [] && items == []
    {
      this.cpu := cpu;
      data := new byte[RX_CAPACITY];
      head, tail, failed := 0, 0, false;
      log, items, stretches, rest := [], [], [], [];
    }

    /** `rx_reset` before any input: a new history begins. */
    method Reset()
      requires data.Length == RX_CAPACITY && !cpu.interruptsEnabled
      modifies this
      ensures Valid() && !failed && Contents() == [] && log == [] && items == []
    {
      head, tail, failed := 0, 0, false;
      log, items, stretches, rest := [], [], [], [];
    }

    /** `rx_fail`: everything pending is dropped, because of an error or of one byte too many. */
    method Fail(ghost signal: Signal)
      requires Valid() && !cpu.interruptsEnabled
      requires signal == Error || (!failed && |Contents()| == RX_CAPACITY - 1)
      modifies this
      ensures Valid() && failed && Contents() == []
      ensures log == old(log) + [signal] && items == old(items)
    {
      hide Accounts, Lossy, Signals;
      AccountsForSignal(log, items, stretches, rest, signal);
      NotQuiteLost(rest, signal);
      QueuedSize(data[..], tail, head);
      head, tail := 0, 0;
      failed := true;
      log, rest := log + [signal], rest + [signal];
      QueuedSize(data[..], tail, head);
    }

    /** `rx_push`: the 256th pending byte drops them all; a failed buffer takes nothing. */
    method Push(value: byte) returns (ok: bool)
      requires Valid() && !cpu.interruptsEnabled
      modifies this, data
      ensures Valid() && log == old(log) + [Arrived(value)] && items == old(items)
      ensures ok <==> !old(failed) && |old(Contents())| < 255
      ensures ok ==> !failed && Contents() == old(Contents()) + [value]
      ensures !ok ==> failed && Contents() == []
    {
      hide Accounts, Lossy, Signals, Queued;
      AccountsForSignal(log, items, stretches, rest, Arrived(value));
      NotQuiteLost(rest, Arrived(value));
      QueuedSize(data[..], tail, head);
      if failed {
        log, rest := log + [Arrived(value)], rest + [Arrived(value)];
        return false;
      }
      var next := Next(head);
      if next == tail {
        Fail(Arrived(value));
        return false;
      }
      log, rest := log + [Arrived(value)], rest + [Arrived(value)];
      QueuedPush(data[..], tail, head, value);
      data[head] := value;
      assert data[..] == old(data[..])[head := value];
      head := next;
      ok := true;
    }

    /** `rx_read`: 1 with the oldest byte, 0 when there is none, -1 once for each loss. */
    method Read(unread: byte) returns (status: int, value: byte)
      requires Valid() && !cpu.interruptsEnabled
      modifies this
      ensures Valid() && log == old(log) && !failed
      ensures status == (if old(failed) then -1 else if old(Contents()) == [] then 0 else 1)
      ensures status == 1 ==> value == old(Contents())[0] && Contents() == old(Contents())[1..]
      ensures status != 1 ==> value == unread && Contents() == []
      ensures items == old(items) + (if status == 1 then [Got(value)] else if status == -1 then [Lost] else [])
    {
      hide Accounts, Queued, Lossy, Signals;
      QueuedSize(data[..], tail, head);
      if failed {
        ReadLoss();
        return -1, unread;
      }
      if head == tail { return 0, unread; }
      value := ReadByte();
      status := 1;
    }

    /** What a read does to a buffer that has failed. */
    method ReadLoss()
      requires Valid() && failed
      modifies this
      ensures Valid() && log == old(log) && !failed && Contents() == [] && items == old(items) + [Lost]
    {
      hide Accounts;
      AccountsForItem(log, items, stretches, rest, Lost, rest, []);
      head, tail, failed := 0, 0, false;
      items, stretches, rest := items + [Lost], stretches + [rest], [];
    }

    /** What a read does to a queue with something in it. */
    method ReadByte() returns (value: byte)
      requires Valid() && !failed && head != tail
      modifies this
      ensures Valid() && log == old(log) && !failed && old(Contents()) != []
      ensures value == old(Contents())[0] && Contents() == old(Contents())[1..]
      ensures items == old(items) + [Got(value)]
    {
      hide Accounts, Queued, Lossy, Signals;
      QueuedRead(data[..], tail, head);
      value := data[tail];
      tail := Next(tail);
      AccountsForItem(log, items, stretches, rest, Got(value), [Arrived(value)], Signals(Contents()));
      items, stretches, rest := items + [Got(value)], stretches + [[Arrived(value)]], Signals(Contents());
    }
  }
}
