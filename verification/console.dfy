/** The serial console (kernel/console.c): line editor, command line, and the input loop. */
module Console {
  import opened Bytes
  import opened ReceiveBuffer
  import opened Bits
  import opened SerialPort
  import opened LineEditing

  // ---------------------------------------------------------------- the command line

  datatype Command = Nothing | Help | Ticks | Mem | Clear | Halt | Unknown

  predicate Blank(b: byte) {
    b == SPACE || b == TAB
  }

  /** A line without the blanks at its ends. */
  function Trim(line: seq<byte>): seq<byte>
    decreases |line|
  {
    if line == [] then []
    else if Blank(line[0]) then Trim(line[1..])
    else if Blank(line[|line| - 1]) then Trim(line[..|line| - 1])
    else line
  }

  function Chars(s: string): (b: seq<byte>)
    requires forall i :: 0 <= i < |s| ==> s[i] < 128 as char
    ensures |b| == |s|
  {
    seq(|s|, i requires 0 <= i < |s| => s[i] as int)
  }

  /** The command that a line names. */
  function Named(line: seq<byte>): Command {
    var word := Trim(line);
    if word == [] then Nothing
    else if word == Chars("help") then Help
    else if word == Chars("ticks") then Ticks
    else if word == Chars("mem") then Mem
    else if word == Chars("clear") then Clear
    else if word == Chars("halt") then Halt
    else Unknown
  }

  lemma {:induction false} TrimEnd(line: seq<byte>)
    requires line != [] && Blank(line[|line| - 1])
    ensures Trim(line) == Trim(line[..|line| - 1])
    decreases |line|
  {
    if Blank(line[0]) && |line| > 1 {
      TrimEnd(line[1..]);
      assert line[1..][..|line| - 2] == line[..|line| - 1][1..];
    }
  }

  lemma TrimStart(line: seq<byte>)
    requires line != [] && Blank(line[0])
    ensures Trim(line) == Trim(line[1..])
  {
  }

  lemma TrimNothing(line: seq<byte>)
    requires line != [] ==> !Blank(line[0]) && !Blank(line[|line| - 1])
    ensures Trim(line) == line
  {
  }

  lemma NamedByTrim(text: seq<byte>, line: seq<byte>)
    requires Trim(text) == Trim(line)
    ensures Named(text) == Named(line)
  {
  }

  /** Only blanks are trimmed, and no blank is left at either end. */
  lemma {:induction false} TrimMeaning(line: seq<byte>) returns (from: nat, to: nat)
    ensures from <= to <= |line| && Trim(line) == line[from..to]
    ensures forall i :: 0 <= i < |line| && !(from <= i < to) ==> Blank(line[i])
    ensures from < to ==> !Blank(line[from]) && !Blank(line[to - 1])
    decreases |line|
  {
    if line == [] {
      from, to := 0, 0;
    } else if Blank(line[0]) {
      from, to := TrimMeaning(line[1..]);
      from, to := from + 1, to + 1;
      assert forall i :: 0 < i < |line| ==> line[i] == line[1..][i - 1];
    } else if Blank(line[|line| - 1]) {
      from, to := TrimMeaning(line[..|line| - 1]);
    } else {
      from, to := 0, |line|;
    }
  }

  lemma SliceOfTail(line: seq<byte>, from: nat, to: nat)
    requires from <= to < |line|
    ensures line[1..][from..to] == line[from + 1..to + 1]
  {
  }

  /** Without the blanks around it, a text with no blank at either end is left. */
  lemma {:induction false} TrimOfPadded(line: seq<byte>, from: nat, to: nat)
    requires from <= to <= |line| && forall i :: 0 <= i < |line| && !(from <= i < to) ==> Blank(line[i])
    requires from < to ==> !Blank(line[from]) && !Blank(line[to - 1])
    ensures Trim(line) == line[from..to]
    decreases |line|
  {
    if line != [] && Blank(line[0]) {
      var from', to' := if from == to then 0 else from - 1, if from == to then 0 else to - 1;
      assert forall i :: 0 <= i < |line| - 1 ==> line[1..][i] == line[i + 1];
      TrimOfPadded(line[1..], from', to');
      if from < to { SliceOfTail(line, from', to'); }
    } else if line != [] && Blank(line[|line| - 1]) {
      TrimOfPadded(line[..|line| - 1], from, to);
      assert line[..|line| - 1][from..to] == line[from..to];
    }
  }

  /** The line is this word, with blanks and tabs around it. */
  ghost predicate Says(line: seq<byte>, word: seq<byte>) {
    exists from, to :: 0 <= from <= to <= |line| && line[from..to] == word && Padding(line, from, to)
  }

  ghost predicate Padding(line: seq<byte>, from: int, to: int) {
    forall i :: 0 <= i < |line| && !(from <= i < to) ==> line[i] == 32 || line[i] == 9
  }

  lemma SaysMeansTrimmed(line: seq<byte>, word: seq<byte>)
    requires word != [] ==> !Blank(word[0]) && !Blank(word[|word| - 1])
    ensures Says(line, word) <==> Trim(line) == word
  {
    hide Trim;
    if Says(line, word) {
      var from, to :| 0 <= from <= to <= |line| && line[from..to] == word && Padding(line, from, to);
      TrimOfPadded(line, from, to);
    }
    var from, to := TrimMeaning(line);
    assert Padding(line, from, to);
  }

  /** Which line names which command: the bytes of "help", "ticks", "mem", "clear" and "halt". */
  lemma NamedMeaning(line: seq<byte>)
    ensures Named(line) == Help <==> Says(line, [104, 101, 108, 112])
    ensures Named(line) == Ticks <==> Says(line, [116, 105, 99, 107, 115])
    ensures Named(line) == Mem <==> Says(line, [109, 101, 109])
    ensures Named(line) == Clear <==> Says(line, [99, 108, 101, 97, 114])
    ensures Named(line) == Halt <==> Says(line, [104, 97, 108, 116])
    ensures Named(line) == Nothing <==> forall i :: 0 <= i < |line| ==> line[i] == 32 || line[i] == 9
  {
    hide Trim, Says;
    SaysMeansTrimmed(line, [104, 101, 108, 112]);
    SaysMeansTrimmed(line, [116, 105, 99, 107, 115]);
    SaysMeansTrimmed(line, [109, 101, 109]);
    SaysMeansTrimmed(line, [99, 108, 101, 97, 114]);
    SaysMeansTrimmed(line, [104, 97, 108, 116]);
    SaysMeansTrimmed(line, []);
    OnlyPadding(line);
    assert Chars("help") == [104, 101, 108, 112] && Chars("ticks") == [116, 105, 99, 107, 115];
    assert Chars("mem") == [109, 101, 109] && Chars("clear") == [99, 108, 101, 97, 114] && Chars("halt") == [104, 97, 108, 116];
  }

  lemma OnlyPadding(line: seq<byte>)
    ensures Says(line, []) <==> forall i :: 0 <= i < |line| ==> line[i] == 32 || line[i] == 9
  {
    if forall i :: 0 <= i < |line| ==> line[i] == 32 || line[i] == 9 {
      assert line[0..0] == [] && Padding(line, 0, 0);
    }
  }

  /** A character of a NUL-terminated constant. */
  function CharAt(word: seq<byte>, i: nat): byte {
    if i < |word| then word[i] else 0
  }

  /** `equal` on NUL-terminated text. */
  method Equal(line: array<byte>, start: nat, word: seq<byte>, ghost text: seq<byte>) returns (same: bool)
    requires start + |text| < line.Length && line[start..start + |text|] == text && line[start + |text|] == 0
    requires 0 !in text && 0 !in word
    ensures same <==> text == word
  {
    var i := 0;
    assert text != [] ==> line[start] == text[0];
    while line[start + i] != 0 && line[start + i] == CharAt(word, i)
      invariant i <= |word| && i <= |text| && text[..i] == word[..i]
      invariant i < |text| ==> line[start + i] == text[i] && text[i] in text
      decreases |text| - i
    {
      i := i + 1;
      assert i < |text| ==> line[start + i] == line[start..start + |text|][i];
    }
    same := line[start + i] == CharAt(word, i);
    if i < |word| { assert word[i] in word; }
    if same {
      assert text == text[..i] && word == word[..i];
    } else {
      assert i < |text| ==> i >= |word| || text[i] != word[i];
    }
  }

  /** `execute`, as far as choosing the command: trims in place, then compares. */
  method Execute(line: array<byte>, count: nat) returns (command: Command)
    requires count < line.Length && 0 !in line[..count]
    modifies line
    ensures command == Named(old(line[..count]))
    ensures var text := old(line[..count]);
      && (command == Help <==> Says(text, [104, 101, 108, 112]))
      && (command == Ticks <==> Says(text, [116, 105, 99, 107, 115]))
      && (command == Mem <==> Says(text, [109, 101, 109]))
      && (command == Clear <==> Says(text, [99, 108, 101, 97, 114]))
      && (command == Halt <==> Says(text, [104, 97, 108, 116]))
      && (command == Nothing <==> forall i :: 0 <= i < |text| ==> text[i] == 32 || text[i] == 9)
  {
    hide Trim, Named, Says;
    ghost var all := line[..count];
    NamedMeaning(all);
    var length := count;
    while length > 0 && (line[length - 1] == SPACE || line[length - 1] == TAB)
      invariant length <= count && line[..] == old(line[..])
      invariant Trim(line[..length]) == Trim(all)
    {
      TrimEnd(line[..length]);
      assert line[..length][..length - 1] == line[..length - 1];
      length := length - 1;
    }
    ghost var kept := line[..length];
    line[length] := 0;
    assert line[..length] == kept;
    var start := 0;
    while line[start] == SPACE || line[start] == TAB
      invariant start <= length && line[length] == 0 && line[..length] == kept
      invariant length > 0 ==> !Blank(kept[length - 1])
      invariant Trim(kept[start..]) == Trim(all)
      decreases length - start
    {
      assert start < length && line[start] == kept[start];
      TrimStart(kept[start..]);
      assert kept[start..][1..] == kept[start + 1..];
      start := start + 1;
    }
    ghost var text := kept[start..];
    assert text == line[start..start + |text|];
    assert text != [] ==> text[0] == line[start] && text[|text| - 1] == kept[length - 1];
    TrimNothing(text);
    NamedByTrim(text, all);
    assert forall i :: 0 <= i < |text| ==> text[i] == all[start + i];
    command := Choose(line, start, text);
  }

  method Choose(line: array<byte>, start: nat, ghost text: seq<byte>) returns (command: Command)
    requires start + |text| < line.Length && line[start..start + |text|] == text && line[start + |text|] == 0
    requires 0 !in text && Trim(text) == text
    ensures command == Named(text)
  {
    assert text != [] ==> line[start] == text[0] && text[0] in text;
    if line[start] == 0 { return Nothing; }
    var help := Equal(line, start, Chars("help"), text);
    if help { return Help; }
    var ticks := Equal(line, start, Chars("ticks"), text);
    if ticks { return Ticks; }
    var mem := Equal(line, start, Chars("mem"), text);
    if mem { return Mem; }
    var clear := Equal(line, start, Chars("clear"), text);
    if clear { return Clear; }
    var halt := Equal(line, start, Chars("halt"), text);
    command := if halt then Halt else Unknown;
  }

  // ---------------------------------------------------------------- the line editor

  class LineEditor {
    const line: array<byte>
    var length: nat
    var escape: nat
    var afterCr: bool
    var discard: bool
    ghost var items: seq<Item>

    /** What the fields say about the open line. */
    ghost predicate Editing(open: seq<Item>)
      reads this`length, this`escape, this`discard, line
    {
      && line.Length == LINE_LIMIT + 1 && length <= LINE_LIMIT
      && (discard <==> !Good(open))
      && (!discard ==> line[..length] == Text(Values(open)) && escape == Escape(Values(open)))
    }

    ghost predicate Valid()
      reads this, line
    {
      && Editing(Open(items))
      && (afterCr <==> items != [] && items[|items| - 1] == Got(CR))
    }

    /** `reset_line` */
    method ResetLine()
      requires line.Length == LINE_LIMIT + 1
      modifies this`length, this`escape, this`discard
      ensures Editing([]) && length == 0 && !discard
    {
      length, escape, discard := 0, 0, false;
    }

    constructor ()
      ensures Valid() && items == [] && fresh(line)
    {
      line := new byte[LINE_LIMIT + 1];
      length, escape, discard, afterCr := 0, 0, false, false;
      items := [];
    }

    /** `consume_escape` */
    method ConsumeEscape(b: byte) returns (consumed: bool)
      requires escape <= 2
      modifies this`escape
      ensures escape == NextEscape(old(escape), b) <= 2
      ensures consumed <==> old(escape) != 0 || b == ESC
    {
      if escape == 1 {
        escape := if b == '[' as byte || b == 'O' as byte then 2 else 0;
        return true;
      }
      if escape == 2 {
        if 0x40 <= b <= 0x7e { escape := 0; }
        return true;
      }
      if b != ESC { return false; }
      escape := 1;
      consumed := true;
    }

    /** `edit_character` */
    method EditCharacter(b: byte, ghost open: seq<Item>)
      requires Editing(open)
      modifies this`length, this`escape, this`discard, line
      ensures Editing(open + [Got(b)])
    {
      hide Good, Text, Values, Escape;
      GoodGrows(open, b);
      if discard { return; }
      EscapeRange(Values(open));
      TextGrows(Values(open), b);
      var consumed := ConsumeEscape(b);
      if consumed { return; }
      if b == BACKSPACE || b == DELETE {
        if length > 0 {
          length := length - 1;
          assert line[..length] == old(line[..length])[..length];
        }
        return;
      }
      if b != TAB && (b < 32 || b > 126) { return; }
      if length == line.Length - 1 {
        discard := true;
        return;
      }
      line[length] := if b == TAB then SPACE else b;
      length := length + 1;
      assert line[..length] == old(line[..length]) + [if b == TAB then SPACE else b];
    }

    /** `finish_line` */
    method FinishLine(ghost open: seq<Item>) returns (effect: Effect, command: Command)
      requires Editing(open)
      modifies this`length, this`escape, this`discard, line
      ensures Editing([])
      ensures effect == if Good(open) then Executed(Text(Values(open))) else Discarded
      ensures command == if Good(open) then Named(Text(Values(open))) else Nothing
    {
      hide Good, Text, Values, Escape, Named;
      effect, command := Discarded, Nothing;
      if !discard {
        effect := Executed(line[..length]);
        TextIsPrintable(Values(open));
        command := Execute(line, length);
      }
      ResetLine();
    }

    /** `accept_input` */
    method AcceptInput(b: byte) returns (effect: Effect, command: Command)
      requires Valid()
      modifies this, line
      ensures Valid() && items == old(items) + [Got(b)]
      ensures effect == EffectOf(old(items), Got(b))
      ensures command == if effect.Executed? then Named(effect.line) else Nothing
    {
      hide Good, Text, Values, Escape, Named, Open;
      OpenGrows(items, Got(b));
      effect, command := Quiet, Nothing;
      ghost var open := Open(items);
      if b == LF && afterCr {
        OpenAfterEnd(items);
        afterCr := false;
        items := items + [Got(b)];
        return;
      }
      afterCr := b == CR;
      if b == CTRL_C {
        ResetLine();
        items := items + [Got(b)];
        return Cancelled, Nothing;
      }
      if b == CR || b == LF {
        effect, command := FinishLine(open);
        items := items + [Got(b)];
        return;
      }
      EditCharacter(b, open);
      items := items + [Got(b)];
    }

    /** What the input loop does when a loss is reported. */
    method LoseInput()
      requires Valid()
      modifies this
      ensures Valid() && items == old(items) + [Lost]
    {
      hide Text, Values, Escape, Open;
      OpenGrows(items, Lost);
      GoodGrows(Open(items), 0);
      discard, escape, afterCr := true, 0, false;
      items := items + [Lost];
    }
  }

  // ---------------------------------------------------------------- the input loop

  /** Polling the line status ends with an empty transmitter (bit 5), not with silence. */
  ghost predicate Transmits(device: nat -> byte) {
    exists n: nat :: WaitTakes(device, 0x20, n) && device(n - 1) != 0xff && And(device(n - 1), 0x20) == 0x20
  }

  lemma TransmitsOnce(device: nat -> byte, n: nat, ok: bool)
    requires WaitTakes(device, 0x20, n) && (ok <==> device(n - 1) != 0xff && And(device(n - 1), 0x20) == 0x20)
    ensures ok <==> Transmits(device)
  {
    hide And;
    if Transmits(device) {
      var m: nat :| WaitTakes(device, 0x20, m) && device(m - 1) != 0xff && And(device(m - 1), 0x20) == 0x20;
      assert m == n;
    }
  }

  /** The effect runs the command "halt". */
  ghost predicate Halts(effect: Effect) {
    effect.Executed? && Says(effect.line, [104, 97, 108, 116])
  }

  class InputLoop {
    const cpu: Cpu
    const serial: Serial
    const editor: LineEditor
    /** What each item read so far has caused. */
    var effects: seq<Effect>

    ghost predicate Wired()
      reads cpu`halted, serial.buffer, serial.buffer.data, editor, editor.line
    {
      && serial.Valid() && serial.cpu == cpu && editor.Valid() && editor.line != serial.buffer.data
      && SoundSleep()
    }

    /** No lost wake-up: the processor sleeps only while there is nothing to read and no loss to report. */
    ghost predicate SoundSleep()
      reads cpu`halted, serial.buffer, serial.buffer.data
      requires serial.Valid()
    {
      cpu.halted ==> !serial.buffer.failed && serial.buffer.Contents() == []
    }

    /** Each effect is the one its item calls for. */
    ghost predicate Recorded(items: seq<Item>)
      reads this`effects
    {
      |effects| == |items| && forall i :: 0 <= i < |effects| ==> effects[i] == EffectOf(items[..i], items[i])
    }

    /** The editor has had exactly what was read, and each effect is the one its item calls for. */
    ghost predicate Valid()
      reads this, cpu`halted, serial.buffer, serial.buffer.data, editor, editor.line
    {
      Wired() && editor.items == serial.buffer.items && Recorded(editor.items)
    }

    /** `serial_enable_receive`, then the start of `console_run`. */
    constructor (cpu: Cpu, serial: Serial)
      requires serial.Valid() && serial.cpu == cpu && serial.buffer.items == [] && !cpu.halted
      ensures Valid() && this.cpu == cpu && this.serial == serial && effects == [] && fresh(editor) && fresh(editor.line)
    {
      this.cpu, this.serial := cpu, serial;
      editor := new LineEditor();
      effects := [];
    }

    /**
      `output` of a number of characters: each waits for the transmitter, with any answers of
      the device; `false` is the endless spin when one cannot be sent.
    */
    method Output(characters: nat, device: nat -> nat -> byte) returns (ok: bool)
      requires Valid() && !cpu.halted
      modifies cpu, serial, serial.buffer, serial.buffer.data
      ensures Valid() && !cpu.halted && cpu.interruptsEnabled == old(cpu.interruptsEnabled)
      ensures old(serial.buffer.log) <= serial.buffer.log && serial.buffer.items == old(serial.buffer.items)
      ensures ok <==> forall c :: 0 <= c < characters ==> Transmits(device(c))
      ensures serial.receiveEnabled == old(serial.receiveEnabled) && (old(serial.buffer.failed) ==> serial.buffer.failed)
    {
      hide Recorded, LineEditor.Valid, RxBuffer.Valid, Transmits;
      ok := true;
      for c := 0 to characters
        invariant Valid() && !cpu.halted && cpu.interruptsEnabled == old(cpu.interruptsEnabled)
        invariant old(serial.buffer.log) <= serial.buffer.log && serial.buffer.items == old(serial.buffer.items)
        invariant ok && forall d :: 0 <= d < c ==> Transmits(device(d))
        invariant serial.receiveEnabled == old(serial.receiveEnabled) && (old(serial.buffer.failed) ==> serial.buffer.failed)
      {
        var polls;
        ok, polls := serial.WaitStatus(0x20, device(c));
        TransmitsOnce(device(c), polls, ok);
        if !ok { return; }
      }
    }

    /** `sti; hlt`: no interrupt is delivered in between, so what was read still holds when the processor sleeps. */
    method EnableAndHalt()
      requires Valid() && !cpu.interruptsEnabled
      requires !serial.buffer.failed && serial.buffer.Contents() == []
      modifies cpu
      ensures Valid() && cpu.interruptsEnabled && cpu.halted
      ensures serial.buffer.log == old(serial.buffer.log) && serial.buffer.items == old(serial.buffer.items)
    {
      hide Recorded, LineEditor.Valid, RxBuffer.Valid;
      cpu.interruptsEnabled, cpu.halted := true, true;
    }

    /** The interrupt that ends the sleep: serial interrupts, or one of another device. */
    method Wake()
      requires Valid() && cpu.interruptsEnabled && cpu.halted
      modifies cpu, serial, serial.buffer, serial.buffer.data
      ensures Valid() && cpu.interruptsEnabled && !cpu.halted
      ensures old(serial.buffer.log) <= serial.buffer.log && serial.buffer.items == old(serial.buffer.items)
    {
      hide Recorded, LineEditor.Valid, RxBuffer.Valid;
      serial.Preempt();
      cpu.halted := false;
    }

    /** `x86_enable_and_idle` */
    method EnableAndIdle()
      requires Valid() && !cpu.interruptsEnabled
      requires !serial.buffer.failed && serial.buffer.Contents() == []
      modifies cpu, serial, serial.buffer, serial.buffer.data
      ensures Valid() && cpu.interruptsEnabled && !cpu.halted
      ensures old(serial.buffer.log) <= serial.buffer.log && serial.buffer.items == old(serial.buffer.items)
    {
      hide Recorded, LineEditor.Valid, RxBuffer.Valid;
      EnableAndHalt();
      Wake();
    }

    /** One item, whether a byte or a loss, goes to the editor. */
    method Deliver(status: int, b: byte) returns (command: Command)
      requires Wired() && serial.buffer.items == editor.items + [if status == 1 then Got(b) else Lost]
      requires Recorded(editor.items) && status in {-1, 1}
      modifies this, editor, editor.line
      ensures Valid() && |effects| == |old(effects)| + 1 && old(effects) <= effects
      ensures var effect := effects[|old(effects)|];
        command == if effect.Executed? then Named(effect.line) else Nothing
    {
      hide EffectOf, Named, RxBuffer.Valid, LineEditor.Valid;
      ghost var before := editor.items;
      LostIsQuiet(before);
      var effect := Quiet;
      command := Nothing;
      if status < 0 {
        editor.LoseInput();
      } else {
        effect, command := editor.AcceptInput(b);
      }
      RecordMore(effects, before, editor.items[|before|]);
      effects := effects + [effect];
    }

    static lemma RecordMore(effects: seq<Effect>, items: seq<Item>, item: Item)
      requires |effects| == |items| && forall i :: 0 <= i < |effects| ==> effects[i] == EffectOf(items[..i], items[i])
      ensures var more, items' := effects + [EffectOf(items, item)], items + [item];
        forall i :: 0 <= i < |more| ==> more[i] == EffectOf(items'[..i], items'[i])
    {
      hide EffectOf;
      var items' := items + [item];
      assert forall i :: 0 <= i <= |items| ==> items'[..i] == items[..i];
      assert items[..|items|] == items;
    }

    lemma LostIsQuiet(before: seq<Item>)
      ensures EffectOf(before, Lost) == Quiet
    {
    }

    /** `x86_disable_interrupts` and `serial_read`. */
    method Take() returns (status: int, b: byte)
      requires Valid() && !cpu.halted
      modifies cpu`interruptsEnabled, serial.buffer
      ensures Wired() && !cpu.interruptsEnabled && serial.buffer.log == old(serial.buffer.log)
      ensures status == (if old(serial.buffer.failed) then -1 else if old(serial.buffer.Contents()) == [] then 0 else 1)
      ensures status == 0 ==> Valid() && !serial.buffer.failed && serial.buffer.Contents() == []
      ensures status != 0 ==> serial.buffer.items == editor.items + [if status == 1 then Got(b) else Lost]
      ensures old(serial.buffer.items) <= serial.buffer.items && status in {-1, 0, 1}
    {
      hide Recorded, LineEditor.Valid;
      cpu.interruptsEnabled := false;
      var unread: byte := *;
      status, b := serial.Read(unread);
    }

    /** Whatever the device has answered to poll `i` of character `c`; silence after that. */
    static function Polled(answers: seq<seq<byte>>, c: nat, i: nat): byte {
      if c < |answers| && i < |answers[c]| then answers[c][i] else 0xff
    }

    /** The part of a round that has something to deliver. */
    method Handle(status: int, b: byte) returns (running: bool, printed: bool)
      requires Wired() && !cpu.interruptsEnabled && !cpu.halted && Recorded(editor.items) && status in {-1, 1}
      requires serial.buffer.items == editor.items + [if status == 1 then Got(b) else Lost]
      modifies this, cpu, serial, serial.buffer, serial.buffer.data, editor, editor.line
      ensures Valid() && old(effects) <= effects && old(serial.buffer.log) <= serial.buffer.log
      ensures |effects| == |old(effects)| + 1
      ensures running <==> printed && !Halts(effects[|old(effects)|])
      ensures !cpu.halted && (printed ==> (cpu.interruptsEnabled <==> running))
      ensures serial.buffer.items == old(serial.buffer.items)
    {
      hide Recorded, LineEditor.Valid, RxBuffer.Valid, Named, Says, Transmits;
      cpu.interruptsEnabled := true;
      serial.Preempt();
      var command := Deliver(status, b);
      ghost var effect := effects[|old(effects)|];
      if effect.Executed? { NamedMeaning(effect.line); }
      var characters: nat := *;
      var answers: seq<seq<byte>> := *;
      printed := Output(characters, (c: nat) => (i: nat) => Polled(answers, c, i));
      running := printed;
      if printed && command == Halt {
        cpu.interruptsEnabled := false;
        running := false;
      }
    }

    /** One round of the loop in `console_run`; `false` when the machine has been stopped. */
    method Round() returns (running: bool, printed: bool)
      requires Valid() && !cpu.halted
      modifies this, cpu, serial, serial.buffer, serial.buffer.data, editor, editor.line
      ensures Valid() && old(effects) <= effects && old(serial.buffer.log) <= serial.buffer.log
      ensures !cpu.halted && (printed ==> (cpu.interruptsEnabled <==> running))
      ensures old(serial.buffer.items) <= serial.buffer.items
      // At most one item is taken, and exactly one if anything is pending: no input is left waiting.
      ensures |old(effects)| <= |effects| <= |old(effects)| + 1
      ensures old(serial.buffer.failed || serial.buffer.Contents() != []) ==> |effects| == |old(effects)| + 1
      // The loop goes on unless output fails or the item taken ends the line "halt".
      ensures running <==> printed && !(|effects| > |old(effects)| && Halts(effects[|old(effects)|]))
    {
      hide Recorded, LineEditor.Valid, RxBuffer.Valid;
      serial.Preempt();
      var status, b := Take();
      if status == 0 {
        EnableAndIdle();
        return true, true;
      }
      running, printed := Handle(status, b);
    }

    /**
      The endless loop, for as many rounds as one cares to look: whatever the device does
      and whenever it interrupts, the effects are those that the items read call for.
    */
    method Run(rounds: nat) returns (running: bool, printed: bool)
      requires Valid() && !cpu.halted
      modifies this, cpu, serial, serial.buffer, serial.buffer.data, editor, editor.line
      ensures Valid() && old(effects) <= effects && old(serial.buffer.log) <= serial.buffer.log
      // It stops at the first "halt", and for no other reason but failing output.
      ensures printed ==> (running <==> forall i :: |old(effects)| <= i < |effects| ==> !Halts(effects[i]))
      ensures forall i :: |old(effects)| <= i < |effects| - 1 ==> !Halts(effects[i])
    {
      hide Recorded, Wired, Halts;
      running, printed := true, true;
      for round := 0 to rounds
        invariant Valid() && !cpu.halted && old(effects) <= effects && old(serial.buffer.log) <= serial.buffer.log
        invariant printed ==> (running <==> forall i :: |old(effects)| <= i < |effects| ==> !Halts(effects[i]))
        invariant forall i :: |old(effects)| <= i < |effects| - 1 ==> !Halts(effects[i])
        invariant running ==> printed
      {
        if !running { break; }
        running, printed := Round();
      }
    }

    /**
      Loss safety in every state of the loop: an executed line is the edited text of a whole
      line of the arrival stream, from one line end to the next, with nothing lost in it.
    */
    lemma Safety(i: nat) returns (block: seq<byte>, start: nat)
      requires Valid() && i < |effects| && effects[i].Executed?
      ensures effects[i].line == Text(block) && LineAt(serial.buffer.log, start, block)
      ensures start + |block| == |Flatten(serial.buffer.stretches[..i])|
      ensures NeverTooLong(block)
    {
      hide EffectOf, Text, Accounts, Signals, LineAt;
      var buffer := serial.buffer;
      block, start := ExecutedLines(buffer.log, buffer.items, buffer.stretches, buffer.rest, i);
    }

    /** What becomes of each line of the stream whose end has been read: executed as it is, or discarded. */
    lemma Exactly(start: nat, block: seq<byte>, i: nat)
      requires Valid() && LineAt(serial.buffer.log, start, block) && !SecondHalf(serial.buffer.log, start + |block|)
      requires i < |effects| && serial.buffer.items[i].Got? && start + |block| == |Flatten(serial.buffer.stretches[..i])|
      ensures effects[i] ==
        if ReadWhole(serial.buffer.items, i, |block|) && NeverTooLong(block) then Executed(Text(block)) else Discarded
    {
      hide EffectOf, Text, Accounts, Signals, LineAt, ReadWhole, NeverTooLong;
      var buffer := serial.buffer;
      LinesExactly(buffer.log, buffer.items, buffer.stretches, buffer.rest, start, block, i);
    }

    /** Executed lines are distinct lines of the stream, in the order of their arrival. */
    lemma InOrder(i: nat, j: nat)
      requires Valid() && i < j < |effects| && effects[i].Executed? && effects[j].Executed?
      ensures |Flatten(serial.buffer.stretches[..i])| < |Flatten(serial.buffer.stretches[..j])|
    {
      hide EffectOf;
      var buffer := serial.buffer;
      ExecutedInOrder(buffer.log, buffer.items, buffer.stretches, buffer.rest, i, j);
    }
  }
}
