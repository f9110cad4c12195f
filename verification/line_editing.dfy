/**
  What the console makes of its input, stated on whole sequences: where lines begin and
  end, which are executed, and what the edited text of a line is. The line editor of
  kernel/console.c is proved against this.
*/
module LineEditing {
  import opened Bytes
  import opened ReceiveBuffer

  const CTRL_C: byte := 3
  const BACKSPACE: byte := 8
  const TAB: byte := 9
  const LF: byte := 10
  const CR: byte := 13
  const ESC: byte := 27
  const SPACE: byte := 32
  const DELETE: byte := 127
  /** `sizeof(editor->line) - 1` */
  const LINE_LIMIT: nat := 127

  // ---------------------------------------------------------------- the text of a line

  /** The input without terminal escape sequences (CSI, SS3 and two-byte escapes). */
  function Plain(s: seq<byte>): seq<byte>
    decreases |s|
  {
    if s == [] then []
    else if s[0] != ESC then [s[0]] + Plain(s[1..])
    else if |s| == 1 then []
    else if s[1] == '[' as byte || s[1] == 'O' as byte then AfterIntroducer(s[2..])
    else Plain(s[2..])
  }

  /** What is left after `ESC [` or `ESC O`: parameters up to a final byte are skipped. */
  function AfterIntroducer(s: seq<byte>): seq<byte>
    decreases |s|
  {
    if s == [] then []
    else if 0x40 <= s[0] <= 0x7e then Plain(s[1..])
    else AfterIntroducer(s[1..])
  }

  predicate Erases(b: byte) {
    b == BACKSPACE || b == DELETE
  }

  predicate Printable(b: byte) {
    b == TAB || 32 <= b <= 126
  }

  /** What one byte that does not erase puts on the line. */
  function Glyph(b: byte): seq<byte> {
    if b == TAB then [SPACE] else if Printable(b) then [b] else []
  }

  /** Characters are added at the end, erasures take the last one off, the rest is ignored. */
  function Edited(text: seq<byte>, b: byte): seq<byte> {
    if Erases(b) then (if text == [] then [] else text[..|text| - 1]) else text + Glyph(b)
  }

  function Typed(s: seq<byte>): seq<byte> {
    if s == [] then [] else Edited(Typed(s[..|s| - 1]), s[|s| - 1])
  }

  /** The text that a sequence of input bytes leaves on the line. */
  function Text(s: seq<byte>): seq<byte> {
    Typed(Plain(s))
  }

  /** Whether the input ends inside an escape sequence: 1 after ESC, 2 among its parameters. */
  function Escape(s: seq<byte>): nat
    decreases |s|
  {
    if s == [] then 0
    else if s[0] != ESC then Escape(s[1..])
    else if |s| == 1 then 1
    else if s[1] == '[' as byte || s[1] == 'O' as byte then EscapeInside(s[2..])
    else Escape(s[2..])
  }

  function EscapeInside(s: seq<byte>): nat
    decreases |s|
  {
    if s == [] then 2
    else if 0x40 <= s[0] <= 0x7e then Escape(s[1..])
    else EscapeInside(s[1..])
  }

  function NextEscape(escape: nat, b: byte): nat {
    if escape == 1 then (if b == '[' as byte || b == 'O' as byte then 2 else 0)
    else if escape == 2 then (if 0x40 <= b <= 0x7e then 0 else 2)
    else if b == ESC then 1 else 0
  }

  /** One more byte is kept exactly if it neither starts nor continues an escape sequence. */
  lemma {:induction false} PlainGrows(s: seq<byte>, b: byte)
    ensures Plain(s + [b]) == Plain(s) + (if Escape(s) == 0 && b != ESC then [b] else [])
    ensures Escape(s + [b]) == NextEscape(Escape(s), b)
    decreases |s|
  {
    var t := s + [b];
    if s == [] {
      assert t[1..] == [];
    } else if s[0] != ESC {
      PlainGrows(s[1..], b);
      assert t[1..] == s[1..] + [b];
    } else if |s| == 1 {
      assert t[2..] == [];
    } else {
      assert t[2..] == s[2..] + [b];
      if s[1] == '[' as byte || s[1] == 'O' as byte { InsideGrows(s[2..], b); } else { PlainGrows(s[2..], b); }
    }
  }

  lemma {:induction false} InsideGrows(s: seq<byte>, b: byte)
    ensures AfterIntroducer(s + [b]) == AfterIntroducer(s) + (if EscapeInside(s) == 0 && b != ESC then [b] else [])
    ensures EscapeInside(s + [b]) == NextEscape(EscapeInside(s), b)
    decreases |s|
  {
    var t := s + [b];
    if s == [] {
      assert t[1..] == [];
    } else {
      assert t[1..] == s[1..] + [b];
      if 0x40 <= s[0] <= 0x7e { PlainGrows(s[1..], b); } else { InsideGrows(s[1..], b); }
    }
  }

  lemma TypedGrows(s: seq<byte>, b: byte)
    ensures Typed(s + [b]) == Edited(Typed(s), b)
  {
    assert (s + [b])[..|s|] == s;
  }

  /** Outside escape sequences, what comes later is read on its own. */
  lemma {:induction false} PlainAppend(a: seq<byte>, b: seq<byte>)
    requires Escape(a) == 0
    ensures Plain(a + b) == Plain(a) + Plain(b)
    decreases |a|
  {
    var t := a + b;
    if a == [] {
      assert t == b;
    } else if a[0] != ESC {
      PlainAppend(a[1..], b);
      assert t[1..] == a[1..] + b;
    } else {
      assert t[2..] == a[2..] + b;
      if a[1] == '[' as byte || a[1] == 'O' as byte { InsideAppend(a[2..], b); } else { PlainAppend(a[2..], b); }
    }
  }

  lemma {:induction false} InsideAppend(a: seq<byte>, b: seq<byte>)
    requires EscapeInside(a) == 0
    ensures AfterIntroducer(a + b) == AfterIntroducer(a) + Plain(b)
    decreases |a|
  {
    assert (a + b)[1..] == a[1..] + b;
    if 0x40 <= a[0] <= 0x7e { PlainAppend(a[1..], b); } else { InsideAppend(a[1..], b); }
  }

  lemma {:induction false} ParametersVanish(parameters: seq<byte>, final: byte, b: seq<byte>)
    requires (forall i :: 0 <= i < |parameters| ==> !(0x40 <= parameters[i] <= 0x7e)) && 0x40 <= final <= 0x7e
    ensures AfterIntroducer(parameters + [final] + b) == Plain(b)
    decreases |parameters|
  {
    var t := parameters + [final] + b;
    if parameters == [] {
      assert t == [final] + b && t[1..] == b;
    } else {
      ParametersVanish(parameters[1..], final, b);
      assert t[1..] == parameters[1..] + [final] + b;
    }
  }

  /**
    Which bytes terminal keys leave out of a line: ESC `[` or ESC `O`, any parameters and a
    final byte; and ESC with any other byte. Nothing else is left out.
  */
  lemma SequencesVanish(a: seq<byte>, c: byte, parameters: seq<byte>, final: byte, b: seq<byte>)
    requires Escape(a) == 0
    ensures (c == 91 || c == 79) && (forall i :: 0 <= i < |parameters| ==> !(0x40 <= parameters[i] <= 0x7e))
            && 0x40 <= final <= 0x7e ==>
      Plain(a + ([27, c] + (parameters + [final] + b))) == Plain(a) + Plain(b)
    ensures c != 91 && c != 79 ==> Plain(a + ([27, c] + b)) == Plain(a) + Plain(b)
    ensures c != 27 ==> Plain(a + ([c] + b)) == Plain(a) + ([c] + Plain(b))
  {
    var tail := parameters + [final] + b;
    PlainAppend(a, [27, c] + tail);
    PlainAppend(a, [27, c] + b);
    PlainAppend(a, [c] + b);
    assert ([27, c] + tail)[2..] == tail && ([27, c] + b)[2..] == b && ([c] + b)[1..] == b;
    if (forall i :: 0 <= i < |parameters| ==> !(0x40 <= parameters[i] <= 0x7e)) && 0x40 <= final <= 0x7e {
      ParametersVanish(parameters, final, b);
    }
  }

  /** What one more input byte does to the text of a line: the editor's keys, by their codes. */
  lemma TextGrows(s: seq<byte>, b: byte)
    ensures var text := Text(s);
      Text(s + [b]) ==
        if Escape(s) != 0 || b == 27 then text
        else if b == 8 || b == 127 then (if text == [] then [] else text[..|text| - 1])
        else if b == 9 then text + [32]
        else if 32 <= b <= 126 then text + [b]
        else text
    ensures Escape(s + [b]) == NextEscape(Escape(s), b)
  {
    PlainGrows(s, b);
    TypedGrows(Plain(s), b);
    assert Plain(s) + [] == Plain(s) && Text(s) + [] == Text(s);
  }

  /** Only characters from space to tilde get onto a line. */
  lemma {:induction false} TypedIsPrintable(s: seq<byte>)
    ensures forall i :: 0 <= i < |Typed(s)| ==> 32 <= Typed(s)[i] <= 126
    decreases |s|
  {
    if s != [] { TypedIsPrintable(s[..|s| - 1]); }
  }

  /** What is typed without any erasure, tabs shown as blanks. */
  function Shown(s: seq<byte>): seq<byte> {
    if s == [] then [] else Glyph(s[0]) + Shown(s[1..])
  }

  lemma {:induction false} ShownGrows(s: seq<byte>, b: byte)
    ensures Shown(s + [b]) == Shown(s) + Glyph(b)
    decreases |s|
  {
    hide Glyph;
    if s == [] {
      assert [b][1..] == [] && Shown([b]) == Glyph(b) + Shown([]);
    } else {
      ShownGrows(s[1..], b);
      assert (s + [b])[1..] == s[1..] + [b];
      assert Glyph(s[0]) + (Shown(s[1..]) + Glyph(b)) == Shown(s) + Glyph(b);
    }
  }

  lemma {:induction false} TypedTail(a: seq<byte>, a': seq<byte>, b: seq<byte>)
    requires Typed(a) == Typed(a')
    ensures Typed(a + b) == Typed(a' + b)
    decreases |b|
  {
    hide Typed, Edited;
    if b == [] {
      assert a + b == a && a' + b == a';
    } else {
      var n := |b| - 1;
      TypedTail(a, a', b[..n]);
      TypedGrows(a + b[..n], b[n]);
      TypedGrows(a' + b[..n], b[n]);
      assert a + b == a + b[..n] + [b[n]] && a' + b == a' + b[..n] + [b[n]];
    }
  }

  /**
    The text, by rules that rewrite the input: an erasure takes the character before it
    along, an erasure with nothing before it does nothing, and without erasures every
    printable character is shown. Together these determine it.
  */
  lemma ErasureTakesOne(a: seq<byte>, c: byte, e: byte, b: seq<byte>)
    requires Printable(c) && Erases(e)
    ensures Typed(a + [c, e] + b) == Typed(a + b)
  {
    assert (a + [c, e])[..|a| + 1] == a + [c] && (a + [c])[..|a|] == a;
    TypedTail(a + [c, e], a, b);
  }

  lemma ErasureOfNothing(e: byte, b: seq<byte>)
    requires Erases(e)
    ensures Typed([e] + b) == Typed(b)
  {
    assert [e][..0] == [] && [] + b == b;
    TypedTail([e], [], b);
  }

  lemma {:induction false} WithoutErasures(s: seq<byte>)
    requires forall i :: 0 <= i < |s| ==> !Erases(s[i])
    ensures Typed(s) == Shown(s)
    decreases |s|
  {
    if s != [] {
      var n := |s| - 1;
      WithoutErasures(s[..n]);
      ShownGrows(s[..n], s[n]);
      assert s == s[..n] + [s[n]];
    }
  }

  lemma TextIsPrintable(s: seq<byte>)
    ensures forall i :: 0 <= i < |Text(s)| ==> 32 <= Text(s)[i] <= 126
  {
    TypedIsPrintable(Plain(s));
  }

  lemma {:induction false} EscapeRange(s: seq<byte>)
    ensures Escape(s) <= 2
    decreases |s|
  {
    if s != [] {
      EscapeRange(s[..|s| - 1]);
      PlainGrows(s[..|s| - 1], s[|s| - 1]);
      assert s == s[..|s| - 1] + [s[|s| - 1]];
    }
  }

  // ---------------------------------------------------------------- where lines end

  /** The second half of CR LF is not another line end. */
  predicate Swallowed(before: seq<Item>, item: Item) {
    item == Got(LF) && before != [] && before[|before| - 1] == Got(CR)
  }

  predicate EndsLine(before: seq<Item>, item: Item) {
    item == Got(CR) || (item == Got(LF) && !Swallowed(before, item))
  }

  /** The items since the last line end or Ctrl-C. */
  function Open(items: seq<Item>): seq<Item> {
    if items == [] then []
    else
      var before, item := items[..|items| - 1], items[|items| - 1];
      if item == Got(CR) || item == Got(LF) || item == Got(CTRL_C) then [] else Open(before) + [item]
  }

  function Values(items: seq<Item>): (s: seq<byte>)
    ensures |s| == |items|
  {
    seq(|items|, i requires 0 <= i < |items| => if items[i].Got? then items[i].value else 0)
  }

  /** Nothing was lost, and the text never outgrew the line, not even for a moment. */
  predicate Good(items: seq<Item>) {
    items == []
    || (Good(items[..|items| - 1]) && items[|items| - 1].Got? && |Text(Values(items))| <= LINE_LIMIT)
  }

  datatype Effect = Quiet | Cancelled | Discarded | Executed(line: seq<byte>)

  /** What an item causes, given all the items before it. */
  function EffectOf(before: seq<Item>, item: Item): Effect {
    if EndsLine(before, item) then
      if Good(Open(before)) then Executed(Text(Values(Open(before)))) else Discarded
    else if item == Got(CTRL_C) then Cancelled
    else Quiet
  }

  /** Line ends and Ctrl-C by their codes: CR, LF not after CR, and 3. */
  lemma EffectMeaning(before: seq<Item>, item: Item)
    ensures EffectOf(before, item).Executed? || EffectOf(before, item) == Discarded <==>
      item == Got(13) || (item == Got(10) && !(before != [] && before[|before| - 1] == Got(13)))
    ensures EffectOf(before, item) == Cancelled <==> item == Got(3)
  {
  }

  lemma {:induction false} GoodMeaning(items: seq<Item>)
    ensures Good(items) <==>
      (forall i :: 0 <= i < |items| ==> items[i].Got?)
      && (forall n :: 0 <= n <= |items| ==> |Text(Values(items)[..n])| <= 127)
    decreases |items|
  {
    if items != [] {
      var before := items[..|items| - 1];
      GoodMeaning(before);
      assert Values(items)[..|before|] == Values(before);
      assert Values(items)[..|items|] == Values(items);
      assert forall n :: 0 <= n <= |before| ==> Values(items)[..n] == Values(before)[..n];
    } else {
      assert Values(items)[..0] == [];
    }
  }

  lemma GoodGrows(items: seq<Item>, b: byte)
    ensures Values(items + [Got(b)]) == Values(items) + [b]
    ensures Good(items + [Got(b)]) <==> Good(items) && |Text(Values(items) + [b])| <= LINE_LIMIT
    ensures !Good(items + [Lost])
  {
    var more := items + [Got(b)];
    assert more[..|items|] == items;
    assert Values(more) == Values(items) + [b];
    assert (items + [Lost])[|items|] == Lost;
  }

  lemma OpenGrows(items: seq<Item>, item: Item)
    ensures Open(items + [item]) ==
      if item == Got(CR) || item == Got(LF) || item == Got(CTRL_C) then [] else Open(items) + [item]
  {
    assert (items + [item])[..|items|] == items;
  }

  lemma OpenAfterEnd(items: seq<Item>)
    requires items != [] && items[|items| - 1] == Got(CR)
    ensures Open(items) == []
  {
  }

  lemma OpenOfNothing()
    ensures Open([]) == []
  {
  }

  /** The open line is what follows the last line end or Ctrl-C. */
  lemma {:induction false} OpenIsLatest(items: seq<Item>)
    ensures |Open(items)| <= |items| && Open(items) == items[|items| - |Open(items)|..]
    ensures Got(CR) !in Open(items) && Got(LF) !in Open(items) && Got(CTRL_C) !in Open(items)
    ensures |Open(items)| < |items| ==>
      items[|items| - |Open(items)| - 1] in {Got(CR), Got(LF), Got(CTRL_C)}
    decreases |items|
  {
    hide Open;
    if items == [] {
      OpenOfNothing();
    } else {
      var before, item := items[..|items| - 1], items[|items| - 1];
      OpenIsLatest(before);
      OpenGrows(before, item);
      assert items == before + [item];
    }
  }

  // ---------------------------------------------------------------- loss safety, end to end

  /**
    A line of the arrival stream: bytes that all arrived, from the start of the stream or
    right after a line end or Ctrl-C, up to a line end, with none of these in between.
  */
  ghost predicate LineAt(log: seq<Signal>, start: nat, block: seq<byte>) {
    && start + |block| < |log| && Signals(block) == log[start..start + |block|]
    && (start == 0 || log[start - 1] in {Arrived(CR), Arrived(LF), Arrived(CTRL_C)})
    && log[start + |block|] in {Arrived(CR), Arrived(LF)}
    && CR !in block && LF !in block && CTRL_C !in block
  }

  /** No beginning of the block leaves more text than fits on a line. */
  ghost predicate NeverTooLong(block: seq<byte>) {
    forall n :: 0 <= n <= |block| ==> |Text(block[..n])| <= LINE_LIMIT
  }

  /**
    Every line that is executed is the edited text of a whole line of the arrival stream,
    with nothing lost anywhere in it and never too long. The line ends with the very signal
    that item `i` stands for.
  */
  lemma ExecutedLines(log: seq<Signal>, items: seq<Item>, stretches: seq<seq<Signal>>, rest: seq<Signal>, i: nat)
    returns (block: seq<byte>, start: nat)
    requires Accounts(log, items, stretches, rest) && i < |items|
    requires EffectOf(items[..i], items[i]).Executed?
    ensures EffectOf(items[..i], items[i]).line == Text(block)
    ensures LineAt(log, start, block) && start + |block| == |Flatten(stretches[..i])|
    ensures NeverTooLong(block)
  {
    hide Accounts, Text, Signals;
    block := ExecutedBlock(items, i);
    start := BlockInLog(log, items, stretches, rest, i - |block|, i, block);
  }

  /** Only one line of the stream ends where a given line ends. */
  lemma LineIsUnique(log: seq<Signal>, start: nat, block: seq<byte>, start': nat, block': seq<byte>)
    requires LineAt(log, start, block) && LineAt(log, start', block') && start + |block| == start' + |block'|
    ensures start == start' && block == block'
  {
    hide Signals;
    if start < start' {
      InLine(log, start, block, start' - 1);
    } else if start' < start {
      InLine(log, start', block', start - 1);
    }
    SignalsAreBytes(block, block');
  }

  lemma InLine(log: seq<Signal>, start: nat, block: seq<byte>, k: nat)
    requires LineAt(log, start, block) && start <= k < start + |block|
    ensures log[k] !in {Arrived(CR), Arrived(LF), Arrived(CTRL_C)}
  {
    assert log[k] == log[start..start + |block|][k - start] == Arrived(block[k - start]);
    assert block[k - start] in block;
  }

  lemma SignalsAreBytes(block: seq<byte>, block': seq<byte>)
    ensures Signals(block) == Signals(block') ==> block == block'
  {
    if Signals(block) == Signals(block') {
      assert |block| == |Signals(block)| == |block'|;
      assert forall j :: 0 <= j < |block| ==> Signals(block)[j] == Arrived(block[j]) && Signals(block')[j] == Arrived(block'[j]);
    }
  }

  /** Lines are executed in the order in which they arrived, and none twice. */
  lemma ExecutedInOrder(log: seq<Signal>, items: seq<Item>, stretches: seq<seq<Signal>>, rest: seq<Signal>, i: nat, j: nat)
    requires Accounts(log, items, stretches, rest) && i < j < |items|
    requires EffectOf(items[..i], items[i]).Executed? && EffectOf(items[..j], items[j]).Executed?
    ensures |Flatten(stretches[..i])| < |Flatten(stretches[..j])|
  {
    ItemsInOrder(items, stretches, i, j);
  }

  lemma ExecutedBlock(items: seq<Item>, i: nat) returns (block: seq<byte>)
    requires i < |items| && EffectOf(items[..i], items[i]).Executed?
    ensures EffectOf(items[..i], items[i]).line == Text(block) && items[i] in {Got(CR), Got(LF)}
    ensures |block| <= i && forall j :: 0 <= j < |block| ==> items[i - |block| + j] == Got(block[j])
    ensures NeverTooLong(block)
    ensures CR !in block && LF !in block && CTRL_C !in block
    ensures |block| < i ==> items[i - |block| - 1] in {Got(CR), Got(LF), Got(CTRL_C)}
  {
    hide Text, Open, Good, Values;
    var open := Open(items[..i]);
    OpenIsBefore(items, i);
    GoodMeaning(open);
    GoodIsGot(open);
    block := Values(open);
    assert forall j :: 0 <= j < |block| ==> items[i - |block| + j] == open[j];
  }

  lemma OpenIsBefore(items: seq<Item>, i: nat)
    requires i < |items|
    ensures var open := Open(items[..i]);
      && |open| <= i && (forall j :: 0 <= j < |open| ==> open[j] == items[i - |open| + j])
      && Got(CR) !in open && Got(LF) !in open && Got(CTRL_C) !in open
      && (|open| < i ==> items[i - |open| - 1] in {Got(CR), Got(LF), Got(CTRL_C)})
  {
    hide Open;
    OpenIsLatest(items[..i]);
  }

  lemma GoodIsGot(open: seq<Item>)
    requires forall j :: 0 <= j < |open| ==> open[j].Got?
    requires Got(CR) !in open && Got(LF) !in open && Got(CTRL_C) !in open
    ensures forall j :: 0 <= j < |open| ==> open[j] == Got(Values(open)[j])
    ensures CR !in Values(open) && LF !in Values(open) && CTRL_C !in Values(open)
  {
    assert forall j :: 0 <= j < |open| ==> open[j] in open;
  }

  lemma BlockInLog(log: seq<Signal>, items: seq<Item>, stretches: seq<seq<Signal>>, rest: seq<Signal>,
                   from: nat, i: nat, block: seq<byte>) returns (start: nat)
    requires Accounts(log, items, stretches, rest) && from + |block| == i < |items| && items[i].Got?
    requires forall j :: 0 <= j < |block| ==> items[from + j] == Got(block[j])
    ensures start + |block| < |log| && Signals(block) == log[start..start + |block|]
    ensures log[start + |block|] == Arrived(items[i].value) && start + |block| == |Flatten(stretches[..i])|
    ensures from == 0 ==> start == 0
    ensures from > 0 && items[from - 1].Got? ==> start > 0 && log[start - 1] == Arrived(items[from - 1].value)
  {
    hide Accounts;
    forall k | from <= k < i
      ensures items[k].Got?
    {
      assert items[from + (k - from)] == Got(block[k - from]);
    }
    start := ReadsAreContiguous(log, items, stretches, rest, from, i + 1);
    forall j | 0 <= j < |block|
      ensures log[start + j] == Arrived(block[j])
    {
      assert log[start + ((from + j) - from)] == Arrived(items[from + j].value);
    }
    assert log[start + (i - from)] == Arrived(items[i].value);
    ReadsTakeOneEach(log, items, stretches, rest, from, i);
    BeforeBlock(log, items, stretches, rest, from);
  }

  lemma BeforeBlock(log: seq<Signal>, items: seq<Item>, stretches: seq<seq<Signal>>, rest: seq<Signal>, from: nat)
    requires Accounts(log, items, stretches, rest) && from <= |items|
    ensures var start := |Flatten(stretches[..from])|;
      && (from == 0 ==> start == 0)
      && (from > 0 && items[from - 1].Got? ==> 0 < start <= |log| && log[start - 1] == Arrived(items[from - 1].value))
  {
    hide Accounts;
    if from > 0 && items[from - 1].Got? {
      var before := ReadsAreContiguous(log, items, stretches, rest, from - 1, from);
      ReadsTakeOneEach(log, items, stretches, rest, from - 1, from);
      assert log[before + ((from - 1) - (from - 1))] == Arrived(items[from - 1].value);
    }
  }

  // ---------------------------------------------------------------- no line is missed

  /** What was read after a line end or Ctrl-C, with no other since, is the open line. */
  lemma {:induction false} OpenSince(items: seq<Item>, from: nat)
    requires from <= |items| && (from == 0 || items[from - 1] in {Got(CR), Got(LF), Got(CTRL_C)})
    requires forall k :: from <= k < |items| ==> items[k] !in {Got(CR), Got(LF), Got(CTRL_C)}
    ensures Open(items) == items[from..]
    decreases |items|
  {
    if from < |items| { OpenSince(items[..|items| - 1], from); }
  }

  lemma BlockIsOpen(items: seq<Item>, i: nat, block: seq<byte>)
    requires |block| <= i <= |items|
    requires forall j :: 0 <= j < |block| ==> items[i - |block| + j] == Got(block[j])
    requires |block| == i || items[i - |block| - 1] in {Got(CR), Got(LF), Got(CTRL_C)}
    requires CR !in block && LF !in block && CTRL_C !in block
    ensures var open := Open(items[..i]);
      |open| == |block| && forall j :: 0 <= j < |block| ==> open[j] == Got(block[j])
  {
    hide Open;
    var from := i - |block|;
    forall k | from <= k < i
      ensures items[k] !in {Got(CR), Got(LF), Got(CTRL_C)}
    {
      assert items[from + (k - from)] == Got(block[k - from]) && block[k - from] in block;
    }
    OpenSince(items[..i], from);
  }

  lemma BlockIsGood(open: seq<Item>, block: seq<byte>)
    requires |open| == |block| && forall j :: 0 <= j < |block| ==> open[j] == Got(block[j])
    requires NeverTooLong(block)
    ensures Values(open) == block && Good(open)
  {
    hide Text, Good;
    assert Values(open) == block;
    GoodMeaning(open);
  }

  /** A block that was read whole, and never too long, is executed with exactly its text. */
  lemma WholeBlockRuns(items: seq<Item>, i: nat, block: seq<byte>)
    requires |block| <= i < |items| && EndsLine(items[..i], items[i])
    requires forall j :: 0 <= j < |block| ==> items[i - |block| + j] == Got(block[j])
    requires |block| == i || items[i - |block| - 1] in {Got(CR), Got(LF), Got(CTRL_C)}
    requires CR !in block && LF !in block && CTRL_C !in block
    requires NeverTooLong(block)
    ensures EffectOf(items[..i], items[i]) == Executed(Text(block))
  {
    hide Text, Good, NeverTooLong, Open, Values;
    BlockIsOpen(items, i, block);
    BlockIsGood(Open(items[..i]), block);
  }

  /** The `n` items before item `i` and the one before these are bytes that were read, not reported losses. */
  ghost predicate ReadWhole(items: seq<Item>, i: nat, n: nat)
    requires i <= |items|
  {
    n <= i && (forall k :: i - n <= k < i ==> items[k].Got?) && (n < i ==> items[i - n - 1].Got?)
  }

  /** The LF of CR LF, which does not end a line of its own. */
  ghost predicate SecondHalf(log: seq<Signal>, k: nat)
    requires k < |log|
  {
    k > 0 && log[k - 1] == Arrived(CR) && log[k] == Arrived(LF)
  }

  /** The item that stands for the end of a line ends a line for the editor, too. */
  lemma LineEndIsRead(log: seq<Signal>, items: seq<Item>, stretches: seq<seq<Signal>>, rest: seq<Signal>, i: nat)
    requires Accounts(log, items, stretches, rest) && i < |items| && items[i].Got?
    ensures var end := |Flatten(stretches[..i])|;
      && end < |log| && log[end] == Arrived(items[i].value)
      && (log[end] in {Arrived(CR), Arrived(LF)} && !SecondHalf(log, end) ==> EndsLine(items[..i], items[i]))
  {
    hide Accounts;
    var end := ReadsAreContiguous(log, items, stretches, rest, i, i + 1);
    assert log[end + (i - i)] == Arrived(items[i].value);
    BeforeBlock(log, items, stretches, rest, i);
  }

  /** The bytes of a line of the stream are the items read for them. */
  lemma LineItems(log: seq<Signal>, items: seq<Item>, stretches: seq<seq<Signal>>, rest: seq<Signal>,
                  start: nat, block: seq<byte>, i: nat)
    requires Accounts(log, items, stretches, rest) && LineAt(log, start, block)
    requires i < |items| && start + |block| == |Flatten(stretches[..i])| && ReadWhole(items, i, |block|)
    ensures forall j :: 0 <= j < |block| ==> items[i - |block| + j] == Got(block[j])
    ensures |block| == i || items[i - |block| - 1] in {Got(CR), Got(LF), Got(CTRL_C)}
  {
    hide Accounts;
    var from := i - |block|;
    ReadsTakeOneEach(log, items, stretches, rest, from, i);
    BeforeBlock(log, items, stretches, rest, from);
    var at := ReadsAreContiguous(log, items, stretches, rest, from, i);
    forall j | 0 <= j < |block|
      ensures items[from + j] == Got(block[j])
    {
      assert log[start + ((from + j) - from)] == Arrived(items[from + j].value);
      assert log[start..start + |block|][j] == Signals(block)[j] == Arrived(block[j]);
    }
  }

  /**
    What becomes of each line of the arrival stream whose end is read: it is executed, with
    exactly its text, if its bytes and the one before it were read and it was never too
    long; and otherwise it is discarded.
  */
  lemma LinesExactly(log: seq<Signal>, items: seq<Item>, stretches: seq<seq<Signal>>, rest: seq<Signal>,
                     start: nat, block: seq<byte>, i: nat)
    requires Accounts(log, items, stretches, rest) && LineAt(log, start, block)
    requires i < |items| && items[i].Got? && start + |block| == |Flatten(stretches[..i])|
    requires !SecondHalf(log, start + |block|)
    ensures EffectOf(items[..i], items[i]) ==
      if ReadWhole(items, i, |block|) && NeverTooLong(block) then Executed(Text(block)) else Discarded
  {
    hide Accounts, Text, Signals, Open, Good, Values;
    LineEndIsRead(log, items, stretches, rest, i);
    if ReadWhole(items, i, |block|) && NeverTooLong(block) {
      LineItems(log, items, stretches, rest, start, block, i);
      WholeBlockRuns(items, i, block);
    } else if EffectOf(items[..i], items[i]).Executed? {
      OnlyWholeLines(log, items, stretches, rest, start, block, i);
    }
  }

  lemma OnlyWholeLines(log: seq<Signal>, items: seq<Item>, stretches: seq<seq<Signal>>, rest: seq<Signal>,
                       start: nat, block: seq<byte>, i: nat)
    requires Accounts(log, items, stretches, rest) && LineAt(log, start, block)
    requires i < |items| && start + |block| == |Flatten(stretches[..i])|
    requires EffectOf(items[..i], items[i]).Executed?
    ensures ReadWhole(items, i, |block|) && NeverTooLong(block)
  {
    hide Accounts, Text, Signals, EffectOf;
    var block' := ExecutedBlock(items, i);
    var start' := BlockInLog(log, items, stretches, rest, i - |block'|, i, block');
    LineIsUnique(log, start, block, start', block');
    forall k | i - |block| <= k < i
      ensures items[k].Got?
    {
      assert items[i - |block| + (k - (i - |block|))] == Got(block[k - (i - |block|)]);
    }
  }

  /** A line end executes nothing exactly if its block lost input or was too long at some point. */
  lemma DiscardedLines(items: seq<Item>, i: nat)
    requires i < |items| && EndsLine(items[..i], items[i])
    ensures EffectOf(items[..i], items[i]) == Discarded <==>
      var open := Open(items[..i]);
      Lost in open || exists n :: 0 <= n <= |open| && |Text(Values(open)[..n])| > LINE_LIMIT
  {
    GoodMeaning(Open(items[..i]));
  }
}
