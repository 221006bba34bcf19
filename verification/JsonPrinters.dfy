/**
 The two printers as they run: visitors that send characters to a writer while they walk the lists.
 */
module JsonPrinters {
  import opened CInt
  import opened JsonText

  // ---- Written text in front of what follows it

  lemma {:induction false} EscapedSplits(s: string, t: string, tail: string)
    ensures Escaped(s, t + tail) == Escaped(s, t) + tail
  {
    if s != "" { EscapedSplits(s[1..], t, tail); }
  }

  lemma {:induction false} TabsSplit(n: nat, t: string, tail: string)
    ensures Tabs(n, t + tail) == Tabs(n, t) + tail
  {
    if n > 0 { TabsSplit(n - 1, t, tail); }
  }

  lemma GapSplits(pretty: bool, nesting: nat, t: string, tail: string)
    ensures Gap(pretty, nesting, t + tail) == Gap(pretty, nesting, t) + tail
  {
    if pretty { TabsSplit(U8(nesting), t, tail); }
  }

  lemma QuotedSplits(s: string, t: string, tail: string)
    ensures Quoted(s, t + tail) == Quoted(s, t) + tail
  {
    assert ['"'] + (t + tail) == (['"'] + t) + tail;
    EscapedSplits(s, ['"'] + t, tail);
  }

  lemma {:induction false} RenderSplits(v: Json, pretty: bool, nesting: nat, t: string, tail: string)
    ensures Render(v, pretty, nesting, t + tail) == Render(v, pretty, nesting, t) + tail
    decreases v, 0
  {
    hide Gap, Quoted, Decimal, RenderElements, RenderMembers, ClosingGap;
    match v
    case Null =>
    case Bool(_) =>
    case Positive(n) => DecimalSplits(n, t, tail);
    case Negative(n) => DecimalSplits(n, t, tail);
    case Text(chars) => QuotedSplits(chars, t, tail);
    case Array(elements) =>
      ClosingSplits(pretty, nesting, ']', t, tail);
      var close := ClosingGap(pretty, nesting, ']', t);
      ElementsSplit(elements, pretty, nesting + 1, close, tail);
      GapSplits(pretty, nesting + 1, RenderElements(elements, pretty, nesting + 1, close), tail);
    case Object(members) =>
      ClosingSplits(pretty, nesting, '}', t, tail);
      var close := ClosingGap(pretty, nesting, '}', t);
      MembersSplit(members, pretty, nesting + 1, close, tail);
      GapSplits(pretty, nesting + 1, RenderMembers(members, pretty, nesting + 1, close), tail);
  }

  lemma ClosingSplits(pretty: bool, nesting: nat, bracket: char, t: string, tail: string)
    ensures ClosingGap(pretty, nesting, bracket, t + tail) == ClosingGap(pretty, nesting, bracket, t) + tail
  {
    hide Gap;
    assert [bracket] + (t + tail) == ([bracket] + t) + tail;
    GapSplits(pretty, nesting, [bracket] + t, tail);
  }

  lemma {:induction false} ElementsSplit(es: Elements, pretty: bool, nesting: nat, t: string, tail: string)
    ensures RenderElements(es, pretty, nesting, t + tail) == RenderElements(es, pretty, nesting, t) + tail
    decreases es
  {
    hide Gap, Render;
    if es.Element? {
      if es.next.NoElements? {
        RenderSplits(es.value, pretty, nesting, t, tail);
      } else {
        ElementsSplit(es.next, pretty, nesting, t, tail);
        var more := RenderElements(es.next, pretty, nesting, t);
        GapSplits(pretty, nesting, more, tail);
        assert [','] + (Gap(pretty, nesting, more) + tail) == ([','] + Gap(pretty, nesting, more)) + tail;
        RenderSplits(es.value, pretty, nesting, [','] + Gap(pretty, nesting, more), tail);
      }
    }
  }

  lemma {:induction false} MembersSplit(ms: Members, pretty: bool, nesting: nat, t: string, tail: string)
    ensures RenderMembers(ms, pretty, nesting, t + tail) == RenderMembers(ms, pretty, nesting, t) + tail
    decreases ms
  {
    hide Gap, Render, Quoted, Colon;
    if ms.Member? {
      if ms.next.NoMembers? {
        MemberSplits(ms.key, ms.value, pretty, nesting, t, tail);
      } else {
        MembersSplit(ms.next, pretty, nesting, t, tail);
        var more := RenderMembers(ms.next, pretty, nesting, t);
        GapSplits(pretty, nesting, more, tail);
        assert [','] + (Gap(pretty, nesting, more) + tail) == ([','] + Gap(pretty, nesting, more)) + tail;
        MemberSplits(ms.key, ms.value, pretty, nesting, [','] + Gap(pretty, nesting, more), tail);
      }
    }
  }

  lemma {:induction false} MemberSplits(key: string, v: Json, pretty: bool, nesting: nat, t: string, tail: string)
    ensures Quoted(key, Colon(pretty, Render(v, pretty, nesting, t + tail)))
      == Quoted(key, Colon(pretty, Render(v, pretty, nesting, t))) + tail
    decreases v, 1
  {
    hide Render, Quoted;
    RenderSplits(v, pretty, nesting, t, tail);
    QuotedSplits(key, Colon(pretty, Render(v, pretty, nesting, t)), tail);
    assert Colon(pretty, Render(v, pretty, nesting, t) + tail) == Colon(pretty, Render(v, pretty, nesting, t)) + tail;
  }

  /** `TextFormatter`: sends characters to the writer and counts them. */
  class TextFormatter {
    var written: string
    var length: nat

    ghost predicate Counted()
      reads this
    {
      length == |written|
    }

    constructor ()
      ensures Counted() && written == ""
    {
      written, length := "", 0;
    }

    method WriteRaw(s: string)
      requires Counted()
      modifies this
      ensures Counted() && written == old(written) + s
    {
      written, length := written + s, length + |s|;
    }

    method WriteChar(c: char)
      requires Counted()
      modifies this
      ensures Counted() && written == old(written) + Escaped([c], "")
    {
      assert [c][1..] == "" && Escaped("", "") == "";
      var special := EscapeChar(c);
      if special != NUL {
        WriteRaw(['\\']);
        WriteRaw([special]);
        assert ['\\'] + ([special] + "") == ['\\'] + [special];
      } else {
        WriteRaw([c]);
      }
    }

    method WriteString(s: string)
      requires Counted()
      modifies this
      ensures Counted() && written == old(written) + Quoted(s, "")
    {
      hide Escaped;
      WriteRaw(['"']);
      var i := 0;
      assert s[0..] == s && ['"'] + "" == ['"'];
      while i < |s|
        invariant i <= |s| && Counted()
        invariant written + Escaped(s[i..], ['"']) == old(written) + Quoted(s, "")
      {
        EscapedMore(s[i..], ['"']);
        assert s[i..][1..] == s[i + 1..] && s[i..][0] == s[i];
        WriteChar(s[i]);
        i := i + 1;
      }
      assert s[|s|..] == "";
      EscapedDone(['"']);
      WriteRaw(['"']);
    }

    /** Digits are filled in from the end of a buffer of 22 characters. */
    method WritePositiveInteger(value: nat)
      requires Counted() && value < Pow10(22)
      modifies this
      ensures Counted() && written == old(written) + Decimal(value, "")
    {
      hide Pow10;
      var buffer := new char[22];
      var begin: nat, rest: nat := 22, value;
      assert buffer[22..] == "";
      while true
        invariant 0 < begin <= 22 && rest < Pow10(begin)
        invariant Decimal(rest, buffer[begin..]) == Decimal(value, "")
        invariant Counted() && written == old(written)
        decreases begin
      {
        ghost var after := buffer[begin..];
        FewerDigits(rest, begin);
        begin := begin - 1;
        buffer[begin] := DigitChar(rest % 10);
        assert buffer[begin..] == [DigitChar(rest % 10)] + after;
        rest := rest / 10;
        if rest == 0 { break; }
      }
      WriteRaw(buffer[begin..]);
    }
  }

  lemma FewerDigits(n: nat, k: nat)
    requires k > 0 && n < Pow10(k)
    ensures n / 10 < Pow10(k - 1) && (k == 1 ==> n < 10)
  {
    assert Pow10(0) == 1;
  }

  lemma {:induction false} EscapedMore(s: string, tail: string)
    requires s != ""
    ensures Escaped(s, tail) == Escaped([s[0]], "") + Escaped(s[1..], tail)
  {
    assert [s[0]][1..] == "" && Escaped("", "") == "";
  }

  lemma EscapedDone(tail: string)
    ensures Escaped("", tail) == tail
  {
  }

  lemma ElementStep(es: Elements, pretty: bool, nesting: nat, close: string)
    requires es.Element?
    ensures RenderElements(es, pretty, nesting, close) ==
      Render(es.value, pretty, nesting, "") + AfterElement(es.next, pretty, nesting, close)
  {
    hide Render, Gap;
    var after := AfterElement(es.next, pretty, nesting, close);
    RenderSplits(es.value, pretty, nesting, "", after);
    assert "" + after == after;
  }

  lemma MemberStep(ms: Members, pretty: bool, nesting: nat, close: string)
    requires ms.Member?
    ensures RenderMembers(ms, pretty, nesting, close) == Quoted(ms.key, "") +
      (Colon(pretty, "") + (Render(ms.value, pretty, nesting, "") + AfterMember(ms.next, pretty, nesting, close)))
  {
    hide Render, Gap, Quoted;
    var after := AfterMember(ms.next, pretty, nesting, close);
    RenderSplits(ms.value, pretty, nesting, "", after);
    var value := Render(ms.value, pretty, nesting, "") + after;
    assert "" + after == after && Colon(pretty, value) == Colon(pretty, "") + value;
    QuotedSplits(ms.key, "", Colon(pretty, value));
    assert "" + Colon(pretty, value) == Colon(pretty, value);
  }

  /** Integers fit the widest unsigned type. */
  predicate Printable(v: Json) {
    Representable(v, 0xFFFF_FFFF_FFFF_FFFF)
  }

  lemma FitsBuffer(n: nat)
    requires n <= 0xFFFF_FFFF_FFFF_FFFF
    ensures n < Pow10(22)
  {
    assert Pow10(11) == 100000000000;
    assert Pow10(22) == 100000000000 * Pow10(11) by {
      assert Pow10(16) == 100000 * Pow10(11);
      assert Pow10(21) == 100000 * Pow10(16);
    }
  }

  lemma CompactArray(es: Elements, level: nat)
    ensures Render(Array(es), false, level, "") == ['['] + RenderElements(es, false, level + 1, [']'])
  {
    hide RenderElements;
    assert [']'] + "" == [']'];
    if es.NoElements? { NothingRendered(false, level + 1, [']']); }
  }

  lemma CompactObject(ms: Members, level: nat)
    ensures Render(Object(ms), false, level, "") == ['{'] + RenderMembers(ms, false, level + 1, ['}'])
  {
    hide RenderMembers;
    assert ['}'] + "" == ['}'];
    if ms.NoMembers? { NothingRendered(false, level + 1, ['}']); }
  }

  lemma CompactAfter(es: Elements, ms: Members, level: nat)
    ensures AfterElement(es, false, level, [']']) ==
      if es.NoElements? then [']'] else [','] + RenderElements(es, false, level, [']'])
    ensures AfterMember(ms, false, level, ['}']) ==
      if ms.NoMembers? then ['}'] else [','] + RenderMembers(ms, false, level, ['}'])
    ensures Colon(false, "") == [':']
  {
  }

  lemma NothingRendered(pretty: bool, level: nat, tail: string)
    ensures RenderElements(NoElements, pretty, level, tail) == tail
    ensures RenderMembers(NoMembers, pretty, level, tail) == tail
  {
  }

  /** Writing the head of what is left to write. */
  lemma Wrote(out: string, s: string, left: string, whole: string)
    requires out + (s + left) == whole
    ensures (out + s) + left == whole
  {
  }

  /** `JsonSerializer`: the compact form. The level is not kept at run time. */
  class JsonSerializer {
    const formatter: TextFormatter

    constructor (formatter: TextFormatter)
      ensures this.formatter == formatter
    {
      this.formatter := formatter;
    }

    method Visit(v: Json, ghost level: nat)
      requires formatter.Counted() && Printable(v)
      modifies formatter
      ensures formatter.Counted() && formatter.written == old(formatter.written) + Render(v, false, level, "")
      decreases v, 0
    {
      hide Quoted, Decimal, RenderElements, RenderMembers;
      match v
      case Null => formatter.WriteRaw(['n', 'u', 'l', 'l']);
      case Bool(flag) => formatter.WriteRaw(if flag then ['t', 'r', 'u', 'e'] else ['f', 'a', 'l', 's', 'e']);
      case Positive(n) =>
        FitsBuffer(n);
        formatter.WritePositiveInteger(n);
      case Negative(n) =>
        FitsBuffer(n);
        formatter.WriteRaw(['-']);
        formatter.WritePositiveInteger(n);
      case Text(chars) => formatter.WriteString(chars);
      case Array(elements) => VisitArray(elements, level);
      case Object(members) => VisitObject(members, level);
    }

    method VisitArray(head: Elements, ghost level: nat)
      requires formatter.Counted() && ElementsRepresentable(head, 0xFFFF_FFFF_FFFF_FFFF)
      modifies formatter
      ensures formatter.Counted()
      ensures formatter.written == old(formatter.written) + Render(Array(head), false, level, "")
      decreases head, 1
    {
      hide RenderElements, Render, AfterElement, AfterMember, Colon, Representable;
      CompactArray(head, level);
      formatter.WriteRaw(['[']);
      var slot := head;
      ghost var whole := old(formatter.written) + Render(Array(head), false, level, "");
      while slot.Element?
        invariant slot == head || slot < head
        invariant formatter.Counted() && ElementsRepresentable(slot, 0xFFFF_FFFF_FFFF_FFFF)
        invariant formatter.written + RenderElements(slot, false, level + 1, [']']) == whole
        decreases slot
      {
        ElementStep(slot, false, level + 1, [']']);
        CompactAfter(slot.next, NoMembers, level + 1);
        ghost var left := AfterElement(slot.next, false, level + 1, [']']);
        Wrote(formatter.written, Render(slot.value, false, level + 1, ""), left, whole);
        Visit(slot.value, level + 1);
        slot := slot.next;
        if slot.NoElements? { break; }
        Wrote(formatter.written, [','], RenderElements(slot, false, level + 1, [']']), whole);
        formatter.WriteRaw([',']);
      }
      NothingRendered(false, level + 1, [']']);
      formatter.WriteRaw([']']);
    }

    method VisitObject(head: Members, ghost level: nat)
      requires formatter.Counted() && MembersRepresentable(head, 0xFFFF_FFFF_FFFF_FFFF)
      modifies formatter
      ensures formatter.Counted()
      ensures formatter.written == old(formatter.written) + Render(Object(head), false, level, "")
      decreases head, 1
    {
      hide RenderMembers, Render, Quoted, AfterElement, AfterMember, Colon, Representable;
      CompactObject(head, level);
      formatter.WriteRaw(['{']);
      var slot := head;
      ghost var whole := old(formatter.written) + Render(Object(head), false, level, "");
      while slot.Member?
        invariant slot == head || slot < head
        invariant formatter.Counted() && MembersRepresentable(slot, 0xFFFF_FFFF_FFFF_FFFF)
        invariant formatter.written + RenderMembers(slot, false, level + 1, ['}']) == whole
        decreases slot
      {
        MemberStep(slot, false, level + 1, ['}']);
        CompactAfter(NoElements, slot.next, level + 1);
        ghost var left := AfterMember(slot.next, false, level + 1, ['}']);
        ghost var value := Render(slot.value, false, level + 1, "");
        Wrote(formatter.written, Quoted(slot.key, ""), [':'] + (value + left), whole);
        formatter.WriteString(slot.key);
        Wrote(formatter.written, [':'], value + left, whole);
        formatter.WriteRaw([':']);
        Wrote(formatter.written, value, left, whole);
        Visit(slot.value, level + 1);
        slot := slot.next;
        if slot.NoMembers? { break; }
        Wrote(formatter.written, [','], RenderMembers(slot, false, level + 1, ['}']), whole);
        formatter.WriteRaw([',']);
      }
      NothingRendered(false, level + 1, ['}']);
      formatter.WriteRaw(['}']);
    }
  }

  lemma {:induction false} TabsFirst(n: nat, tail: string)
    ensures Tabs(n, tail) == Tabs(n, "") + tail
  {
    TabsSplit(n, "", tail);
    assert "" + tail == tail;
  }

  lemma {:induction false} TabsGrow(n: nat)
    ensures Tabs(n + 1, "") == Tabs(n, "") + [' ', ' ']
  {
    if n > 0 { TabsGrow(n - 1); }
  }

  /** What is left to write at the head of the pretty loop: at each element its indent first. */
  function LeftElements(slot: Elements, level: nat): string {
    if slot.Element? then Tabs(U8(level + 1), RenderElements(slot, true, level + 1, Gap(true, level, [']'])))
    else Tabs(U8(level), [']'])
  }

  lemma LeftElementsStep(slot: Elements, level: nat)
    requires slot.Element?
    ensures LeftElements(slot, level) == Tabs(U8(level + 1), "") + (Render(slot.value, true, level + 1, "") +
      (LineBreak(slot.next.Element?) + LeftElements(slot.next, level)))
  {
    hide Tabs, RenderElements, Render;
    ElementStep(slot, true, level + 1, Gap(true, level, [']']));
    TabsFirst(U8(level + 1), RenderElements(slot, true, level + 1, Gap(true, level, [']'])));
  }

  function LeftMembers(slot: Members, level: nat): string {
    if slot.Member? then Tabs(U8(level + 1), RenderMembers(slot, true, level + 1, Gap(true, level, ['}'])))
    else Tabs(U8(level), ['}'])
  }

  lemma LeftMembersStep(slot: Members, level: nat)
    requires slot.Member?
    ensures LeftMembers(slot, level) == Tabs(U8(level + 1), "") + (Quoted(slot.key, "") +
      ([':', ' '] + (Render(slot.value, true, level + 1, "") +
      (LineBreak(slot.next.Member?) + LeftMembers(slot.next, level)))))
  {
    hide Tabs, RenderMembers, Render, Quoted;
    MemberStep(slot, true, level + 1, Gap(true, level, ['}']));
    TabsFirst(U8(level + 1), RenderMembers(slot, true, level + 1, Gap(true, level, ['}'])));
  }

  /** What ends a line: a comma first if there is more. */
  function LineBreak(more: bool): string {
    if more then [',', '\r', '\n'] else ['\r', '\n']
  }

  lemma GapBreaks(bracket: char, nesting: nat, t: string)
    ensures [bracket] + Gap(true, nesting, t) == [bracket, '\r', '\n'] + Tabs(U8(nesting), t)
  {
    hide Tabs;
  }

  lemma PrettyArray(es: Elements, level: nat)
    requires es.Element?
    ensures Render(Array(es), true, level, "") == ['[', '\r', '\n'] + LeftElements(es, level)
  {
    hide RenderElements, Gap, Tabs;
    assert [']'] + "" == [']'];
    GapBreaks('[', level + 1, RenderElements(es, true, level + 1, Gap(true, level, [']'])));
  }

  lemma PrettyObject(ms: Members, level: nat)
    requires ms.Member?
    ensures Render(Object(ms), true, level, "") == ['{', '\r', '\n'] + LeftMembers(ms, level)
  {
    hide RenderMembers, Gap, Tabs;
    assert ['}'] + "" == ['}'];
    GapBreaks('{', level + 1, RenderMembers(ms, true, level + 1, Gap(true, level, ['}'])));
  }

  lemma LeftEnds(level: nat)
    ensures LeftElements(NoElements, level) == Tabs(U8(level), "") + [']']
    ensures LeftMembers(NoMembers, level) == Tabs(U8(level), "") + ['}']
  {
    hide Tabs, Gap;
    TabsFirst(U8(level), [']']);
    TabsFirst(U8(level), ['}']);
  }

  /** `PrettyJsonSerializer`: the indented form, with its 8-bit count of the nesting. */
  class PrettyJsonSerializer {
    const formatter: TextFormatter
    var nesting: nat

    constructor (formatter: TextFormatter)
      ensures this.formatter == formatter && nesting == 0
    {
      this.formatter, nesting := formatter, 0;
    }

    method Indent()
      requires formatter.Counted()
      modifies formatter
      ensures formatter.Counted() && formatter.written == old(formatter.written) + Tabs(nesting, "")
    {
      var i := 0;
      while i < nesting
        invariant i <= nesting
        invariant formatter.Counted() && formatter.written == old(formatter.written) + Tabs(i, "")
      {
        TabsGrow(i);
        formatter.WriteRaw([' ', ' ']);
        i := i + 1;
      }
    }

    method Visit(v: Json, ghost level: nat)
      requires formatter.Counted() && Printable(v) && nesting == U8(level)
      modifies this, formatter
      ensures formatter.Counted() && formatter.written == old(formatter.written) + Render(v, true, level, "")
      ensures nesting == old(nesting)
      decreases v, 0
    {
      hide Quoted, Decimal, RenderElements, RenderMembers;
      match v
      case Null => formatter.WriteRaw(['n', 'u', 'l', 'l']);
      case Bool(flag) => formatter.WriteRaw(if flag then ['t', 'r', 'u', 'e'] else ['f', 'a', 'l', 's', 'e']);
      case Positive(n) =>
        FitsBuffer(n);
        formatter.WritePositiveInteger(n);
      case Negative(n) =>
        FitsBuffer(n);
        formatter.WriteRaw(['-']);
        formatter.WritePositiveInteger(n);
      case Text(chars) => formatter.WriteString(chars);
      case Array(elements) => VisitArray(elements, level);
      case Object(members) => VisitObject(members, level);
    }

    method VisitArray(head: Elements, ghost level: nat)
      requires formatter.Counted() && ElementsRepresentable(head, 0xFFFF_FFFF_FFFF_FFFF) && nesting == U8(level)
      modifies this, formatter
      ensures formatter.Counted() && nesting == old(nesting)
      ensures formatter.written == old(formatter.written) + Render(Array(head), true, level, "")
      decreases head, 1
    {
      hide RenderElements, Render, Tabs, LeftElements, Representable, U8, LineBreak;
      if head.NoElements? {
        formatter.WriteRaw(['[', ']']);
        EmptyPretty(level);
        return;
      }
      PrettyArray(head, level);
      NestingCounts(level);
      formatter.WriteRaw(['[', '\r', '\n']);
      nesting := U8(nesting + 1);
      var slot := head;
      ghost var whole := old(formatter.written) + Render(Array(head), true, level, "");
      while slot.Element?
        invariant slot == head || slot < head
        invariant formatter.Counted() && nesting == U8(level + 1)
        invariant ElementsRepresentable(slot, 0xFFFF_FFFF_FFFF_FFFF)
        invariant formatter.written + LeftElements(slot, level) == whole
        decreases slot
      {
        LeftElementsStep(slot, level);
        ghost var value := Render(slot.value, true, level + 1, "");
        ghost var comma := LineBreak(slot.next.Element?);
        ghost var left := comma + LeftElements(slot.next, level);
        Wrote(formatter.written, Tabs(U8(level + 1), ""), value + left, whole);
        Indent();
        Wrote(formatter.written, value, left, whole);
        Visit(slot.value, level + 1);
        slot := slot.next;
        Wrote(formatter.written, comma, LeftElements(slot, level), whole);
        formatter.WriteRaw(LineBreak(slot.Element?));
      }
      nesting := U8(nesting - 1);
      LeftEnds(level);
      Indent();
      formatter.WriteRaw([']']);
    }

    method VisitObject(head: Members, ghost level: nat)
      requires formatter.Counted() && MembersRepresentable(head, 0xFFFF_FFFF_FFFF_FFFF) && nesting == U8(level)
      modifies this, formatter
      ensures formatter.Counted() && nesting == old(nesting)
      ensures formatter.written == old(formatter.written) + Render(Object(head), true, level, "")
      decreases head, 1
    {
      hide RenderMembers, Render, Tabs, LeftMembers, Quoted, Representable, U8, LineBreak;
      if head.NoMembers? {
        formatter.WriteRaw(['{', '}']);
        EmptyPretty(level);
        return;
      }
      PrettyObject(head, level);
      NestingCounts(level);
      formatter.WriteRaw(['{', '\r', '\n']);
      nesting := U8(nesting + 1);
      var slot := head;
      ghost var whole := old(formatter.written) + Render(Object(head), true, level, "");
      while slot.Member?
        invariant slot == head || slot < head
        invariant formatter.Counted() && nesting == U8(level + 1)
        invariant MembersRepresentable(slot, 0xFFFF_FFFF_FFFF_FFFF)
        invariant formatter.written + LeftMembers(slot, level) == whole
        decreases slot
      {
        LeftMembersStep(slot, level);
        ghost var value := Render(slot.value, true, level + 1, "");
        ghost var comma := LineBreak(slot.next.Member?);
        ghost var left := comma + LeftMembers(slot.next, level);
        Wrote(formatter.written, Tabs(U8(level + 1), ""), Quoted(slot.key, "") + ([':', ' '] + (value + left)), whole);
        Indent();
        Wrote(formatter.written, Quoted(slot.key, ""), [':', ' '] + (value + left), whole);
        formatter.WriteString(slot.key);
        Wrote(formatter.written, [':', ' '], value + left, whole);
        formatter.WriteRaw([':', ' ']);
        Wrote(formatter.written, value, left, whole);
        Visit(slot.value, level + 1);
        slot := slot.next;
        Wrote(formatter.written, comma, LeftMembers(slot, level), whole);
        formatter.WriteRaw(LineBreak(slot.Member?));
      }
      nesting := U8(nesting - 1);
      LeftEnds(level);
      Indent();
      formatter.WriteRaw(['}']);
    }
  }

  lemma EmptyPretty(level: nat)
    ensures Render(Array(NoElements), true, level, "") == ['[', ']']
    ensures Render(Object(NoMembers), true, level, "") == ['{', '}']
  {
  }

  /** The 8-bit count goes up and down with the level. */
  lemma NestingCounts(level: nat)
    ensures U8(U8(level) + 1) == U8(level + 1) && U8(U8(level + 1) - 1) == U8(level)
  {
  }
}
