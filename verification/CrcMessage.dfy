/**
 Taking a line apart in place: separators are overwritten with zeros, so that the command and every argument
 become C strings within the message, and the CRC is compared when its bar is met.
 */
module CrcMessage {
  import opened Crc16
  import opened CrcLine

  datatype Parse = Parsed(text: seq<bv8>, args: seq<nat>, count: nat) | Rejected

  /** `parseMessage` from a position: the message as received, the CRC of what is before, the message as
      overwritten so far, where the arguments begin, and their number. */
  function ParseFrom(
      m: seq<bv8>, pos: nat, crc: bv16, text: seq<bv8>, args: seq<nat>, count: nat, separator: bv8): Parse
    requires pos <= |m| == |text|
    decreases |m| - pos
  {
    if pos == |m| then Parsed(text, args, count)
    else
      var c := m[pos];
      var crc' := Update(crc, Extended(c));
      if c == COLON then
        ParseFrom(m, pos + 1, crc', text[pos := 0], if |args| > 0 then args[0 := pos + 1] else args, count + 1, separator)
      else if c == separator then
        ParseFrom(m, pos + 1, crc', text[pos := 0], if count < |args| then args[count := pos + 1] else args, count + 1, separator)
      else if c == BAR then
        if Given(m[pos + 1..]) != crc then Rejected
        else ParseFrom(m, pos + 1, crc', text[pos := 0], args, count, separator)
      else ParseFrom(m, pos + 1, crc', text, args, count, separator)
  }

  lemma {:induction false} StringEnds(s: seq<bv8>, from: nat)
    requires from <= |s| && 0 in s[from..]
    ensures var m := CString(s, from);
      from + |m| < |s| && s[from..from + |m|] == m && s[from + |m|] == 0 && forall c <- m :: c != 0
    decreases |s| - from
  {
    if s[from] != 0 {
      assert s[from..] == [s[from]] + s[from + 1..];
      StringEnds(s, from + 1);
    }
  }

  lemma {:induction false} StringTail(s: seq<bv8>, k: nat)
    requires k <= |CString(s, 0)| && k <= |s|
    ensures CString(s, k) == CString(s, 0)[k..]
    decreases k
  {
    if k > 0 {
      StringTail(s, k - 1);
      var m := CString(s, 0);
      assert CString(s, k - 1) == m[k - 1..] && m[k - 1..] != [];
      assert CString(s, k - 1)[1..] == CString(s, k);
    }
  }

  lemma {:induction false} SameRest(s: seq<bv8>, t: seq<bv8>, k: nat)
    requires |s| == |t| && k <= |s| && s[k..] == t[k..]
    ensures CString(s, k) == CString(t, k)
    decreases |s| - k
  {
    if k < |s| {
      assert s[k] == s[k..][0] && t[k] == t[k..][0];
      assert s[k + 1..] == s[k..][1..] && t[k + 1..] == t[k..][1..];
      SameRest(s, t, k + 1);
    }
  }

  lemma ParseStep(
      m: seq<bv8>, pos: nat, crc: bv16, text: seq<bv8>, args: seq<nat>, count: nat, separator: bv8)
    requires pos < |m| == |text|
    ensures var c := m[pos]; var crc' := Update(crc, Extended(c));
      ParseFrom(m, pos, crc, text, args, count, separator) ==
      if c == COLON then
        ParseFrom(m, pos + 1, crc', text[pos := 0], if |args| > 0 then args[0 := pos + 1] else args, count + 1, separator)
      else if c == separator then
        ParseFrom(m, pos + 1, crc', text[pos := 0], if count < |args| then args[count := pos + 1] else args, count + 1, separator)
      else if c == BAR then
        if Given(m[pos + 1..]) != crc then Rejected
        else ParseFrom(m, pos + 1, crc', text[pos := 0], args, count, separator)
      else ParseFrom(m, pos + 1, crc', text, args, count, separator)
  {
    hide Update, Given, Extended;
  }

  lemma ParseEnds(m: seq<bv8>, crc: bv16, text: seq<bv8>, args: seq<nat>, count: nat, separator: bv8)
    requires |m| == |text|
    ensures ParseFrom(m, |m|, crc, text, args, count, separator) == Parsed(text, args, count)
  {
  }

  /** The message holds `m` from `pos` on, ended by a zero; before that it may have been overwritten. */
  ghost predicate Holds(message: array<bv8>, m: seq<bv8>, pos: nat)
    reads message
  {
    pos <= |m| < message.Length && message[|m|] == 0 && message[pos..|m|] == m[pos..] && forall c <- m :: c != 0
  }

  lemma {:induction false} HeldString(s: seq<bv8>, from: nat, m: seq<bv8>)
    requires from <= |m| < |s| && s[|m|] == 0 && s[from..|m|] == m[from..] && forall c <- m :: c != 0
    ensures CString(s, from) == m[from..]
  {
    forall i | from <= i < |m| ensures s[i] != 0 {
      assert s[i] == s[from..|m|][i - from] == m[from..][i - from] && m[i] in m;
    }
    StringUpTo(s, from, |m|);
  }

  lemma HeldNonzero(message: array<bv8>, m: seq<bv8>, pos: nat)
    requires Holds(message, m, pos)
    ensures pos < |m| <==> message[pos] != 0
  {
    if pos < |m| { assert message[pos] == message[pos..|m|][0] == m[pos] && m[pos] in m; }
  }

  /** One character of the loop. */
  method TakeChar(
      message: array<bv8>, args: array<nat>, pos: nat, argCount: nat, crc: bv16, separator: bv8, ghost m: seq<bv8>)
    returns (ok: bool, count: nat)
    requires pos < |m| && Holds(message, m, pos) && message as object != args
    modifies message, args
    ensures Holds(message, m, pos + 1)
    ensures var before := ParseFrom(m, pos, crc, old(message[..|m|]), old(args[..]), argCount, separator);
      if ok then
        before == ParseFrom(m, pos + 1, Update(crc, Extended(m[pos])), message[..|m|], args[..], count, separator)
      else before == Rejected
  {
    hide ParseFrom, Update, Given, Extended;
    ghost var text := message[..|m|];
    ParseStep(m, pos, crc, text, args[..], argCount, separator);
    assert message[pos] == message[pos..|m|][0] == m[pos];
    var c := message[pos];
    ok, count := true, argCount;
    if c == COLON || c == separator || c == BAR {
      message[pos] := 0;
      assert message[..|m|] == text[pos := 0];
    }
    assert message[pos + 1..|m|] == text[pos + 1..] == m[pos + 1..];
    if c == COLON {
      if args.Length > 0 { args[0] := pos + 1; }
      count := argCount + 1;
    } else if c == separator {
      if argCount < args.Length { args[argCount] := pos + 1; }
      count := argCount + 1;
    } else if c == BAR {
      HeldString(message[..], pos + 1, m);
      var crcGiven := Given(CString(message[..], pos + 1));
      if crcGiven != crc { ok := false; }
    }
  }

  /** What `parseMessage` returns: the number of arguments as a byte, or 255 for -1. */
  function Returned(p: Parse): nat {
    match p
    case Parsed(_, _, count) => count % 256
    case Rejected => 255
  }

  /** `parseMessage`. */
  method ParseMessage(message: array<bv8>, args: array<nat>, separator: bv8) returns (r: nat)
    requires 0 in message[..] && message as object != args
    modifies message, args
    ensures var m := old(CString(message[..], 0));
      var p := ParseFrom(m, 0, START, m, old(args[..]), 0, separator);
      r == Returned(p) && (p.Parsed? ==> p.text <= message[..] && args[..] == p.args)
  {
    hide ParseFrom, Update, Extended;
    ghost var m, given := CString(message[..], 0), args[..];
    assert message[..][0..] == message[..];
    StringEnds(message[..], 0);
    assert message[..|m|] == m && m[0..] == m;
    var pos: nat, argCount: nat, crc := 0, 0, START;
    while message[pos] != 0
      invariant Holds(message, m, pos)
      invariant ParseFrom(m, pos, crc, message[..|m|], args[..], argCount, separator) ==
        ParseFrom(m, 0, START, m, given, 0, separator)
      decreases |m| - pos
    {
      HeldNonzero(message, m, pos);
      assert message[pos] == message[pos..|m|][0] == m[pos];
      var c, ok := message[pos], true;
      ok, argCount := TakeChar(message, args, pos, argCount, crc, separator, m);
      if !ok { return 255; }
      crc := Update(crc, Extended(c));
      pos := pos + 1;
    }
    HeldNonzero(message, m, pos);
    ParseEnds(m, crc, message[..|m|], args[..], argCount, separator);
    r := argCount % 256;
  }

  // ---- A framed line comes apart into what was put in

  /** The arguments, each behind its separator; the first behind a colon. */
  function Tail(args: seq<seq<bv8>>, lead: bv8, separator: bv8): seq<bv8> {
    if args == [] then [] else [lead] + (args[0] + Tail(args[1..], separator, separator))
  }

  function Body(command: seq<bv8>, args: seq<seq<bv8>>, separator: bv8): seq<bv8> {
    command + Tail(args, COLON, separator)
  }

  /** Seven bits, and none of the characters that divide a line. */
  predicate Word(w: seq<bv8>, separator: bv8) {
    forall c <- w :: c < 0x80 && c != 0 && c != BAR && c != COLON && c != separator
  }

  predicate Divides(separator: bv8) {
    separator < 0x80 && separator != 0 && separator != BAR && separator != COLON && !IsHex(separator)
  }

  lemma {:induction false} ScanWord(
      m: seq<bv8>, pos: nat, w: seq<bv8>, crc: bv16, text: seq<bv8>, slots: seq<nat>, count: nat, separator: bv8)
    requires |m| == |text| && pos + |w| <= |m| && m[pos..pos + |w|] == w && Word(w, separator)
    ensures ParseFrom(m, pos, crc, text, slots, count, separator)
      == ParseFrom(m, pos + |w|, ReceivedCrc(w, crc), text, slots, count, separator)
    decreases |w|
  {
    hide ParseFrom, Update, Extended;
    if w != [] {
      assert m[pos] == w[0] && w[0] in w;
      assert m[pos + 1..pos + 1 + |w[1..]|] == w[1..] && forall c <- w[1..] :: c in w;
      ParseStep(m, pos, crc, text, slots, count, separator);
      ScanWord(m, pos + 1, w[1..], Update(crc, Extended(w[0])), text, slots, count, separator);
      ReceivedStep(w, crc);
    } else {
      ReceivedNothing(crc);
    }
  }

  lemma ReceivedStep(w: seq<bv8>, crc: bv16)
    requires w != []
    ensures ReceivedCrc(w, crc) == ReceivedCrc(w[1..], Update(crc, Extended(w[0])))
  {
    hide Update, Extended;
  }

  lemma ReceivedNothing(crc: bv16)
    ensures ReceivedCrc([], crc) == crc
  {
  }

  /** What the parser makes of the arguments still to come: how many, where each begins, and that what was
      overwritten before stays. */
  predicate Apart(
      p: Parse, args: seq<seq<bv8>>, pos: nat, text: seq<bv8>, slots: seq<nat>, count: nat)
    requires pos < |text|
  {
    match p
    case Rejected => false
    case Parsed(t, found, n) =>
      && n == count + |args| && |t| == |text| && |found| == |slots|
      && t[..pos] == text[..pos] && t[pos] == 0
      && (forall j :: 0 <= j < |slots| && (j < count || count + |args| <= j) ==> found[j] == slots[j])
      && (forall j :: count <= j < count + |args| && j < |slots| ==>
            found[j] <= |t| && CString(t, found[j]) == args[j - count])
  }

  lemma ScanFrame(
      m: seq<bv8>, pos: nat, crc: bv16, text: seq<bv8>, slots: seq<nat>, count: nat, separator: bv8)
    requires |m| == |text| && pos < |m| && m[pos..] == [BAR] + Hex(crc) && Divides(separator)
    ensures Apart(ParseFrom(m, pos, crc, text, slots, count, separator), [], pos, text, slots, count)
  {
    hide ParseFrom, Update, Extended, Given, Hex, IsHex;
    HexReadsBack(crc);
    HexStarts(crc);
    assert m[pos] == m[pos..][0] && m[pos + 1..] == m[pos..][1..] == Hex(crc);
    ParseStep(m, pos, crc, text, slots, count, separator);
    var crc', text' := Update(crc, Extended(BAR)), text[pos := 0];
    assert m[pos + 1..pos + 1 + |Hex(crc)|] == Hex(crc);
    ScanWord(m, pos + 1, Hex(crc), crc', text', slots, count, separator);
    ParseEnds(m, ReceivedCrc(Hex(crc), crc'), text', slots, count, separator);
  }

  /** From `pos` the message is the arguments, the first behind `lead`, and the bar and CRC of all. */
  predicate Ahead(m: seq<bv8>, pos: nat, crc: bv16, args: seq<seq<bv8>>, lead: bv8, separator: bv8) {
    pos < |m| &&
    m[pos..] == Tail(args, lead, separator) + ([BAR] + Hex(ReceivedCrc(Tail(args, lead, separator), crc)))
  }

  lemma AheadMore(m: seq<bv8>, pos: nat, crc: bv16, args: seq<seq<bv8>>, lead: bv8, separator: bv8)
    requires args != [] && Ahead(m, pos, crc, args, lead, separator)
    ensures var w, next := args[0], pos + 1 + |args[0]|;
      && m[pos] == lead && next < |m| && m[pos + 1..next] == w
      && Ahead(m, next, ReceivedCrc(w, Update(crc, Extended(lead))), args[1..], separator, separator)
  {
    hide Update, Extended, Hex, ReceivedCrc, Tail;
    var w, more := args[0], Tail(args[1..], separator, separator);
    TailIs(args, lead, separator);
    TailCrc(lead, w, more, crc);
    TakesApart(m, pos, lead, w, more, [BAR] + Hex(ReceivedCrc(Tail(args, lead, separator), crc)));
  }

  lemma AheadNone(m: seq<bv8>, pos: nat, crc: bv16, lead: bv8, separator: bv8)
    requires Ahead(m, pos, crc, [], lead, separator)
    ensures pos < |m| && m[pos..] == [BAR] + Hex(crc)
  {
    hide Hex;
  }

  lemma {:induction false} ScanArgs(
      m: seq<bv8>, pos: nat, crc: bv16, text: seq<bv8>, slots: seq<nat>, args: seq<seq<bv8>>, count: nat, separator: bv8)
    requires |m| == |text| && pos < |m| && text[pos..] == m[pos..] && Divides(separator)
    requires forall a <- args :: Word(a, separator)
    requires Ahead(m, pos, crc, args, if count == 0 then COLON else separator, separator)
    ensures Apart(ParseFrom(m, pos, crc, text, slots, count, separator), args, pos, text, slots, count)
    decreases |args|
  {
    hide ParseFrom, Update, Extended, Given, Hex, ReceivedCrc, Word, Divides, Apart, Tail, Ahead;
    var lead := if count == 0 then COLON else separator;
    if args == [] {
      AheadNone(m, pos, crc, lead, separator);
      ScanFrame(m, pos, crc, text, slots, count, separator);
    } else {
      var w, crc1 := args[0], Update(crc, Extended(lead));
      var next := pos + 1 + |w|;
      assert w in args && forall a <- args[1..] :: a in args;
      AheadMore(m, pos, crc, args, lead, separator);
      ScanLead(m, pos, crc, text, slots, count, separator);
      var text' := text[pos := 0];
      var slots' := if count < |slots| then slots[count := pos + 1] else slots;
      ScanWord(m, pos + 1, w, crc1, text', slots', count + 1, separator);
      SameBehind(text, m, pos, next);
      ScanArgs(m, next, ReceivedCrc(w, crc1), text', slots', args[1..], count + 1, separator);
      var p := ParseFrom(m, next, ReceivedCrc(w, crc1), text', slots', count + 1, separator);
      WordNoZero(w, separator);
      ApartMore(p, args, pos, next, text, text', slots, slots', count, m);
    }
  }

  lemma TailIs(args: seq<seq<bv8>>, lead: bv8, separator: bv8)
    ensures Tail(args, lead, separator) ==
      if args == [] then [] else [lead] + (args[0] + Tail(args[1..], separator, separator))
  {
  }

  lemma ScanLead(
      m: seq<bv8>, pos: nat, crc: bv16, text: seq<bv8>, slots: seq<nat>, count: nat, separator: bv8)
    requires pos < |m| == |text| && m[pos] == (if count == 0 then COLON else separator) && Divides(separator)
    ensures ParseFrom(m, pos, crc, text, slots, count, separator) ==
      ParseFrom(m, pos + 1, Update(crc, Extended(m[pos])), text[pos := 0],
                if count < |slots| then slots[count := pos + 1] else slots, count + 1, separator)
  {
    hide ParseFrom, Update, Extended, Given, IsHex;
    ParseStep(m, pos, crc, text, slots, count, separator);
  }

  lemma WordNoZero(w: seq<bv8>, separator: bv8)
    requires Word(w, separator)
    ensures forall c <- w :: c != 0
  {
  }

  lemma TakesApart(m: seq<bv8>, pos: nat, lead: bv8, w: seq<bv8>, more: seq<bv8>, end: seq<bv8>)
    requires pos < |m| && m[pos..] == [lead] + (w + more) + end && |end| > 0
    ensures var next := pos + 1 + |w|;
      m[pos] == lead && next < |m| && m[pos + 1..next] == w && m[next..] == more + end
  {
    var next := pos + 1 + |w|;
    assert m[pos] == m[pos..][0];
    assert m[pos + 1..next] == m[pos..][1..1 + |w|] == w;
    assert m[next..] == m[pos..][1 + |w|..] == more + end;
  }

  lemma SameBehind(text: seq<bv8>, m: seq<bv8>, pos: nat, next: nat)
    requires pos < next <= |m| == |text| && text[pos..] == m[pos..]
    ensures text[pos := 0][next..] == m[next..]
  {
    assert text[pos := 0][next..] == text[pos..][next - pos..] == m[pos..][next - pos..] == m[next..];
  }

  lemma TailCrc(lead: bv8, w: seq<bv8>, more: seq<bv8>, crc: bv16)
    ensures ReceivedCrc([lead] + (w + more), crc) ==
      ReceivedCrc(more, ReceivedCrc(w, Update(crc, Extended(lead))))
  {
    hide Update, Extended, ReceivedCrc;
    var all := [lead] + (w + more);
    assert all[1..] == w + more;
    ReceivedStep(all, crc);
    ReceivedSplits(w, more, Update(crc, Extended(lead)));
  }

  lemma ApartMore(
      p: Parse, args: seq<seq<bv8>>, pos: nat, next: nat, text: seq<bv8>, text': seq<bv8>,
      slots: seq<nat>, slots': seq<nat>, count: nat, m: seq<bv8>)
    requires args != [] && pos + 1 + |args[0]| == next < |text| == |m| && text' == text[pos := 0]
    requires slots' == if count < |slots| then slots[count := pos + 1] else slots
    requires text[pos..] == m[pos..] && m[pos + 1..next] == args[0] && forall c <- args[0] :: c != 0
    requires Apart(p, args[1..], next, text', slots', count + 1)
    ensures Apart(p, args, pos, text, slots, count)
  {
    hide CString;
    var t, found := p.text, p.args;
    assert t[..pos] == t[..next][..pos] == text'[..next][..pos] == text[..pos];
    assert t[pos] == t[..next][pos] == text'[..next][pos] == 0;
    assert t[pos + 1..next] == t[..next][pos + 1..] == text'[..next][pos + 1..] == text[pos + 1..next];
    assert text[pos + 1..next] == text[pos..][1..next - pos] == m[pos..][1..next - pos] == args[0];
    forall i | pos + 1 <= i < next ensures t[i] != 0 {
      assert t[i] == t[pos + 1..next][i - pos - 1] && args[0][i - pos - 1] in args[0];
    }
    StringUpTo(t, pos + 1, next);
    forall j | count <= j < count + |args| && j < |slots|
      ensures found[j] <= |t| && CString(t, found[j]) == args[j - count]
    {
      if j == count { assert found[j] == slots'[j] == pos + 1; }
    }
  }

  /** MAIN (line): the frame of a command and its arguments is accepted and comes apart in place into that
      command and those arguments, as many as there are slots for, and the rest counted. */
  lemma {:induction false} FrameParses(command: seq<bv8>, args: seq<seq<bv8>>, slots: seq<nat>, separator: bv8)
    requires Divides(separator) && Word(command, separator) && forall a <- args :: Word(a, separator)
    ensures var m := Framed(Body(command, args, separator));
      match ParseFrom(m, 0, START, m, slots, 0, separator)
      case Rejected => false
      case Parsed(text, found, count) =>
        && count == |args| && |found| == |slots|
        && CString(text, 0) == command
        && (forall j :: 0 <= j < |args| && j < |slots| ==> found[j] <= |text| && CString(text, found[j]) == args[j])
        && (forall j :: |args| <= j < |slots| ==> found[j] == slots[j])
  {
    hide ParseFrom, Hex, Crc, ReceivedCrc, Divides, CString, Tail, Word, Ahead;
    var m, n := Framed(Body(command, args, separator)), |command|;
    FrameStarts(command, args, slots, separator);
    ScanArgs(m, n, ReceivedCrc(command, START), m, slots, args, 0, separator);
    WordNoZero(command, separator);
    CommandReads(ParseFrom(m, 0, START, m, slots, 0, separator).text, m, command);
  }

  lemma FrameStarts(command: seq<bv8>, args: seq<seq<bv8>>, slots: seq<nat>, separator: bv8)
    requires Divides(separator) && Word(command, separator) && forall a <- args :: Word(a, separator)
    ensures var m, n := Framed(Body(command, args, separator)), |command|;
      var crc := ReceivedCrc(command, START);
      && n < |m| && m[..n] == command
      && Ahead(m, n, crc, args, COLON, separator)
      && ParseFrom(m, 0, START, m, slots, 0, separator) == ParseFrom(m, n, crc, m, slots, 0, separator)
  {
    hide ParseFrom, Hex, Crc, ReceivedCrc, Divides, Tail, Word;
    var tail, body := Tail(args, COLON, separator), Body(command, args, separator);
    var m, n := Framed(body), |command|;
    BodyIsPlain(command, args, separator);
    ReceivedIsSent(body, START);
    ReceivedSplits(command, tail, START);
    assert m[..n] == command && m[0..0 + n] == command;
    assert m[n..] == tail + ([BAR] + Hex(Crc(body, START)));
    ScanWord(m, 0, command, START, m, slots, 0, separator);
  }

  lemma CommandReads(text: seq<bv8>, m: seq<bv8>, command: seq<bv8>)
    requires |command| < |text| == |m| && text[..|command|] == m[..|command|] == command && text[|command|] == 0
    requires forall c <- command :: c != 0
    ensures CString(text, 0) == command
  {
    hide CString;
    var n := |command|;
    forall i | 0 <= i < n ensures text[i] != 0 {
      assert text[i] == text[..n][i] && command[i] in command;
    }
    StringUpTo(text, 0, n);
    assert text[0..n] == command;
  }

  lemma BodyIsPlain(command: seq<bv8>, args: seq<seq<bv8>>, separator: bv8)
    requires Divides(separator) && Word(command, separator) && forall a <- args :: Word(a, separator)
    ensures Plain(Body(command, args, separator))
  {
    TailIsPlain(args, COLON, separator);
  }

  lemma {:induction false} TailIsPlain(args: seq<seq<bv8>>, lead: bv8, separator: bv8)
    requires Divides(separator) && (lead == COLON || lead == separator) && forall a <- args :: Word(a, separator)
    ensures Plain(Tail(args, lead, separator))
    decreases |args|
  {
    if args != [] {
      assert args[0] in args && forall a <- args[1..] :: a in args;
      TailIsPlain(args[1..], separator, separator);
    }
  }

  /** A frame is taken for a rejected one exactly when it has 255 arguments, or 256 more, and so on. */
  lemma FullFrameLooksRejected(command: seq<bv8>, args: seq<seq<bv8>>, slots: seq<nat>, separator: bv8)
    requires Divides(separator) && Word(command, separator) && forall a <- args :: Word(a, separator)
    ensures var m := Framed(Body(command, args, separator));
      Returned(ParseFrom(m, 0, START, m, slots, 0, separator)) == 255 <==> |args| % 256 == 255
  {
    hide ParseFrom, Framed, Body;
    FrameParses(command, args, slots, separator);
  }

  // ---- What the two receivers accept

  /** Every bar is followed by the CRC of what is before it. */
  predicate BarsMatch(m: seq<bv8>, crc: bv16)
    decreases |m|
  {
    m != [] ==> (m[0] == BAR ==> Given(m[1..]) == crc) && BarsMatch(m[1..], Update(crc, Extended(m[0])))
  }

  /** MAIN (line): the parser accepts a message exactly when every bar in it is followed by the right CRC, so
      also when there is none. */
  lemma {:induction false} ParseAccepts(
      m: seq<bv8>, pos: nat, crc: bv16, text: seq<bv8>, slots: seq<nat>, count: nat, separator: bv8)
    requires pos <= |m| == |text| && separator != BAR
    ensures ParseFrom(m, pos, crc, text, slots, count, separator).Parsed? <==> BarsMatch(m[pos..], crc)
    ensures !BarsMatch(m[pos..], crc) ==> Returned(ParseFrom(m, pos, crc, text, slots, count, separator)) == 255
    decreases |m| - pos
  {
    hide ParseFrom, Update, Extended, Given;
    if pos == |m| {
      ParseEnds(m, crc, text, slots, count, separator);
    } else {
      var c := m[pos];
      ParseStep(m, pos, crc, text, slots, count, separator);
      assert m[pos..][0] == c && m[pos..][1..] == m[pos + 1..];
      var crc' := Update(crc, Extended(c));
      var text' := if c == COLON || c == separator || c == BAR then text[pos := 0] else text;
      var slots' := if c == COLON then (if |slots| > 0 then slots[0 := pos + 1] else slots)
        else if c == separator && count < |slots| then slots[count := pos + 1] else slots;
      ParseAccepts(m, pos + 1, crc', text', slots', if c == COLON || c == separator then count + 1 else count, separator);
    }
  }

  /** The two receivers differ on a message without a bar: the check fails it and the parser takes it. */
  lemma {:induction false} NoBar(m: seq<bv8>, crc: bv16)
    requires BAR !in m
    ensures BarsMatch(m, crc) && !ChecksumOk(m, crc)
    decreases |m|
  {
    hide Update, Extended, Given;
    if m != [] {
      assert m[0] in m;
      NoBar(m[1..], Update(crc, Extended(m[0])));
    }
  }
}
