/**
 JSON texts as RFC 8259 defines them, by a reader of its own: of its numbers the integers, of its escapes those of
 one letter. Relaxed, it also takes comments, single quotes and keys without quotes. What the printers write is
 held against it.
 */
module JsonGrammar {
  import opened CInt
  import opened JsonText
  import opened Wrappers

  /** What a text begins with, and the text behind it. */
  datatype Reading<T> = Reads(value: T, rest: string) | NotJson

  /** Section 2 of RFC 8259: insignificant white space. */
  predicate IsBlank(c: char) {
    c == ' ' || c == '\t' || c == '\n' || c == '\r'
  }

  /** Behind the end of a block comment, from inside it. */
  function BlockRest(s: string): (rest: Option<string>)
    ensures rest.Some? ==> |rest.value| <= |s|
  {
    if s == "" || s[0] == NUL then None
    else if "*/" <= s then Some(s[2..])
    else BlockRest(s[1..])
  }

  /** The line end that ends a line comment, from inside it. */
  function LineRest(s: string): (rest: Option<string>)
    ensures rest.Some? ==> |rest.value| <= |s|
  {
    if s == "" || s[0] == NUL then None
    else if s[0] == '\n' then Some(s)
    else LineRest(s[1..])
  }

  /** Past white space and, relaxed, comments. */
  function Layout(s: string, relaxed: bool): (rest: string)
    ensures |rest| <= |s|
    decreases |s|
  {
    if s == "" then s
    else if IsBlank(s[0]) then Layout(s[1..], relaxed)
    else if relaxed && "/*" <= s then
      var rest := BlockRest(s[2..]);
      if rest.Some? then Layout(rest.value, relaxed) else s
    else if relaxed && "//" <= s then
      var rest := LineRest(s[2..]);
      if rest.Some? then Layout(rest.value, relaxed) else s
    else s
  }

  /** Section 7: what a letter behind a backslash stands for; a quote, only if it is the one the string has. */
  function Meant(letter: char, quote: char): Option<char> {
    if letter == '\\' || letter == '/' || letter == quote then Some(letter)
    else if letter == 'b' then Some('\U{8}')
    else if letter == 'f' then Some('\U{C}')
    else if letter == 'n' then Some('\n')
    else if letter == 'r' then Some('\r')
    else if letter == 't' then Some('\t')
    else None
  }

  function Then(c: char, more: Reading<string>): Reading<string> {
    if more.Reads? then Reads([c] + more.value, more.rest) else NotJson
  }

  /** Section 7: the characters of a string up to its quote, control characters excluded. */
  function ReadString(s: string, quote: char): (r: Reading<string>)
    ensures r.Reads? ==> |r.rest| < |s|
  {
    if s == "" then NotJson
    else if s[0] == quote then Reads("", s[1..])
    else if s[0] < ' ' then NotJson
    else if s[0] != '\\' then Then(s[0], ReadString(s[1..], quote))
    else if |s| == 1 || Meant(s[1], quote) == None then NotJson
    else Then(Meant(s[1], quote).value, ReadString(s[2..], quote))
  }

  function ReadDigits(s: string, n: nat): (r: (nat, string))
    ensures |r.1| <= |s|
  {
    if s == "" || !('0' <= s[0] <= '9') then (n, s)
    else ReadDigits(s[1..], n * 10 + (s[0] - '0') as nat)
  }

  /** Section 6: digits without a leading zero. */
  function ReadInteger(s: string): (r: Reading<nat>)
    ensures r.Reads? ==> |r.rest| < |s|
  {
    if s == "" || !('0' <= s[0] <= '9') then NotJson
    else if s[0] == '0' then Reads(0, s[1..])
    else
      var (n, rest) := ReadDigits(s[1..], (s[0] - '0') as nat);
      Reads(n, rest)
  }

  /** What may stand behind a literal or a number: nothing, white space, what ends a value in a list, a comment. */
  predicate Delimited(s: string, relaxed: bool) {
    s == "" || IsBlank(s[0]) || s[0] == ',' || s[0] == ']' || s[0] == '}' || (relaxed && s[0] == '/')
  }

  /** Section 3: the three literal names, and numbers. */
  function ReadWord(s: string): (r: Reading<Json>)
    ensures r.Reads? ==> |r.rest| < |s|
  {
    if "null" <= s then Reads(Null, s[4..])
    else if "true" <= s then Reads(Bool(true), s[4..])
    else if "false" <= s then Reads(Bool(false), s[5..])
    else if "-" <= s then
      var n := ReadInteger(s[1..]);
      if n.Reads? then Reads(Negative(n.value), n.rest) else NotJson
    else
      var n := ReadInteger(s);
      if n.Reads? then Reads(Positive(n.value), n.rest) else NotJson
  }

  predicate IsQuoteOf(c: char, relaxed: bool) {
    c == '"' || (relaxed && c == '\'')
  }

  /** Section 3: a value. */
  function ReadValue(s: string, relaxed: bool): (r: Reading<Json>)
    ensures r.Reads? ==> |r.rest| < |s|
    decreases |s|, 0
  {
    if s == "" then NotJson
    else if IsQuoteOf(s[0], relaxed) then
      var text := ReadString(s[1..], s[0]);
      if text.Reads? then Reads(Text(text.value), text.rest) else NotJson
    else if s[0] == '[' then
      var inner := Layout(s[1..], relaxed);
      if "]" <= inner then Reads(Array(NoElements), inner[1..])
      else
        var es := ReadElements(inner, relaxed);
        if es.Reads? then Reads(Array(es.value), es.rest) else NotJson
    else if s[0] == '{' then
      var inner := Layout(s[1..], relaxed);
      if "}" <= inner then Reads(Object(NoMembers), inner[1..])
      else
        var ms := ReadMembers(inner, relaxed);
        if ms.Reads? then Reads(Object(ms.value), ms.rest) else NotJson
    else
      var word := ReadWord(s);
      if word.Reads? && Delimited(word.rest, relaxed) then word else NotJson
  }

  /** Section 5: the elements of an array and its closing bracket. */
  function ReadElements(s: string, relaxed: bool): (r: Reading<Elements>)
    ensures r.Reads? ==> |r.rest| < |s|
    decreases |s|, 1
  {
    var v := ReadValue(s, relaxed);
    if v.NotJson? then NotJson
    else
      var after := Layout(v.rest, relaxed);
      if "]" <= after then Reads(Element(v.value, NoElements), after[1..])
      else if "," <= after then
        var more := ReadElements(Layout(after[1..], relaxed), relaxed);
        if more.Reads? then Reads(Element(v.value, more.value), more.rest) else NotJson
      else NotJson
  }

  predicate IsNameChar(c: char) {
    'a' <= c <= 'z' || 'A' <= c <= 'Z' || '0' <= c <= '9' || c == '_'
  }

  function NameLength(s: string): (n: nat)
    ensures n <= |s|
  {
    if s == "" || !IsNameChar(s[0]) then 0 else 1 + NameLength(s[1..])
  }

  function ReadKey(s: string, relaxed: bool): (r: Reading<string>)
    ensures r.Reads? ==> |r.rest| < |s|
  {
    if s == "" then NotJson
    else if IsQuoteOf(s[0], relaxed) then ReadString(s[1..], s[0])
    else
      var n := NameLength(s);
      if relaxed && 0 < n < |s| && (IsBlank(s[n]) || s[n] == ':' || s[n] == '/') then Reads(s[..n], s[n..]) else NotJson
  }

  /** Section 4: the members of an object and its closing brace. */
  function ReadMembers(s: string, relaxed: bool): (r: Reading<Members>)
    ensures r.Reads? ==> |r.rest| < |s|
    decreases |s|, 1
  {
    var key := ReadKey(s, relaxed);
    if key.NotJson? then NotJson
    else
      var colon := Layout(key.rest, relaxed);
      if !(":" <= colon) then NotJson
      else
        var v := ReadValue(Layout(colon[1..], relaxed), relaxed);
        if v.NotJson? then NotJson
        else
          var after := Layout(v.rest, relaxed);
          if "}" <= after then Reads(Member(key.value, v.value, NoMembers), after[1..])
          else if "," <= after then
            var more := ReadMembers(Layout(after[1..], relaxed), relaxed);
            if more.Reads? then Reads(Member(key.value, v.value, more.value), more.rest) else NotJson
          else NotJson
  }

  // ---- What the printers write

  /** A character that the printers may write: all but the control characters that have no escape of one letter. */
  predicate Printable(c: char) {
    c >= ' ' || c in {'\U{8}', '\U{C}', '\n', '\r', '\t'}
  }

  predicate AllPrintable(s: string) {
    forall c <- s :: Printable(c)
  }

  /** No string and no key of the document has any other character. */
  predicate Clean(v: Json) {
    match v
    case Text(chars) => AllPrintable(chars)
    case Array(elements) => ElementsClean(elements)
    case Object(members) => MembersClean(members)
    case _ => true
  }

  predicate ElementsClean(es: Elements) {
    es.Element? ==> Clean(es.value) && ElementsClean(es.next)
  }

  predicate MembersClean(ms: Members) {
    ms.Member? ==> AllPrintable(ms.key) && Clean(ms.value) && MembersClean(ms.next)
  }

  function Expected<T>(clean: bool, value: T, rest: string): Reading<T> {
    if clean then Reads(value, rest) else NotJson
  }

  lemma Head(c: char, t: string)
    ensures [c] + t != "" && ([c] + t)[0] == c && ([c] + t)[1..] == t && [c] <= [c] + t
  {
  }

  /** A text that begins with a character that layout leaves alone. */
  predicate Firm(t: string) {
    t != "" && !IsBlank(t[0]) && t[0] != '/'
  }

  lemma LayoutFirm(t: string, relaxed: bool)
    requires Firm(t)
    ensures Layout(t, relaxed) == t
  {
  }

  lemma {:induction false} LayoutTabs(n: nat, t: string, relaxed: bool)
    ensures Layout(Tabs(n, t), relaxed) == Layout(t, relaxed)
  {
    if n > 0 {
      Head(' ', [' '] + Tabs(n - 1, t));
      Head(' ', Tabs(n - 1, t));
      LayoutTabs(n - 1, t, relaxed);
    }
  }

  lemma LayoutGap(pretty: bool, nesting: nat, t: string, relaxed: bool)
    ensures Layout(Gap(pretty, nesting, t), relaxed) == Layout(t, relaxed)
    ensures pretty ==> Delimited(Gap(pretty, nesting, t), relaxed)
  {
    if pretty {
      Head('\r', ['\n'] + Tabs(U8(nesting), t));
      Head('\n', Tabs(U8(nesting), t));
      LayoutTabs(U8(nesting), t, relaxed);
    }
  }

  lemma {:induction false} StringReads(s: string, tail: string)
    ensures ReadString(Escaped(s, ['"'] + tail), '"') == Expected(AllPrintable(s), s, tail)
  {
    if s == "" {
      Head('"', tail);
    } else {
      var more := Escaped(s[1..], ['"'] + tail);
      StringReads(s[1..], tail);
      assert s == [s[0]] + s[1..];
      assert AllPrintable(s) <==> Printable(s[0]) && AllPrintable(s[1..]);
      if Escape(s[0]) != NUL {
        Head('\\', [Escape(s[0])] + more);
        Head(Escape(s[0]), more);
        assert (['\\'] + ([Escape(s[0])] + more))[2..] == more;
        assert Meant(Escape(s[0]), '"') == Some(s[0]);
      } else {
        Head(s[0], more);
      }
    }
  }

  lemma {:induction false} DigitsRead(n: nat, tail: string)
    ensures var text := Decimal(n, tail);
      && text != "" && '0' <= text[0] <= '9' && (text[0] == '0' <==> n == 0)
      && ReadDigits(text[1..], (text[0] - '0') as nat) == ReadDigits(tail, n)
    decreases n
  {
    var d := DigitChar(n % 10);
    Head(d, tail);
    if n >= 10 {
      DigitsRead(n / 10, [d] + tail);
      assert ReadDigits([d] + tail, n / 10) == ReadDigits(tail, n / 10 * 10 + n % 10);
    }
  }

  lemma IntegerReads(n: nat, tail: string)
    requires tail == "" || !('0' <= tail[0] <= '9')
    ensures ReadInteger(Decimal(n, tail)) == Reads(n, tail)
    ensures var text := Decimal(n, tail); text != "" && '0' <= text[0] <= '9'
  {
    DigitsRead(n, tail);
    if n == 0 { Head('0', tail); }
  }

  lemma WordReads(v: Json, tail: string)
    requires v.Null? || v.Bool? || v.Positive? || v.Negative?
    requires Delimited(tail, false)
    ensures var text := Render(v, false, 0, tail);
      Firm(text) && text[0] !in {'"', '\'', '[', '{', ']', '}'} && ReadWord(text) == Reads(v, tail)
  {
    match v
    case Null => Literal("null", tail);
    case Bool(flag) => if flag { Literal("true", tail); } else { Literal("false", tail); }
    case Positive(n) => IntegerReads(n, tail);
    case Negative(n) =>
      IntegerReads(n, tail);
      Head('-', Decimal(n, tail));
  }

  lemma Literal(w: string, tail: string)
    ensures w <= w + tail && (w + tail)[|w|..] == tail
  {
  }

  lemma {:induction false} ValueReads(v: Json, pretty: bool, nesting: nat, tail: string)
    requires v.Text? || v.Array? || v.Object? || Delimited(tail, false)
    ensures var text := Render(v, pretty, nesting, tail); Firm(text) && text[0] != ']' && text[0] != '}'
    ensures ReadValue(Render(v, pretty, nesting, tail), false) == Expected(Clean(v), v, tail)
    decreases v
  {
    hide Gap, Decimal, RenderElements, RenderMembers, ReadElements, ReadMembers, ReadString, Escaped, ReadWord;
    match v
    case Text(chars) =>
      Head('"', Escaped(chars, ['"'] + tail));
      StringReads(chars, tail);
    case Array(elements) => ArrayReads(elements, pretty, nesting, tail);
    case Object(members) => ObjectReads(members, pretty, nesting, tail);
    case _ =>
      WordReads(v, tail);
      assert Render(v, pretty, nesting, tail) == Render(v, false, 0, tail);
  }

  lemma ClosingReads(pretty: bool, nesting: nat, bracket: char, tail: string)
    requires bracket == ']' || bracket == '}'
    ensures var close := ClosingGap(pretty, nesting, bracket, tail);
      Layout(close, false) == [bracket] + tail && Delimited(close, false)
  {
    hide Gap, Layout;
    Head(bracket, tail);
    LayoutGap(pretty, nesting, [bracket] + tail, false);
    LayoutFirm([bracket] + tail, false);
    if !pretty { assert Gap(false, nesting, [bracket] + tail) == [bracket] + tail by { NoGap(nesting, [bracket] + tail); } }
  }

  lemma NoGap(nesting: nat, t: string)
    ensures Gap(false, nesting, t) == t
  {
  }

  lemma {:induction false} ArrayReads(es: Elements, pretty: bool, nesting: nat, tail: string)
    ensures var text := Render(Array(es), pretty, nesting, tail);
      text != "" && text[0] == '[' && ReadValue(text, false) == Expected(ElementsClean(es), Array(es), tail)
    decreases es, 1
  {
    hide Gap, Layout, RenderElements, ReadElements, ElementsClean;
    if es.NoElements? {
      Head('[', [']'] + tail);
      Head(']', tail);
      LayoutFirm([']'] + tail, false);
      assert ElementsClean(es) by { NothingClean(); }
    } else {
      var close := ClosingGap(pretty, nesting, ']', tail);
      var inner := RenderElements(es, pretty, nesting + 1, close);
      ClosingReads(pretty, nesting, ']', tail);
      Head('[', Gap(pretty, nesting + 1, inner));
      LayoutGap(pretty, nesting + 1, inner, false);
      ElementsRead(es, pretty, nesting + 1, close, tail);
      LayoutFirm(inner, false);
    }
  }

  lemma NothingClean()
    ensures ElementsClean(NoElements) && MembersClean(NoMembers)
  {
  }

  lemma ElementStep(es: Elements, pretty: bool, nesting: nat, close: string)
    requires es.Element?
    ensures RenderElements(es, pretty, nesting, close) ==
      Render(es.value, pretty, nesting, AfterElement(es.next, pretty, nesting, close))
    ensures ElementsClean(es) <==> Clean(es.value) && ElementsClean(es.next)
  {
    hide Render;
  }

  lemma {:induction false} ElementsRead(es: Elements, pretty: bool, nesting: nat, close: string, rest: string)
    requires es.Element? && Layout(close, false) == [']'] + rest && Delimited(close, false)
    ensures var text := RenderElements(es, pretty, nesting, close); Firm(text) && text[0] != ']' && text[0] != '}'
    ensures ReadElements(RenderElements(es, pretty, nesting, close), false) == Expected(ElementsClean(es), es, rest)
    decreases es, 0
  {
    hide Gap, Layout, RenderElements, ReadValue, Render, Clean, ElementsClean;
    var after := AfterElement(es.next, pretty, nesting, close);
    ElementStep(es, pretty, nesting, close);
    Head(']', rest);
    if es.next.Element? {
      var inner := RenderElements(es.next, pretty, nesting, close);
      Head(',', Gap(pretty, nesting, inner));
      LayoutFirm(after, false);
      LayoutGap(pretty, nesting, inner, false);
      ElementsRead(es.next, pretty, nesting, close, rest);
      LayoutFirm(inner, false);
    } else {
      NothingClean();
    }
    ValueReads(es.value, pretty, nesting, after);
  }

  lemma {:induction false} ObjectReads(ms: Members, pretty: bool, nesting: nat, tail: string)
    ensures var text := Render(Object(ms), pretty, nesting, tail);
      text != "" && text[0] == '{' && ReadValue(text, false) == Expected(MembersClean(ms), Object(ms), tail)
    decreases ms, 1
  {
    hide Gap, Layout, RenderMembers, ReadMembers, MembersClean;
    if ms.NoMembers? {
      Head('{', ['}'] + tail);
      Head('}', tail);
      LayoutFirm(['}'] + tail, false);
      assert MembersClean(ms) by { NothingClean(); }
    } else {
      var close := ClosingGap(pretty, nesting, '}', tail);
      var inner := RenderMembers(ms, pretty, nesting + 1, close);
      ClosingReads(pretty, nesting, '}', tail);
      Head('{', Gap(pretty, nesting + 1, inner));
      LayoutGap(pretty, nesting + 1, inner, false);
      MembersRead(ms, pretty, nesting + 1, close, tail);
      LayoutFirm(inner, false);
    }
  }

  lemma MemberStep(ms: Members, pretty: bool, nesting: nat, close: string)
    requires ms.Member?
    ensures RenderMembers(ms, pretty, nesting, close) ==
      Quoted(ms.key, Colon(pretty, Render(ms.value, pretty, nesting, AfterMember(ms.next, pretty, nesting, close))))
    ensures MembersClean(ms) <==> AllPrintable(ms.key) && Clean(ms.value) && MembersClean(ms.next)
  {
    hide Render;
  }

  lemma KeyReads(key: string, tail: string)
    ensures var text := Quoted(key, tail);
      Firm(text) && text[0] == '"' && ReadKey(text, false) == Expected(AllPrintable(key), key, tail)
  {
    hide ReadString;
    Head('"', Escaped(key, ['"'] + tail));
    StringReads(key, tail);
  }

  lemma ColonReads(pretty: bool, value: string)
    requires Firm(value)
    ensures var colon := Colon(pretty, value);
      Layout(colon, false) == colon && ":" <= colon && Layout(colon[1..], false) == value
  {
    Head(':', if pretty then [' '] + value else value);
    Head(' ', value);
    LayoutFirm(Colon(pretty, value), false);
    LayoutFirm(value, false);
  }

  lemma {:induction false} MembersRead(ms: Members, pretty: bool, nesting: nat, close: string, rest: string)
    requires ms.Member? && Layout(close, false) == ['}'] + rest && Delimited(close, false)
    ensures var text := RenderMembers(ms, pretty, nesting, close); Firm(text) && text[0] != ']' && text[0] != '}'
    ensures ReadMembers(RenderMembers(ms, pretty, nesting, close), false) == Expected(MembersClean(ms), ms, rest)
    decreases ms, 0
  {
    hide Gap, Layout, RenderMembers, ReadValue, Render, Clean, MembersClean, ReadKey, Quoted, Colon, AllPrintable;
    var after := AfterMember(ms.next, pretty, nesting, close);
    MemberStep(ms, pretty, nesting, close);
    Head('}', rest);
    if ms.next.Member? {
      var inner := RenderMembers(ms.next, pretty, nesting, close);
      Head(',', Gap(pretty, nesting, inner));
      LayoutFirm(after, false);
      LayoutGap(pretty, nesting, inner, false);
      MembersRead(ms.next, pretty, nesting, close, rest);
      LayoutFirm(inner, false);
    } else {
      NothingClean();
    }
    var value := Render(ms.value, pretty, nesting, after);
    ValueReads(ms.value, pretty, nesting, after);
    KeyReads(ms.key, Colon(pretty, value));
    ColonReads(pretty, value);
  }

  /** MAIN (JSON): what either printer writes of a document is a JSON text that says that document exactly when no
      string and no key of it has a control character other than those with an escape of one letter; else it is
      no JSON text. */
  lemma PrintsJson(v: Json, pretty: bool)
    ensures var text := Render(v, pretty, 0, "");
      Layout(text, false) == text && ReadValue(text, false) == if Clean(v) then Reads(v, "") else NotJson
  {
    hide Render, ReadValue, Clean;
    ValueReads(v, pretty, 0, "");
    LayoutFirm(Render(v, pretty, 0, ""), false);
  }

  /** A string of one control character is written as it is, and not JSON. */
  lemma ControlCharacterIsWritten()
    ensures Render(Text("\U{1}"), false, 0, "") == ['"', '\U{1}', '"']
    ensures ReadValue(['"', '\U{1}', '"'], false) == NotJson
  {
    assert Escaped("\U{1}"[1..], ['"'] + "") == ['"'];
    assert Escaped("\U{1}", ['"'] + "") == ['\U{1}', '"'];
    assert ['"', '\U{1}', '"'][1..] == ['\U{1}', '"'];
  }

  // ---- White space in what the printers write

  /** A text without its white space outside strings. */
  function Squeeze(s: string, quoted: bool): string
    decreases |s|
  {
    if s == "" then ""
    else if quoted && s[0] == '\\' && |s| > 1 then [s[0]] + ([s[1]] + Squeeze(s[2..], true))
    else if s[0] == '"' then [s[0]] + Squeeze(s[1..], !quoted)
    else if !quoted && IsBlank(s[0]) then Squeeze(s[1..], false)
    else [s[0]] + Squeeze(s[1..], quoted)
  }

  lemma SqueezeHead(c: char, t: string)
    requires !IsBlank(c) && c != '"'
    ensures Squeeze([c] + t, false) == [c] + Squeeze(t, false)
  {
    Head(c, t);
  }

  lemma SqueezeBlank(c: char, t: string)
    requires IsBlank(c)
    ensures Squeeze([c] + t, false) == Squeeze(t, false)
  {
    Head(c, t);
  }

  lemma {:induction false} SqueezeTabs(n: nat, t: string)
    ensures Squeeze(Tabs(n, t), false) == Squeeze(t, false)
  {
    if n > 0 {
      SqueezeBlank(' ', [' '] + Tabs(n - 1, t));
      SqueezeBlank(' ', Tabs(n - 1, t));
      SqueezeTabs(n - 1, t);
    }
  }

  lemma SqueezeGap(pretty: bool, nesting: nat, t: string)
    ensures Squeeze(Gap(pretty, nesting, t), false) == Squeeze(t, false)
  {
    if pretty {
      SqueezeBlank('\r', ['\n'] + Tabs(U8(nesting), t));
      SqueezeBlank('\n', Tabs(U8(nesting), t));
      SqueezeTabs(U8(nesting), t);
    }
  }

  lemma {:induction false} SqueezeEscaped(s: string, tail: string)
    ensures Squeeze(Escaped(s, ['"'] + tail), true) == Escaped(s, ['"'] + Squeeze(tail, false))
  {
    if s == "" {
      Head('"', tail);
    } else {
      var more := Escaped(s[1..], ['"'] + tail);
      SqueezeEscaped(s[1..], tail);
      if Escape(s[0]) != NUL {
        Head('\\', [Escape(s[0])] + more);
        Head(Escape(s[0]), more);
        assert (['\\'] + ([Escape(s[0])] + more))[2..] == more;
      } else {
        Head(s[0], more);
      }
    }
  }

  lemma SqueezeQuoted(s: string, tail: string)
    ensures Squeeze(Quoted(s, tail), false) == Quoted(s, Squeeze(tail, false))
  {
    Head('"', Escaped(s, ['"'] + tail));
    SqueezeEscaped(s, tail);
  }

  lemma {:induction false} SqueezeDecimal(n: nat, tail: string)
    ensures Squeeze(Decimal(n, tail), false) == Decimal(n, Squeeze(tail, false))
    decreases n
  {
    var d := DigitChar(n % 10);
    SqueezeHead(d, tail);
    if n >= 10 { SqueezeDecimal(n / 10, [d] + tail); }
  }

  lemma {:induction false} SqueezeLiteral(w: string, tail: string)
    requires forall c <- w :: !IsBlank(c) && c != '"'
    ensures Squeeze(w + tail, false) == w + Squeeze(tail, false)
    decreases |w|
  {
    if w == "" {
      assert w + tail == tail;
    } else {
      assert w + tail == [w[0]] + (w[1..] + tail);
      assert w[0] in w;
      SqueezeHead(w[0], w[1..] + tail);
      SqueezeLiteral(w[1..], tail);
      assert w + Squeeze(tail, false) == [w[0]] + (w[1..] + Squeeze(tail, false));
    }
  }

  lemma {:induction false} SqueezeValue(v: Json, pretty: bool, nesting: nat, tail: string, other: nat)
    ensures Squeeze(Render(v, pretty, nesting, tail), false) == Render(v, false, other, Squeeze(tail, false))
    decreases v, 1
  {
    hide Squeeze, Gap, Decimal, Quoted, RenderElements, RenderMembers, ClosingGap;
    match v
    case Null => SqueezeLiteral("null", tail);
    case Bool(flag) => SqueezeLiteral(if flag then "true" else "false", tail);
    case Positive(n) => SqueezeDecimal(n, tail);
    case Negative(n) =>
      SqueezeHead('-', Decimal(n, tail));
      SqueezeDecimal(n, tail);
    case Text(chars) => SqueezeQuoted(chars, tail);
    case Array(elements) =>
      if elements.NoElements? {
        SqueezeHead('[', [']'] + tail);
        SqueezeHead(']', tail);
      } else {
        var close := ClosingGap(pretty, nesting, ']', tail);
        var inner := RenderElements(elements, pretty, nesting + 1, close);
        SqueezeClosing(pretty, nesting, ']', tail, other);
        SqueezeElements(elements, pretty, nesting + 1, close, other + 1);
        SqueezeOpening(pretty, nesting + 1, '[', inner, other + 1);
      }
    case Object(members) =>
      if members.NoMembers? {
        SqueezeHead('{', ['}'] + tail);
        SqueezeHead('}', tail);
      } else {
        var close := ClosingGap(pretty, nesting, '}', tail);
        var inner := RenderMembers(members, pretty, nesting + 1, close);
        SqueezeClosing(pretty, nesting, '}', tail, other);
        SqueezeMembers(members, pretty, nesting + 1, close, other + 1);
        SqueezeOpening(pretty, nesting + 1, '{', inner, other + 1);
      }
  }

  lemma SqueezeOpening(pretty: bool, nesting: nat, c: char, t: string, other: nat)
    requires c in {'[', '{', ','}
    ensures Squeeze([c] + Gap(pretty, nesting, t), false) == [c] + Gap(false, other, Squeeze(t, false))
  {
    SqueezeHead(c, Gap(pretty, nesting, t));
    SqueezeGap(pretty, nesting, t);
  }

  lemma SqueezeClosing(pretty: bool, nesting: nat, bracket: char, tail: string, other: nat)
    requires bracket == ']' || bracket == '}'
    ensures Squeeze(ClosingGap(pretty, nesting, bracket, tail), false)
      == ClosingGap(false, other, bracket, Squeeze(tail, false))
  {
    SqueezeGap(pretty, nesting, [bracket] + tail);
    SqueezeHead(bracket, tail);
  }

  lemma {:induction false} SqueezeElements(es: Elements, pretty: bool, nesting: nat, close: string, other: nat)
    ensures Squeeze(RenderElements(es, pretty, nesting, close), false)
      == RenderElements(es, false, other, Squeeze(close, false))
    decreases es, 0
  {
    hide Squeeze, Gap, Render;
    if es.Element? {
      SqueezeElements(es.next, pretty, nesting, close, other);
      SqueezeOpening(pretty, nesting, ',', RenderElements(es.next, pretty, nesting, close), other);
      SqueezeValue(es.value, pretty, nesting, AfterElement(es.next, pretty, nesting, close), other);
    }
  }

  lemma {:induction false} SqueezeMembers(ms: Members, pretty: bool, nesting: nat, close: string, other: nat)
    ensures Squeeze(RenderMembers(ms, pretty, nesting, close), false)
      == RenderMembers(ms, false, other, Squeeze(close, false))
    decreases ms, 0
  {
    hide Squeeze, Gap, Render, Quoted, Colon;
    if ms.Member? {
      var after := AfterMember(ms.next, pretty, nesting, close);
      var value := Render(ms.value, pretty, nesting, after);
      SqueezeMembers(ms.next, pretty, nesting, close, other);
      SqueezeOpening(pretty, nesting, ',', RenderMembers(ms.next, pretty, nesting, close), other);
      SqueezeValue(ms.value, pretty, nesting, after, other);
      SqueezeQuoted(ms.key, Colon(pretty, value));
      SqueezeColon(pretty, value);
    }
  }

  lemma SqueezeColon(pretty: bool, value: string)
    ensures Squeeze(Colon(pretty, value), false) == Colon(false, Squeeze(value, false))
  {
    SqueezeHead(':', if pretty then [' '] + value else value);
    SqueezeBlank(' ', value);
  }

  /** MAIN (JSON): the pretty form is the compact form but for white space outside strings, and the compact form has
      no such white space. */
  lemma PrettyIsCompactSpaced(v: Json)
    ensures Squeeze(Render(v, true, 0, ""), false) == Render(v, false, 0, "")
    ensures Squeeze(Render(v, false, 0, ""), false) == Render(v, false, 0, "")
  {
    hide Render;
    SqueezeValue(v, true, 0, "", 0);
    SqueezeValue(v, false, 0, "", 0);
  }

  // ---- The pretty form, from the compact one

  function Spaces(n: nat): string {
    if n == 0 then "" else " " + Spaces(n - 1)
  }

  /** A new line at a depth, which an 8-bit count holds. */
  function NewLine(depth: nat): string {
    "\r\n" + Spaces(2 * (depth % 256))
  }

  predicate IsOpening(c: char) {
    c == '[' || c == '{'
  }

  predicate IsClosing(c: char) {
    c == ']' || c == '}'
  }

  /** A compact text laid out, one character after the other: outside strings a new line behind each comma and each
      opening bracket, two spaces deeper, and one before each closing bracket, less deep, but none in an empty list;
      a space behind each colon. */
  function LaidOut(s: string, depth: nat, quoted: bool): string
    decreases |s|
  {
    if s == "" then ""
    else if quoted && s[0] == '\\' && |s| > 1 then [s[0]] + ([s[1]] + LaidOut(s[2..], depth, true))
    else if s[0] == '"' then [s[0]] + LaidOut(s[1..], depth, !quoted)
    else if quoted then [s[0]] + LaidOut(s[1..], depth, true)
    else if IsOpening(s[0]) && |s| > 1 && IsClosing(s[1]) then [s[0]] + ([s[1]] + LaidOut(s[2..], depth, false))
    else if IsOpening(s[0]) then [s[0]] + (NewLine(depth + 1) + LaidOut(s[1..], depth + 1, false))
    else if IsClosing(s[0]) && depth > 0 then NewLine(depth - 1) + ([s[0]] + LaidOut(s[1..], depth - 1, false))
    else if s[0] == ',' then [s[0]] + (NewLine(depth) + LaidOut(s[1..], depth, false))
    else if s[0] == ':' then [s[0]] + ([' '] + LaidOut(s[1..], depth, false))
    else [s[0]] + LaidOut(s[1..], depth, false)
  }

  lemma {:induction false} TabsAreSpaces(n: nat, t: string)
    ensures Tabs(n, t) == Spaces(2 * n) + t
  {
    if n > 0 {
      TabsAreSpaces(n - 1, t);
      assert Spaces(2 * n) == " " + (" " + Spaces(2 * (n - 1)));
      assert Spaces(2 * n) + t == [' '] + ([' '] + (Spaces(2 * (n - 1)) + t));
    }
  }

  lemma GapIsNewLine(nesting: nat, t: string)
    ensures Gap(true, nesting, t) == NewLine(nesting) + t
  {
    TabsAreSpaces(U8(nesting), t);
    assert U8(nesting) == nesting % 256;
    assert "\r\n" + Spaces(2 * (nesting % 256)) + t == ['\r'] + (['\n'] + (Spaces(2 * (nesting % 256)) + t));
  }

  /** Characters that layout puts nothing around. */
  predicate Ordinary(c: char) {
    c != '"' && !IsOpening(c) && !IsClosing(c) && c != ',' && c != ':'
  }

  lemma LaidOutHead(c: char, t: string, depth: nat)
    requires Ordinary(c)
    ensures LaidOut([c] + t, depth, false) == [c] + LaidOut(t, depth, false)
  {
    Head(c, t);
  }

  lemma {:induction false} LaidOutEscaped(s: string, tail: string, depth: nat)
    ensures LaidOut(Escaped(s, ['"'] + tail), depth, true) == Escaped(s, ['"'] + LaidOut(tail, depth, false))
  {
    if s == "" {
      Head('"', tail);
    } else {
      var more := Escaped(s[1..], ['"'] + tail);
      LaidOutEscaped(s[1..], tail, depth);
      if Escape(s[0]) != NUL {
        Head('\\', [Escape(s[0])] + more);
        Head(Escape(s[0]), more);
        assert (['\\'] + ([Escape(s[0])] + more))[2..] == more;
      } else {
        Head(s[0], more);
      }
    }
  }

  lemma LaidOutQuoted(s: string, tail: string, depth: nat)
    ensures LaidOut(Quoted(s, tail), depth, false) == Quoted(s, LaidOut(tail, depth, false))
  {
    Head('"', Escaped(s, ['"'] + tail));
    LaidOutEscaped(s, tail, depth);
  }

  lemma {:induction false} LaidOutDecimal(n: nat, tail: string, depth: nat)
    ensures LaidOut(Decimal(n, tail), depth, false) == Decimal(n, LaidOut(tail, depth, false))
    decreases n
  {
    var d := DigitChar(n % 10);
    LaidOutHead(d, tail, depth);
    if n >= 10 { LaidOutDecimal(n / 10, [d] + tail, depth); }
  }

  lemma {:induction false} LaidOutLiteral(w: string, tail: string, depth: nat)
    requires forall c <- w :: Ordinary(c)
    ensures LaidOut(w + tail, depth, false) == w + LaidOut(tail, depth, false)
    decreases |w|
  {
    if w == "" {
      assert w + tail == tail;
    } else {
      assert w + tail == [w[0]] + (w[1..] + tail);
      assert w[0] in w;
      LaidOutHead(w[0], w[1..] + tail, depth);
      LaidOutLiteral(w[1..], tail, depth);
      assert w + LaidOut(tail, depth, false) == [w[0]] + (w[1..] + LaidOut(tail, depth, false));
    }
  }

  lemma ValueBegins(v: Json, nesting: nat, tail: string)
    ensures var text := Render(v, false, nesting, tail); text != "" && !IsClosing(text[0])
  {
    match v
    case Positive(n) => DigitsRead(n, tail);
    case _ =>
  }

  lemma LaidOutOpening(c: char, t: string, depth: nat)
    requires IsOpening(c) && t != "" && !IsClosing(t[0])
    ensures LaidOut([c] + t, depth, false) == [c] + Gap(true, depth + 1, LaidOut(t, depth + 1, false))
  {
    Head(c, t);
    GapIsNewLine(depth + 1, LaidOut(t, depth + 1, false));
  }

  lemma LaidOutEmpty(c: char, bracket: char, tail: string, depth: nat)
    requires IsOpening(c) && IsClosing(bracket)
    ensures LaidOut([c] + ([bracket] + tail), depth, false) == [c] + ([bracket] + LaidOut(tail, depth, false))
  {
    Head(c, [bracket] + tail);
    Head(bracket, tail);
    assert ([c] + ([bracket] + tail))[2..] == tail;
  }

  lemma LaidOutClosing(bracket: char, tail: string, depth: nat)
    requires IsClosing(bracket)
    ensures LaidOut([bracket] + tail, depth + 1, false) == ClosingGap(true, depth, bracket, LaidOut(tail, depth, false))
  {
    Head(bracket, tail);
    GapIsNewLine(depth, [bracket] + LaidOut(tail, depth, false));
  }

  lemma LaidOutComma(t: string, depth: nat)
    ensures LaidOut([','] + t, depth, false) == [','] + Gap(true, depth, LaidOut(t, depth, false))
  {
    Head(',', t);
    GapIsNewLine(depth, LaidOut(t, depth, false));
  }

  lemma {:induction false} LaidOutValue(v: Json, nesting: nat, tail: string, depth: nat)
    ensures LaidOut(Render(v, false, nesting, tail), depth, false) == Render(v, true, depth, LaidOut(tail, depth, false))
    decreases v, 1
  {
    hide LaidOut, Decimal, Quoted, RenderElements, RenderMembers;
    match v
    case Null => LaidOutLiteral("null", tail, depth);
    case Bool(flag) => LaidOutLiteral(if flag then "true" else "false", tail, depth);
    case Positive(n) => LaidOutDecimal(n, tail, depth);
    case Negative(n) =>
      LaidOutHead('-', Decimal(n, tail), depth);
      LaidOutDecimal(n, tail, depth);
    case Text(chars) => LaidOutQuoted(chars, tail, depth);
    case Array(elements) =>
      if elements.NoElements? {
        LaidOutEmpty('[', ']', tail, depth);
      } else {
        LaidOutClosing(']', tail, depth);
        LaidOutElements(elements, nesting + 1, [']'] + tail, depth + 1);
        LaidOutOpening('[', RenderElements(elements, false, nesting + 1, [']'] + tail), depth);
      }
    case Object(members) =>
      if members.NoMembers? {
        LaidOutEmpty('{', '}', tail, depth);
      } else {
        LaidOutClosing('}', tail, depth);
        LaidOutMembers(members, nesting + 1, ['}'] + tail, depth + 1);
        LaidOutOpening('{', RenderMembers(members, false, nesting + 1, ['}'] + tail), depth);
      }
  }

  lemma {:induction false} LaidOutElements(es: Elements, nesting: nat, close: string, depth: nat)
    requires es.Element?
    ensures var text := RenderElements(es, false, nesting, close);
      && text != "" && !IsClosing(text[0])
      && LaidOut(text, depth, false) == RenderElements(es, true, depth, LaidOut(close, depth, false))
    decreases es, 0
  {
    hide LaidOut, Gap, Render;
    var after := AfterElement(es.next, false, nesting, close);
    if es.next.Element? {
      var inner := RenderElements(es.next, false, nesting, close);
      NoGap(nesting, inner);
      LaidOutElements(es.next, nesting, close, depth);
      LaidOutComma(inner, depth);
    }
    LaidOutValue(es.value, nesting, after, depth);
    ValueBegins(es.value, nesting, after);
  }

  lemma {:induction false} LaidOutMembers(ms: Members, nesting: nat, close: string, depth: nat)
    requires ms.Member?
    ensures var text := RenderMembers(ms, false, nesting, close);
      && text != "" && !IsClosing(text[0])
      && LaidOut(text, depth, false) == RenderMembers(ms, true, depth, LaidOut(close, depth, false))
    decreases ms, 0
  {
    hide LaidOut, Gap, Render, Quoted, Colon;
    var after := AfterMember(ms.next, false, nesting, close);
    if ms.next.Member? {
      var inner := RenderMembers(ms.next, false, nesting, close);
      NoGap(nesting, inner);
      LaidOutMembers(ms.next, nesting, close, depth);
      LaidOutComma(inner, depth);
    }
    var value := Render(ms.value, false, nesting, after);
    LaidOutValue(ms.value, nesting, after, depth);
    LaidOutColon(value, depth);
    LaidOutQuoted(ms.key, Colon(false, value), depth);
    QuoteBegins(ms.key, Colon(false, value));
  }

  lemma QuoteBegins(key: string, tail: string)
    ensures var text := Quoted(key, tail); text != "" && text[0] == '"'
  {
  }

  lemma LaidOutColon(value: string, depth: nat)
    ensures LaidOut(Colon(false, value), depth, false) == Colon(true, LaidOut(value, depth, false))
  {
    Head(':', value);
  }

  /** MAIN (JSON): the pretty form is the compact form laid out. */
  lemma PrettyIsLaidOut(v: Json)
    ensures Render(v, true, 0, "") == LaidOut(Render(v, false, 0, ""), 0, false)
  {
    hide Render;
    LaidOutValue(v, 0, "", 0);
  }
}
