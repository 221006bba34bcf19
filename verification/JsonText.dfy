/**
 JSON documents and how they are written: the compact and the pretty form.
 Everything is written in front of what follows it, so that texts need no regrouping.
 */
module JsonText {
  import opened CInt

  /** A document: a value that is a list of values keeps them in order, keys and all. */
  datatype Json =
    | Null
    | Bool(flag: bool)
    | Positive(magnitude: nat)
    | Negative(magnitude: nat)
    | Text(chars: string)
    | Array(elements: Elements)
    | Object(members: Members)

  datatype Elements = NoElements | Element(value: Json, next: Elements)

  datatype Members = NoMembers | Member(key: string, value: Json, next: Members)

  const NUL: char := '\0'
  const BACKSPACE: char := '\U{8}'
  const FORM_FEED: char := '\U{C}'

  /** Pairs of an escape's letter and the character it stands for. */
  const ESCAPES: string := ['"', '"', '\\', '\\', 'b', BACKSPACE, 'f', FORM_FEED, 'n', '\n', 'r', '\r', 't', '\t']

  /** The letter that escapes `c`, or NUL. */
  function Escape(c: char): char {
    if c == '"' then '"'
    else if c == '\\' then '\\'
    else if c == BACKSPACE then 'b'
    else if c == FORM_FEED then 'f'
    else if c == '\n' then 'n'
    else if c == '\r' then 'r'
    else if c == '\t' then 't'
    else NUL
  }

  /** What an escape's letter stands for. */
  function Unescape(c: char): char {
    if c == 'b' then BACKSPACE
    else if c == 'f' then FORM_FEED
    else if c == 'n' then '\n'
    else if c == 'r' then '\r'
    else if c == 't' then '\t'
    else c
  }

  /** `escapeChar`: a walk over the table. */
  method EscapeChar(c: char) returns (letter: char)
    ensures letter == Escape(c)
  {
    var p := 0;
    while p < |ESCAPES| && ESCAPES[p + 1] != c
      invariant 0 <= p <= |ESCAPES| && p % 2 == 0
      invariant forall i :: 0 <= i < p / 2 ==> ESCAPES[2 * i + 1] != c
    {
      p := p + 2;
    }
    if p < |ESCAPES| { return ESCAPES[p]; }
    assert ESCAPES[1] == '"' && ESCAPES[2 * 1 + 1] == '\\' && ESCAPES[2 * 2 + 1] == BACKSPACE;
    assert ESCAPES[2 * 3 + 1] == FORM_FEED && ESCAPES[2 * 4 + 1] == '\n' && ESCAPES[2 * 5 + 1] == '\r';
    assert ESCAPES[2 * 6 + 1] == '\t' && ESCAPES[2 * 0 + 1] == '"';
    return NUL;
  }

  /** `unescapeChar`: the same walk, past the two characters that stand for themselves. */
  method UnescapeChar(c: char) returns (r: char)
    ensures r == Unescape(c)
  {
    var p := 4;
    while p < |ESCAPES|
      invariant 4 <= p <= |ESCAPES| && p % 2 == 0
      invariant forall i :: 2 <= i < p / 2 ==> ESCAPES[2 * i] != c
    {
      if ESCAPES[p] == c { return ESCAPES[p + 1]; }
      p := p + 2;
    }
    assert ESCAPES[2 * 2] == 'b' && ESCAPES[2 * 3] == 'f' && ESCAPES[2 * 4] == 'n' && ESCAPES[2 * 5] == 'r';
    assert ESCAPES[2 * 6] == 't';
    return c;
  }

  /** An escaped character comes back, and only the characters that need it are escaped. */
  lemma EscapeRoundTrip(c: char)
    ensures Escape(c) != NUL ==> Unescape(Escape(c)) == c && Escape(c) != 'u'
    ensures Escape(c) != NUL <==> c in {'"', '\\', BACKSPACE, FORM_FEED, '\n', '\r', '\t'}
  {
  }

  /** A string's characters, escaped, and after them `tail`. */
  function Escaped(s: string, tail: string): string {
    if s == "" then tail
    else if Escape(s[0]) != NUL then ['\\'] + ([Escape(s[0])] + Escaped(s[1..], tail))
    else [s[0]] + Escaped(s[1..], tail)
  }

  function Quoted(s: string, tail: string): string {
    ['"'] + Escaped(s, ['"'] + tail)
  }

  function DigitChar(d: nat): char
    requires d < 10
  {
    '0' + d as char
  }

  /** The decimal digits of `n`, and after them `tail`. */
  function Decimal(n: nat, tail: string): string {
    var last := [DigitChar(n % 10)] + tail;
    if n < 10 then last else Decimal(n / 10, last)
  }

  /** What comes before an element and before a closing bracket: nothing, or a new line indented by as many
      tabs as an 8-bit count of the nesting says. */
  function Gap(pretty: bool, nesting: nat, tail: string): string {
    if pretty then ['\r'] + (['\n'] + Tabs(U8(nesting), tail)) else tail
  }

  function Tabs(n: nat, tail: string): string {
    if n == 0 then tail else [' '] + ([' '] + Tabs(n - 1, tail))
  }

  function Colon(pretty: bool, tail: string): string {
    [':'] + if pretty then [' '] + tail else tail
  }

  /** A document at a nesting level, written compactly or not, and after it `tail`. */
  function Render(v: Json, pretty: bool, nesting: nat, tail: string): string
    decreases v
  {
    match v
    case Null => ['n', 'u', 'l', 'l'] + tail
    case Bool(flag) => (if flag then ['t', 'r', 'u', 'e'] else ['f', 'a', 'l', 's', 'e']) + tail
    case Positive(n) => Decimal(n, tail)
    case Negative(n) => ['-'] + Decimal(n, tail)
    case Text(chars) => Quoted(chars, tail)
    case Array(elements) =>
      ['['] + if elements.NoElements? then [']'] + tail
              else Gap(pretty, nesting + 1, RenderElements(elements, pretty, nesting + 1, ClosingGap(pretty, nesting, ']', tail)))
    case Object(members) =>
      ['{'] + if members.NoMembers? then ['}'] + tail
              else Gap(pretty, nesting + 1, RenderMembers(members, pretty, nesting + 1, ClosingGap(pretty, nesting, '}', tail)))
  }

  function ClosingGap(pretty: bool, nesting: nat, bracket: char, tail: string): string {
    Gap(pretty, nesting, [bracket] + tail)
  }

  function RenderElements(es: Elements, pretty: bool, nesting: nat, tail: string): string
    decreases es
  {
    match es
    case NoElements => tail
    case Element(v, next) =>
      Render(v, pretty, nesting,
             if next.NoElements? then tail
             else [','] + Gap(pretty, nesting, RenderElements(next, pretty, nesting, tail)))
  }

  function RenderMembers(ms: Members, pretty: bool, nesting: nat, tail: string): string
    decreases ms
  {
    match ms
    case NoMembers => tail
    case Member(key, v, next) =>
      Quoted(key, Colon(pretty, Render(v, pretty, nesting,
             if next.NoMembers? then tail
             else [','] + Gap(pretty, nesting, RenderMembers(next, pretty, nesting, tail)))))
  }

  function Count(es: Elements): nat {
    if es.NoElements? then 0 else 1 + Count(es.next)
  }

  function MembersCount(ms: Members): nat {
    if ms.NoMembers? then 0 else 1 + MembersCount(ms.next)
  }

  /** How deep lists nest. */
  function Nesting(v: Json): nat {
    match v
    case Array(elements) => 1 + ElementsNesting(elements)
    case Object(members) => 1 + MembersNesting(members)
    case _ => 0
  }

  function ElementsNesting(es: Elements): nat {
    if es.NoElements? then 0 else Max(Nesting(es.value), ElementsNesting(es.next))
  }

  function MembersNesting(ms: Members): nat {
    if ms.NoMembers? then 0 else Max(Nesting(ms.value), MembersNesting(ms.next))
  }

  /** Strings are C strings and integers fit the unsigned type. */
  predicate Representable(v: Json, max: nat) {
    match v
    case Positive(n) => n <= max
    case Negative(n) => n <= max
    case Text(chars) => NUL !in chars
    case Array(elements) => ElementsRepresentable(elements, max)
    case Object(members) => MembersRepresentable(members, max)
    case _ => true
  }

  predicate ElementsRepresentable(es: Elements, max: nat) {
    es.Element? ==> Representable(es.value, max) && ElementsRepresentable(es.next, max)
  }

  predicate MembersRepresentable(ms: Members, max: nat) {
    ms.Member? ==> NUL !in ms.key && Representable(ms.value, max) && MembersRepresentable(ms.next, max)
  }

  lemma {:induction false} DecimalSplits(n: nat, t: string, tail: string)
    ensures Decimal(n, t + tail) == Decimal(n, t) + tail
    decreases n
  {
    var d := [DigitChar(n % 10)];
    assert d + (t + tail) == (d + t) + tail;
    if n >= 10 { DecimalSplits(n / 10, d + t, tail); }
  }

  function Pow10(k: nat): nat {
    if k == 0 then 1 else 10 * Pow10(k - 1)
  }

  /** What is written after an element at `nesting`: nothing more, or a comma and the others. */
  function AfterElement(next: Elements, pretty: bool, nesting: nat, close: string): string {
    if next.NoElements? then close else [','] + Gap(pretty, nesting, RenderElements(next, pretty, nesting, close))
  }

  function AfterMember(next: Members, pretty: bool, nesting: nat, close: string): string {
    if next.NoMembers? then close else [','] + Gap(pretty, nesting, RenderMembers(next, pretty, nesting, close))
  }

  /** A list grown at its end, as the list that begins with it. */
  function Onto(grown: seq<Json>, es: Elements): Elements {
    if grown == [] then es else Onto(grown[..|grown| - 1], Element(grown[|grown| - 1], es))
  }

  function MembersOnto(grown: seq<(string, Json)>, ms: Members): Members {
    if grown == [] then ms
    else MembersOnto(grown[..|grown| - 1], Member(grown[|grown| - 1].0, grown[|grown| - 1].1, ms))
  }

  lemma OntoOneMore(grown: seq<Json>, v: Json, es: Elements)
    ensures Onto(grown + [v], es) == Onto(grown, Element(v, es))
  {
    assert (grown + [v])[..|grown|] == grown;
  }

  lemma MembersOntoOneMore(grown: seq<(string, Json)>, key: string, v: Json, ms: Members)
    ensures MembersOnto(grown + [(key, v)], ms) == MembersOnto(grown, Member(key, v, ms))
  {
    assert (grown + [(key, v)])[..|grown|] == grown;
  }
}
