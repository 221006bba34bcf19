/**
 Reading back what was written: for every document without floats, in both forms, whatever follows it.
 */
module JsonRoundTrip {
  import opened CInt
  import opened JsonText
  import opened JsonParser

  lemma Head(c: char, t: string)
    ensures [c] + t != "" && ([c] + t)[0] == c && Current([c] + t) == c && ([c] + t)[1..] == t
  {
  }

  /** Text that no skipping touches. */
  predicate Solid(t: string) {
    t != "" && t[0] != NUL && !IsSpace(t[0]) && t[0] != '/'
  }

  lemma SkipSolid(t: string)
    requires Solid(t)
    ensures Skip(t) == Ok((), t)
  {
  }

  lemma SkipSpace(c: char, t: string)
    requires IsSpace(c)
    ensures Skip([c] + t) == Skip(t)
  {
    Head(c, t);
  }

  lemma {:induction false} SkipTabs(n: nat, t: string)
    ensures Skip(Tabs(n, t)) == Skip(t)
  {
    if n > 0 {
      SkipSpace(' ', [' '] + Tabs(n - 1, t));
      SkipSpace(' ', Tabs(n - 1, t));
      SkipTabs(n - 1, t);
    }
  }

  lemma SkipGap(pretty: bool, nesting: nat, t: string)
    ensures Skip(Gap(pretty, nesting, t)) == Skip(t)
  {
    hide Skip;
    if pretty {
      SkipSpace('\r', ['\n'] + Tabs(U8(nesting), t));
      SkipSpace('\n', Tabs(U8(nesting), t));
      SkipTabs(U8(nesting), t);
    }
  }

  /** A gap does not run on from a word. */
  lemma GapEndsWord(pretty: bool, nesting: nat, t: string)
    requires t != "" && !IsWord(t[0])
    ensures !IsWord(Current(Gap(pretty, nesting, t)))
  {
    if pretty { Head('\r', ['\n'] + Tabs(U8(nesting), t)); }
  }

  /** A written string reads back, and the text behind it is left. */
  lemma {:induction false} QuotedReadsBack(s: string, tail: string)
    requires NUL !in s
    ensures ParseQuoted(Escaped(s, ['"'] + tail), '"') == Ok(s, tail)
  {
    if s == "" {
      Head('"', tail);
    } else {
      var more := Escaped(s[1..], ['"'] + tail);
      QuotedReadsBack(s[1..], tail);
      EscapeRoundTrip(s[0]);
      assert s == [s[0]] + s[1..];
      if Escape(s[0]) != NUL {
        Head('\\', [Escape(s[0])] + more);
        Head(Escape(s[0]), more);
        assert (['\\'] + ([Escape(s[0])] + more))[2..] == more;
      } else {
        Head(s[0], more);
      }
    }
  }

  lemma DigitIs(d: nat)
    requires d < 10
    ensures IsDigit(DigitChar(d)) && (DigitChar(d) - '0') as nat == d && IsWord(DigitChar(d))
  {
  }

  /** Reading digits undoes writing them, up to what the type holds. */
  lemma {:induction false} DecimalReadsBack(n: nat, tail: string, max: nat)
    requires n <= max
    ensures Mantissa(Decimal(n, tail), 0, max) == Mantissa(tail, n, max)
    decreases n
  {
    var d := n % 10;
    DigitIs(d);
    Head(DigitChar(d), tail);
    var last := [DigitChar(d)] + tail;
    if n < 10 {
      MantissaStep(last, 0, max);
    } else {
      DecimalReadsBack(n / 10, last, max);
      assert n / 10 <= max / 10;
      MantissaStep(last, n / 10, max);
      assert n / 10 * 10 + d == n;
    }
  }

  lemma MantissaStep(s: string, mantissa: nat, max: nat)
    requires s != "" && IsDigit(s[0])
    requires mantissa <= max / 10 && mantissa * 10 + (s[0] - '0') as nat <= max
    ensures Mantissa(s, mantissa, max) == Mantissa(s[1..], mantissa * 10 + (s[0] - '0') as nat, max)
  {
  }

  function Digits(n: nat): nat {
    if n < 10 then 1 else 1 + Digits(n / 10)
  }

  lemma {:induction false} DecimalWord(n: nat, tail: string, limit: nat)
    requires Digits(n) <= limit && !IsWord(Current(tail))
    ensures Word(Decimal(n, tail), limit) == Decimal(n, "")
    ensures Decimal(n, tail)[|Decimal(n, "")|..] == tail && |Decimal(n, "")| <= |Decimal(n, tail)|
    ensures IsDigit(Current(Decimal(n, "")))
  {
    DecimalSplits(n, "", tail);
    assert "" + tail == tail;
    DecimalLength(n);
    WordOf(Decimal(n, ""), tail, limit);
  }

  predicate AllDigits(s: string) {
    forall c <- s :: IsDigit(c)
  }

  lemma {:induction false} DecimalDigits(n: nat, t: string)
    requires AllDigits(t)
    ensures AllDigits(Decimal(n, t)) && |Decimal(n, t)| == Digits(n) + |t|
    decreases n
  {
    DigitIs(n % 10);
    var last := [DigitChar(n % 10)] + t;
    assert AllDigits(last);
    if n >= 10 { DecimalDigits(n / 10, last); }
  }

  lemma DecimalLength(n: nat)
    ensures AllDigits(Decimal(n, "")) && |Decimal(n, "")| == Digits(n)
  {
    DecimalDigits(n, "");
  }

  lemma {:induction false} WordOf(w: string, tail: string, limit: nat)
    requires |w| <= limit && !IsWord(Current(tail)) && forall c <- w :: IsWord(c)
    ensures Word(w + tail, limit) == w
    decreases |w|
  {
    if w == "" {
      assert w + tail == tail;
    } else {
      assert (w + tail)[0] == w[0] && (w + tail)[1..] == w[1..] + tail;
      assert w[0] in w;
      WordOf(w[1..], tail, limit - 1);
      assert w == [w[0]] + w[1..];
    }
  }

  lemma {:induction false} DigitsBound(n: nat, k: nat)
    requires k > 0 && n < Pow10(k)
    ensures Digits(n) <= k
    decreases k
  {
    assert Pow10(k) == 10 * Pow10(k - 1) && Pow10(0) == 1;
    if n >= 10 { DigitsBound(n / 10, k - 1); }
  }

  /** The unsigned types of the two configurations. */
  predicate UnsignedMax(max: nat) {
    max == 0xFFFF_FFFF || max == 0xFFFF_FFFF_FFFF_FFFF
  }

  lemma AtMostTwentyDigits(n: nat, max: nat)
    requires UnsignedMax(max) && n <= max
    ensures Digits(n) <= 20
  {
    assert Pow10(10) == 10000000000;
    assert Pow10(20) == 10000000000 * Pow10(10) by {
      assert Pow10(15) == 100000 * Pow10(10);
      assert Pow10(20) == 100000 * Pow10(15);
    }
    DigitsBound(n, 20);
  }

  lemma WordNumber(w: string, digits: string, negative: bool, n: nat, max: nat)
    requires w == (if negative then ['-'] + digits else digits)
    requires IsDigit(Current(digits)) && Mantissa(digits, 0, max) == (n, "")
    ensures ParseNumber(w, max) == Ok(if negative then Negative(n) else Positive(n), "")
    ensures Current(w) !in {'t', 'f', 'n'}
  {
    hide Mantissa;
    if negative { Head('-', digits); }
  }

  /** The word a written integer is, read from the text it is in. */
  lemma IntegerWord(n: nat, negative: bool, tail: string, max: nat)
    requires UnsignedMax(max) && n <= max && !IsWord(Current(tail))
    ensures var digits := Decimal(n, ""); var text := Decimal(n, tail);
      && Word(text, 63) == digits && text == digits + tail
      && Word(['-'] + text, 63) == ['-'] + digits
      && IsDigit(Current(digits))
  {
    hide Word, Decimal, Digits;
    AtMostTwentyDigits(n, max);
    DecimalWord(n, tail, 62);
    DecimalWord(n, tail, 63);
    DecimalSplits(n, "", tail);
    assert "" + tail == tail;
    SignedWord(Decimal(n, tail), 63);
  }

  /** A written integer reads back. */
  lemma IntegerReadsBack(n: nat, negative: bool, tail: string, max: nat)
    requires UnsignedMax(max) && n <= max && !IsWord(Current(tail))
    ensures var text := if negative then ['-'] + Decimal(n, tail) else Decimal(n, tail);
      Starts(text) && ParseWord(text, max) == Ok(if negative then Negative(n) else Positive(n), tail)
  {
    hide Word, Mantissa, ParseNumber, Decimal, Digits;
    IntegerWord(n, negative, tail, max);
    DecimalReadsBack(n, "", max);
    MantissaEnds(n, max);
    var digits := Decimal(n, "");
    var w := if negative then ['-'] + digits else digits;
    WordNumber(w, digits, negative, n, max);
    var text := if negative then ['-'] + Decimal(n, tail) else Decimal(n, tail);
    assert text == w + tail && text[|w|..] == tail;
  }

  lemma MantissaEnds(n: nat, max: nat)
    ensures Mantissa("", n, max) == (n, "")
  {
  }

  lemma SignedWord(s: string, limit: nat)
    requires limit > 0
    ensures Word(['-'] + s, limit) == ['-'] + Word(s, limit - 1)
  {
    Head('-', s);
  }

  /** A text that starts a value. */
  predicate Starts(t: string) {
    Solid(t) && t[0] != ']' && t[0] != '}' && t[0] != '[' && t[0] != '{' && !IsQuote(t[0])
  }

  lemma LiteralReadsBack(v: Json, tail: string, max: nat)
    requires (v.Null? || v.Bool?) && !IsWord(Current(tail))
    ensures var text := Render(v, false, 0, tail); Starts(text) && ParseWord(text, max) == Ok(v, tail)
  {
    hide Word;
    var w := if v.Null? then ['n', 'u', 'l', 'l'] else if v.flag then ['t', 'r', 'u', 'e'] else ['f', 'a', 'l', 's', 'e'];
    WordOf(w, tail, 63);
    assert (w + tail)[|w|..] == tail;
  }

  /** What reading a written value gives: the value, or that lists nest too deep. */
  function Expected<T>(nesting: nat, limit: nat, value: T, rest: string): Parsed<T> {
    if nesting <= limit then Ok(value, rest) else Err(TooDeep)
  }

  predicate Opens(t: string) {
    Solid(t) && t[0] != ']' && t[0] != '}'
  }

  lemma {:induction false} ValueReadsBack(v: Json, pretty: bool, nesting: nat, tail: string, limit: nat, max: nat)
    requires UnsignedMax(max) && Representable(v, max) && (Enclosed(v) || !IsWord(Current(tail)))
    ensures Opens(Render(v, pretty, nesting, tail))
    ensures ParseValue(Render(v, pretty, nesting, tail), limit, max) == Expected(Nesting(v), limit, v, tail)
    decreases v
  {
    hide ParseWord, ParseQuoted, ParseArray, ParseObject, Decimal, Gap, RenderElements, RenderMembers;
    match v
    case Null => LiteralReadsBack(v, tail, max);
    case Bool(_) => LiteralReadsBack(v, tail, max);
    case Positive(n) => IntegerReadsBack(n, false, tail, max);
    case Negative(n) => IntegerReadsBack(n, true, tail, max);
    case Text(chars) =>
      Head('"', Escaped(chars, ['"'] + tail));
      QuotedReadsBack(chars, tail);
    case Array(elements) => ArrayReadsBack(elements, pretty, nesting, tail, limit, max);
    case Object(members) => ObjectReadsBack(members, pretty, nesting, tail, limit, max);
  }

  lemma ClosingIs(pretty: bool, nesting: nat, bracket: char, tail: string)
    requires bracket == ']' || bracket == '}'
    ensures var close := ClosingGap(pretty, nesting, bracket, tail);
      Skip(close) == Ok((), [bracket] + tail) && !IsWord(Current(close))
  {
    hide Gap, Skip;
    Head(bracket, tail);
    SkipGap(pretty, nesting, [bracket] + tail);
    SkipSolid([bracket] + tail);
    GapEndsWord(pretty, nesting, [bracket] + tail);
  }

  lemma {:induction false} ArrayReadsBack(es: Elements, pretty: bool, nesting: nat, tail: string, limit: nat, max: nat)
    requires UnsignedMax(max) && ElementsRepresentable(es, max)
    ensures var text := Render(Array(es), pretty, nesting, tail);
      text != "" && text[0] == '[' && ParseArray(text, limit, max) == Expected(1 + ElementsNesting(es), limit, Array(es), tail)
    decreases es, 1
  {
    hide Gap, Skip, RenderElements, ParseElements, ElementsNesting;
    if es.NoElements? {
      Head('[', [']'] + tail);
      Head(']', tail);
      SkipSolid([']'] + tail);
      NoNesting();
    } else {
      var close := ClosingGap(pretty, nesting, ']', tail);
      var inner := RenderElements(es, pretty, nesting + 1, close);
      ClosingIs(pretty, nesting, ']', tail);
      Head('[', Gap(pretty, nesting + 1, inner));
      if limit > 0 {
        SkipGap(pretty, nesting + 1, inner);
        ElementsReadBack(es, pretty, nesting + 1, inner, close, tail, limit, max);
        SkipSolid(inner);
      }
    }
  }

  lemma NoNesting()
    ensures ElementsNesting(NoElements) == 0 && MembersNesting(NoMembers) == 0
  {
  }

  lemma ElementStep(es: Elements, pretty: bool, nesting: nat, close: string)
    requires es.Element?
    ensures RenderElements(es, pretty, nesting, close) ==
      Render(es.value, pretty, nesting, AfterElement(es.next, pretty, nesting, close))
    ensures ElementsNesting(es) == Max(Nesting(es.value), ElementsNesting(es.next))
  {
    hide Render;
  }

  /** `text` is the written elements, perhaps after what skipping removes. */
  lemma {:induction false} ElementsReadBack(
      es: Elements, pretty: bool, nesting: nat, text: string, close: string, rest: string, limit: nat, max: nat)
    requires UnsignedMax(max) && es.Element? && ElementsRepresentable(es, max) && limit > 0
    requires Skip(close) == Ok((), [']'] + rest) && !IsWord(Current(close))
    requires Skip(text) == Skip(RenderElements(es, pretty, nesting, close))
    ensures Opens(RenderElements(es, pretty, nesting, close))
    ensures ParseElements(text, limit, max) == Expected(ElementsNesting(es), limit - 1, es, rest)
    decreases es, 0
  {
    hide Gap, Skip, RenderElements, ParseValue, Render, Nesting, ElementsNesting;
    var after := AfterElement(es.next, pretty, nesting, close);
    ElementStep(es, pretty, nesting, close);
    if es.next.Element? {
      var inner := RenderElements(es.next, pretty, nesting, close);
      Head(',', Gap(pretty, nesting, inner));
      SkipSolid(after);
      SkipGap(pretty, nesting, inner);
      ElementsReadBack(es.next, pretty, nesting, after[1..], close, rest, limit, max);
    } else {
      Head(']', rest);
      NoNesting();
    }
    ValueReadsBack(es.value, pretty, nesting, after, limit - 1, max);
    SkipSolid(RenderElements(es, pretty, nesting, close));
  }

  lemma {:induction false} ObjectReadsBack(ms: Members, pretty: bool, nesting: nat, tail: string, limit: nat, max: nat)
    requires UnsignedMax(max) && MembersRepresentable(ms, max)
    ensures var text := Render(Object(ms), pretty, nesting, tail);
      text != "" && text[0] == '{' && ParseObject(text, limit, max) == Expected(1 + MembersNesting(ms), limit, Object(ms), tail)
    decreases ms, 1
  {
    hide Gap, Skip, RenderMembers, ParseMembers, MembersNesting;
    if ms.NoMembers? {
      Head('{', ['}'] + tail);
      Head('}', tail);
      SkipSolid(['}'] + tail);
      NoNesting();
    } else {
      var close := ClosingGap(pretty, nesting, '}', tail);
      var inner := RenderMembers(ms, pretty, nesting + 1, close);
      ClosingIs(pretty, nesting, '}', tail);
      Head('{', Gap(pretty, nesting + 1, inner));
      if limit > 0 {
        SkipGap(pretty, nesting + 1, inner);
        MembersReadBack(ms, pretty, nesting + 1, close, tail, limit, max);
        SkipSolid(inner);
      }
    }
  }

  lemma MemberStep(ms: Members, pretty: bool, nesting: nat, close: string)
    requires ms.Member?
    ensures RenderMembers(ms, pretty, nesting, close) ==
      Quoted(ms.key, Colon(pretty, Render(ms.value, pretty, nesting, AfterMember(ms.next, pretty, nesting, close))))
    ensures MembersNesting(ms) == Max(Nesting(ms.value), MembersNesting(ms.next))
  {
    hide Render;
  }

  lemma KeyReadsBack(key: string, tail: string)
    requires NUL !in key
    ensures Opens(Quoted(key, tail)) && ParseKey(Quoted(key, tail)) == Ok(key, tail)
  {
    hide ParseQuoted;
    Head('"', Escaped(key, ['"'] + tail));
    QuotedReadsBack(key, tail);
  }

  lemma ColonReadsBack(pretty: bool, value: string)
    requires Solid(value)
    ensures var colon := Colon(pretty, value);
      Skip(colon) == Ok((), colon) && colon[0] == ':' && Skip(colon[1..]) == Ok((), value)
  {
    hide Skip;
    Head(':', if pretty then [' '] + value else value);
    SkipSolid(Colon(pretty, value));
    SkipSolid(value);
    if pretty { SkipSpace(' ', value); }
  }

  lemma {:induction false} MembersReadBack(
      ms: Members, pretty: bool, nesting: nat, close: string, rest: string, limit: nat, max: nat)
    requires UnsignedMax(max) && ms.Member? && MembersRepresentable(ms, max) && limit > 0
    requires Skip(close) == Ok((), ['}'] + rest) && !IsWord(Current(close))
    ensures Opens(RenderMembers(ms, pretty, nesting, close))
    ensures ParseMembers(RenderMembers(ms, pretty, nesting, close), limit, max)
      == Expected(MembersNesting(ms), limit - 1, ms, rest)
    decreases ms, 0
  {
    hide Gap, Skip, RenderMembers, ParseValue, Render, Nesting, MembersNesting, ParseKey, Quoted, Colon;
    var after := AfterMember(ms.next, pretty, nesting, close);
    MemberStep(ms, pretty, nesting, close);
    if ms.next.Member? {
      var inner := RenderMembers(ms.next, pretty, nesting, close);
      Head(',', Gap(pretty, nesting, inner));
      SkipSolid(after);
      SkipGap(pretty, nesting, inner);
      MembersReadBack(ms.next, pretty, nesting, close, rest, limit, max);
      SkipSolid(inner);
    } else {
      Head('}', rest);
      NoNesting();
    }
    var value := Render(ms.value, pretty, nesting, after);
    ValueReadsBack(ms.value, pretty, nesting, after, limit - 1, max);
    KeyReadsBack(ms.key, Colon(pretty, value));
    ColonReadsBack(pretty, value);
  }

  /** MAIN (JSON): reading what either printer wrote of a document, whatever follows it, gives the same
      document, every list in order, when its lists nest at most `limit` deep, and otherwise reports that
      they are too deep. */
  lemma ReadsBack(v: Json, pretty: bool, limit: nat, max: nat, tail: string)
    requires UnsignedMax(max) && Representable(v, max) && (Enclosed(v) || tail == "")
    ensures Parse(Render(v, pretty, 0, tail), limit, max) == Expected(Nesting(v), limit, v, tail)
  {
    hide ParseValue, Render, Skip;
    ValueReadsBack(v, pretty, 0, tail, limit, max);
    SkipSolid(Render(v, pretty, 0, tail));
  }

  // ---- What a parser can return

  lemma {:induction false} QuotedHasNoNul(s: string, stop: char)
    requires stop != NUL
    ensures var p := ParseQuoted(s, stop); p.Ok? ==> NUL !in p.value
    decreases |s|
  {
    if s != "" && s[0] != stop && s[0] != NUL {
      if s[0] != '\\' {
        QuotedHasNoNul(s[1..], stop);
      } else if |s| > 1 {
        QuotedHasNoNul(s[2..], stop);
      }
    }
  }

  lemma {:induction false} WordHasNoNul(s: string, limit: nat)
    ensures NUL !in Word(s, limit)
    decreases limit
  {
    if limit > 0 && s != "" { WordHasNoNul(s[1..], limit - 1); }
  }

  lemma KeyHasNoNul(s: string)
    ensures var p := ParseKey(s); p.Ok? ==> NUL !in p.value
  {
    hide ParseQuoted, Word;
    if IsQuote(Current(s)) { QuotedHasNoNul(s[1..], s[0]); } else { WordHasNoNul(s, |s|); }
  }

  lemma {:induction false} MantissaFits(s: string, mantissa: nat, max: nat)
    requires mantissa <= max
    ensures var (m, left) := Mantissa(s, mantissa, max); left == "" ==> m <= max
    decreases |s|
  {
    if s != "" && IsDigit(s[0]) {
      var digit := (s[0] - '0') as nat;
      if mantissa <= max / 10 && mantissa * 10 <= max - digit { MantissaFits(s[1..], mantissa * 10 + digit, max); }
    }
  }

  lemma WordIsRepresentable(s: string, max: nat)
    ensures var p := ParseWord(s, max); p.Ok? ==> Representable(p.value, max) && Nesting(p.value) == 0
  {
    hide Word, Mantissa;
    var w := Word(s, 63);
    var digits := if w != "" && (w[0] == '-' || w[0] == '+') then w[1..] else w;
    MantissaFits(digits, 0, max);
  }

  lemma {:induction false} VariantIsRepresentable(s: string, limit: nat, max: nat)
    ensures var p := ParseVariant(s, limit, max); p.Ok? ==> Representable(p.value, max) && Nesting(p.value) <= limit
    decreases |s|, 4
  {
    hide Skip, ParseValue;
    var skipped := Skip(s);
    if skipped.Ok? {
      ValueIsRepresentable(skipped.rest, limit, max);
    }
  }

  lemma {:induction false} ValueIsRepresentable(s: string, limit: nat, max: nat)
    requires s != ""
    ensures var p := ParseValue(s, limit, max); p.Ok? ==> Representable(p.value, max) && Nesting(p.value) <= limit
    decreases |s|, 3
  {
    hide Skip, ParseWord, ParseQuoted, ParseElements, ParseMembers;
    if s[0] == '[' {
      assert ParseValue(s, limit, max) == ParseArray(s, limit, max);
      var inner := Skip(s[1..]);
      if limit > 0 && inner.Ok? { ElementsAreRepresentable(inner.rest, limit, max); }
    } else if s[0] == '{' {
      assert ParseValue(s, limit, max) == ParseObject(s, limit, max);
      var inner := Skip(s[1..]);
      if limit > 0 && inner.Ok? { MembersAreRepresentable(inner.rest, limit, max); }
    } else if IsQuote(s[0]) {
      QuotedHasNoNul(s[1..], s[0]);
    } else {
      WordIsRepresentable(s, max);
    }
  }

  lemma {:induction false} ElementsAreRepresentable(s: string, limit: nat, max: nat)
    requires limit > 0
    ensures var p := ParseElements(s, limit, max);
      p.Ok? ==> ElementsRepresentable(p.value, max) && ElementsNesting(p.value) <= limit - 1
    decreases |s|, 5
  {
    hide Skip, ParseVariant;
    VariantIsRepresentable(s, limit - 1, max);
    var v := ParseVariant(s, limit - 1, max);
    if v.Ok? {
      var skipped := Skip(v.rest);
      if skipped.Ok? { ElementsAreRepresentable(skipped.rest[1..], limit, max); }
    }
  }

  lemma {:induction false} MembersAreRepresentable(s: string, limit: nat, max: nat)
    requires limit > 0
    ensures var p := ParseMembers(s, limit, max);
      p.Ok? ==> MembersRepresentable(p.value, max) && MembersNesting(p.value) <= limit - 1
    decreases |s|, 5
  {
    hide Skip, ParseVariant, ParseKey;
    KeyHasNoNul(s);
    var key := ParseKey(s);
    if key.Ok? {
      var colon := Skip(key.rest);
      if colon.Ok? {
        VariantIsRepresentable(colon.rest[1..], limit - 1, max);
        var v := ParseVariant(colon.rest[1..], limit - 1, max);
        if v.Ok? {
          var skipped := Skip(v.rest);
          if skipped.Ok? {
            var next := Skip(skipped.rest[1..]);
            if next.Ok? { MembersAreRepresentable(next.rest, limit, max); }
          }
        }
      }
    }
  }

  /** MAIN (JSON): whatever text reads as a document without floats, with whatever spaces, comments and
      quotes, writing that document in either form and reading it again changes nothing. */
  lemma NormalizesOnce(s: string, pretty: bool, limit: nat, max: nat)
    requires UnsignedMax(max)
    ensures var p := Parse(s, limit, max);
      p.Ok? ==> Nesting(p.value) <= limit && Parse(Render(p.value, pretty, 0, ""), limit, max) == Ok(p.value, "")
  {
    hide ParseVariant, Render;
    VariantIsRepresentable(s, limit, max);
    var p := Parse(s, limit, max);
    if p.Ok? { ReadsBack(p.value, pretty, limit, max, ""); }
  }
}
