/**
 Reading whatever is JSON: the parser against the grammar, on every text and not only on those the printers write,
 with white space wherever the grammar has it and, relaxed, comments, single quotes and keys without quotes.
 */
module JsonReading {
  import opened Wrappers
  import opened JsonText
  import opened JsonGrammar
  import opened JsonParser
  import R = JsonRoundTrip

  /** The integers of the document are within the unsigned type. */
  predicate IntegersFit(v: Json, max: nat) {
    match v
    case Positive(n) => n <= max
    case Negative(n) => n <= max
    case Array(elements) => ElementsFit(elements, max)
    case Object(members) => MembersFit(members, max)
    case _ => true
  }

  predicate ElementsFit(es: Elements, max: nat) {
    es.Element? ==> IntegersFit(es.value, max) && ElementsFit(es.next, max)
  }

  predicate MembersFit(ms: Members, max: nat) {
    ms.Member? ==> IntegersFit(ms.value, max) && MembersFit(ms.next, max)
  }

  // ---- Between lexemes

  lemma StarSlash(s: string)
    ensures |s| > 1 && s[0] == '*' && s[1] == '/' <==> "*/" <= s
  {
    if |s| > 1 && s[0] == '*' && s[1] == '/' { assert s[..2] == "*/"; }
  }

  lemma {:induction false} BlockAgrees(s: string, wasStar: bool)
    requires BlockRest(s).Some? && !(wasStar && s[0] == '/')
    ensures BlockEnd(s, wasStar) == Ok((), BlockRest(s).value)
    decreases |s|
  {
    if "*/" <= s {
      assert BlockEnd(s[1..], true) == Ok((), s[1..][1..]);
    } else {
      StarSlash(s);
      BlockAgrees(s[1..], s[0] == '*');
    }
  }

  lemma {:induction false} LineAgrees(s: string)
    requires LineRest(s).Some?
    ensures LineEnd(s) == Ok((), LineRest(s).value)
    decreases |s|
  {
    if s[0] != '\n' { LineAgrees(s[1..]); }
  }

  /** The parser skips what the grammar takes for layout. */
  lemma {:induction false} LayoutIsSkipped(s: string, relaxed: bool)
    requires R.Solid(Layout(s, relaxed))
    ensures Skip(s) == Ok((), Layout(s, relaxed))
    decreases |s|
  {
    if IsBlank(s[0]) {
      LayoutIsSkipped(s[1..], relaxed);
    } else if relaxed && "/*" <= s {
      assert s[1..][0] == '*' && s[1..][1..] == s[2..];
      BlockAgrees(s[2..], false);
      LayoutIsSkipped(BlockRest(s[2..]).value, relaxed);
    } else if relaxed && "//" <= s {
      assert s[1..][0] == '/' && s[1..][1..] == s[2..];
      LineAgrees(s[2..]);
      LayoutIsSkipped(LineRest(s[2..]).value, relaxed);
    }
  }

  // ---- Lexemes

  lemma {:induction false} StringAgrees(s: string, quote: char)
    requires quote == '"' || quote == '\''
    requires ReadString(s, quote).Reads?
    ensures var r := ReadString(s, quote); ParseQuoted(s, quote) == Ok(r.value, r.rest)
    decreases |s|
  {
    if s[0] != quote {
      if s[0] == '\\' {
        assert Unescape(s[1]) == Meant(s[1], quote).value;
        assert s[1..][0] == s[1];
        StringAgrees(s[2..], quote);
      } else {
        StringAgrees(s[1..], quote);
      }
    }
  }

  /** Digits read are the decimal digits of their value. */
  lemma {:induction false} DigitsAreDecimal(s: string, n: nat)
    requires n > 0
    ensures var (m, rest) := ReadDigits(s, n);
      Decimal(n, s) == Decimal(m, rest) && (rest == "" || !('0' <= rest[0] <= '9'))
    decreases |s|
  {
    if s != "" && '0' <= s[0] <= '9' {
      var d := (s[0] - '0') as nat;
      DigitsAreDecimal(s[1..], n * 10 + d);
      assert (n * 10 + d) % 10 == d && (n * 10 + d) / 10 == n;
      assert [DigitChar(d)] + s[1..] == s;
    }
  }

  lemma IntegerIsDecimal(s: string)
    requires ReadInteger(s).Reads?
    ensures var r := ReadInteger(s); s == Decimal(r.value, r.rest)
  {
    var d := (s[0] - '0') as nat;
    assert [DigitChar(d)] + s[1..] == s;
    assert Decimal(d, s[1..]) == s;
    if d > 0 { DigitsAreDecimal(s[1..], d); }
  }

  /** A literal or a number is written as the printers write it. */
  lemma WordIsPrinted(s: string)
    requires ReadWord(s).Reads?
    ensures var r := ReadWord(s);
      && (r.value.Null? || r.value.Bool? || r.value.Positive? || r.value.Negative?)
      && s == Render(r.value, false, 0, r.rest)
  {
    hide ReadInteger, Decimal;
    if "null" <= s {
      assert s == "null" + s[4..];
    } else if "true" <= s {
      assert s == "true" + s[4..];
    } else if "false" <= s {
      assert s == "false" + s[5..];
    } else if "-" <= s {
      IntegerIsDecimal(s[1..]);
      assert s == ['-'] + s[1..];
    } else {
      IntegerIsDecimal(s);
    }
  }

  lemma WordAgrees(s: string, relaxed: bool, max: nat)
    requires R.UnsignedMax(max) && ReadWord(s).Reads? && Delimited(ReadWord(s).rest, relaxed)
    requires IntegersFit(ReadWord(s).value, max)
    ensures var r := ReadWord(s); R.Starts(s) && ParseWord(s, max) == Ok(r.value, r.rest) && Nesting(r.value) == 0
  {
    hide ReadWord, ParseWord, Decimal;
    WordIsPrinted(s);
    var r := ReadWord(s);
    assert !IsWord(Current(r.rest));
    if r.value.Positive? {
      R.IntegerReadsBack(r.value.magnitude, false, r.rest, max);
    } else if r.value.Negative? {
      R.IntegerReadsBack(r.value.magnitude, true, r.rest, max);
    } else {
      R.LiteralReadsBack(r.value, r.rest, max);
    }
  }

  lemma {:induction false} NameIsWord(s: string, limit: nat)
    requires var n := NameLength(s); n <= limit && n < |s| && !IsWord(s[n])
    ensures Word(s, limit) == s[..NameLength(s)]
    decreases |s|
  {
    if NameLength(s) > 0 {
      NameIsWord(s[1..], limit - 1);
      assert s[..NameLength(s)] == [s[0]] + s[1..][..NameLength(s[1..])];
    }
  }

  lemma KeyAgrees(s: string, relaxed: bool)
    requires ReadKey(s, relaxed).Reads?
    ensures var r := ReadKey(s, relaxed); R.Opens(s) && ParseKey(s) == Ok(r.value, r.rest)
  {
    hide ReadString, ParseQuoted, Word;
    if IsQuoteOf(s[0], relaxed) {
      StringAgrees(s[1..], s[0]);
    } else {
      assert IsNameChar(s[0]);
      NameIsWord(s, |s|);
    }
  }

  // ---- Values

  lemma {:induction false} ValueAgrees(s: string, relaxed: bool, limit: nat, max: nat)
    requires R.UnsignedMax(max) && ReadValue(s, relaxed).Reads? && IntegersFit(ReadValue(s, relaxed).value, max)
    ensures var r := ReadValue(s, relaxed);
      R.Opens(s) && ParseValue(s, limit, max) == R.Expected(Nesting(r.value), limit, r.value, r.rest)
    decreases |s|, 0
  {
    hide Skip, Layout, ReadString, ParseQuoted, ReadWord, ParseWord, ReadElements, ParseElements, ReadMembers,
      ParseMembers;
    if IsQuoteOf(s[0], relaxed) {
      StringAgrees(s[1..], s[0]);
    } else if s[0] == '[' {
      ArrayAgrees(s, relaxed, limit, max);
    } else if s[0] == '{' {
      ObjectAgrees(s, relaxed, limit, max);
    } else {
      WordAgrees(s, relaxed, max);
    }
  }

  lemma {:induction false} ArrayAgrees(s: string, relaxed: bool, limit: nat, max: nat)
    requires R.UnsignedMax(max) && s != "" && s[0] == '['
    requires ReadValue(s, relaxed).Reads? && IntegersFit(ReadValue(s, relaxed).value, max)
    ensures var r := ReadValue(s, relaxed);
      ParseArray(s, limit, max) == R.Expected(Nesting(r.value), limit, r.value, r.rest)
    decreases |s|, 0, 0
  {
    hide Skip, Layout, ReadElements, ParseElements, ElementsNesting, ElementsFit;
    var inner := Layout(s[1..], relaxed);
    R.NoNesting();
    if "]" <= inner {
      LayoutIsSkipped(s[1..], relaxed);
    } else if limit > 0 {
      if R.Solid(inner) { R.SkipSolid(inner); }
      ElementsAgree(inner, inner, relaxed, limit, max);
      LayoutIsSkipped(s[1..], relaxed);
    }
  }

  /** `text` is what the grammar reads elements from, perhaps behind layout. */
  lemma {:induction false} ElementsAgree(text: string, s: string, relaxed: bool, limit: nat, max: nat)
    requires R.UnsignedMax(max) && limit > 0 && R.Solid(s) ==> Skip(text) == Ok((), s)
    requires R.UnsignedMax(max) && limit > 0
    requires ReadElements(s, relaxed).Reads? && ElementsFit(ReadElements(s, relaxed).value, max)
    ensures var r := ReadElements(s, relaxed);
      R.Opens(s) && ParseElements(text, limit, max) == R.Expected(ElementsNesting(r.value), limit - 1, r.value, r.rest)
    decreases |s|, 1
  {
    hide Skip, Layout, ReadValue, ParseValue, Nesting, IntegersFit;
    ValueAgrees(s, relaxed, limit - 1, max);
    var v := ReadValue(s, relaxed);
    var after := Layout(v.rest, relaxed);
    LayoutIsSkipped(v.rest, relaxed);
    R.NoNesting();
    if !("]" <= after) {
      var next := Layout(after[1..], relaxed);
      if R.Solid(next) { LayoutIsSkipped(after[1..], relaxed); }
      ElementsAgree(after[1..], next, relaxed, limit, max);
    }
  }

  lemma {:induction false} ObjectAgrees(s: string, relaxed: bool, limit: nat, max: nat)
    requires R.UnsignedMax(max) && s != "" && s[0] == '{'
    requires ReadValue(s, relaxed).Reads? && IntegersFit(ReadValue(s, relaxed).value, max)
    ensures var r := ReadValue(s, relaxed);
      ParseObject(s, limit, max) == R.Expected(Nesting(r.value), limit, r.value, r.rest)
    decreases |s|, 0, 0
  {
    hide Skip, Layout, ReadMembers, ParseMembers, MembersNesting, MembersFit;
    var inner := Layout(s[1..], relaxed);
    R.NoNesting();
    if "}" <= inner {
      LayoutIsSkipped(s[1..], relaxed);
    } else if limit > 0 {
      MembersAgree(inner, relaxed, limit, max);
      LayoutIsSkipped(s[1..], relaxed);
    }
  }

  lemma {:induction false} MembersAgree(s: string, relaxed: bool, limit: nat, max: nat)
    requires R.UnsignedMax(max) && limit > 0
    requires ReadMembers(s, relaxed).Reads? && MembersFit(ReadMembers(s, relaxed).value, max)
    ensures var r := ReadMembers(s, relaxed);
      R.Opens(s) && ParseMembers(s, limit, max) == R.Expected(MembersNesting(r.value), limit - 1, r.value, r.rest)
    decreases |s|, 1
  {
    hide Skip, Layout, ReadValue, ParseValue, Nesting, IntegersFit, ReadKey, ParseKey;
    KeyAgrees(s, relaxed);
    var key := ReadKey(s, relaxed);
    var colon := Layout(key.rest, relaxed);
    LayoutIsSkipped(key.rest, relaxed);
    var value := Layout(colon[1..], relaxed);
    ValueAgrees(value, relaxed, limit - 1, max);
    LayoutIsSkipped(colon[1..], relaxed);
    var v := ReadValue(value, relaxed);
    var after := Layout(v.rest, relaxed);
    LayoutIsSkipped(v.rest, relaxed);
    R.NoNesting();
    if !("}" <= after) {
      var next := Layout(after[1..], relaxed);
      MembersAgree(next, relaxed, limit, max);
      LayoutIsSkipped(after[1..], relaxed);
    }
  }

  /** MAIN (JSON): every text that says a document is read as that document, if its integers fit and its lists nest
      at most `limit` deep, and too deep lists are reported; only that of a text that is no list and no string nothing
      may be left, not even white space. */
  lemma ReadsEveryText(s: string, relaxed: bool, limit: nat, max: nat)
    requires R.UnsignedMax(max) && ReadValue(Layout(s, relaxed), relaxed).Reads?
    requires IntegersFit(ReadValue(Layout(s, relaxed), relaxed).value, max)
    ensures var r := ReadValue(Layout(s, relaxed), relaxed);
      Parse(s, limit, max) == if Enclosed(r.value) || r.rest == "" then R.Expected(Nesting(r.value), limit, r.value, r.rest)
                              else Err(InvalidInput)
  {
    hide Skip, Layout, ReadValue, ParseValue;
    var t := Layout(s, relaxed);
    ValueAgrees(t, relaxed, limit, max);
    LayoutIsSkipped(s, relaxed);
    WordsAreDelimited(t, relaxed);
  }

  lemma WordsAreDelimited(s: string, relaxed: bool)
    requires ReadValue(s, relaxed).Reads?
    ensures var r := ReadValue(s, relaxed); Enclosed(r.value) || (Delimited(r.rest, relaxed) && Nesting(r.value) == 0)
  {
    hide Layout, ReadElements, ReadMembers, ReadInteger;
  }

  /** MAIN (JSON): texts that say the same document, however they are laid out, quoted and commented, read the same. */
  lemma LayoutDoesNotMatter(s: string, t: string, limit: nat, max: nat)
    requires R.UnsignedMax(max)
    requires var r, q := ReadValue(Layout(s, true), true), ReadValue(Layout(t, true), true);
      r.Reads? && r == q && IntegersFit(r.value, max)
    ensures Parse(s, limit, max) == Parse(t, limit, max)
  {
    hide Parse, Layout, ReadValue;
    ReadsEveryText(s, true, limit, max);
    ReadsEveryText(t, true, limit, max);
  }

  /** A number with a space behind it is a JSON text that is refused. */
  lemma SpaceBehindNumberRefused(limit: nat, max: nat)
    requires R.UnsignedMax(max)
    ensures ReadValue("1 ", false) == Reads(Positive(1), " ") && Layout(" ", false) == ""
    ensures Parse("1 ", limit, max) == Err(InvalidInput)
  {
    assert "1 "[1..] == " ";
    assert ReadDigits(" ", 1) == (1, " ");
    assert ReadInteger("1 ") == Reads(1, " ");
    assert ReadWord("1 ") == Reads(Positive(1), " ");
    assert Layout("1 ", false) == "1 ";
    ReadsEveryText("1 ", false, limit, max);
  }

  // ---- What is accepted

  /** Behind a string, from inside it. */
  function BehindString(s: string, quote: char): (rest: string)
    ensures |rest| <= |s|
    decreases |s|
  {
    if s == "" then s
    else if s[0] == quote then s[1..]
    else if s[0] == '\\' && |s| > 1 then BehindString(s[2..], quote)
    else BehindString(s[1..], quote)
  }

  /** The brackets, commas and colons of a text, in order, outside strings and comments. */
  function Skeleton(s: string): string
    decreases |s|
  {
    if s == "" then ""
    else if s[0] == '"' || s[0] == '\'' then Skeleton(BehindString(s[1..], s[0]))
    else if "/*" <= s && BlockRest(s[2..]).Some? then Skeleton(BlockRest(s[2..]).value)
    else if "//" <= s && LineRest(s[2..]).Some? then Skeleton(LineRest(s[2..]).value)
    else if s[0] in {'[', ']', '{', '}', ',', ':'} then [s[0]] + Skeleton(s[1..])
    else Skeleton(s[1..])
  }

  /** The brackets, commas and colons that a document has, and after them `tail`. */
  function Bones(v: Json, tail: string): string
    decreases v
  {
    match v
    case Array(elements) => ['['] + ElementBones(elements, [']'] + tail)
    case Object(members) => ['{'] + MemberBones(members, ['}'] + tail)
    case _ => tail
  }

  function ElementBones(es: Elements, tail: string): string
    decreases es
  {
    match es
    case NoElements => tail
    case Element(v, next) => Bones(v, if next.NoElements? then tail else [','] + ElementBones(next, tail))
  }

  function MemberBones(ms: Members, tail: string): string
    decreases ms
  {
    match ms
    case NoMembers => tail
    case Member(_, v, next) => [':'] + Bones(v, if next.NoMembers? then tail else [','] + MemberBones(next, tail))
  }

  lemma {:induction false} QuotedSkipped(s: string, quote: char)
    requires quote != NUL && ParseQuoted(s, quote).Ok?
    ensures BehindString(s, quote) == ParseQuoted(s, quote).rest
    decreases |s|
  {
    if s[0] != quote {
      if s[0] == '\\' { QuotedSkipped(s[2..], quote); } else { QuotedSkipped(s[1..], quote); }
    }
  }

  lemma {:induction false} BlockSkipped(s: string, wasStar: bool)
    requires BlockEnd(s, wasStar).Ok? && !(wasStar && s[0] == '/')
    ensures BlockRest(s) == Some(BlockEnd(s, wasStar).rest)
    decreases |s|
  {
    StarSlash(s);
    if "*/" <= s {
      assert BlockEnd(s[1..], true) == Ok((), s[1..][1..]);
    } else {
      BlockSkipped(s[1..], s[0] == '*');
    }
  }

  lemma {:induction false} LineSkipped(s: string)
    requires LineEnd(s).Ok?
    ensures LineRest(s) == Some(LineEnd(s).rest)
    decreases |s|
  {
    if s[0] != '\n' { LineSkipped(s[1..]); }
  }

  lemma {:induction false} SkippedHasNoBones(s: string)
    requires Skip(s).Ok?
    ensures Skeleton(s) == Skeleton(Skip(s).rest)
    decreases |s|
  {
    if IsSpace(s[0]) {
      SkippedHasNoBones(s[1..]);
    } else if s[0] == '/' {
      assert s[1..][1..] == s[2..];
      if s[1] == '*' {
        assert "/*" <= s by { assert s[..2] == "/*"; }
        BlockSkipped(s[2..], false);
        SkippedHasNoBones(BlockEnd(s[2..], false).rest);
      } else {
        assert "//" <= s by { assert s[..2] == "//"; }
        LineSkipped(s[2..]);
        SkippedHasNoBones(LineEnd(s[2..]).rest);
      }
    }
  }

  lemma WordCharIsNoBone(s: string)
    requires s != "" && IsWord(s[0])
    ensures Skeleton(s) == Skeleton(s[1..])
  {
    hide BehindString, BlockRest, LineRest;
    assert !("/*" <= s) && !("//" <= s);
  }

  lemma {:induction false} WordHasNoBones(s: string, limit: nat)
    ensures Skeleton(s) == Skeleton(s[|Word(s, limit)|..])
    decreases limit
  {
    hide Skeleton;
    if limit > 0 && s != "" && IsWord(s[0]) {
      WordCharIsNoBone(s);
      WordHasNoBones(s[1..], limit - 1);
      assert s[1..][|Word(s[1..], limit - 1)|..] == s[|Word(s, limit)|..];
    } else {
      assert s[0..] == s;
    }
  }

  lemma KeyHasNoBones(s: string)
    requires ParseKey(s).Ok?
    ensures Skeleton(s) == Skeleton(ParseKey(s).rest)
  {
    hide ParseQuoted, Word;
    if IsQuote(Current(s)) { QuotedSkipped(s[1..], s[0]); } else { WordHasNoBones(s, |s|); }
  }

  lemma Bone(c: char, s: string)
    requires s != "" && s[0] == c && c in {'[', ']', '{', '}', ',', ':'}
    ensures Skeleton(s) == [c] + Skeleton(s[1..])
  {
  }

  lemma {:induction false} ValueBones(s: string, limit: nat, max: nat)
    requires s != "" && ParseValue(s, limit, max).Ok?
    ensures var p := ParseValue(s, limit, max); Skeleton(s) == Bones(p.value, Skeleton(p.rest))
    decreases |s|, 0
  {
    hide Skip, ParseQuoted, Word, ParseNumber, ParseElements, ParseMembers, Skeleton, BehindString;
    if s[0] == '[' {
      assert ParseValue(s, limit, max) == ParseArray(s, limit, max);
      Bone('[', s);
      SkippedHasNoBones(s[1..]);
      var inner := Skip(s[1..]).rest;
      if inner[0] == ']' { Bone(']', inner); } else { ElementsBones(inner, limit, max); }
    } else if s[0] == '{' {
      assert ParseValue(s, limit, max) == ParseObject(s, limit, max);
      Bone('{', s);
      SkippedHasNoBones(s[1..]);
      var inner := Skip(s[1..]).rest;
      if inner[0] == '}' { Bone('}', inner); } else { MembersBones(inner, limit, max); }
    } else if IsQuote(s[0]) {
      QuotedSkipped(s[1..], s[0]);
      QuoteBones(s);
    } else {
      WordHasNoBones(s, 63);
      WordValue(s, max);
    }
  }

  lemma QuoteBones(s: string)
    requires s != "" && IsQuote(s[0])
    ensures Skeleton(s) == Skeleton(BehindString(s[1..], s[0]))
  {
    hide BehindString;
  }

  lemma WordValue(s: string, max: nat)
    ensures var p := ParseWord(s, max); p.Ok? ==> !Enclosed(p.value) && p.rest == s[|Word(s, 63)|..]
  {
    hide Word, Mantissa;
  }

  lemma {:induction false} ElementsBones(s: string, limit: nat, max: nat)
    requires limit > 0 && ParseElements(s, limit, max).Ok?
    ensures var p := ParseElements(s, limit, max);
      p.value.Element? && Skeleton(s) == ElementBones(p.value, [']'] + Skeleton(p.rest))
    decreases |s|, 1
  {
    hide Skip, ParseValue, Skeleton, Bones;
    SkippedHasNoBones(s);
    var first := Skip(s).rest;
    ValueBones(first, limit - 1, max);
    var v := ParseValue(first, limit - 1, max);
    SkippedHasNoBones(v.rest);
    var after := Skip(v.rest).rest;
    if after[0] == ']' {
      Bone(']', after);
    } else {
      Bone(',', after);
      ElementsBones(after[1..], limit, max);
    }
  }

  lemma {:induction false} MembersBones(s: string, limit: nat, max: nat)
    requires limit > 0 && ParseMembers(s, limit, max).Ok?
    ensures var p := ParseMembers(s, limit, max);
      p.value.Member? && Skeleton(s) == MemberBones(p.value, ['}'] + Skeleton(p.rest))
    decreases |s|, 1
  {
    hide Skip, ParseValue, ParseKey, Skeleton, Bones;
    KeyHasNoBones(s);
    var key := ParseKey(s);
    SkippedHasNoBones(key.rest);
    var colon := Skip(key.rest).rest;
    Bone(':', colon);
    SkippedHasNoBones(colon[1..]);
    var first := Skip(colon[1..]).rest;
    ValueBones(first, limit - 1, max);
    var v := ParseValue(first, limit - 1, max);
    SkippedHasNoBones(v.rest);
    var after := Skip(v.rest).rest;
    if after[0] == '}' {
      Bone('}', after);
    } else {
      Bone(',', after);
      SkippedHasNoBones(after[1..]);
      MembersBones(Skip(after[1..]).rest, limit, max);
    }
  }

  /** MAIN (JSON): whatever text is read as a document, its brackets, commas and colons outside strings and comments are
      those of the document, in order, up to where reading stopped. */
  lemma AcceptedHasItsBones(s: string, limit: nat, max: nat)
    requires Parse(s, limit, max).Ok?
    ensures var p := Parse(s, limit, max); Skeleton(s) == Bones(p.value, Skeleton(p.rest))
  {
    hide Skip, ParseValue, Skeleton, Bones;
    SkippedHasNoBones(s);
    ValueBones(Skip(s).rest, limit, max);
  }

  /** Of a literal only the first letter and the length are looked at. */
  lemma LiteralsAreNotChecked(limit: nat, max: nat)
    ensures Parse("tabc", limit, max) == Ok(Bool(true), "") && ReadValue("tabc", false) == NotJson
  {
    R.WordOf("tabc", "", 63);
    assert "tabc" + "" == "tabc" && "tabc"[4..] == "";
    R.SkipSolid("tabc");
    hide Word, Skip;
    assert ParseWord("tabc", max) == Ok(Bool(true), "");
    assert ReadInteger("tabc") == NotJson;
  }
}
