/**
 The JSON parser as it runs: one character of look-ahead, a nesting limit counted down and up, lists grown at
 their end, numbers gathered in a buffer. Each method reads what the parsing function of its name reads.
 */
module JsonDeserializer {
  import opened CInt
  import opened JsonText
  import opened JsonParser
  import opened Wrappers

  /** A method's error code, its result and the text then left, against what is parsed. */
  predicate Agrees<T(==)>(p: Parsed<T>, err: Option<Error>, value: T, rest: string) {
    match p
    case Ok(v, r) => err == None && value == v && rest == r
    case Err(e) => err == Some(e)
  }

  function Grown(grown: seq<Json>, p: Parsed<Elements>): Parsed<Elements> {
    if p.Ok? then Ok(Onto(grown, p.value), p.rest) else p
  }

  function MembersGrown(grown: seq<(string, Json)>, p: Parsed<Members>): Parsed<Members> {
    if p.Ok? then Ok(MembersOnto(grown, p.value), p.rest) else p
  }

  function Built(prefix: string, p: Parsed<string>): Parsed<string> {
    if p.Ok? then Ok(prefix + p.value, p.rest) else p
  }

  lemma BuiltOneMore(prefix: string, c: char, p: Parsed<string>)
    ensures Built(prefix, Prepend(c, p)) == Built(prefix + [c], p)
  {
    if p.Ok? { assert prefix + ([c] + p.value) == prefix + [c] + p.value; }
  }

  lemma BuiltFromNothing(p: Parsed<string>)
    ensures Built("", p) == p
  {
    if p.Ok? { assert "" + p.value == p.value; }
  }

  lemma {:induction false} QuotedStep(s: string, stop: char)
    requires stop != NUL && s != "" && s[0] != NUL && s[0] != stop
    ensures ParseQuoted(s, stop) ==
      if s[0] != '\\' then Prepend(s[0], ParseQuoted(s[1..], stop))
      else if Current(s[1..]) == NUL then Err(IncompleteInput)
      else if s[1] == 'u' then Err(NotSupported)
      else Prepend(Unescape(s[1]), ParseQuoted(s[2..], stop))
  {
  }

  /** `w` is the first characters of the word `start` begins with, and `rest` the text behind them. */
  ghost predicate Gathering(start: string, w: string, rest: string, limit: nat) {
    && |w| <= limit && |w| <= |start|
    && rest == start[|w|..]
    && Word(start, limit) == w + Word(rest, limit - |w|)
  }

  lemma GatherStart(start: string, limit: nat)
    ensures Gathering(start, "", start, limit)
  {
    hide Word;
    assert "" + Word(start, limit) == Word(start, limit);
  }

  lemma {:induction false} GatherMore(start: string, w: string, rest: string, limit: nat)
    requires Gathering(start, w, rest, limit) && IsWord(Current(rest))
    requires |w| < limit || limit == |start|
    ensures rest != "" && |w| < limit && Gathering(start, w + [rest[0]], rest[1..], limit)
  {
    assert rest != "" by { assert !IsWord(NUL); }
    hide Word;
    WordMore(rest, limit - |w|);
    assert rest[1..] == start[|w| + 1..];
    assert w + ([rest[0]] + Word(rest[1..], limit - |w| - 1)) == (w + [rest[0]]) + Word(rest[1..], limit - |w| - 1);
  }

  lemma {:induction false} WordMore(s: string, limit: nat)
    requires s != "" && IsWord(s[0]) && limit > 0
    ensures Word(s, limit) == [s[0]] + Word(s[1..], limit - 1)
  {
  }

  lemma {:induction false} GatherEnd(start: string, w: string, rest: string, limit: nat)
    requires Gathering(start, w, rest, limit) && (!IsWord(Current(rest)) || |w| == limit)
    ensures Word(start, limit) == w && |w| <= |start| && rest == start[|w|..]
  {
    assert w + "" == w;
  }

  /** The digits loop of `parseNumber`, from position `from` of the number. */
  method ReadMantissa(s: string, from: nat, max: nat) returns (mantissa: nat, at: nat)
    requires from <= |s|
    ensures at <= |s| && Mantissa(s[from..], 0, max) == (mantissa, s[at..])
  {
    mantissa, at := 0, from;
    while at < |s| && IsDigit(s[at])
      invariant at <= |s| && Mantissa(s[from..], 0, max) == Mantissa(s[at..], mantissa, max)
      decreases |s| - at
    {
      var digit := (s[at] - '0') as nat;
      assert s[at..][1..] == s[at + 1..];
      if mantissa > max / 10 { break; }
      if mantissa * 10 > max - digit {
        mantissa := mantissa * 10;
        return;
      }
      mantissa := mantissa * 10 + digit;
      at := at + 1;
    }
  }

  /** `parseNumber`, as far as its number is an integer. */
  method ReadNumber(word: string, max: nat) returns (err: Option<Error>, v: Json)
    ensures Agrees(ParseNumber(word, max), err, v, "")
  {
    hide Mantissa;
    var negative := Current(word) == '-';
    var start := if negative || Current(word) == '+' then 1 else 0;
    assert word[0..] == word;
    var c := Current(word[start..]);
    if c == 'n' || c == 'N' || c == 'i' || c == 'I' { return Some(NotAnInteger), Null; }
    if !IsDigit(c) && c != '.' { return Some(InvalidInput), Null; }
    var mantissa, at := ReadMantissa(word, start, max);
    if at != |word| {
      assert word[at..] != "";
      return Some(NotAnInteger), Null;
    }
    return None, if negative then Negative(mantissa) else Positive(mantissa);
  }

  class JsonDeserializer {
    const input: string
    var next: nat
    var look: char
    var loaded: bool
    var nestingLimit: nat
    const max: nat
    ghost var peeked: nat // how many characters the look-ahead has taken: one, or none at the end

    ghost predicate Valid()
      reads this
    {
      && next <= |input|
      && peeked <= next
      && (!loaded ==> peeked == 0)
      && (loaded ==> look == Current(input[next - peeked..]) && peeked == if next - peeked < |input| then 1 else 0)
    }

    /** The text not yet consumed. */
    ghost function Rest(): string
      requires Valid()
      reads this
    {
      input[next - peeked..]
    }

    constructor (input: string, nestingLimit: nat, max: nat)
      ensures Valid() && Rest() == input && this.nestingLimit == nestingLimit && this.max == max
    {
      this.input, this.nestingLimit, this.max := input, nestingLimit, max;
      next, look, loaded, peeked := 0, NUL, false, 0;
    }

    method Peek() returns (c: char)
      requires Valid()
      modifies this
      ensures Valid() && loaded && Rest() == old(Rest()) && c == Current(Rest()) && c == look
      ensures nestingLimit == old(nestingLimit)
    {
      if !loaded {
        if next < |input| {
          look := input[next];
          next, peeked := next + 1, 1;
        } else {
          look := NUL;
        }
        loaded := true;
      }
      return look;
    }

    /** Past the character looked at. */
    method Move()
      requires Valid() && loaded
      modifies this
      ensures Valid() && Rest() == if old(Rest()) == "" then "" else old(Rest())[1..]
      ensures nestingLimit == old(nestingLimit)
    {
      loaded, peeked := false, 0;
    }

    method Eat(c: char) returns (ate: bool)
      requires Valid() && c != NUL
      modifies this
      ensures Valid() && ate == (Current(old(Rest())) == c)
      ensures Rest() == if ate then old(Rest())[1..] else old(Rest())
      ensures nestingLimit == old(nestingLimit)
    {
      var look := Peek();
      if look != c { return false; }
      Move();
      return true;
    }

    method SkipSpacesAndComments() returns (err: Option<Error>)
      requires Valid()
      modifies this
      ensures Valid() && Agrees(Skip(old(Rest())), err, (), Rest())
      ensures nestingLimit == old(nestingLimit)
    {
      while true
        invariant Valid() && nestingLimit == old(nestingLimit)
        invariant Skip(Rest()) == Skip(old(Rest()))
        decreases |Rest()|
      {
        var c := Peek();
        if c == NUL { return Some(IncompleteInput); }
        if IsSpace(c) {
          Move();
        } else if c == '/' {
          err := PassComment();
          if err != None { return; }
        } else {
          return None;
        }
      }
    }

    /** From a slash to the end of the comment it begins. */
    method PassComment() returns (err: Option<Error>)
      requires Valid() && loaded && look == '/'
      modifies this
      ensures Valid() && nestingLimit == old(nestingLimit)
      ensures err == None ==> |Rest()| < |old(Rest())| && Skip(Rest()) == Skip(old(Rest()))
      ensures err != None ==> Skip(old(Rest())) == Err(err.value)
    {
      Move();
      var c := Peek();
      if c == '*' {
        Move();
        ghost var start := Rest();
        var wasStar := false;
        while true
          invariant Valid() && nestingLimit == old(nestingLimit) && |Rest()| <= |start|
          invariant BlockEnd(Rest(), wasStar) == BlockEnd(start, false)
          decreases |Rest()|
        {
          c := Peek();
          if c == NUL { return Some(IncompleteInput); }
          if c == '/' && wasStar {
            Move();
            return None;
          }
          wasStar := c == '*';
          Move();
        }
      } else if c == '/' {
        ghost var start := Rest()[1..];
        while true
          invariant Valid() && nestingLimit == old(nestingLimit) && loaded && Rest() != "" && |Rest()| <= |start| + 1
          invariant LineEnd(Rest()[1..]) == LineEnd(start)
          decreases |Rest()|
        {
          Move();
          c := Peek();
          if c == NUL { return Some(IncompleteInput); }
          if c == '\n' { return None; }
        }
      } else {
        return Some(InvalidInput);
      }
    }

    method ParseQuotedString() returns (err: Option<Error>, built: string)
      requires Valid() && loaded && IsQuote(look)
      modifies this
      ensures Valid() && Agrees(ParseQuoted(old(Rest())[1..], old(look)), err, built, Rest())
      ensures nestingLimit == old(nestingLimit)
    {
      hide ParseQuoted, Unescape, Prepend;
      var stop := look;
      Move();
      ghost var start := Rest();
      built := "";
      BuiltFromNothing(ParseQuoted(start, stop));
      while true
        invariant Valid() && nestingLimit == old(nestingLimit)
        invariant ParseQuoted(start, stop) == Built(built, ParseQuoted(Rest(), stop))
        decreases |Rest()|
      {
        ghost var here := Rest();
        QuotedEnds(here, stop);
        var c := Peek();
        Move();
        if c == stop { return None, built + ""; }
        if c == NUL { return Some(IncompleteInput), built; }
        QuotedStep(here, stop);
        if c == '\\' {
          c := Peek();
          if c == NUL { return Some(IncompleteInput), built; }
          if c == 'u' { return Some(NotSupported), built; }
          c := UnescapeChar(c);
          Move();
          assert here[1..][1..] == here[2..];
        }
        BuiltOneMore(built, c, ParseQuoted(Rest(), stop));
        built := built + [c];
      }
    }

    method ParseNonQuotedString() returns (err: Option<Error>, built: string)
      requires Valid()
      modifies this
      ensures Valid() && Agrees(ParseUnquoted(old(Rest())), err, built, Rest())
      ensures nestingLimit == old(nestingLimit)
    {
      hide Gathering, Word, IsWord;
      built := "";
      var c := Peek();
      if c == NUL { return Some(IncompleteInput), built; }
      if !IsWord(c) { return Some(InvalidInput), built; }
      ghost var start := Rest();
      GatherStart(start, |start|);
      while IsWord(c)
        invariant Valid() && nestingLimit == old(nestingLimit) && loaded && look == c == Current(Rest())
        invariant Gathering(start, built, Rest(), |start|)
        decreases |Rest()|
      {
        GatherMore(start, built, Rest(), |start|);
        Move();
        built := built + [c];
        c := Peek();
      }
      GatherEnd(start, built, Rest(), |start|);
      return None, built;
    }

    method ParseNumericValue() returns (err: Option<Error>, v: Json)
      requires Valid()
      modifies this
      ensures Valid() && Agrees(ParseWord(old(Rest()), max), err, v, Rest())
      ensures nestingLimit == old(nestingLimit)
      ensures err == None ==> loaded
    {
      hide Gathering, Word, IsWord, ParseNumber;
      var buffer := "";
      var c := Peek();
      ghost var start := Rest();
      GatherStart(start, 63);
      while IsWord(c) && |buffer| < 63
        invariant Valid() && nestingLimit == old(nestingLimit) && loaded && look == c == Current(Rest())
        invariant |buffer| <= 63 && Gathering(start, buffer, Rest(), 63)
        decreases 63 - |buffer|
      {
        GatherMore(start, buffer, Rest(), 63);
        Move();
        buffer := buffer + [c];
        c := Peek();
      }
      GatherEnd(start, buffer, Rest(), 63);
      c := Current(buffer);
      if c == 't' { return if |buffer| == 4 then None else Some(IncompleteInput), Bool(true); }
      if c == 'f' { return if |buffer| == 5 then None else Some(IncompleteInput), Bool(false); }
      if c == 'n' { return if |buffer| == 4 then None else Some(IncompleteInput), Null; }
      err, v := ReadNumber(buffer, max);
    }

    method ParseKey() returns (err: Option<Error>, key: string)
      requires Valid()
      modifies this
      ensures Valid() && Agrees(JsonParser.ParseKey(old(Rest())), err, key, Rest())
      ensures nestingLimit == old(nestingLimit)
    {
      hide ParseQuoted, ParseUnquoted;
      var c := Peek();
      if IsQuote(c) { err, key := ParseQuotedString(); } else { err, key := ParseNonQuotedString(); }
    }

    /** At the end of a number the look-ahead is the character behind it. */
    method ParseVariant() returns (err: Option<Error>, v: Json)
      requires Valid()
      modifies this
      ensures Valid() && Agrees(JsonParser.ParseVariant(old(Rest()), old(nestingLimit), max), err, v, Rest())
      ensures nestingLimit == old(nestingLimit)
      ensures err == None && !Enclosed(v) ==> loaded
      decreases |Rest()|, 1
    {
      hide Skip, JsonParser.ParseArray, JsonParser.ParseObject, ParseQuoted, ParseWord;
      v := Null;
      err := SkipSpacesAndComments();
      if err != None { return; }
      var c := Peek();
      if c == '[' {
        err, v := ParseArray();
      } else if c == '{' {
        err, v := ParseObject();
      } else if IsQuote(c) {
        var chars;
        err, chars := ParseQuotedString();
        v := Text(chars);
      } else {
        err, v := ParseNumericValue();
        if err == None { WordIsOpen(old(Rest()), max); }
      }
    }

    method ParseArray() returns (err: Option<Error>, v: Json)
      requires Valid() && Current(Rest()) == '['
      modifies this
      ensures Valid() && Agrees(JsonParser.ParseArray(old(Rest()), old(nestingLimit), max), err, v, Rest())
      ensures nestingLimit == old(nestingLimit)
      ensures err == None ==> v.Array?
      decreases |Rest()|, 0
    {
      hide Skip, JsonParser.ParseElements;
      v := Null;
      if nestingLimit == 0 { return Some(TooDeep), v; }
      var ate := Eat('[');
      err := SkipSpacesAndComments();
      if err != None { return; }
      ate := Eat(']');
      if ate { return None, Array(NoElements); }
      var elements;
      err, elements := ReadElements();
      v := Array(elements);
    }

    /** The loop over an array's values, up to its closing bracket. */
    method ReadElements() returns (err: Option<Error>, es: Elements)
      requires Valid() && nestingLimit > 0
      modifies this
      ensures Valid() && Agrees(JsonParser.ParseElements(old(Rest()), old(nestingLimit), max), err, es, Rest())
      ensures nestingLimit == old(nestingLimit)
      decreases |Rest()|, 3
    {
      hide ElementHead, JsonParser.ParseElements, Onto;
      ghost var start := Rest();
      var grown: seq<Json> := [];
      GrownFromNothing(JsonParser.ParseElements(start, nestingLimit, max));
      es := NoElements;
      while true
        invariant Valid() && nestingLimit == old(nestingLimit) && |Rest()| <= |start|
        invariant JsonParser.ParseElements(start, nestingLimit, max) == Grown(grown, JsonParser.ParseElements(Rest(), nestingLimit, max))
        decreases |Rest()|
      {
        ElementsStep(Rest(), nestingLimit, max);
        var value;
        err, value := ReadElement();
        if err != None { return; }
        OntoOneMore(grown, value, NoElements);
        var ate := Eat(']');
        if ate { return None, Onto(grown + [value], NoElements); }
        ate := Eat(',');
        if !ate { return Some(InvalidInput), es; }
        GrownOneMore(grown, value, JsonParser.ParseElements(Rest(), nestingLimit, max));
        grown := grown + [value];
      }
    }

    /** A value one level down, and the space behind it. */
    method ReadElement() returns (err: Option<Error>, v: Json)
      requires Valid() && nestingLimit > 0
      modifies this
      ensures Valid() && Agrees(ElementHead(old(Rest()), old(nestingLimit), max), err, v, Rest())
      ensures nestingLimit == old(nestingLimit)
      decreases |Rest()|, 2
    {
      hide Skip, JsonParser.ParseVariant;
      nestingLimit := nestingLimit - 1;
      err, v := ParseVariant();
      nestingLimit := nestingLimit + 1;
      if err != None { return; }
      err := SkipSpacesAndComments();
    }

    method ParseObject() returns (err: Option<Error>, v: Json)
      requires Valid() && Current(Rest()) == '{'
      modifies this
      ensures Valid() && Agrees(JsonParser.ParseObject(old(Rest()), old(nestingLimit), max), err, v, Rest())
      ensures nestingLimit == old(nestingLimit)
      ensures err == None ==> v.Object?
      decreases |Rest()|, 0
    {
      hide Skip, JsonParser.ParseMembers;
      v := Null;
      if nestingLimit == 0 { return Some(TooDeep), v; }
      var ate := Eat('{');
      err := SkipSpacesAndComments();
      if err != None { return; }
      ate := Eat('}');
      if ate { return None, Object(NoMembers); }
      var members;
      err, members := ReadMembers();
      v := Object(members);
    }

    /** The loop over an object's members, up to its closing brace. */
    method ReadMembers() returns (err: Option<Error>, ms: Members)
      requires Valid() && nestingLimit > 0
      modifies this
      ensures Valid() && Agrees(JsonParser.ParseMembers(old(Rest()), old(nestingLimit), max), err, ms, Rest())
      ensures nestingLimit == old(nestingLimit)
      decreases |Rest()|, 3
    {
      hide MemberHead, JsonParser.ParseMembers, MembersOnto, Skip;
      ghost var start := Rest();
      var grown: seq<(string, Json)> := [];
      MembersGrownFromNothing(JsonParser.ParseMembers(start, nestingLimit, max));
      ms := NoMembers;
      while true
        invariant Valid() && nestingLimit == old(nestingLimit) && |Rest()| <= |start|
        invariant JsonParser.ParseMembers(start, nestingLimit, max) == MembersGrown(grown, JsonParser.ParseMembers(Rest(), nestingLimit, max))
        decreases |Rest()|
      {
        MembersStep(Rest(), nestingLimit, max);
        var member;
        err, member := ReadMember();
        if err != None { return; }
        MembersOntoOneMore(grown, member.0, member.1, NoMembers);
        var ate := Eat('}');
        if ate { return None, MembersOnto(grown + [member], NoMembers); }
        ate := Eat(',');
        if !ate { return Some(InvalidInput), ms; }
        err := SkipSpacesAndComments();
        if err != None { return; }
        MembersGrownOneMore(grown, member, JsonParser.ParseMembers(Rest(), nestingLimit, max));
        grown := grown + [member];
      }
    }

    /** A key, its colon, a value one level down, and the space behind it. */
    method ReadMember() returns (err: Option<Error>, member: (string, Json))
      requires Valid() && nestingLimit > 0
      modifies this
      ensures Valid() && Agrees(MemberHead(old(Rest()), old(nestingLimit), max), err, member, Rest())
      ensures nestingLimit == old(nestingLimit)
      decreases |Rest()|, 2
    {
      hide Skip, ElementHead, JsonParser.ParseKey;
      var key;
      member := ("", Null);
      err, key := ParseKey();
      if err != None { return; }
      err := SkipSpacesAndComments();
      if err != None { return; }
      var ate := Eat(':');
      if !ate { return Some(InvalidInput), member; }
      var value;
      err, value := ReadElement();
      member := (key, value);
    }

    method Parse() returns (err: Option<Error>, v: Json)
      requires Valid()
      modifies this
      ensures Valid() && Agrees(JsonParser.Parse(old(Rest()), old(nestingLimit), max), err, v, Rest())
    {
      hide JsonParser.ParseVariant;
      err, v := ParseVariant();
      if err == None && !Enclosed(v) && look != NUL { err := Some(InvalidInput); }
    }
  }

  lemma {:induction false} QuotedEnds(s: string, stop: char)
    requires stop != NUL
    ensures Current(s) == stop ==> ParseQuoted(s, stop) == Ok("", s[1..])
    ensures Current(s) == NUL ==> ParseQuoted(s, stop) == Err(IncompleteInput)
  {
  }

  lemma WordIsOpen(s: string, max: nat)
    ensures var p := ParseWord(s, max); p.Ok? ==> !Enclosed(p.value)
  {
  }

  function ElementHead(s: string, limit: nat, max: nat): (p: Parsed<Json>)
    requires limit > 0
    ensures p.Ok? ==> p.rest != "" && |p.rest| <= |s| && p.rest[0] != NUL
  {
    var v := JsonParser.ParseVariant(s, limit - 1, max);
    if v.Err? then v
    else
      var skipped := Skip(v.rest);
      if skipped.Err? then Err(skipped.error) else Ok(v.value, skipped.rest)
  }

  function MemberHead(s: string, limit: nat, max: nat): (p: Parsed<(string, Json)>)
    requires limit > 0
    ensures p.Ok? ==> p.rest != "" && |p.rest| <= |s| && p.rest[0] != NUL
  {
    var key := JsonParser.ParseKey(s);
    if key.Err? then Err(key.error)
    else
      var colon := Skip(key.rest);
      if colon.Err? then Err(colon.error)
      else if colon.rest[0] != ':' then Err(InvalidInput)
      else
        var v := ElementHead(colon.rest[1..], limit, max);
        if v.Err? then Err(v.error) else Ok((key.value, v.value), v.rest)
  }

  function Prefixed(v: Json, p: Parsed<Elements>): Parsed<Elements> {
    if p.Ok? then Ok(Element(v, p.value), p.rest) else p
  }

  lemma ElementsStep(s: string, limit: nat, max: nat)
    requires limit > 0
    ensures JsonParser.ParseElements(s, limit, max) ==
      var v := ElementHead(s, limit, max);
      if v.Err? then Err(v.error)
      else if v.rest[0] == ']' then Ok(Element(v.value, NoElements), v.rest[1..])
      else if v.rest[0] != ',' then Err(InvalidInput)
      else Prefixed(v.value, JsonParser.ParseElements(v.rest[1..], limit, max))
  {
    hide Skip, JsonParser.ParseVariant;
  }

  lemma GrownFromNothing(p: Parsed<Elements>)
    ensures Grown([], p) == p
  {
  }

  lemma GrownOneMore(grown: seq<Json>, v: Json, p: Parsed<Elements>)
    ensures Grown(grown, Prefixed(v, p)) == Grown(grown + [v], p)
  {
    if p.Ok? { OntoOneMore(grown, v, p.value); }
  }

  function MembersPrefixed(m: (string, Json), p: Parsed<Members>): Parsed<Members> {
    if p.Ok? then Ok(Member(m.0, m.1, p.value), p.rest) else p
  }

  lemma MembersStep(s: string, limit: nat, max: nat)
    requires limit > 0
    ensures JsonParser.ParseMembers(s, limit, max) ==
      var m := MemberHead(s, limit, max);
      if m.Err? then Err(m.error)
      else if m.rest[0] == '}' then Ok(Member(m.value.0, m.value.1, NoMembers), m.rest[1..])
      else if m.rest[0] != ',' then Err(InvalidInput)
      else
        var next := Skip(m.rest[1..]);
        if next.Err? then Err(next.error)
        else MembersPrefixed(m.value, JsonParser.ParseMembers(next.rest, limit, max))
  {
    hide Skip, JsonParser.ParseVariant, JsonParser.ParseKey;
  }

  lemma MembersGrownFromNothing(p: Parsed<Members>)
    ensures MembersGrown([], p) == p
  {
  }

  lemma MembersGrownOneMore(grown: seq<(string, Json)>, m: (string, Json), p: Parsed<Members>)
    ensures MembersGrown(grown, MembersPrefixed(m, p)) == MembersGrown(grown + [m], p)
  {
    if p.Ok? { MembersOntoOneMore(grown, m.0, m.1, p.value); }
  }
}
