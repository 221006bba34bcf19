/**
 The JSON parser: recursive descent over the characters still to come, with a nesting limit, comments, both
 quotes and keys without quotes. Numbers are followed as far as they are integers.
 */
module JsonParser {
  import opened JsonText

  datatype Error =
    | IncompleteInput | InvalidInput | NotSupported | TooDeep
    | NotAnInteger // a number that is a float, or none at all

  /** What was read, and the text behind it. */
  datatype Parsed<T> = Ok(value: T, rest: string) | Err(error: Error)

  /** The character to look at: NUL at the end. */
  function Current(s: string): char {
    if s == "" then NUL else s[0]
  }

  predicate IsSpace(c: char) {
    c == ' ' || c == '\t' || c == '\r' || c == '\n'
  }

  predicate IsQuote(c: char) {
    c == '\'' || c == '"'
  }

  predicate IsWord(c: char) {
    '0' <= c <= '9' || '_' <= c <= 'z' || 'A' <= c <= 'Z' || c == '+' || c == '-' || c == '.'
  }

  predicate IsDigit(c: char) {
    '0' <= c <= '9'
  }

  function Skip(s: string): (p: Parsed<()>)
    ensures p.Ok? ==> p.rest != "" && |p.rest| <= |s| && p.rest[0] != NUL && !IsSpace(p.rest[0]) && p.rest[0] != '/'
    decreases |s|, 1
  {
    if Current(s) == NUL then Err(IncompleteInput)
    else if IsSpace(s[0]) then Skip(s[1..])
    else if s[0] == '/' then SkipComment(s[1..])
    else Ok((), s)
  }

  /** After a slash: a comment, and what follows it. */
  function SkipComment(s: string): (p: Parsed<()>)
    ensures p.Ok? ==> p.rest != "" && |p.rest| <= |s| && p.rest[0] != NUL && !IsSpace(p.rest[0]) && p.rest[0] != '/'
    decreases |s|, 2
  {
    if Current(s) == '*' then
      var end := BlockEnd(s[1..], false);
      if end.Ok? then Skip(end.rest) else Err(end.error)
    else if Current(s) == '/' then
      var end := LineEnd(s[1..]);
      if end.Ok? then Skip(end.rest) else Err(end.error)
    else Err(InvalidInput)
  }

  function BlockEnd(s: string, wasStar: bool): (p: Parsed<()>)
    ensures p.Ok? ==> |p.rest| <= |s|
    decreases |s|
  {
    if Current(s) == NUL then Err(IncompleteInput)
    else if s[0] == '/' && wasStar then Ok((), s[1..])
    else BlockEnd(s[1..], s[0] == '*')
  }

  function LineEnd(s: string): (p: Parsed<()>)
    ensures p.Ok? ==> |p.rest| <= |s|
    decreases |s|
  {
    if Current(s) == NUL then Err(IncompleteInput)
    else if s[0] == '\n' then Ok((), s)
    else LineEnd(s[1..])
  }

  function Prepend(c: char, p: Parsed<string>): Parsed<string> {
    if p.Ok? then Ok([c] + p.value, p.rest) else p
  }

  /** After the opening quote. */
  function ParseQuoted(s: string, stop: char): (p: Parsed<string>)
    requires stop != NUL
    ensures p.Ok? ==> |p.rest| < |s|
    decreases |s|
  {
    var c := Current(s);
    if c == stop then Ok("", s[1..])
    else if c == NUL then Err(IncompleteInput)
    else if c != '\\' then Prepend(c, ParseQuoted(s[1..], stop))
    else
      var letter := Current(s[1..]);
      if letter == NUL then Err(IncompleteInput)
      else if letter == 'u' then Err(NotSupported)
      else Prepend(Unescape(letter), ParseQuoted(s[2..], stop))
  }

  /** The longest word at the head of `s`, up to `limit` characters. */
  function Word(s: string, limit: nat): (w: string)
    ensures |w| <= |s| && |w| <= limit && w == s[..|w|]
    decreases limit
  {
    if limit == 0 || !IsWord(Current(s)) || s == "" then "" else [s[0]] + Word(s[1..], limit - 1)
  }

  /** The unquoted key at the head of `s`: a word of any length. */
  function ParseUnquoted(s: string): (p: Parsed<string>)
    ensures p.Ok? ==> |p.rest| <= |s|
  {
    if Current(s) == NUL then Err(IncompleteInput)
    else if !IsWord(Current(s)) then Err(InvalidInput)
    else
      var w := Word(s, |s|);
      Ok(w, s[|w|..])
  }

  function ParseKey(s: string): (p: Parsed<string>)
    ensures p.Ok? ==> |p.rest| <= |s|
  {
    if IsQuote(Current(s)) then ParseQuoted(s[1..], s[0]) else ParseUnquoted(s)
  }

  /** The digits at the head of `s` as far as they fit below `max`: their value after `mantissa`, and what is
      left of the text. */
  function Mantissa(s: string, mantissa: nat, max: nat): (nat, string)
    decreases |s|
  {
    if s == "" || !IsDigit(s[0]) then (mantissa, s)
    else
      var digit := (s[0] - '0') as nat;
      if mantissa > max / 10 then (mantissa, s)
      else if mantissa * 10 > max - digit then (mantissa * 10, s)
      else Mantissa(s[1..], mantissa * 10 + digit, max)
  }

  /** A number, as far as it is an integer. */
  function ParseNumber(word: string, max: nat): Parsed<Json> {
    var negative := Current(word) == '-';
    var digits := if negative || Current(word) == '+' then word[1..] else word;
    var c := Current(digits);
    if c in {'n', 'N', 'i', 'I'} then Err(NotAnInteger)
    else if !IsDigit(c) && c != '.' then Err(InvalidInput)
    else
      var (mantissa, left) := Mantissa(digits, 0, max);
      if left != "" then Err(NotAnInteger)
      else Ok(if negative then Negative(mantissa) else Positive(mantissa), "")
  }

  /** A word of up to 63 characters: a literal told by its first letter and length, or a number. */
  function ParseWord(s: string, max: nat): (p: Parsed<Json>)
    ensures p.Ok? ==> |p.rest| <= |s|
  {
    var w := Word(s, 63);
    var rest := s[|w|..];
    if Current(w) == 't' then (if |w| == 4 then Ok(Bool(true), rest) else Err(IncompleteInput))
    else if Current(w) == 'f' then (if |w| == 5 then Ok(Bool(false), rest) else Err(IncompleteInput))
    else if Current(w) == 'n' then (if |w| == 4 then Ok(Null, rest) else Err(IncompleteInput))
    else
      var number := ParseNumber(w, max);
      if number.Ok? then Ok(number.value, rest) else number
  }

  /** A value, with room for lists to nest `limit` deep. */
  function ParseVariant(s: string, limit: nat, max: nat): (p: Parsed<Json>)
    ensures p.Ok? ==> |p.rest| <= |s|
    decreases |s|, 1
  {
    var skipped := Skip(s);
    if skipped.Err? then Err(skipped.error) else ParseValue(skipped.rest, limit, max)
  }

  function ParseValue(s: string, limit: nat, max: nat): (p: Parsed<Json>)
    requires s != ""
    ensures p.Ok? ==> |p.rest| <= |s|
    decreases |s|, 0
  {
    match s[0]
    case '[' => ParseArray(s, limit, max)
    case '{' => ParseObject(s, limit, max)
    case _ =>
      if IsQuote(s[0]) then
        var text := ParseQuoted(s[1..], s[0]);
        if text.Ok? then Ok(Text(text.value), text.rest) else Err(text.error)
      else ParseWord(s, max)
  }

  function ParseArray(s: string, limit: nat, max: nat): (p: Parsed<Json>)
    requires s != ""
    ensures p.Ok? ==> |p.rest| <= |s|
    decreases |s|, 0, 0
  {
    if limit == 0 then Err(TooDeep)
    else
      var skipped := Skip(s[1..]);
      if skipped.Err? then Err(skipped.error)
      else if skipped.rest[0] == ']' then Ok(Array(NoElements), skipped.rest[1..])
      else
        var es := ParseElements(skipped.rest, limit, max);
        if es.Ok? then Ok(Array(es.value), es.rest) else Err(es.error)
  }

  /** The values up to the closing bracket. */
  function ParseElements(s: string, limit: nat, max: nat): (p: Parsed<Elements>)
    requires limit > 0
    ensures p.Ok? ==> |p.rest| <= |s|
    decreases |s|, 2
  {
    var v := ParseVariant(s, limit - 1, max);
    if v.Err? then Err(v.error)
    else
      var skipped := Skip(v.rest);
      if skipped.Err? then Err(skipped.error)
      else if skipped.rest[0] == ']' then Ok(Element(v.value, NoElements), skipped.rest[1..])
      else if skipped.rest[0] != ',' then Err(InvalidInput)
      else
        var more := ParseElements(skipped.rest[1..], limit, max);
        if more.Ok? then Ok(Element(v.value, more.value), more.rest) else more
  }

  function ParseObject(s: string, limit: nat, max: nat): (p: Parsed<Json>)
    requires s != ""
    ensures p.Ok? ==> |p.rest| <= |s|
    decreases |s|, 0, 0
  {
    if limit == 0 then Err(TooDeep)
    else
      var skipped := Skip(s[1..]);
      if skipped.Err? then Err(skipped.error)
      else if skipped.rest[0] == '}' then Ok(Object(NoMembers), skipped.rest[1..])
      else
        var ms := ParseMembers(skipped.rest, limit, max);
        if ms.Ok? then Ok(Object(ms.value), ms.rest) else Err(ms.error)
  }

  /** The members up to the closing brace. */
  function ParseMembers(s: string, limit: nat, max: nat): (p: Parsed<Members>)
    requires limit > 0
    ensures p.Ok? ==> |p.rest| <= |s|
    decreases |s|, 2
  {
    var key := ParseKey(s);
    if key.Err? then Err(key.error)
    else
      var colon := Skip(key.rest);
      if colon.Err? then Err(colon.error)
      else if colon.rest[0] != ':' then Err(InvalidInput)
      else
        var v := ParseVariant(colon.rest[1..], limit - 1, max);
        if v.Err? then Err(v.error) else ParseMoreMembers(key.value, v.value, v.rest, limit, max, |s|)
  }

  function ParseMoreMembers(key: string, value: Json, s: string, limit: nat, max: nat, ghost bound: nat): (p: Parsed<Members>)
    requires limit > 0 && |s| < bound
    ensures p.Ok? ==> |p.rest| <= |s|
    decreases bound, 1
  {
    var skipped := Skip(s);
    if skipped.Err? then Err(skipped.error)
    else if skipped.rest[0] == '}' then Ok(Member(key, value, NoMembers), skipped.rest[1..])
    else if skipped.rest[0] != ',' then Err(InvalidInput)
    else
      var next := Skip(skipped.rest[1..]);
      if next.Err? then Err(next.error)
      else
        var more := ParseMembers(next.rest, limit, max);
        if more.Ok? then Ok(Member(key, value, more.value), more.rest) else more
  }

  predicate Enclosed(v: Json) {
    v.Array? || v.Object? || v.Text?
  }

  /** A document: a value without brackets or quotes must be all there is. */
  function Parse(s: string, limit: nat, max: nat): Parsed<Json> {
    var p := ParseVariant(s, limit, max);
    if p.Ok? && Current(p.rest) != NUL && !Enclosed(p.value) then Err(InvalidInput) else p
  }
}
