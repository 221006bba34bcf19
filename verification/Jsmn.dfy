/**
 The jsmn tokenizer, without strict mode and parent links: spans of a JSON text, in the order they begin, in
 an array the caller provides, or only their number when there is no array.
 */
module Jsmn {
  import opened CInt

  datatype Kind = Obj | Arr | Str | Prim

  /** A span; `end` is -1 while it is open. */
  datatype Token = Token(kind: Kind, start: int, end: int, size: nat)

  datatype Error = NoMemory | Invalid | Partial

  datatype Scan = Found(end: nat) | Failed(error: Error)

  const NUL: char := '\0'

  predicate AtEnd(js: string, pos: nat) {
    pos >= |js| || js[pos] == NUL
  }

  predicate IsHex(c: char) {
    '0' <= c <= '9' || 'A' <= c <= 'F' || 'a' <= c <= 'f'
  }

  /** Past at most `n` hexadecimal digits: where they end, or that something else was met first. */
  function HexEnd(js: string, pos: nat, n: nat): (s: Scan)
    ensures s.Found? ==> pos <= s.end && (s.end <= |js| || s.end == pos)
    decreases n
  {
    if n == 0 || AtEnd(js, pos) then Found(pos)
    else if !IsHex(js[pos]) then Failed(Invalid)
    else HexEnd(js, pos + 1, n - 1)
  }

  /** The quote that ends a string, from inside it. */
  function StringEnd(js: string, pos: nat): (s: Scan)
    ensures s.Found? ==> pos <= s.end < |js| && js[s.end] == '"'
    ensures s.Failed? ==> s.error != NoMemory
    decreases |js| - pos
  {
    if AtEnd(js, pos) then Failed(Partial)
    else if js[pos] == '"' then Found(pos)
    else if js[pos] == '\\' && pos + 1 < |js| then
      var c := js[pos + 1];
      if c in {'"', '/', '\\', 'b', 'f', 'r', 'n', 't'} then StringEnd(js, pos + 2)
      else if c == 'u' then
        var hex := HexEnd(js, pos + 2, 4);
        if hex.Failed? then hex else StringEnd(js, hex.end)
      else Failed(Invalid)
    else StringEnd(js, pos + 1)
  }

  predicate EndsPrimitive(c: char) {
    c in {':', '\t', '\r', '\n', ' ', ',', ']', '}'}
  }

  /** The end of a primitive, from inside it. */
  function PrimitiveEnd(js: string, pos: nat): (s: Scan)
    ensures s.Found? ==> pos <= s.end && (s.end <= |js| || s.end == pos)
    ensures s.Failed? ==> s.error != NoMemory
    decreases |js| - pos
  {
    if AtEnd(js, pos) || EndsPrimitive(js[pos]) then Found(pos)
    else if js[pos] < ' ' || js[pos] as int >= 127 then Failed(Invalid)
    else PrimitiveEnd(js, pos + 1)
  }

  /** What begins at a position, and where the next thing does. */
  datatype Lexeme =
    | Open(kind: Kind) | Close(kind: Kind) | Leaf(kind: Kind, start: nat, end: nat, next: nat)
    | Blank | Colon | Comma | Bad(error: Error)

  function LexemeAt(js: string, pos: nat): (l: Lexeme)
    requires !AtEnd(js, pos)
    ensures l.Leaf? ==> pos < l.next <= |js| && pos <= l.start < l.next && l.start <= l.end <= l.next
    ensures l.Leaf? ==> l.kind == Str || l.kind == Prim
    ensures l.Open? || l.Close? ==> l.kind == Obj || l.kind == Arr
    ensures l.Bad? ==> l.error != NoMemory
  {
    var c := js[pos];
    if c == '{' then Open(Obj) else if c == '[' then Open(Arr)
    else if c == '}' then Close(Obj) else if c == ']' then Close(Arr)
    else if c == '"' then
      var s := StringEnd(js, pos + 1);
      if s.Found? then Leaf(Str, pos + 1, s.end, s.end + 1) else Bad(s.error)
    else if c == '\t' || c == '\r' || c == '\n' || c == ' ' then Blank
    else if c == ':' then Colon else if c == ',' then Comma
    else
      var s := PrimitiveEnd(js, pos);
      if s.Failed? then Bad(s.error)
      else
        assert s.end > pos;
        Leaf(Prim, pos, s.end, s.end)
  }

  predicate IsOpen(t: Token) {
    t.start != -1 && t.end == -1
  }

  /** The last open token, or -1. */
  function LastOpen(ts: seq<Token>): (i: int)
    ensures -1 <= i < |ts|
    ensures forall j :: i < j < |ts| ==> !IsOpen(ts[j])
    ensures i >= 0 ==> IsOpen(ts[i])
    decreases |ts|
  {
    if ts == [] then -1
    else if IsOpen(ts[|ts| - 1]) then |ts| - 1
    else LastOpen(ts[..|ts| - 1])
  }

  /** One more child of the superior token. */
  function Counted(ts: seq<Token>, super: int): (r: seq<Token>)
    requires -1 <= super < |ts|
    ensures |r| == |ts|
    ensures forall i :: 0 <= i < |ts| ==> r[i].(size := 0) == ts[i].(size := 0)
  {
    if super == -1 then ts else ts[super := ts[super].(size := ts[super].size + 1)]
  }

  datatype Result = Tokens(tokens: seq<Token>) | Error(error: Error)

  /** Filling: from position `pos`, with the tokens and the superior token so far. */
  function Fill(js: string, pos: nat, ts: seq<Token>, super: int, num: nat): (r: Result)
    requires -1 <= super < |ts|
    decreases |js| - pos
  {
    if AtEnd(js, pos) then (if LastOpen(ts) >= 0 then Error(Partial) else Tokens(ts))
    else
      var l := LexemeAt(js, pos);
      match l
      case Open(kind) =>
        if |ts| >= num then Error(NoMemory)
        else Fill(js, pos + 1, Counted(ts, super) + [Token(kind, pos, -1, 0)], |ts|, num)
      case Close(kind) =>
        var i := LastOpen(ts);
        if i == -1 || ts[i].kind != kind then Error(Invalid)
        else Fill(js, pos + 1, ts[i := ts[i].(end := pos + 1)], LastOpen(ts[..i]), num)
      case Leaf(kind, start, end, next) =>
        if |ts| >= num then Error(NoMemory)
        else Fill(js, next, Counted(ts + [Token(kind, start, end, 0)], super), super, num)
      case Blank => Fill(js, pos + 1, ts, super, num)
      case Colon => Fill(js, pos + 1, ts, |ts| - 1, num)
      case Comma => Fill(js, pos + 1, ts, AfterComma(ts, super), num)
      case Bad(error) => Error(error)
  }

  /** A comma after a key's value leads back to the innermost open list, if there is one. */
  function AfterComma(ts: seq<Token>, super: int): (r: int)
    requires -1 <= super < |ts|
    ensures -1 <= r < |ts|
  {
    if super != -1 && ts[super].kind != Arr && ts[super].kind != Obj && LastOpen(ts) >= 0 then LastOpen(ts) else super
  }

  datatype Tally = Total(n: nat) | Broken(error: Error)

  /** Counting: lexemes that take a token, with no look at how brackets match. */
  function Count(js: string, pos: nat, n: nat): Tally
    decreases |js| - pos
  {
    if AtEnd(js, pos) then Total(n)
    else
      match LexemeAt(js, pos)
      case Open(_) => Count(js, pos + 1, n + 1)
      case Leaf(_, _, _, next) => Count(js, next, n + 1)
      case Bad(error) => Broken(error)
      case _ => Count(js, pos + 1, n)
  }

  /** A reference: a stack of the lists that are open. */
  function Verdict(js: string, pos: nat, stack: seq<Kind>, n: nat, num: nat): Tally
    decreases |js| - pos
  {
    if AtEnd(js, pos) then (if stack == [] then Total(n) else Broken(Partial))
    else
      match LexemeAt(js, pos)
      case Open(kind) =>
        if n >= num then Broken(NoMemory) else Verdict(js, pos + 1, stack + [kind], n + 1, num)
      case Close(kind) =>
        if stack == [] || stack[|stack| - 1] != kind then Broken(Invalid)
        else Verdict(js, pos + 1, stack[..|stack| - 1], n, num)
      case Leaf(_, _, _, next) =>
        if n >= num then Broken(NoMemory) else Verdict(js, next, stack, n + 1, num)
      case Bad(error) => Broken(error)
      case _ => Verdict(js, pos + 1, stack, n, num)
  }

  /** The kinds of the open tokens, in order. */
  function OpenKinds(ts: seq<Token>): seq<Kind>
    decreases |ts|
  {
    if ts == [] then []
    else
      var before := OpenKinds(ts[..|ts| - 1]);
      if IsOpen(ts[|ts| - 1]) then before + [ts[|ts| - 1].kind] else before
  }

  lemma OpenKindsSnoc(ts: seq<Token>, t: Token)
    ensures OpenKinds(ts + [t]) == if IsOpen(t) then OpenKinds(ts) + [t.kind] else OpenKinds(ts)
  {
    assert (ts + [t])[..|ts|] == ts;
  }

  lemma {:induction false} OpenKindsIgnoreSize(ts: seq<Token>, us: seq<Token>)
    requires |ts| == |us| && forall i :: 0 <= i < |ts| ==> us[i].(size := 0) == ts[i].(size := 0)
    ensures OpenKinds(us) == OpenKinds(ts)
    decreases |ts|
  {
    if ts != [] {
      var n := |ts| - 1;
      assert us[n].(size := 0) == ts[n].(size := 0);
      OpenKindsIgnoreSize(ts[..n], us[..n]);
    }
  }

  lemma {:induction false} LastOpenIsTop(ts: seq<Token>)
    ensures var stack := OpenKinds(ts); var i := LastOpen(ts);
      if i == -1 then stack == []
      else stack == OpenKinds(ts[..i]) + [ts[i].kind]
    decreases |ts|
  {
    if ts != [] && !IsOpen(ts[|ts| - 1]) {
      var before := ts[..|ts| - 1];
      LastOpenIsTop(before);
      var i := LastOpen(before);
      if i >= 0 { assert before[..i] == ts[..i]; }
    }
  }

  lemma {:induction false} ClosedAfter(ts: seq<Token>, i: nat)
    requires i <= |ts| && forall j :: i <= j < |ts| ==> !IsOpen(ts[j])
    ensures OpenKinds(ts) == OpenKinds(ts[..i])
    decreases |ts|
  {
    if i == |ts| {
      assert ts[..i] == ts;
    } else {
      var n := |ts| - 1;
      ClosedAfter(ts[..n], i);
      assert ts[..n][..i] == ts[..i];
    }
  }

  /** Closing the last open token takes it off the stack. */
  lemma CloseTakesTop(ts: seq<Token>, end: nat)
    requires LastOpen(ts) >= 0
    ensures var i := LastOpen(ts); OpenKinds(ts[i := ts[i].(end := end)]) == OpenKinds(ts[..i])
  {
    var i := LastOpen(ts);
    var us := ts[i := ts[i].(end := end)];
    ClosedAfter(us, i);
    assert us[..i] == ts[..i];
  }

  /** MAIN (tokenizer): filling accepts, with as many tokens, and fails, with the same error, as the stack
      of open lists says. */
  lemma {:induction false} FillIsStackMachine(js: string, pos: nat, ts: seq<Token>, super: int, num: nat)
    requires -1 <= super < |ts|
    ensures var v := Verdict(js, pos, OpenKinds(ts), |ts|, num);
      match Fill(js, pos, ts, super, num)
      case Tokens(us) => v == Total(|us|)
      case Error(e) => v == Broken(e)
    decreases |js| - pos
  {
    hide LexemeAt, OpenKinds;
    LastOpenIsTop(ts);
    if !AtEnd(js, pos) {
      match LexemeAt(js, pos)
      case Open(kind) =>
        var us := Counted(ts, super);
        OpenKindsIgnoreSize(ts, us);
        OpenKindsSnoc(us, Token(kind, pos, -1, 0));
        if |ts| < num { FillIsStackMachine(js, pos + 1, us + [Token(kind, pos, -1, 0)], |ts|, num); }
      case Close(kind) =>
        var i := LastOpen(ts);
        if i >= 0 && ts[i].kind == kind {
          CloseTakesTop(ts, pos + 1);
          var stack := OpenKinds(ts);
          assert stack[..|stack| - 1] == OpenKinds(ts[..i]);
          FillIsStackMachine(js, pos + 1, ts[i := ts[i].(end := pos + 1)], LastOpen(ts[..i]), num);
        }
      case Leaf(kind, start, end, next) =>
        var us := ts + [Token(kind, start, end, 0)];
        OpenKindsSnoc(ts, Token(kind, start, end, 0));
        OpenKindsIgnoreSize(us, Counted(us, super));
        if |ts| < num { FillIsStackMachine(js, next, Counted(us, super), super, num); }
      case Blank => FillIsStackMachine(js, pos + 1, ts, super, num);
      case Colon => FillIsStackMachine(js, pos + 1, ts, |ts| - 1, num);
      case Comma => FillIsStackMachine(js, pos + 1, ts, AfterComma(ts, super), num);
      case Bad(error) =>
    }
  }

  /** Where counting gives a number, filling gives that number or an error of its brackets, and is out of
      tokens only with fewer; where filling succeeds, counting gives its number. */
  lemma {:induction false} VerdictCounts(js: string, pos: nat, stack: seq<Kind>, n: nat, num: nat)
    requires n <= num
    ensures var v, c := Verdict(js, pos, stack, n, num), Count(js, pos, n);
      && (v.Total? ==> c == v && v.n <= num)
      && (c.Total? && c.n <= num ==> v != Broken(NoMemory))
      && (c.Total? ==> c.n >= n)
    decreases |js| - pos
  {
    hide LexemeAt;
    if !AtEnd(js, pos) {
      match LexemeAt(js, pos)
      case Open(kind) => if n < num { VerdictCounts(js, pos + 1, stack + [kind], n + 1, num); } else { CountGrows(js, pos + 1, n + 1); }
      case Close(kind) =>
        VerdictCounts(js, pos + 1, if stack == [] then stack else stack[..|stack| - 1], n, num);
      case Leaf(_, _, _, next) => if n < num { VerdictCounts(js, next, stack, n + 1, num); } else { CountGrows(js, next, n + 1); }
      case Bad(_) =>
      case _ => VerdictCounts(js, pos + 1, stack, n, num);
    }
  }

  lemma {:induction false} CountGrows(js: string, pos: nat, n: nat)
    ensures var c := Count(js, pos, n); c.Total? ==> c.n >= n
    decreases |js| - pos
  {
    hide LexemeAt;
    if !AtEnd(js, pos) {
      match LexemeAt(js, pos)
      case Open(_) => CountGrows(js, pos + 1, n + 1);
      case Leaf(_, _, _, next) => CountGrows(js, next, n + 1);
      case Bad(_) =>
      case _ => CountGrows(js, pos + 1, n);
    }
  }

  /** MAIN (tokenizer): a text that fills gives its count when counted, and a text counted to `n` fills with
      `n` tokens or more without running out of them. */
  lemma CountingAgrees(js: string, num: nat)
    ensures var r, c := Fill(js, 0, [], -1, num), Count(js, 0, 0);
      && (r.Tokens? ==> c == Total(|r.tokens|) && |r.tokens| <= num)
      && (c.Total? && c.n <= num ==> r != Error(NoMemory))
      && (c.Broken? ==> r.Error?)
  {
    hide Fill, Verdict, Count;
    FillIsStackMachine(js, 0, [], -1, num);
    VerdictCounts(js, 0, [], 0, num);
  }

  // ---- The spans

  function OpeningBracket(kind: Kind): char {
    if kind == Obj then '{' else '['
  }

  function ClosingBracket(kind: Kind): char {
    if kind == Obj then '}' else ']'
  }

  predicate IsList(kind: Kind) {
    kind == Obj || kind == Arr
  }

  /** The backslashes that stand right before `k`, from `a` on. */
  function Backslashes(js: string, a: nat, k: nat): nat
    requires k <= |js|
    decreases k
  {
    if a < k && js[k - 1] == '\\' then 1 + Backslashes(js, a, k - 1) else 0
  }

  /** Of a string that begins at `a`: the character at `k` is escaped. */
  predicate Escaped(js: string, a: nat, k: nat)
    requires k <= |js|
  {
    Backslashes(js, a, k) % 2 == 1
  }

  /** A backslash at `k` begins an escape that is over before `e`. */
  predicate EscapeAt(js: string, k: nat, e: nat)
    requires k < e < |js|
  {
    && k + 1 < e
    && (js[k + 1] in {'"', '/', '\\', 'b', 'f', 'r', 'n', 't'} ||
        (js[k + 1] == 'u' && k + 5 < e && HexFor(js, k + 2, 4)))
  }

  /** The next `n` characters are hexadecimal digits. */
  predicate HexFor(js: string, k: nat, n: nat)
    requires k + n <= |js|
  {
    forall h :: k <= h < k + n ==> '0' <= js[h] <= '9' || 'A' <= js[h] <= 'F' || 'a' <= js[h] <= 'f'
  }

  /** What is between two quotes, the second of them at `e`: no quote that is not escaped, and no NUL, and every
      backslash that is not escaped begins an escape. */
  predicate StringBody(js: string, a: nat, e: nat) {
    && a <= e < |js| && js[e] == '"' && !Escaped(js, a, e)
    && forall k :: a <= k < e ==> PlainOrEscaped(js, a, k, e)
  }

  predicate PlainOrEscaped(js: string, a: nat, k: nat, e: nat)
    requires a <= k < e < |js|
  {
    && js[k] != '\0'
    && (js[k] == '"' ==> Escaped(js, a, k))
    && (js[k] == '\\' && !Escaped(js, a, k) ==> EscapeAt(js, k, e))
  }

  /** The characters of a primitive: printable and no delimiter among them, up to a delimiter, a NUL or the end of
      the text. */
  predicate PrimitiveBody(js: string, a: nat, e: nat) {
    && a <= e <= |js|
    && (forall k :: a <= k < e ==> ' ' < js[k] <= '~' && js[k] !in {':', ',', ']', '}'})
    && (e < |js| ==> js[e] in {'\0', ':', '\t', '\r', '\n', ' ', ',', ']', '}'})
  }

  lemma {:induction false} PrimitiveEndsThere(js: string, pos: nat, e: nat)
    requires pos <= |js|
    ensures PrimitiveEnd(js, pos) == Found(e) <==> PrimitiveBody(js, pos, e)
    decreases |js| - pos
  {
    if pos < |js| && js[pos] != NUL && !EndsPrimitive(js[pos]) && ' ' <= js[pos] && (js[pos] as int) < 127 {
      PrimitiveEndsThere(js, pos + 1, e);
    }
  }

  /** What follows an escape is not escaped, nor is what follows any other character that is no backslash. */
  lemma EscapesPair(js: string, a: nat, k: nat)
    requires a <= k < |js| && !Escaped(js, a, k)
    ensures js[k] != '\\' ==> !Escaped(js, a, k + 1)
    ensures js[k] == '\\' ==> Escaped(js, a, k + 1)
    ensures js[k] == '\\' && k + 1 < |js| ==> !Escaped(js, a, k + 2)
  {
  }

  lemma {:induction false} HexUnescaped(js: string, a: nat, k: nat, n: nat)
    requires a <= k && k + n <= |js| && !Escaped(js, a, k) && HexFor(js, k, n)
    ensures forall h :: k <= h <= k + n ==> !Escaped(js, a, h)
    decreases n
  {
    hide Escaped;
    if n > 0 {
      HexUnescaped(js, a, k, n - 1);
      EscapesPair(js, a, k + n - 1);
    }
  }

  /** A unicode escape has all its digits unless the text ends in it. */
  lemma {:induction false} HexDigits(js: string, pos: nat, n: nat)
    requires pos <= |js|
    ensures var s := HexEnd(js, pos, n);
      && (s.Found? && !AtEnd(js, s.end) ==> s.end == pos + n <= |js| && HexFor(js, pos, n))
      && (pos + n <= |js| && HexFor(js, pos, n) ==> s == Found(pos + n))
    decreases n
  {
    if n > 0 && !AtEnd(js, pos) { HexDigits(js, pos + 1, n - 1); }
  }

  /** From a character that is not escaped, the string ends where the rest of its body does. */
  lemma {:induction false} StringEndsLater(js: string, a: nat, pos: nat)
    requires a <= pos <= |js| && !Escaped(js, a, pos)
    ensures var s := StringEnd(js, pos);
      s.Found? ==> !Escaped(js, a, s.end) && forall k :: pos <= k < s.end ==> PlainOrEscaped(js, a, k, s.end)
    decreases |js| - pos
  {
    hide Escaped, HexEnd;
    var s := StringEnd(js, pos);
    if s.Found? && s.end > pos {
      EscapesPair(js, a, pos);
      if js[pos] == '\\' && pos + 1 < |js| {
        if js[pos + 1] == 'u' {
          HexDigits(js, pos + 2, 4);
          var h := HexEnd(js, pos + 2, 4).end;
          assert StringEnd(js, h) == s && !AtEnd(js, h);
          HexUnescaped(js, a, pos + 2, 4);
          StringEndsLater(js, a, h);
        } else {
          StringEndsLater(js, a, pos + 2);
        }
      } else {
        StringEndsLater(js, a, pos + 1);
      }
    }
  }

  lemma {:induction false} StringEndsHere(js: string, a: nat, pos: nat, e: nat)
    requires a <= pos <= e && StringBody(js, a, e) && !Escaped(js, a, pos)
    ensures StringEnd(js, pos) == Found(e)
    decreases |js| - pos
  {
    hide Escaped, HexEnd;
    if pos < e {
      assert PlainOrEscaped(js, a, pos, e);
      EscapesPair(js, a, pos);
      if js[pos] == '\\' {
        if js[pos + 1] == 'u' {
          HexDigits(js, pos + 2, 4);
          HexUnescaped(js, a, pos + 2, 4);
          StringEndsHere(js, a, pos + 6, e);
        } else {
          StringEndsHere(js, a, pos + 2, e);
        }
      } else {
        StringEndsHere(js, a, pos + 1, e);
      }
    }
  }

  /** MAIN (tokenizer): the scan for the end of a string finds exactly the quote that is not escaped, if all before
      it is a string's body. */
  lemma StringEndsThere(js: string, a: nat, e: nat)
    requires a <= |js|
    ensures StringEnd(js, a) == Found(e) <==> StringBody(js, a, e)
  {
    if StringEnd(js, a) == Found(e) { StringEndsLater(js, a, a); }
    if StringBody(js, a, e) { StringEndsHere(js, a, a, e); }
  }

  /** A token of the text read up to `pos`: a list spans from its bracket to past the matching one, a string
      what is between its quotes, a primitive its characters, of which the first is no quote and no bracket. */
  predicate Spans(js: string, t: Token, pos: nat) {
    && 0 <= t.start < pos <= |js|
    && (t.end == -1 ==> IsList(t.kind))
    && (t.end != -1 ==> t.start <= t.end <= pos)
    && (IsList(t.kind) ==>
        js[t.start] == OpeningBracket(t.kind)
        && (t.end != -1 ==> t.start + 2 <= t.end && js[t.end - 1] == ClosingBracket(t.kind)))
    && (t.kind == Str ==> t.start > 0 && js[t.start - 1] == '"' && t.end != -1 && StringBody(js, t.start, t.end))
    && (t.kind == Prim ==> t.start < t.end && PrimitiveBody(js, t.start, t.end) && js[t.start] !in {'"', '{', '['})
  }

  /** `a` begins before `b`, and once it is closed, is over before `b` begins or holds it whole. */
  predicate Nests(a: Token, b: Token) {
    a.start < b.start && (a.end != -1 ==> a.end <= b.start || (b.end != -1 && b.end <= a.end))
  }

  predicate Forest(js: string, ts: seq<Token>, pos: nat) {
    && (forall i :: 0 <= i < |ts| ==> Spans(js, ts[i], pos))
    && (forall i, j :: 0 <= i < j < |ts| ==> Nests(ts[i], ts[j]))
  }

  lemma ForestLater(js: string, ts: seq<Token>, pos: nat, later: nat)
    requires Forest(js, ts, pos) && pos <= later <= |js|
    ensures Forest(js, ts, later)
  {
  }

  lemma ForestAppend(js: string, ts: seq<Token>, t: Token, pos: nat, later: nat)
    requires Forest(js, ts, pos) && pos <= t.start && pos <= later && Spans(js, t, later)
    ensures Forest(js, ts + [t], later)
  {
    var us := ts + [t];
    forall i, j | 0 <= i < j < |us| ensures Nests(us[i], us[j]) {
      if j == |ts| { assert Spans(js, ts[i], pos); } else { assert Nests(ts[i], ts[j]); }
    }
    forall i | 0 <= i < |us| ensures Spans(js, us[i], later) {
      if i < |ts| { assert Spans(js, ts[i], pos); }
    }
  }

  lemma ForestClose(js: string, ts: seq<Token>, pos: nat)
    requires Forest(js, ts, pos) && pos < |js| && LastOpen(ts) >= 0
    requires js[pos] == ClosingBracket(ts[LastOpen(ts)].kind)
    ensures var i := LastOpen(ts); Forest(js, ts[i := ts[i].(end := pos + 1)], pos + 1)
  {
    var i := LastOpen(ts);
    var us := ts[i := ts[i].(end := pos + 1)];
    forall a, b | 0 <= a < b < |us| ensures Nests(us[a], us[b]) {
      assert Nests(ts[a], ts[b]);
      assert Spans(js, ts[b], pos) && Spans(js, ts[a], pos);
      if a == i { assert !IsOpen(ts[b]); }
    }
    forall a | 0 <= a < |us| ensures Spans(js, us[a], pos + 1) {
      assert Spans(js, ts[a], pos);
    }
  }

  lemma ForestCounted(js: string, ts: seq<Token>, super: int, pos: nat)
    requires Forest(js, ts, pos) && -1 <= super < |ts|
    ensures Forest(js, Counted(ts, super), pos)
  {
    var us := Counted(ts, super);
    forall a, b | 0 <= a < b < |us| ensures Nests(us[a], us[b]) {
      assert Nests(ts[a], ts[b]);
    }
    forall a | 0 <= a < |us| ensures Spans(js, us[a], pos) {
      assert Spans(js, ts[a], pos);
    }
  }

  lemma LeafSpans(js: string, pos: nat)
    requires !AtEnd(js, pos)
    ensures match LexemeAt(js, pos)
      case Leaf(kind, start, end, next) => Spans(js, Token(kind, start, end, 0), next)
      case Open(kind) => Spans(js, Token(kind, pos, -1, 0), pos + 1)
      case Close(kind) => js[pos] == ClosingBracket(kind)
      case _ => true
  {
    hide StringEnd, PrimitiveEnd, StringBody, PrimitiveBody;
    match LexemeAt(js, pos)
    case Leaf(Str, start, end, next) => StringEndsThere(js, start, end);
    case Leaf(Prim, start, end, next) => PrimitiveEndsThere(js, start, end);
    case _ =>
  }

  lemma {:induction false} FillIsForest(js: string, pos: nat, ts: seq<Token>, super: int, num: nat)
    requires -1 <= super < |ts| && Forest(js, ts, pos) && pos <= |js|
    ensures match Fill(js, pos, ts, super, num)
      case Tokens(us) => Forest(js, us, |js|) && LastOpen(us) == -1
      case Error(_) => true
    decreases |js| - pos
  {
    hide LexemeAt, Forest, Spans;
    if AtEnd(js, pos) {
      ForestLater(js, ts, pos, |js|);
    } else {
      LeafSpans(js, pos);
      match LexemeAt(js, pos)
      case Open(kind) =>
        var us := Counted(ts, super);
        ForestCounted(js, ts, super, pos);
        ForestAppend(js, us, Token(kind, pos, -1, 0), pos, pos + 1);
        if |ts| < num { FillIsForest(js, pos + 1, us + [Token(kind, pos, -1, 0)], |ts|, num); }
      case Close(kind) =>
        var i := LastOpen(ts);
        if i >= 0 && ts[i].kind == kind {
          ForestClose(js, ts, pos);
          FillIsForest(js, pos + 1, ts[i := ts[i].(end := pos + 1)], LastOpen(ts[..i]), num);
        }
      case Leaf(kind, start, end, next) =>
        var us := ts + [Token(kind, start, end, 0)];
        ForestAppend(js, ts, Token(kind, start, end, 0), pos, next);
        ForestCounted(js, us, super, next);
        if |ts| < num { FillIsForest(js, next, Counted(us, super), super, num); }
      case Bad(_) =>
      case Blank =>
        ForestLater(js, ts, pos, pos + 1);
        FillIsForest(js, pos + 1, ts, super, num);
      case Colon =>
        ForestLater(js, ts, pos, pos + 1);
        FillIsForest(js, pos + 1, ts, |ts| - 1, num);
      case Comma =>
        ForestLater(js, ts, pos, pos + 1);
        FillIsForest(js, pos + 1, ts, AfterComma(ts, super), num);
    }
  }

  // ---- The rest of the text

  /** A character that the token stands for: of a string also its quotes, of a list its brackets. */
  predicate Marks(t: Token, p: int) {
    match t.kind
    case Str => t.start - 1 <= p <= t.end
    case Prim => t.start <= p < t.end
    case _ => p == t.start || (t.end != -1 && p == t.end - 1)
  }

  predicate Accounted(js: string, ts: seq<Token>, p: nat)
    requires p < |js|
  {
    js[p] in {'\t', '\r', '\n', ' ', ':', ','} || exists i :: 0 <= i < |ts| && Marks(ts[i], p)
  }

  /** Up to `pos` there is no NUL, and each character is a blank, a colon, a comma, or one that some token stands for. */
  predicate AllAccounted(js: string, ts: seq<Token>, pos: nat) {
    pos <= |js| && forall p :: 0 <= p < pos ==> js[p] != '\0' && Accounted(js, ts, p)
  }

  /** What the tokens stood for they still do, when none is lost and none is reopened. */
  lemma StillAccounted(js: string, ts: seq<Token>, us: seq<Token>, pos: nat)
    requires AllAccounted(js, ts, pos) && |ts| <= |us|
    requires forall i, p: nat :: 0 <= i < |ts| && Marks(ts[i], p) ==> Marks(us[i], p)
    ensures AllAccounted(js, us, pos)
  {
    hide Marks;
    forall p | 0 <= p < pos ensures js[p] != '\0' && Accounted(js, us, p) {
      assert Accounted(js, ts, p);
      if i :| 0 <= i < |ts| && Marks(ts[i], p) { assert Marks(us[i], p); }
    }
  }

  lemma AccountedUpTo(js: string, ts: seq<Token>, i: nat, pos: nat, later: nat)
    requires AllAccounted(js, ts, pos) && i < |ts| && later <= |js|
    requires forall p :: pos <= p < later ==> Marks(ts[i], p) && js[p] != '\0'
    ensures AllAccounted(js, ts, later)
  {
    hide Marks;
    forall p | 0 <= p < later ensures js[p] != '\0' && Accounted(js, ts, p) {
      if p < pos { assert Accounted(js, ts, p); } else { assert Marks(ts[i], p); }
    }
  }

  lemma CountedMarks(ts: seq<Token>, super: int)
    requires -1 <= super < |ts|
    ensures forall i, p: nat :: 0 <= i < |ts| && Marks(ts[i], p) ==> Marks(Counted(ts, super)[i], p)
  {
  }

  /** A token that stands for all from `pos` to `later` is appended, and its parent counts it. */
  lemma AppendAccounted(js: string, ts: seq<Token>, super: int, t: Token, pos: nat, later: nat)
    requires -1 <= super < |ts| && AllAccounted(js, ts, pos) && later <= |js|
    requires forall p :: pos <= p < later ==> Marks(t, p) && js[p] != '\0'
    ensures AllAccounted(js, Counted(ts, super) + [t], later)
    ensures AllAccounted(js, Counted(ts + [t], super), later)
  {
    hide Marks, AllAccounted;
    CountedMarks(ts, super);
    CountedMarks(ts + [t], super);
    var us := Counted(ts, super) + [t];
    StillAccounted(js, ts, us, pos);
    AccountedUpTo(js, us, |ts|, pos, later);
    StillAccounted(js, ts, ts + [t], pos);
    AccountedUpTo(js, ts + [t], |ts|, pos, later);
    StillAccounted(js, ts + [t], Counted(ts + [t], super), later);
  }

  lemma CloseAccounted(js: string, ts: seq<Token>, i: nat, pos: nat)
    requires i < |ts| && ts[i].end == -1 && IsList(ts[i].kind) && AllAccounted(js, ts, pos) && pos < |js|
    requires js[pos] != '\0'
    ensures AllAccounted(js, ts[i := ts[i].(end := pos + 1)], pos + 1)
  {
    hide AllAccounted;
    var us := ts[i := ts[i].(end := pos + 1)];
    StillAccounted(js, ts, us, pos);
    AccountedUpTo(js, us, i, pos, pos + 1);
  }

  /** A leaf stands for all from where it was found to where the next thing begins. */
  lemma LeafMarks(js: string, pos: nat)
    requires !AtEnd(js, pos) && LexemeAt(js, pos).Leaf?
    ensures var Leaf(kind, start, end, next) := LexemeAt(js, pos);
      forall p :: pos <= p < next ==> Marks(Token(kind, start, end, 0), p) && js[p] != '\0'
  {
    hide StringEnd, PrimitiveEnd;
    var Leaf(kind, start, end, next) := LexemeAt(js, pos);
    if kind == Str { StringEndsThere(js, start, end); } else { PrimitiveEndsThere(js, start, end); }
    forall p | pos <= p < next ensures js[p] != '\0' {
      if kind == Str && start <= p < end { assert PlainOrEscaped(js, start, p, end); }
    }
  }

  lemma BlankAccounted(js: string, ts: seq<Token>, pos: nat)
    requires AllAccounted(js, ts, pos) && !AtEnd(js, pos)
    requires var l := LexemeAt(js, pos); l.Blank? || l.Colon? || l.Comma?
    ensures AllAccounted(js, ts, pos + 1)
  {
    hide StringEnd, PrimitiveEnd;
  }

  lemma {:induction false} FillAccounts(js: string, pos: nat, ts: seq<Token>, super: int, num: nat)
    requires -1 <= super < |ts| && AllAccounted(js, ts, pos)
    requires forall i :: 0 <= i < |ts| && IsOpen(ts[i]) ==> IsList(ts[i].kind)
    ensures match Fill(js, pos, ts, super, num)
      case Tokens(us) => exists end: nat :: end <= |js| && AtEnd(js, end) && AllAccounted(js, us, end)
      case Error(_) => true
    decreases |js| - pos
  {
    hide LexemeAt, AllAccounted, Marks;
    if !AtEnd(js, pos) {
      match LexemeAt(js, pos)
      case Open(kind) =>
        var t := Token(kind, pos, -1, 0);
        assert Marks(t, pos) by { OpenMarks(kind, pos); }
        AppendAccounted(js, ts, super, t, pos, pos + 1);
        if |ts| < num { FillAccounts(js, pos + 1, Counted(ts, super) + [t], |ts|, num); }
      case Close(kind) =>
        var i := LastOpen(ts);
        if i >= 0 && ts[i].kind == kind {
          CloseAccounted(js, ts, i, pos);
          FillAccounts(js, pos + 1, ts[i := ts[i].(end := pos + 1)], LastOpen(ts[..i]), num);
        }
      case Leaf(kind, start, end, next) =>
        var t := Token(kind, start, end, 0);
        LeafMarks(js, pos);
        AppendAccounted(js, ts, super, t, pos, next);
        if |ts| < num { FillAccounts(js, next, Counted(ts + [t], super), super, num); }
      case Bad(_) =>
      case Blank =>
        BlankAccounted(js, ts, pos);
        FillAccounts(js, pos + 1, ts, super, num);
      case Colon =>
        BlankAccounted(js, ts, pos);
        FillAccounts(js, pos + 1, ts, |ts| - 1, num);
      case Comma =>
        BlankAccounted(js, ts, pos);
        FillAccounts(js, pos + 1, ts, AfterComma(ts, super), num);
    } else {
      InBounds(js, ts, pos);
    }
  }

  lemma OpenMarks(kind: Kind, pos: nat)
    requires IsList(kind)
    ensures Marks(Token(kind, pos, -1, 0), pos)
  {
  }

  lemma InBounds(js: string, ts: seq<Token>, pos: nat)
    requires AllAccounted(js, ts, pos)
    ensures pos <= |js|
  {
  }

  /** The length of the text up to the first NUL. */
  function TextLength(js: string): (n: nat)
    ensures n <= |js|
  {
    if AtEnd(js, 0) then 0 else 1 + TextLength(js[1..])
  }

  lemma {:induction false} TextLengthIs(js: string, n: nat)
    requires n <= |js| && AtEnd(js, n) && forall p :: 0 <= p < n ==> js[p] != '\0'
    ensures TextLength(js) == n
    decreases n
  {
    if n > 0 { TextLengthIs(js[1..], n - 1); }
  }

  /** MAIN (tokenizer): the tokens of a text that fills account for all of it: a character for which no token stands
      is a blank, a colon or a comma. */
  lemma TokensCoverText(js: string, num: nat)
    ensures match Fill(js, 0, [], -1, num)
      case Tokens(ts) =>
        forall p :: 0 <= p < TextLength(js) ==>
          js[p] in {'\t', '\r', '\n', ' ', ':', ','} || exists i :: 0 <= i < |ts| && Marks(ts[i], p)
      case Error(_) => true
  {
    hide Fill, Marks, TextLength;
    FillAccounts(js, 0, [], -1, num);
    match Fill(js, 0, [], -1, num)
    case Error(_) =>
    case Tokens(ts) =>
      var end: nat :| end <= |js| && AtEnd(js, end) && AllAccounted(js, ts, end);
      TextLengthIs(js, end);
      forall p | 0 <= p < end
        ensures js[p] in {'\t', '\r', '\n', ' ', ':', ','} || exists i :: 0 <= i < |ts| && Marks(ts[i], p)
      {
        assert Accounted(js, ts, p);
      }
  }

  /** MAIN (tokenizer): the tokens of a text that fills begin one after the other, any two are apart or one
      within the other, every token is closed, and every list ends with the bracket of its kind. */
  lemma TokensAreAForest(js: string, num: nat)
    ensures match Fill(js, 0, [], -1, num)
      case Tokens(ts) =>
        && (forall i :: 0 <= i < |ts| ==> Spans(js, ts[i], |js|) && ts[i].end != -1)
        && (forall i, j :: 0 <= i < j < |ts| ==>
              ts[i].start < ts[j].start && (ts[i].end <= ts[j].start || ts[j].end <= ts[i].end))
      case Error(_) => true
  {
    hide Fill;
    FillIsForest(js, 0, [], -1, num);
    match Fill(js, 0, [], -1, num)
    case Error(_) =>
    case Tokens(ts) =>
      forall i | 0 <= i < |ts| ensures Spans(js, ts[i], |js|) && ts[i].end != -1 {
        assert !IsOpen(ts[i]);
      }
      forall i, j | 0 <= i < j < |ts|
        ensures ts[i].start < ts[j].start && (ts[i].end <= ts[j].start || ts[j].end <= ts[i].end)
      {
        assert Nests(ts[i], ts[j]);
      }
  }
}
