/**
 The tokenizer as it runs: a parser that keeps its position, the next token to take and the superior token,
 and writes spans into the caller's array.
 */
module JsmnParser {
  import opened CInt
  import opened Jsmn

  function Code(e: Error): int {
    match e
    case NoMemory => -1
    case Invalid => -2
    case Partial => -3
  }

  function TallyCode(t: Tally): int {
    match t
    case Total(n) => n
    case Broken(e) => Code(e)
  }

  /** Only lists are open. */
  predicate ListsOpen(ts: seq<Token>) {
    forall i :: 0 <= i < |ts| && IsOpen(ts[i]) ==> IsList(ts[i].kind)
  }

  lemma ListsOpenKept(ts: seq<Token>, t: Token, super: int)
    requires ListsOpen(ts) && -1 <= super < |ts| && (IsOpen(t) ==> IsList(t.kind))
    ensures ListsOpen(Counted(ts, super)) && ListsOpen(ts + [t]) && ListsOpen(Counted(ts, super) + [t])
    ensures ListsOpen(Counted(ts + [t], super))
    ensures Counted(ts, super) + [t] == Counted(ts + [t], super)
  {
    assert forall i :: 0 <= i < |ts| ==> (IsOpen(Counted(ts, super)[i]) <==> IsOpen(ts[i]));
  }

  /** One step of filling. */
  lemma {:induction false} FillStep(js: string, pos: nat, ts: seq<Token>, super: int, num: nat)
    requires -1 <= super < |ts| && !AtEnd(js, pos)
    ensures Fill(js, pos, ts, super, num) ==
      match LexemeAt(js, pos)
      case Open(kind) =>
        if |ts| >= num then Error(NoMemory)
        else Fill(js, pos + 1, Counted(ts, super) + [Token(kind, pos, -1, 0)], |ts|, num)
      case Close(kind) =>
        var i := LastOpen(ts);
        if i == -1 || ts[i].kind != kind then Error(Invalid)
        else Fill(js, pos + 1, ts[i := ts[i].(end := pos + 1)], LastOpen(ts[..i]), num)
      case Leaf(kind, start, end, next) =>
        if |ts| >= num then Error(NoMemory)
        else Fill(js, next, Counted(ts + [Token(kind, start, end, 0)], super), super, num)
      case Blank => Fill(js, pos + 1, ts, super, num)
      case Colon => Fill(js, pos + 1, ts, |ts| - 1, num)
      case Comma => Fill(js, pos + 1, ts, AfterComma(ts, super), num)
      case Bad(error) => Error(error)
  {
    hide LexemeAt, AfterComma, LastOpen, Counted;
  }

  lemma FillEnds(js: string, pos: nat, ts: seq<Token>, super: int, num: nat)
    requires -1 <= super < |ts| && AtEnd(js, pos)
    ensures Fill(js, pos, ts, super, num) == if LastOpen(ts) >= 0 then Error(Partial) else Tokens(ts)
  {
  }

  lemma {:induction false} StringStep(js: string, pos: nat)
    ensures StringEnd(js, pos) ==
      if AtEnd(js, pos) then Failed(Partial)
      else if js[pos] == '"' then Found(pos)
      else if js[pos] == '\\' && pos + 1 < |js| then
        var c := js[pos + 1];
        if c in {'"', '/', '\\', 'b', 'f', 'r', 'n', 't'} then StringEnd(js, pos + 2)
        else if c == 'u' then
          var hex := HexEnd(js, pos + 2, 4);
          if hex.Failed? then Failed(Invalid) else StringEnd(js, hex.end)
        else Failed(Invalid)
      else StringEnd(js, pos + 1)
  {
    HexFails(js, pos + 2, 4);
    hide HexEnd;
  }

  lemma {:induction false} HexFails(js: string, pos: nat, n: nat)
    ensures var s := HexEnd(js, pos, n); s.Failed? ==> s.error == Invalid
    decreases n
  {
    if n > 0 && !AtEnd(js, pos) && IsHex(js[pos]) { HexFails(js, pos + 1, n - 1); }
  }

  class JsmnParser {
    var pos: nat
    var toknext: nat
    var toksuper: int

    constructor ()
      ensures pos == 0 && toknext == 0 && toksuper == -1
    {
      pos, toknext, toksuper := 0, 0, -1;
    }

    /** Past at most four hexadecimal digits. */
    method ScanHex(js: string) returns (ok: bool)
      modifies this`pos
      ensures match HexEnd(js, old(pos), 4)
        case Found(end) => ok && pos == end
        case Failed(e) => !ok && e == Invalid
    {
      var i := 0;
      while i < 4 && pos < |js| && js[pos] != NUL
        invariant 0 <= i <= 4 && HexEnd(js, old(pos), 4) == HexEnd(js, pos, 4 - i)
      {
        if !IsHex(js[pos]) { return false; }
        i, pos := i + 1, pos + 1;
      }
      return true;
    }

    /** From a string's opening quote to its closing one, or back and an error. */
    method ScanString(js: string) returns (r: int)
      requires pos < |js| && js[pos] == '"'
      modifies this`pos
      ensures match StringEnd(js, old(pos) + 1)
        case Found(end) => r == 0 && pos == end
        case Failed(e) => r == Code(e) && pos == old(pos)
    {
      hide StringEnd, HexEnd;
      var start := pos;
      pos := pos + 1;
      StringStep(js, pos);
      while pos < |js| && js[pos] != NUL
        invariant start < pos && StringEnd(js, start + 1) == StringEnd(js, pos)
        decreases |js| - pos
      {
        StringStep(js, pos);
        var c := js[pos];
        if c == '"' { return 0; }
        if c == '\\' && pos + 1 < |js| {
          pos := pos + 1;
          c := js[pos];
          if c == 'u' {
            pos := pos + 1;
            var ok := ScanHex(js);
            if !ok {
              pos := start;
              return Code(Invalid);
            }
            pos := pos - 1;
          } else if c !in {'"', '/', '\\', 'b', 'f', 'r', 'n', 't'} {
            pos := start;
            return Code(Invalid);
          }
        }
        pos := pos + 1;
      }
      StringStep(js, pos);
      pos := start;
      return Code(Partial);
    }

    /** From a primitive's first character to past its last, or back and an error. */
    method ScanPrimitive(js: string) returns (r: int)
      requires pos < |js| && !EndsPrimitive(js[pos]) && js[pos] != NUL
      modifies this`pos
      ensures match PrimitiveEnd(js, old(pos))
        case Found(end) => r == 0 && pos == end > old(pos)
        case Failed(e) => r == Code(e) && pos == old(pos)
    {
      var start := pos;
      while pos < |js| && js[pos] != NUL
        invariant start <= pos && PrimitiveEnd(js, start) == PrimitiveEnd(js, pos)
        decreases |js| - pos
      {
        if EndsPrimitive(js[pos]) { break; }
        if js[pos] < ' ' || js[pos] as int >= 127 {
          pos := start;
          return Code(Invalid);
        }
        pos := pos + 1;
      }
      return 0;
    }

    /** Takes the next token, if there is one. */
    method AllocToken(tokens: array<Token>, num: nat, token: Token) returns (ok: bool)
      requires toknext <= num <= tokens.Length
      modifies this`toknext, tokens
      ensures ok == (old(toknext) < num)
      ensures toknext == if ok then old(toknext) + 1 else old(toknext)
      ensures tokens[..toknext] == if ok then old(tokens[..toknext]) + [token] else old(tokens[..toknext])
    {
      if toknext >= num { return false; }
      tokens[toknext] := token;
      toknext := toknext + 1;
      return true;
    }

    /** One more child of the superior token. */
    method CountChild(tokens: array<Token>)
      requires -1 <= toksuper < toknext <= tokens.Length
      modifies tokens
      ensures tokens[..toknext] == Counted(old(tokens[..toknext]), toksuper)
    {
      if toksuper != -1 { tokens[toksuper] := tokens[toksuper].(size := tokens[toksuper].size + 1); }
    }

    method FindOpen(tokens: array<Token>, from: nat) returns (i: int)
      requires from <= tokens.Length
      ensures i == LastOpen(tokens[..from])
    {
      i := from - 1;
      while i >= 0
        invariant -1 <= i < from && LastOpen(tokens[..from]) == LastOpen(tokens[..i + 1])
      {
        assert tokens[..i + 1][..i] == tokens[..i];
        if IsOpen(tokens[i]) { return; }
        i := i - 1;
      }
    }

    /** A closing bracket: closes the innermost open list, and the next one out is superior again. */
    method CloseList(tokens: array<Token>, kind: Kind) returns (ok: bool)
      requires toknext <= tokens.Length
      modifies this`toksuper, tokens
      ensures var ts := old(tokens[..toknext]); var i := LastOpen(ts);
        && ok == (i >= 0 && ts[i].kind == kind)
        && (ok ==> tokens[..toknext] == ts[i := ts[i].(end := pos + 1)] && toksuper == LastOpen(ts[..i]))
    {
      var i := FindOpen(tokens, toknext);
      if i == -1 || tokens[i].kind != kind { return false; }
      ghost var ts := tokens[..toknext];
      tokens[i] := tokens[i].(end := pos + 1);
      assert tokens[..toknext] == ts[i := ts[i].(end := pos + 1)];
      assert tokens[..i] == ts[..i];
      toksuper := FindOpen(tokens, i);
      return true;
    }

    /** A string or a primitive, and its token if there are tokens. */
    method ParseLeaf(js: string, tokens: array?<Token>, num: nat) returns (r: int)
      requires !AtEnd(js, pos) && (LexemeAt(js, pos).Leaf? || LexemeAt(js, pos).Bad?)
      requires tokens != null ==> toknext <= num <= tokens.Length
      modifies this`pos, this`toknext, if tokens == null then {} else {tokens}
      ensures match LexemeAt(js, old(pos))
        case Bad(e) => r == Code(e)
        case Leaf(kind, start, end, next) =>
          if tokens == null then r == 0 && pos == next - 1 && toknext == old(toknext)
          else if old(toknext) >= num then r == Code(NoMemory)
          else
            && r == 0 && pos == next - 1 && toknext == old(toknext) + 1
            && tokens[..toknext] == old(tokens[..toknext]) + [Token(kind, start, end, 0)]
        case _ => true
    {
      var start := pos;
      var quoted := js[pos] == '"';
      if quoted { r := ScanString(js); } else { r := ScanPrimitive(js); }
      if r < 0 { return; }
      if tokens != null {
        var token := if quoted then Token(Str, start + 1, pos, 0) else Token(Prim, start, pos, 0);
        var ok := AllocToken(tokens, num, token);
        if !ok {
          pos := start;
          return Code(NoMemory);
        }
      }
      if !quoted { pos := pos - 1; }
      r := 0;
    }

    /** After a comma: from a key or its value back to the innermost open list. */
    method LeaveValue(tokens: array<Token>)
      requires -1 <= toksuper < toknext <= tokens.Length && ListsOpen(tokens[..toknext])
      modifies this`toksuper
      ensures toksuper == AfterComma(tokens[..toknext], old(toksuper))
    {
      if toksuper != -1 && !IsList(tokens[toksuper].kind) {
        var i := toknext - 1;
        while i >= 0
          invariant -1 <= i < toknext && LastOpen(tokens[..toknext]) == LastOpen(tokens[..i + 1])
          invariant toksuper == old(toksuper)
        {
          assert tokens[..i + 1][..i] == tokens[..i];
          assert IsOpen(tokens[..toknext][i]) ==> IsList(tokens[i].kind);
          if IsList(tokens[i].kind) && IsOpen(tokens[i]) {
            toksuper := i;
            return;
          }
          i := i - 1;
        }
      }
    }

    /** Counting: no array. */
    method CountTokens(js: string) returns (r: int)
      requires pos == 0 && toknext == 0 && toksuper == -1
      modifies this
      ensures r == TallyCode(Count(js, 0, 0))
    {
      hide LexemeAt;
      var count: nat := 0;
      while pos < |js| && js[pos] != NUL
        invariant Count(js, 0, 0) == Count(js, pos, count)
        decreases |js| - pos
      {
        LexemeOf(js, pos);
        var c := js[pos];
        if c == '{' || c == '[' {
          count := count + 1;
        } else if c == ':' {
          toksuper := -1;
        } else if c !in {'}', ']', '\t', '\r', '\n', ' ', ','} {
          r := ParseLeaf(js, null, 0);
          if r < 0 { return; }
          count := count + 1;
        }
        pos := pos + 1;
      }
      r := count;
    }

    /** Filling the array. */
    method Parse(js: string, tokens: array<Token>, num: nat) returns (r: int)
      requires pos == 0 && toknext == 0 && toksuper == -1 && num <= tokens.Length
      modifies this, tokens
      ensures match Fill(js, 0, [], -1, num)
        case Tokens(ts) => r == |ts| == toknext <= num && tokens[..toknext] == ts
        case Error(e) => r == Code(e)
    {
      hide LexemeAt, Fill, ListsOpen, Counted, AfterComma, LastOpen;
      var count: nat := 0;
      assert tokens[..0] == [];
      NothingOpen();
      while pos < |js| && js[pos] != NUL
        invariant -1 <= toksuper < toknext == count <= num
        invariant ListsOpen(tokens[..toknext])
        invariant Fill(js, 0, [], -1, num) == Fill(js, pos, tokens[..toknext], toksuper, num)
        decreases |js| - pos
      {
        LexemeOf(js, pos);
        ghost var ts := tokens[..toknext];
        FillStep(js, pos, ts, toksuper, num);
        var c := js[pos];
        if c == '{' || c == '[' {
          var token := Token(if c == '{' then Obj else Arr, pos, -1, 0);
          ListsOpenKept(ts, token, toksuper);
          count := count + 1;
          var ok := AllocToken(tokens, num, token);
          if !ok { return Code(NoMemory); }
          CountChild(tokens);
          toksuper := toknext - 1;
        } else if c == '}' || c == ']' {
          ClosedKept(ts, pos + 1);
          var ok := CloseList(tokens, if c == '}' then Obj else Arr);
          if !ok { return Code(Invalid); }
        } else if c == ':' {
          toksuper := toknext - 1;
        } else if c == ',' {
          LeaveValue(tokens);
        } else if c !in {'\t', '\r', '\n', ' '} {
          r := ParseLeaf(js, tokens, num);
          if r < 0 { return; }
          count := count + 1;
          ListsOpenKept(ts, tokens[toknext - 1], toksuper);
          CountChild(tokens);
        }
        pos := pos + 1;
      }
      FillEnds(js, pos, tokens[..toknext], toksuper, num);
      var i := FindOpen(tokens, toknext);
      if i >= 0 { return Code(Partial); }
      r := count;
    }
  }

  /** Which lexeme a character begins. */
  lemma LexemeOf(js: string, pos: nat)
    requires !AtEnd(js, pos)
    ensures var c, l := js[pos], LexemeAt(js, pos);
      && (c == '{' || c == '[' <==> l.Open?)
      && (l.Open? ==> l.kind == if c == '{' then Obj else Arr)
      && (c == '}' || c == ']' <==> l.Close?)
      && (l.Close? ==> l.kind == if c == '}' then Obj else Arr)
      && (c == ':' <==> l.Colon?) && (c == ',' <==> l.Comma?)
      && (c in {'\t', '\r', '\n', ' '} <==> l.Blank?)
      && (l.Leaf? ==> !IsOpen(Token(l.kind, l.start, l.end, 0)))
  {
    hide StringEnd, PrimitiveEnd;
  }

  lemma NothingOpen()
    ensures ListsOpen([])
  {
  }

  lemma ClosedKept(ts: seq<Token>, end: nat)
    requires ListsOpen(ts)
    ensures var i := LastOpen(ts); i >= 0 ==> ListsOpen(ts[i := ts[i].(end := end)])
  {
  }
}
