/**
 The tokenizer against the grammar: what it makes of a JSON text is the document's tree, its kinds of values in the
 order they begin, each list with the number of its elements or members and each key with its one value.
 */
module JsmnReading {
  import T = JsonText
  import G = JsonGrammar
  import opened Jsmn

  /** A token without its place. */
  datatype Shape = Shape(kind: Kind, size: nat)

  function Shapes(ts: seq<Token>): (r: seq<Shape>)
    ensures |r| == |ts|
  {
    seq(|ts|, i requires 0 <= i < |ts| => Shape(ts[i].kind, ts[i].size))
  }

  /** A document's values and keys in the order they begin. */
  function Preorder(v: T.Json): seq<Shape>
    decreases v
  {
    match v
    case Text(_) => [Shape(Str, 0)]
    case Array(es) => [Shape(Arr, T.Count(es))] + ElementsPreorder(es)
    case Object(ms) => [Shape(Obj, T.MembersCount(ms))] + MembersPreorder(ms)
    case _ => [Shape(Prim, 0)]
  }

  function ElementsPreorder(es: T.Elements): seq<Shape>
    decreases es
  {
    if es.NoElements? then [] else Preorder(es.value) + ElementsPreorder(es.next)
  }

  function MembersPreorder(ms: T.Members): seq<Shape>
    decreases ms
  {
    if ms.NoMembers? then [] else [Shape(Str, 1)] + (Preorder(ms.value) + MembersPreorder(ms.next))
  }

  // ---- Lexemes

  lemma {:induction false} StringFound(js: string, pos: nat)
    requires pos <= |js| && G.ReadString(js[pos..], '"').Reads?
    ensures var rest := G.ReadString(js[pos..], '"').rest; var e := |js| - |rest| - 1;
      pos <= e < |js| && StringEnd(js, pos) == Found(e) && js[e + 1..] == rest
    decreases |js| - pos
  {
    var s := js[pos..];
    if s[0] != '"' {
      if s[0] == '\\' {
        assert s[2..] == js[pos + 2..];
        assert G.Meant(s[1], '"').Some? && s[1] in {'"', '/', '\\', 'b', 'f', 'r', 'n', 't'};
        StringFound(js, pos + 2);
      } else {
        assert s[1..] == js[pos + 1..];
        StringFound(js, pos + 1);
      }
    }
  }

  /** A character of a literal or a number. */
  predicate IsWordChar(c: char) {
    'a' <= c <= 'z' || '0' <= c <= '9' || c == '-'
  }

  /** What is left of `s` is its end, behind word characters. */
  predicate BehindWord(s: string, rest: string) {
    |rest| <= |s| && rest == s[|s| - |rest|..] && forall i :: 0 <= i < |s| - |rest| ==> IsWordChar(s[i])
  }

  lemma BehindOneMore(s: string, rest: string)
    requires s != "" && IsWordChar(s[0]) && BehindWord(s[1..], rest)
    ensures BehindWord(s, rest)
  {
    forall i | 0 <= i < |s| - |rest| ensures IsWordChar(s[i]) {
      if i > 0 { assert s[i] == s[1..][i - 1]; }
    }
  }

  lemma {:induction false} DigitsBehind(s: string, n: nat)
    ensures BehindWord(s, G.ReadDigits(s, n).1)
    decreases |s|
  {
    if s != "" && '0' <= s[0] <= '9' {
      DigitsBehind(s[1..], n * 10 + (s[0] - '0') as nat);
      BehindOneMore(s, G.ReadDigits(s, n).1);
    }
  }

  lemma NothingBehind(s: string)
    ensures BehindWord(s, s)
  {
  }

  lemma IntegerBehind(s: string)
    requires G.ReadInteger(s).Reads?
    ensures BehindWord(s, G.ReadInteger(s).rest)
  {
    hide G.ReadDigits, BehindWord;
    if s[0] == '0' {
      assert BehindWord(s[1..], s[1..]) by { NothingBehind(s[1..]); }
      BehindOneMore(s, s[1..]);
    } else {
      DigitsBehind(s[1..], (s[0] - '0') as nat);
      assert G.ReadInteger(s).rest == G.ReadDigits(s[1..], (s[0] - '0') as nat).1;
      BehindOneMore(s, G.ReadInteger(s).rest);
    }
  }

  lemma WordBehind(s: string)
    requires G.ReadWord(s).Reads?
    ensures BehindWord(s, G.ReadWord(s).rest)
  {
    hide G.ReadInteger;
    if s[0] == '-' {
      IntegerBehind(s[1..]);
      BehindOneMore(s, G.ReadWord(s).rest);
    } else if !("null" <= s) && !("true" <= s) && !("false" <= s) {
      IntegerBehind(s);
    }
  }

  lemma WordFound(js: string, pos: nat)
    requires pos <= |js| && G.ReadWord(js[pos..]).Reads? && G.Delimited(G.ReadWord(js[pos..]).rest, false)
    ensures var rest := G.ReadWord(js[pos..]).rest; var e := |js| - |rest|;
      && pos < e <= |js| && PrimitiveEnd(js, pos) == Found(e) && js[e..] == rest
      && IsWordChar(js[pos])
  {
    hide G.ReadWord, PrimitiveEnd;
    WordBehind(js[pos..]);
    var rest := G.ReadWord(js[pos..]).rest;
    var e := |js| - |rest|;
    forall k | pos <= k < e ensures IsWordChar(js[k]) { assert js[k] == js[pos..][k - pos]; }
    assert e < |js| ==> js[e] == rest[0];
    PrimitiveEndsThere(js, pos, e);
  }

  lemma {:induction false} FillSkips(js: string, pos: nat, ts: seq<Token>, super: int, num: nat) returns (e: nat)
    requires pos <= |js| && -1 <= super < |ts|
    ensures pos <= e <= |js| && js[e..] == G.Layout(js[pos..], false)
    ensures Fill(js, pos, ts, super, num) == Fill(js, e, ts, super, num)
    decreases |js| - pos
  {
    e := pos;
    if pos < |js| && G.IsBlank(js[pos]) {
      assert js[pos..][1..] == js[pos + 1..];
      assert LexemeAt(js, pos) == Blank;
      e := FillSkips(js, pos + 1, ts, super, num);
    }
  }

  // ---- Tokens

  lemma ShapesMore(ts: seq<Token>, t: Token)
    ensures Shapes(ts + [t]) == Shapes(ts) + [Shape(t.kind, t.size)]
  {
  }

  /** The shapes once the token at `super` has one more child. */
  function Grew(shapes: seq<Shape>, super: int): (r: seq<Shape>)
    requires -1 <= super < |shapes|
    ensures |r| == |shapes|
  {
    if super == -1 then shapes else shapes[super := shapes[super].(size := shapes[super].size + 1)]
  }

  lemma ShapesCounted(ts: seq<Token>, super: int)
    requires -1 <= super < |ts|
    ensures Shapes(Counted(ts, super)) == Grew(Shapes(ts), super)
  {
  }

  lemma ShapesClosed(ts: seq<Token>, i: nat, end: int)
    requires i < |ts|
    ensures Shapes(ts[i := ts[i].(end := end)]) == Shapes(ts)
  {
  }

  predicate SamePlace(t: Token, u: Token) {
    u.kind == t.kind && u.start == t.start && u.end == t.end
  }

  /** More tokens, those before where they were, and none of the new ones open. */
  predicate Grown(ts: seq<Token>, us: seq<Token>) {
    && |ts| <= |us|
    && (forall i :: 0 <= i < |ts| ==> SamePlace(ts[i], us[i]))
    && (forall i :: |ts| <= i < |us| ==> !IsOpen(us[i]))
  }

  lemma GrownLastOpen(ts: seq<Token>, us: seq<Token>)
    requires Grown(ts, us)
    ensures LastOpen(us) == LastOpen(ts)
  {
    var i, j := LastOpen(ts), LastOpen(us);
    if i >= 0 { assert SamePlace(ts[i], us[i]); }
    if 0 <= j < |ts| { assert SamePlace(ts[j], us[j]); }
  }

  lemma GrownTwice(ts: seq<Token>, us: seq<Token>, vs: seq<Token>)
    requires Grown(ts, us) && Grown(us, vs)
    ensures Grown(ts, vs)
  {
    forall i | 0 <= i < |ts| ensures SamePlace(ts[i], vs[i]) {
      assert SamePlace(ts[i], us[i]) && SamePlace(us[i], vs[i]);
    }
    forall i | |ts| <= i < |vs| ensures !IsOpen(vs[i]) {
      if i < |us| { assert SamePlace(us[i], vs[i]); }
    }
  }

  lemma CountedGrown(ts: seq<Token>, super: int)
    requires -1 <= super < |ts|
    ensures Grown(ts, Counted(ts, super))
  {
  }

  /** As `Grown`, but that the token at `a`, the last that was open, is closed. */
  predicate Shut(ts: seq<Token>, us: seq<Token>, a: nat) {
    && a < |ts| <= |us|
    && (forall i :: 0 <= i < |ts| && i != a ==> SamePlace(ts[i], us[i]))
    && (forall i :: |ts| <= i < |us| ==> !IsOpen(us[i]))
    && us[a].kind == ts[a].kind && us[a].start == ts[a].start && !IsOpen(us[a])
  }

  lemma GrownShut(ts: seq<Token>, us: seq<Token>, vs: seq<Token>, a: nat)
    requires Grown(ts, us) && Shut(us, vs, a) && a < |ts|
    ensures Shut(ts, vs, a)
  {
    forall i | 0 <= i < |ts| && i != a ensures SamePlace(ts[i], vs[i]) {
      assert SamePlace(ts[i], us[i]) && SamePlace(us[i], vs[i]);
    }
    assert SamePlace(ts[a], us[a]);
    forall i | |ts| <= i < |vs| ensures !IsOpen(vs[i]) {
      if i < |us| { assert SamePlace(us[i], vs[i]); }
    }
  }

  lemma PrefixLastOpen(ts: seq<Token>, us: seq<Token>, a: nat)
    requires a <= |ts| && a <= |us| && forall i :: 0 <= i < a ==> SamePlace(ts[i], us[i])
    ensures LastOpen(us[..a]) == LastOpen(ts[..a])
  {
    assert Grown(ts[..a], us[..a]);
    GrownLastOpen(ts[..a], us[..a]);
  }

  lemma ShapeAt(ts: seq<Token>, i: nat)
    requires i < |ts|
    ensures Shapes(ts)[i] == Shape(ts[i].kind, ts[i].size)
  {
  }

  /** One more element, and what is said of those behind it. */
  lemma ElementShapes(x: seq<Shape>, a: nat, value: seq<Shape>, others: seq<Shape>, n: nat)
    requires a < |x|
    ensures var y := Grew(x, a) + value;
      y[a := Shape(x[a].kind, y[a].size + n)] + others == x[a := Shape(x[a].kind, x[a].size + (1 + n))] + (value + others)
    ensures Grew(x, a) + value == x[a := Shape(x[a].kind, x[a].size + 1)] + (value + [])
  {
  }

  /** A key without its value. */
  lemma KeyShapes(x: seq<Shape>, a: nat, value: seq<Shape>)
    requires a < |x|
    ensures Grew(Grew(x, a) + [Shape(Str, 0)], |x|) + value == Grew(x, a) + ([Shape(Str, 1)] + value)
  {
  }

  // ---- One lexeme

  lemma FillLeaf(js: string, pos: nat, ts: seq<Token>, super: int, num: nat, kind: Kind, start: nat, end: nat, next: nat)
    requires -1 <= super < |ts| < num && !AtEnd(js, pos) && LexemeAt(js, pos) == Leaf(kind, start, end, next)
    ensures var us := Counted(ts + [Token(kind, start, end, 0)], super);
      && Fill(js, pos, ts, super, num) == Fill(js, next, us, super, num)
      && Grown(ts, us) && |us| == |ts| + 1 && Shapes(us) == Grew(Shapes(ts), super) + [Shape(kind, 0)]
  {
    hide LexemeAt, Shapes;
    var t := Token(kind, start, end, 0);
    ShapesMore(ts, t);
    ShapesCounted(ts + [t], super);
  }

  lemma FillOpen(js: string, pos: nat, ts: seq<Token>, super: int, num: nat, kind: Kind)
    requires -1 <= super < |ts| < num && !AtEnd(js, pos) && LexemeAt(js, pos) == Open(kind)
    ensures var us := Counted(ts, super) + [Token(kind, pos, -1, 0)];
      && Fill(js, pos, ts, super, num) == Fill(js, pos + 1, us, |ts|, num)
      && LastOpen(us) == |ts| && Shapes(us) == Grew(Shapes(ts), super) + [Shape(kind, 0)]
  {
    hide LexemeAt, Shapes;
    ShapesCounted(ts, super);
    ShapesMore(Counted(ts, super), Token(kind, pos, -1, 0));
  }

  lemma FillClose(js: string, pos: nat, ts: seq<Token>, super: int, num: nat, kind: Kind)
    requires -1 <= super < |ts| && !AtEnd(js, pos) && LexemeAt(js, pos) == Close(kind)
    requires LastOpen(ts) >= 0 && ts[LastOpen(ts)].kind == kind
    ensures var a := LastOpen(ts); var us := ts[a := ts[a].(end := pos + 1)];
      && Fill(js, pos, ts, super, num) == Fill(js, pos + 1, us, LastOpen(ts[..a]), num)
      && Shut(ts, us, a) && Shapes(us) == Shapes(ts)
  {
    hide LexemeAt, Shapes;
    ShapesClosed(ts, LastOpen(ts), pos + 1);
  }

  // ---- Values

  /** Reading a value from `pos` on appends its tokens and counts it in its parent. */
  lemma {:induction false} ValueFills(js: string, pos: nat, ts: seq<Token>, super: int, num: nat)
    returns (e: nat, us: seq<Token>, sup: int)
    requires pos <= |js| && G.ReadValue(js[pos..], false).Reads? && -1 <= super < |ts|
    requires |ts| + |Preorder(G.ReadValue(js[pos..], false).value)| <= num
    ensures var r := G.ReadValue(js[pos..], false);
      && pos < e <= |js| && js[e..] == r.rest && Grown(ts, us) && -1 <= sup < |us|
      && Shapes(us) == Grew(Shapes(ts), super) + Preorder(r.value)
      && sup == (if r.value.Array? || r.value.Object? then LastOpen(ts) else super)
      && Fill(js, pos, ts, super, num) == Fill(js, e, us, sup, num)
    decreases |js| - pos, 2
  {
    hide Fill, Shapes, G.ReadString, G.ReadWord, G.Layout, StringEnd, PrimitiveEnd, G.ReadElements, G.ReadMembers, Grown,
      Grew, LastOpen, ElementsPreorder, MembersPreorder;
    var s := js[pos..];
    assert s[0] == js[pos] && s[1..] == js[pos + 1..];
    if s[0] == '"' {
      StringFound(js, pos + 1);
      e := |js| - |G.ReadValue(s, false).rest|;
      us, sup := Counted(ts + [Token(Str, pos + 1, e - 1, 0)], super), super;
      FillLeaf(js, pos, ts, super, num, Str, pos + 1, e - 1, e);
    } else if s[0] == '[' {
      e, us, sup := ArrayFills(js, pos, ts, super, num);
    } else if s[0] == '{' {
      e, us, sup := ObjectFills(js, pos, ts, super, num);
    } else {
      WordFound(js, pos);
      WordKinds(s);
      e := |js| - |G.ReadValue(s, false).rest|;
      us, sup := Counted(ts + [Token(Prim, pos, e, 0)], super), super;
      FillLeaf(js, pos, ts, super, num, Prim, pos, e, e);
    }
  }

  lemma WordKinds(s: string)
    requires G.ReadWord(s).Reads?
    ensures var v := G.ReadWord(s).value; v.Null? || v.Bool? || v.Positive? || v.Negative?
  {
    hide G.ReadInteger;
  }

  lemma {:induction false} ArrayFills(js: string, pos: nat, ts: seq<Token>, super: int, num: nat)
    returns (e: nat, us: seq<Token>, sup: int)
    requires pos < |js| && js[pos] == '[' && -1 <= super < |ts|
    requires G.ReadValue(js[pos..], false).Reads?
    requires |ts| + |Preorder(G.ReadValue(js[pos..], false).value)| <= num
    ensures var r := G.ReadValue(js[pos..], false);
      && pos < e <= |js| && js[e..] == r.rest && Grown(ts, us) && -1 <= sup < |us|
      && Shapes(us) == Grew(Shapes(ts), super) + Preorder(r.value)
      && sup == LastOpen(ts) && r.value.Array?
      && Fill(js, pos, ts, super, num) == Fill(js, e, us, sup, num)
    decreases |js| - pos, 1
  {
    hide Fill, Shapes, G.Layout, G.ReadElements, Grown, Grew, LastOpen, ElementsPreorder, Shut, T.Count;
    assert js[pos..][0] == js[pos] && js[pos..][1..] == js[pos + 1..];
    var a, begun := |ts|, Counted(ts, super) + [Token(Arr, pos, -1, 0)];
    assert LexemeAt(js, pos) == Open(Arr);
    FillOpen(js, pos, ts, super, num, Arr);
    var p := FillSkips(js, pos + 1, begun, a, num);
    EmptyPreorder();
    if p < |js| && js[p] == ']' {
      assert LexemeAt(js, p) == Close(Arr);
      FillClose(js, p, begun, a, num, Arr);
      e, us := p + 1, begun[a := begun[a].(end := p + 1)];
      assert js[e..] == js[p..][1..];
    } else {
      e, us := ElementsFill(js, p, begun, a, num);
    }
    sup := LastOpen(begun[..a]);
    ListGrown(ts, super, begun, us);
    var inner := G.ReadValue(js[pos..], false).value.elements;
    ListShapes(Grew(Shapes(ts), super), Shape(Arr, 0), T.Count(inner), ElementsPreorder(inner));
  }

  lemma {:induction false} ObjectFills(js: string, pos: nat, ts: seq<Token>, super: int, num: nat)
    returns (e: nat, us: seq<Token>, sup: int)
    requires pos < |js| && js[pos] == '{' && -1 <= super < |ts|
    requires G.ReadValue(js[pos..], false).Reads?
    requires |ts| + |Preorder(G.ReadValue(js[pos..], false).value)| <= num
    ensures var r := G.ReadValue(js[pos..], false);
      && pos < e <= |js| && js[e..] == r.rest && Grown(ts, us) && -1 <= sup < |us|
      && Shapes(us) == Grew(Shapes(ts), super) + Preorder(r.value)
      && sup == LastOpen(ts) && r.value.Object?
      && Fill(js, pos, ts, super, num) == Fill(js, e, us, sup, num)
    decreases |js| - pos, 1
  {
    hide Fill, Shapes, G.Layout, G.ReadMembers, Grown, Grew, LastOpen, MembersPreorder, Shut, T.MembersCount;
    assert js[pos..][0] == js[pos] && js[pos..][1..] == js[pos + 1..];
    var a, begun := |ts|, Counted(ts, super) + [Token(Obj, pos, -1, 0)];
    assert LexemeAt(js, pos) == Open(Obj);
    FillOpen(js, pos, ts, super, num, Obj);
    var p := FillSkips(js, pos + 1, begun, a, num);
    EmptyPreorder();
    if p < |js| && js[p] == '}' {
      assert LexemeAt(js, p) == Close(Obj);
      FillClose(js, p, begun, a, num, Obj);
      e, us := p + 1, begun[a := begun[a].(end := p + 1)];
      assert js[e..] == js[p..][1..];
    } else {
      e, us := MembersFill(js, p, begun, a, num);
    }
    sup := LastOpen(begun[..a]);
    ListGrown(ts, super, begun, us);
    var inner := G.ReadValue(js[pos..], false).value.members;
    ListShapes(Grew(Shapes(ts), super), Shape(Obj, 0), T.MembersCount(inner), MembersPreorder(inner));
  }

  /** A list that was empty when it was begun, with what is in it. */
  lemma ListShapes(before: seq<Shape>, list: Shape, n: nat, inner: seq<Shape>)
    ensures var x := before + [list];
      x[|before|] == list && x[|before| := list.(size := list.size + n)] + inner
        == before + ([list.(size := list.size + n)] + inner)
    ensures before + [list] == before + ([list] + [])
  {
  }

  lemma EmptyPreorder()
    ensures ElementsPreorder(T.NoElements) == [] && MembersPreorder(T.NoMembers) == []
    ensures T.Count(T.NoElements) == 0 && T.MembersCount(T.NoMembers) == 0
  {
  }

  lemma ListGrown(ts: seq<Token>, super: int, begun: seq<Token>, us: seq<Token>)
    requires -1 <= super < |ts| && |begun| == |ts| + 1 && begun[..|ts|] == Counted(ts, super)
    requires Shut(begun, us, |ts|)
    ensures Grown(ts, us) && LastOpen(begun[..|ts|]) == LastOpen(ts)
  {
    CountedGrown(ts, super);
    GrownLastOpen(ts, begun[..|ts|]);
    forall i | 0 <= i < |ts| ensures SamePlace(ts[i], us[i]) {
      assert SamePlace(ts[i], begun[..|ts|][i]) && SamePlace(begun[i], us[i]);
    }
    forall i | |ts| <= i < |us| ensures !IsOpen(us[i]) { }
  }

  lemma ElementStep(es: T.Elements)
    requires es.Element?
    ensures T.Count(es) == 1 + T.Count(es.next)
    ensures ElementsPreorder(es) == Preorder(es.value) + ElementsPreorder(es.next)
  {
  }

  lemma MemberStep(ms: T.Members)
    requires ms.Member?
    ensures T.MembersCount(ms) == 1 + T.MembersCount(ms.next)
    ensures MembersPreorder(ms) == [Shape(Str, 1)] + (Preorder(ms.value) + MembersPreorder(ms.next))
    ensures MembersPreorder(ms) == ([Shape(Str, 1)] + Preorder(ms.value)) + MembersPreorder(ms.next)
  {
  }

  /** The elements of the array at `a`, the innermost open list, up to its bracket. */
  lemma {:induction false} ElementsFill(js: string, pos: nat, ts: seq<Token>, a: nat, num: nat)
    returns (e: nat, us: seq<Token>)
    requires pos <= |js| && G.ReadElements(js[pos..], false).Reads?
    requires a < |ts| && LastOpen(ts) == a && ts[a].kind == Arr
    requires |ts| + |ElementsPreorder(G.ReadElements(js[pos..], false).value)| <= num
    ensures var r := G.ReadElements(js[pos..], false);
      && pos < e <= |js| && js[e..] == r.rest && Shut(ts, us, a)
      && Shapes(us) == Shapes(ts)[a := Shape(Arr, Shapes(ts)[a].size + T.Count(r.value))] + ElementsPreorder(r.value)
      && Fill(js, pos, ts, a, num) == Fill(js, e, us, LastOpen(ts[..a]), num)
    decreases |js| - pos, 3
  {
    hide Fill, Shapes, G.Layout, G.ReadValue, Grown, LastOpen, Shut, Preorder;
    var r := G.ReadElements(js[pos..], false);
    var p, vs, sup := ValueFills(js, pos, ts, a, num);
    GrownLastOpen(ts, vs);
    var q := FillSkips(js, p, vs, a, num);
    GrownKinds(ts, vs, a);
    assert js[q..][0] == js[q] && js[q..][1..] == js[q + 1..];
    if js[q] == ']' {
      assert LexemeAt(js, q) == Close(Arr);
      FillClose(js, q, vs, a, num, Arr);
      e, us := q + 1, vs[a := vs[a].(end := q + 1)];
      EmptyPreorder();
    } else {
      FillComma(js, q, vs, a, num);
      var n := FillSkips(js, q + 1, vs, a, num);
      e, us := ElementsFill(js, n, vs, a, num);
    }
    GrownShut(ts, vs, us, a);
    ShapeAt(ts, a);
    ElementStep(r.value);
    ElementShapes(Shapes(ts), a, Preorder(r.value.value), ElementsPreorder(r.value.next), T.Count(r.value.next));
  }

  lemma GrownKinds(ts: seq<Token>, us: seq<Token>, a: nat)
    requires Grown(ts, us) && a < |ts|
    ensures us[a].kind == ts[a].kind && LastOpen(us[..a]) == LastOpen(ts[..a])
  {
    assert SamePlace(ts[a], us[a]);
    PrefixLastOpen(ts, us, a);
  }

  /** Behind a comma the innermost open list is the parent again. */
  lemma FillComma(js: string, pos: nat, ts: seq<Token>, super: int, num: nat)
    requires 0 <= super < |ts| && LastOpen(ts) >= 0 && pos < |js| && js[pos] == ','
    requires super == LastOpen(ts) || !IsList(ts[super].kind)
    requires IsList(ts[LastOpen(ts)].kind)
    ensures Fill(js, pos, ts, super, num) == Fill(js, pos + 1, ts, LastOpen(ts), num)
  {
    assert LexemeAt(js, pos) == Comma;
  }

  lemma FillColon(js: string, pos: nat, ts: seq<Token>, super: int, num: nat)
    requires -1 <= super < |ts| && pos < |js| && js[pos] == ':'
    ensures Fill(js, pos, ts, super, num) == Fill(js, pos + 1, ts, |ts| - 1, num)
  {
    assert LexemeAt(js, pos) == Colon;
  }

  /** The key of a member and its colon: the key becomes the parent. */
  lemma KeyFills(js: string, pos: nat, ts: seq<Token>, a: nat, num: nat) returns (e: nat, us: seq<Token>)
    requires pos <= |js| && a < |ts| < num && G.ReadKey(js[pos..], false).Reads?
    requires ":" <= G.Layout(G.ReadKey(js[pos..], false).rest, false)
    ensures pos < e <= |js| && js[e..] == G.Layout(G.Layout(G.ReadKey(js[pos..], false).rest, false)[1..], false)
    ensures Grown(ts, us) && |us| == |ts| + 1 && us[|ts|].kind == Str
    ensures Shapes(us) == Grew(Shapes(ts), a) + [Shape(Str, 0)]
    ensures Fill(js, pos, ts, a, num) == Fill(js, e, us, |ts|, num)
  {
    hide Fill, Shapes, G.Layout, G.ReadString, Grown, Grew, StringEnd;
    var s := js[pos..];
    var key := G.ReadKey(s, false);
    assert s[0] == js[pos] && s[1..] == js[pos + 1..];
    StringFound(js, pos + 1);
    var k := |js| - |key.rest|;
    us := Counted(ts + [Token(Str, pos + 1, k - 1, 0)], a);
    FillLeaf(js, pos, ts, a, num, Str, pos + 1, k - 1, k);
    var c := FillSkips(js, k, us, a, num);
    assert js[c..][0] == js[c] && js[c..][1..] == js[c + 1..];
    FillColon(js, c, us, a, num);
    e := FillSkips(js, c + 1, us, |ts|, num);
  }

  /** The members of the object at `a`, the innermost open list, up to its brace. */
  lemma {:induction false} MembersFill(js: string, pos: nat, ts: seq<Token>, a: nat, num: nat)
    returns (e: nat, us: seq<Token>)
    requires pos <= |js| && G.ReadMembers(js[pos..], false).Reads?
    requires a < |ts| && LastOpen(ts) == a && ts[a].kind == Obj
    requires |ts| + |MembersPreorder(G.ReadMembers(js[pos..], false).value)| <= num
    ensures var r := G.ReadMembers(js[pos..], false);
      && pos < e <= |js| && js[e..] == r.rest && Shut(ts, us, a)
      && Shapes(us) == Shapes(ts)[a := Shape(Obj, Shapes(ts)[a].size + T.MembersCount(r.value))] + MembersPreorder(r.value)
      && Fill(js, pos, ts, a, num) == Fill(js, e, us, LastOpen(ts[..a]), num)
    decreases |js| - pos, 3
  {
    hide Fill, Shapes, G.Layout, G.ReadValue, G.ReadKey, Grown, Grew, LastOpen, Shut, Preorder, MembersPreorder,
      T.MembersCount;
    var r := G.ReadMembers(js[pos..], false);
    MemberStep(r.value);
    var b, named := KeyFills(js, pos, ts, a, num);
    GrownLastOpen(ts, named);
    GrownKinds(ts, named, a);
    var p, vs, sup := ValueFills(js, b, named, |ts|, num);
    GrownLastOpen(named, vs);
    GrownKinds(named, vs, a);
    GrownKinds(named, vs, |ts|);
    GrownTwice(ts, named, vs);
    var q := FillSkips(js, p, vs, sup, num);
    assert js[q..][0] == js[q] && js[q..][1..] == js[q + 1..];
    assert |vs| == |ts| + 1 + |Preorder(r.value.value)|;
    if js[q] == '}' {
      assert LexemeAt(js, q) == Close(Obj);
      FillClose(js, q, vs, sup, num, Obj);
      e, us := q + 1, vs[a := vs[a].(end := q + 1)];
      EmptyPreorder();
    } else {
      FillComma(js, q, vs, sup, num);
      var n := FillSkips(js, q + 1, vs, a, num);
      e, us := MembersFill(js, n, vs, a, num);
    }
    GrownShut(ts, vs, us, a);
    ShapeAt(ts, a);
    var x, value, others := Shapes(ts), [Shape(Str, 1)] + Preorder(r.value.value), MembersPreorder(r.value.next);
    KeyShapes(x, a, Preorder(r.value.value));
    ElementShapes(x, a, value, others, T.MembersCount(r.value.next));
    assert value + others == MembersPreorder(r.value);
  }

  /** MAIN (tokenizer): a JSON text, with enough tokens, is filled with the kinds and sizes of its document, in the order
      its values and keys begin. */
  lemma TokensAreTheTree(js: string, num: nat)
    requires var r := G.ReadValue(G.Layout(js, false), false);
      r.Reads? && G.Layout(r.rest, false) == "" && |Preorder(r.value)| <= num
    ensures var f := Fill(js, 0, [], -1, num);
      f.Tokens? && Shapes(f.tokens) == Preorder(G.ReadValue(G.Layout(js, false), false).value)
  {
    hide Fill, Shapes, G.Layout, G.ReadValue, Grown, Preorder;
    assert js[0..] == js;
    var p := FillSkips(js, 0, [], -1, num);
    var e, us, sup := ValueFills(js, p, [], -1, num);
    var q := FillSkips(js, e, us, sup, num);
    GrownLastOpen([], us);
    FillEnds(js, q, us, sup, num);
  }

  lemma FillEnds(js: string, pos: nat, ts: seq<Token>, super: int, num: nat)
    requires -1 <= super < |ts| && pos == |js| && LastOpen(ts) == -1
    ensures Fill(js, pos, ts, super, num) == Tokens(ts)
  {
  }
}
