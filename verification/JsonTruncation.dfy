/**
 Texts that are cut off: what the parser says of the first part of a text that it accepts.
 */
module JsonTruncation {
  import opened JsonText
  import opened JsonParser

  /** How reading the first `n` characters of `s` ends when more was needed: the input is incomplete, or what it ends
      with could only have been the beginning of a comment or of a signed number. */
  ghost predicate Broken<T>(c: Parsed<T>, s: string, n: nat)
    requires n <= |s|
  {
    c == Err(IncompleteInput) || (n > 0 && s[n - 1] in {'/', '+', '-'} && c == Err(InvalidInput))
  }

  /** Reading stopped at an end of the text. */
  ghost predicate Ends<T>(d: Parsed<T>, s: string) {
    d.Ok? ==> |d.rest| <= |s| && d.rest == s[|s| - |d.rest|..]
  }

  /** `c` is what reading the first `n` characters of `s` gives when reading all of it gives `d`. */
  ghost predicate Cut<T>(s: string, d: Parsed<T>, n: nat, c: Parsed<T>)
    requires n <= |s|
  {
    Ends(d, s) &&
    (d.Ok? ==>
       var used := |s| - |d.rest|; if n < used then Broken(c, s, n) else c == Ok(d.value, s[used..n]))
  }

  /** The same, of what may also end early at the end of the text. */
  ghost predicate CutLoosely<T>(s: string, d: Parsed<T>, n: nat, c: Parsed<T>)
    requires n <= |s|
  {
    Ends(d, s) &&
    (d.Ok? ==>
       var used := |s| - |d.rest|;
       if n < used then Broken(c, s, n) || (c.Ok? && c.rest == "") else c == Ok(d.value, s[used..n]))
  }

  /** The same, of what needs a character to stop at. */
  ghost predicate CutShort<T>(s: string, d: Parsed<T>, n: nat, c: Parsed<T>)
    requires n <= |s|
  {
    Ends(d, s) &&
    (d.Ok? ==> var used := |s| - |d.rest|; if n <= used then Broken(c, s, n) else c == Ok(d.value, s[used..n]))
  }

  ghost predicate CutSkip(s: string, n: nat)
    requires n <= |s|
  {
    CutShort(s, Skip(s), n, Skip(s[..n]))
  }

  function Past(n: nat, used: nat): nat {
    if used <= n then n - used else 0
  }

  /** A part that begins later. */
  lemma Later(s: string, used: nat)
    requires used <= |s|
    ensures forall i :: 0 <= i <= |s| - used ==> s[used..][i..] == s[used + i..]
    ensures forall i, j :: 0 <= i <= j <= |s| - used ==> s[used..][i..j] == s[used + i..used + j]
  {
  }

  lemma Slices(s: string, used: nat, i: nat, j: nat)
    requires used + i <= j <= |s|
    ensures s[used..][i..] == s[used + i..] && s[used..][i..j - used] == s[used + i..j]
  {
  }

  lemma BrokenLater<T>(c: Parsed<T>, s: string, used: nat, n: nat)
    requires used <= n <= |s| && Broken(c, s[used..], n - used)
    ensures Broken(c, s, n)
  {
  }

  lemma IncompleteIsBroken<T>(c: Parsed<T>, s: string, n: nat)
    requires n <= |s| && c == Err(IncompleteInput)
    ensures Broken(c, s, n)
  {
  }

  lemma BrokenAs<A, B>(a: Parsed<A>, b: Parsed<B>, s: string, n: nat)
    requires n <= |s| && Broken(a, s, n) && a.Err? && b == Err(a.error)
    ensures Broken(b, s, n)
  {
  }

  // ---- One part behind another

  lemma NotRead<T>(s: string, d: Parsed<T>, n: nat, c: Parsed<T>)
    requires n <= |s| && d.Err?
    ensures Cut(s, d, n, c)
  {
  }

  /** One character, and what follows it. */
  lemma CharThen<T>(s: string, n: nat, d: Parsed<T>, c': Parsed<T>, c: Parsed<T>)
    requires s != "" && n <= |s| && Cut(s[1..], d, Past(n, 1), c')
    requires if n == 0 then c == Err(IncompleteInput) else c == c'
    ensures Cut(s, d, n, c) && (d.Ok? ==> |d.rest| < |s|)
  {
    hide Broken;
    if d.Ok? {
      var t := s[1..];
      var used := |t| - |d.rest|;
      if 0 < n <= used {
        Slices(s, 1, used, |s|);
        BrokenLater(c, s, 1, n);
      } else if n > 0 {
        Slices(s, 1, used, n);
      } else {
        Slices(s, 1, used, |s|);
        IncompleteIsBroken(c, s, n);
      }
    }
  }

  /** A last character. */
  lemma CharEnds<T>(s: string, n: nat, v: T)
    requires 0 < n <= |s|
    ensures Cut(s, Ok(v, s[1..]), n, Ok(v, s[..n][1..]))
  {
    assert s[..n][1..] == s[1..n];
  }

  /** Skipping, and what follows it, which is not nothing. */
  lemma SkipThen<T>(s: string, n: nat, b: Parsed<T>, b': Parsed<T>, d: Parsed<T>, c: Parsed<T>)
    requires n <= |s| && CutSkip(s, n)
    requires var k := Skip(s); k.Ok? && n > |s| - |k.rest| ==> Cut(k.rest, b, n - (|s| - |k.rest|), b')
    requires var k := Skip(s); k.Ok? ==> Ends(b, k.rest) && (b.Ok? ==> |b.rest| < |k.rest|)
    requires d == if Skip(s).Err? then Err(Skip(s).error) else b
    requires c == if Skip(s[..n]).Err? then Err(Skip(s[..n]).error) else b'
    ensures Cut(s, d, n, c) && (d.Ok? ==> |d.rest| < |s|)
  {
    if d.Ok? {
      var t := Skip(s).rest;
      var used := |s| - |t|;
      Later(s, used);
      if n <= used {
        BrokenAs(Skip(s[..n]), c, s, n);
      } else if Broken(c, t, n - used) {
        BrokenLater(c, s, used, n);
      }
    }
  }

  /** Something that may end early, and behind it something that may not be nothing. */
  lemma LooseThen<A, B>(
      s: string, a: Parsed<A>, n: nat, a': Parsed<A>, b: Parsed<B>, b': Parsed<B>, d: Parsed<B>, c: Parsed<B>)
    requires n <= |s| && CutLoosely(s, a, n, a')
    requires a.Ok? ==> Ends(b, a.rest) && (b.Ok? ==> |b.rest| < |a.rest|)
    requires a.Ok? && n >= |s| - |a.rest| ==> Cut(a.rest, b, n - (|s| - |a.rest|), b')
    requires d == if a.Err? then Err(a.error) else b
    requires a'.Err? ==> c == Err(a'.error)
    requires a.Ok? && n < |s| - |a.rest| && a'.Ok? ==> c == Err(IncompleteInput)
    requires a.Ok? && n >= |s| - |a.rest| ==> c == b'
    ensures Cut(s, d, n, c) && (d.Ok? ==> |d.rest| < |s|)
  {
    if d.Ok? {
      var used := |s| - |a.rest|;
      Later(s, used);
      if n < used {
        if a'.Err? { BrokenAs(a', c, s, n); }
      } else if Broken(c, a.rest, n - used) {
        BrokenLater(c, s, used, n);
      }
    }
  }

  /** Something more is made of what was read. */
  lemma CutAs<A, B>(s: string, a: Parsed<A>, n: nat, a': Parsed<A>, d: Parsed<B>, c: Parsed<B>)
    requires n <= |s| && Cut(s, a, n, a')
    requires a.Err? ==> d.Err?
    requires a.Ok? ==> d.Ok? && d.rest == a.rest
    requires a'.Err? ==> c == Err(a'.error)
    requires a.Ok? && a'.Ok? && a'.value == a.value ==> c == Ok(d.value, a'.rest)
    ensures Cut(s, d, n, c)
  {
    if d.Ok? && n < |s| - |a.rest| { BrokenAs(a', c, s, n); }
  }

  // ---- Between lexemes

  lemma {:induction false} BlockCut(s: string, wasStar: bool, n: nat)
    requires n <= |s| && BlockEnd(s, wasStar).Ok?
    ensures var rest := BlockEnd(s, wasStar).rest; var used := |s| - |rest|;
      && rest == s[used..]
      && BlockEnd(s[..n], wasStar) == if n < used then Err(IncompleteInput) else Ok((), s[used..n])
    decreases |s|
  {
    if n > 0 { assert s[..n][1..] == s[1..][..n - 1]; }
    Later(s, 1);
    if !(s[0] == '/' && wasStar) { BlockCut(s[1..], s[0] == '*', Past(n, 1)); }
  }

  lemma {:induction false} LineCut(s: string, n: nat)
    requires n <= |s| && LineEnd(s).Ok?
    ensures var rest := LineEnd(s).rest; var used := |s| - |rest|;
      && rest == s[used..]
      && LineEnd(s[..n]) == if n <= used then Err(IncompleteInput) else Ok((), s[used..n])
    decreases |s|
  {
    if s[0] == '\n' {
      assert s[0..] == s && s[0..n] == s[..n];
    } else {
      if n > 0 { assert s[..n][1..] == s[1..][..n - 1]; }
      Later(s, 1);
      LineCut(s[1..], Past(n, 1));
    }
  }

  lemma SkipNothing()
    ensures Skip("") == Err(IncompleteInput)
  {
  }

  lemma SkipStep(s: string)
    requires s != "" && s[0] != NUL
    ensures IsSpace(s[0]) ==> Skip(s) == Skip(s[1..])
    ensures s[0] == '/' && |s| == 1 ==> Skip(s) == Err(InvalidInput)
    ensures s[0] == '/' && |s| > 1 && s[1] == '*' ==>
      Skip(s) == if BlockEnd(s[2..], false).Ok? then Skip(BlockEnd(s[2..], false).rest) else Err(BlockEnd(s[2..], false).error)
    ensures s[0] == '/' && |s| > 1 && s[1] == '/' ==>
      Skip(s) == if LineEnd(s[2..]).Ok? then Skip(LineEnd(s[2..]).rest) else Err(LineEnd(s[2..]).error)
    ensures s[0] == '/' && |s| > 1 && s[1] != '/' && s[1] != '*' ==> Skip(s) == Err(InvalidInput)
    ensures !IsSpace(s[0]) && s[0] != '/' ==> Skip(s) == Ok((), s)
  {
    hide BlockEnd, LineEnd;
    if |s| > 1 { assert s[1..][1..] == s[2..]; }
  }

  /** Behind a first part that is done away with. */
  lemma ShortThen<T>(s: string, used: nat, n: nat, d: Parsed<T>, c: Parsed<T>)
    requires 0 < used <= |s| && n <= |s| && Ends(d, s[used..])
    requires if n < used then Broken(c, s, n) else CutShort(s[used..], d, n - used, c)
    ensures CutShort(s, d, n, c)
  {
    hide Broken;
    if d.Ok? {
      var more := |s| - used - |d.rest|;
      if n <= used + more {
        Slices(s, used, more, |s|);
        if used <= n { BrokenLater(c, s, used, n); }
      } else {
        Slices(s, used, more, n);
      }
    }
  }

  lemma SkippedThen(s: string, used: nat, n: nat)
    requires 0 < used <= |s| && n <= |s| && Skip(s) == Skip(s[used..])
    requires if n < used then Broken(Skip(s[..n]), s, n)
             else CutSkip(s[used..], n - used) && Skip(s[..n]) == Skip(s[used..][..n - used])
    requires Ends(Skip(s[used..]), s[used..])
    ensures CutSkip(s, n)
  {
    hide Skip, Broken, CutShort, Ends;
    ShortThen(s, used, n, Skip(s), Skip(s[..n]));
  }

  lemma {:induction false} SkipCut(s: string, n: nat)
    requires n <= |s|
    ensures CutSkip(s, n)
    decreases |s|
  {
    hide Skip, BlockEnd, LineEnd, CutSkip;
    SkipNothing();
    if s == "" || s[0] == NUL {
      NothingSkipped(s, n);
    } else {
      SkipStep(s);
      if n > 0 {
        assert s[..n][0] == s[0];
        SkipStep(s[..n]);
      }
      if IsSpace(s[0]) {
        SkipCut(s[1..], Past(n, 1));
        SkipEnds(s[1..], Past(n, 1));
        if n > 0 { assert s[..n][1..] == s[1..][..n - 1]; }
        SkippedThen(s, 1, n);
      } else if s[0] == '/' {
        CommentCut(s, n);
      } else {
        SolidCut(s, n);
      }
    }
  }

  lemma SkipEnds(s: string, n: nat)
    requires n <= |s| && CutSkip(s, n)
    ensures Ends(Skip(s), s)
  {
  }

  lemma NothingSkipped(s: string, n: nat)
    requires n <= |s| && (s == "" || s[0] == NUL)
    ensures CutSkip(s, n)
  {
  }

  lemma RefusedSkip(s: string, n: nat)
    requires n <= |s| && Skip(s).Err?
    ensures CutSkip(s, n)
  {
  }

  lemma SolidCut(s: string, n: nat)
    requires n <= |s| && Skip(s) == Ok((), s)
    ensures CutSkip(s, n)
  {
    SkipNothing();
    if n > 0 {
      assert s[..n][0] == s[0] && s[0..n] == s[..n];
      SkipSelf(s);
      SkipStep(s[..n]);
    }
    assert s[0..] == s;
  }

  lemma SkipSelf(s: string)
    requires Skip(s) == Ok((), s)
    ensures s != "" && s[0] != NUL && !IsSpace(s[0]) && s[0] != '/'
  {
  }

  lemma {:induction false} CommentCut(s: string, n: nat)
    requires n <= |s| && s != "" && s[0] == '/'
    ensures CutSkip(s, n)
    decreases |s|, 0
  {
    hide Skip, CutSkip, BlockEnd, LineEnd;
    SkipStep(s);
    if Skip(s).Err? {
      RefusedSkip(s, n);
    } else {
      var m := Past(n, 2);
      var block := s[1] == '*';
      var end := if block then BlockEnd(s[2..], false).rest else LineEnd(s[2..]).rest;
      if block { BlockCut(s[2..], false, m); } else { LineCut(s[2..], m); }
      var used := |s| - |end|;
      Later(s, 2);
      assert end == s[used..];
      SkipCut(end, Past(n, used));
      SkipEnds(end, Past(n, used));
      if n < 2 {
        CommentBegun(s, n);
      } else if block {
        BlockSkips(s, used, n);
      } else {
        LineSkips(s, used, n);
      }
      SkippedThen(s, used, n);
    }
  }

  lemma CommentBegun(s: string, n: nat)
    requires n < 2 <= |s| && s[0] == '/'
    ensures Broken(Skip(s[..n]), s, n)
  {
    hide Skip;
    SkipNothing();
    if n == 1 { SkipStep(s[..1]); }
  }

  lemma BlockSkips(s: string, used: nat, n: nat)
    requires 2 <= n <= |s| && s[0] == '/' && s[1] == '*' && 2 <= used <= |s|
    requires BlockEnd(s[2..][..n - 2], false) == if n < used then Err(IncompleteInput) else Ok((), s[2..][used - 2..n - 2])
    ensures if n < used then Broken(Skip(s[..n]), s, n) else Skip(s[..n]) == Skip(s[used..][..n - used])
  {
    hide Skip, BlockEnd;
    SkipStep(s[..n]);
    assert s[..n][2..] == s[2..][..n - 2];
    if n >= used { assert s[2..][used - 2..n - 2] == s[used..][..n - used]; }
  }

  lemma LineSkips(s: string, used: nat, n: nat)
    requires 2 <= n <= |s| && s[0] == '/' && s[1] == '/' && 2 <= used <= |s|
    requires LineEnd(s[2..][..n - 2]) == if n <= used then Err(IncompleteInput) else Ok((), s[2..][used - 2..n - 2])
    ensures if n < used then Broken(Skip(s[..n]), s, n) else Skip(s[..n]) == Skip(s[used..][..n - used])
  {
    hide Skip, LineEnd;
    SkipNothing();
    SkipStep(s[..n]);
    assert s[..n][2..] == s[2..][..n - 2];
    if n > used {
      assert s[2..][used - 2..n - 2] == s[used..][..n - used];
    } else if n == used {
      assert s[used..][..0] == "";
    }
  }

  // ---- Lexemes

  lemma PrependIs(c: char, p: Parsed<string>)
    ensures Prepend(c, p) == if p.Ok? then Ok([c] + p.value, p.rest) else p
  {
  }

  lemma QuotedStep(s: string, stop: char)
    requires s != "" && s[0] != stop && s[0] != NUL && stop != NUL
    ensures s[0] != '\\' ==> ParseQuoted(s, stop) == Prepend(s[0], ParseQuoted(s[1..], stop))
    ensures s[0] == '\\' && |s| == 1 ==> ParseQuoted(s, stop) == Err(IncompleteInput)
    ensures s[0] == '\\' && |s| > 1 && s[1] != NUL && s[1] != 'u' ==>
      ParseQuoted(s, stop) == Prepend(Unescape(s[1]), ParseQuoted(s[2..], stop))
    ensures s[0] == '\\' && |s| > 1 && (s[1] == NUL || s[1] == 'u') ==> ParseQuoted(s, stop).Err?
  {
    hide Prepend, Unescape;
  }

  lemma QuotedNothing(stop: char)
    requires stop != NUL
    ensures ParseQuoted("", stop) == Err(IncompleteInput)
  {
  }

  lemma {:induction false} QuotedCut(s: string, stop: char, n: nat)
    requires n <= |s| && stop != NUL && ParseQuoted(s, stop).Ok?
    ensures var d := ParseQuoted(s, stop); var used := |s| - |d.rest|;
      && d.rest == s[used..]
      && ParseQuoted(s[..n], stop) == if n < used then Err(IncompleteInput) else Ok(d.value, s[used..n])
    decreases |s|
  {
    QuotedNothing(stop);
    if s == "" || s[0] == NUL || s[0] == stop {
      if n > 0 { assert s[..n][0] == s[0] && s[..n][1..] == s[1..n]; }
    } else {
      hide ParseQuoted, Prepend;
      QuotedStep(s, stop);
      if n > 0 {
        assert s[..n][0] == s[0];
        QuotedStep(s[..n], stop);
      }
      var k := if s[0] == '\\' then 2 else 1;
      var c := if s[0] == '\\' then Unescape(s[1]) else s[0];
      var m := Past(n, k);
      PrependIs(c, ParseQuoted(s[k..], stop));
      PrependIs(c, ParseQuoted(s[k..][..m], stop));
      QuotedCut(s[k..], stop, m);
      Later(s, k);
      if n >= k {
        assert s[..n][k..] == s[k..][..m];
        assert k == 2 ==> s[..n][1] == s[1];
      }
    }
  }

  lemma {:induction false} WordCut(s: string, limit: nat, n: nat)
    requires n <= |s|
    ensures var w := Word(s, limit); Word(s[..n], limit) == if n < |w| then s[..n] else w
    decreases limit
  {
    if limit > 0 && s != "" && IsWord(s[0]) && n > 0 {
      assert s[..n][1..] == s[1..][..n - 1];
      WordCut(s[1..], limit - 1, n - 1);
      assert s[..n] == [s[0]] + s[1..][..n - 1];
    }
  }

  /** A limit that is no less than the text is none. */
  lemma {:induction false} WordLimit(s: string, limit: nat)
    requires limit >= |s|
    ensures Word(s, limit) == Word(s, |s|)
    decreases |s|
  {
    if s != "" && IsWord(s[0]) { WordLimit(s[1..], limit - 1); }
  }

  lemma {:induction false} MantissaCut(s: string, mantissa: nat, max: nat, n: nat)
    requires n <= |s| && Mantissa(s, mantissa, max).1 == ""
    ensures Mantissa(s[..n], mantissa, max).1 == ""
    decreases |s|
  {
    if n > 0 {
      assert s[..n][1..] == s[1..][..n - 1];
      MantissaCut(s[1..], mantissa * 10 + (s[0] - '0') as nat, max, n - 1);
    }
  }

  /** Of a number a sign alone is none, and any more of it is one. */
  lemma NumberCut(w: string, max: nat, n: nat)
    requires 0 < n < |w| && ParseNumber(w, max).Ok?
    ensures var c := ParseNumber(w[..n], max);
      (n == 1 && w[0] in {'+', '-'} && c == Err(InvalidInput)) || (c.Ok? && !Enclosed(c.value))
  {
    hide Mantissa;
    if w[0] == '-' || w[0] == '+' {
      if n > 1 {
        assert w[..n][1..] == w[1..][..n - 1];
        MantissaCut(w[1..], 0, max, n - 1);
      } else {
        assert w[..1][1..] == "";
      }
    } else {
      MantissaCut(w, 0, max, n);
    }
  }

  lemma NumberValue(w: string, max: nat)
    ensures var p := ParseNumber(w, max); p.Ok? ==> !Enclosed(p.value) && w != ""
  {
    hide Mantissa;
    assert Current("") == NUL;
  }

  lemma ParseWordCut(s: string, max: nat, n: nat)
    requires 0 < n <= |s| && ParseWord(s, max).Ok?
    ensures CutLoosely(s, ParseWord(s, max), n, ParseWord(s[..n], max))
    ensures !Enclosed(ParseWord(s, max).value) && |ParseWord(s, max).rest| < |s|
    ensures var c := ParseWord(s[..n], max); c.Ok? ==> !Enclosed(c.value)
  {
    hide Word, ParseNumber;
    var w := Word(s, 63);
    WordCut(s, 63, n);
    NumberValue(w, max);
    NumberValue(Word(s[..n], 63), max);
    if n < |w| {
      assert w[..n] == s[..n] && w[0] == s[0];
      assert s[..n][|s[..n]|..] == "";
      if w[0] !in {'t', 'f', 'n'} { NumberCut(w, max, n); }
    } else {
      assert s[..n][|w|..] == s[|w|..n];
    }
  }

  /** A cut off key is incomplete, or another key up to the end. */
  lemma KeyCut(s: string, n: nat)
    requires n <= |s|
    ensures CutLoosely(s, ParseKey(s), n, ParseKey(s[..n]))
  {
    if ParseKey(s).Ok? {
      hide ParseQuoted, Word;
      if n > 0 { assert s[..n][0] == s[0]; }
      if IsQuote(Current(s)) {
        if n > 0 { assert s[..n][1..] == s[1..][..n - 1]; }
        QuotedCut(s[1..], s[0], Past(n, 1));
        var used := |s| - 1 - |ParseKey(s).rest|;
        Slices(s, 1, used, if 1 + used <= n then n else |s|);
      } else {
        WordCut(s, |s|, n);
        WordLimit(s[..n], |s|);
        var w := Word(s, |s|);
        if n >= |w| {
          assert s[..n][|w|..] == s[|w|..n];
        } else {
          assert s[..n][n..] == "";
        }
      }
    }
  }

  // ---- Values

  lemma {:induction false} VariantCut(s: string, limit: nat, max: nat, n: nat)
    requires n <= |s|
    ensures var d, c := ParseVariant(s, limit, max), ParseVariant(s[..n], limit, max);
      CutLoosely(s, d, n, c) && (d.Ok? ==> |d.rest| < |s|) && (d.Ok? && Enclosed(d.value) ==> Cut(s, d, n, c))
    decreases |s|, 4
  {
    hide Skip, ParseValue, CutSkip;
    var d, c := ParseVariant(s, limit, max), ParseVariant(s[..n], limit, max);
    if d.Ok? {
      SkipCut(s, n);
      SkippedVariant(s, n);
      var t := Skip(s).rest;
      var used := |s| - |t|;
      ValueCut(t, limit, max, if used < n then n - used else 1);
      Later(s, used);
      if used < n {
        if Broken(c, t, n - used) { BrokenLater(c, s, used, n); }
      } else {
        BrokenAs(Skip(s[..n]), c, s, n);
      }
    }
  }

  lemma SkippedVariant(s: string, n: nat)
    requires n <= |s| && CutSkip(s, n) && Skip(s).Ok?
    ensures var t := Skip(s).rest; var used := |s| - |t|;
      && t != "" && |t| <= |s| && t == s[used..]
      && if n <= used then Skip(s[..n]).Err? && Broken(Skip(s[..n]), s, n) else Skip(s[..n]) == Ok((), t[..n - used])
  {
    hide Skip;
    var used := |s| - |Skip(s).rest|;
    if used <= n { assert s[used..n] == s[used..][..n - used] && Skip(s).value == (); }
  }

  lemma {:induction false} ValueCut(s: string, limit: nat, max: nat, n: nat)
    requires 0 < n <= |s| && ParseValue(s, limit, max).Ok?
    ensures var d, c := ParseValue(s, limit, max), ParseValue(s[..n], limit, max);
      CutLoosely(s, d, n, c) && |d.rest| < |s| && (Enclosed(d.value) ==> Cut(s, d, n, c))
    decreases |s|, 0
  {
    hide ParseQuoted, ParseWord, ParseArray, ParseObject;
    assert s[..n][0] == s[0] && s[..n][1..] == s[1..][..n - 1];
    if s[0] == '[' {
      ArrayCut(s, limit, max, n);
    } else if s[0] == '{' {
      ObjectCut(s, limit, max, n);
    } else if IsQuote(s[0]) {
      QuotedCut(s[1..], s[0], n - 1);
      Later(s, 1);
    } else {
      ParseWordCut(s, max, n);
    }
  }

  // ---- Arrays

  /** Behind an opening bracket. */
  function ArrayTail(s: string, limit: nat, max: nat): Parsed<Json>
    requires limit > 0
  {
    var skipped := Skip(s);
    if skipped.Err? then Err(skipped.error) else ArrayRest(skipped.rest, limit, max)
  }

  function ArrayRest(s: string, limit: nat, max: nat): Parsed<Json>
    requires limit > 0 && s != ""
  {
    if s[0] == ']' then Ok(Array(NoElements), s[1..]) else AsArray(ParseElements(s, limit, max))
  }

  function AsArray(es: Parsed<Elements>): Parsed<Json> {
    if es.Ok? then Ok(Array(es.value), es.rest) else Err(es.error)
  }

  lemma ArrayIs(s: string, limit: nat, max: nat)
    requires s != "" && limit > 0
    ensures ParseArray(s, limit, max) == ArrayTail(s[1..], limit, max)
  {
    hide Skip, ParseElements;
  }

  lemma {:induction false} ArrayCut(s: string, limit: nat, max: nat, n: nat)
    requires 0 < n <= |s| && ParseArray(s, limit, max).Ok?
    ensures var d := ParseArray(s, limit, max);
      Cut(s, d, n, ParseArray(s[..n], limit, max)) && |d.rest| < |s| && Enclosed(d.value)
    decreases |s|, 0, 0
  {
    hide ParseElements, Cut, ArrayTail, ArrayRest;
    LimitLeft(s, limit, max);
    ArrayIs(s, limit, max);
    ArrayIs(s[..n], limit, max);
    assert s[..n][1..] == s[1..][..n - 1];
    ArrayTailCut(s[1..], limit, max, n - 1);
    CharThen(s, n, ParseArray(s, limit, max), ArrayTail(s[1..][..n - 1], limit, max), ParseArray(s[..n], limit, max));
  }

  lemma LimitLeft(s: string, limit: nat, max: nat)
    requires s != ""
    ensures ParseArray(s, limit, max).Ok? ==> limit > 0 && Enclosed(ParseArray(s, limit, max).value)
    ensures ParseObject(s, limit, max).Ok? ==> limit > 0 && Enclosed(ParseObject(s, limit, max).value)
  {
    hide ParseElements, ParseMembers;
  }

  lemma {:induction false} ArrayTailCut(s: string, limit: nat, max: nat, n: nat)
    requires n <= |s| && limit > 0
    ensures Cut(s, ArrayTail(s, limit, max), n, ArrayTail(s[..n], limit, max))
    decreases |s|, 7
  {
    hide ParseElements, Cut, Skip, CutSkip, ArrayRest, Ends;
    SkipCut(s, n);
    var d, c := ArrayTail(s, limit, max), ArrayTail(s[..n], limit, max);
    if Skip(s).Err? {
      NotRead(s, d, n, c);
    } else {
      SkippedVariant(s, n);
      var t := Skip(s).rest;
      var used := |s| - |t|;
      var m := if used < n then n - used else 1;
      ArrayRestCut(t, limit, max, m);
      SkipThen(s, n, ArrayRest(t, limit, max), ArrayRest(t[..m], limit, max), d, c);
    }
  }

  lemma {:induction false} ArrayRestCut(s: string, limit: nat, max: nat, n: nat)
    requires 0 < n <= |s| && limit > 0
    ensures var d := ArrayRest(s, limit, max);
      Cut(s, d, n, ArrayRest(s[..n], limit, max)) && Ends(d, s) && (d.Ok? ==> |d.rest| < |s|)
    decreases |s|, 6
  {
    assert s[..n][0] == s[0];
    if s[0] == ']' {
      CharEnds(s, n, Array(NoElements));
    } else {
      hide ParseElements, Cut;
      ElementsCut(s, limit, max, n);
      CutAs(s, ParseElements(s, limit, max), n, ParseElements(s[..n], limit, max),
            ArrayRest(s, limit, max), ArrayRest(s[..n], limit, max));
      CutEnds(s, ArrayRest(s, limit, max), n, ArrayRest(s[..n], limit, max));
    }
  }

  lemma CutEnds<T>(s: string, d: Parsed<T>, n: nat, c: Parsed<T>)
    requires n <= |s| && Cut(s, d, n, c)
    ensures Ends(d, s)
  {
  }

  /** Behind an element. */
  function ElementTail(v: Json, s: string, limit: nat, max: nat): Parsed<Elements>
    requires limit > 0
  {
    var skipped := Skip(s);
    if skipped.Err? then Err(skipped.error) else ElementRest(v, skipped.rest, limit, max)
  }

  function ElementRest(v: Json, s: string, limit: nat, max: nat): Parsed<Elements>
    requires limit > 0 && s != ""
  {
    if s[0] == ']' then Ok(Element(v, NoElements), s[1..])
    else if s[0] != ',' then Err(InvalidInput)
    else HeadElement(v, ParseElements(s[1..], limit, max))
  }

  function HeadElement(v: Json, more: Parsed<Elements>): Parsed<Elements> {
    if more.Ok? then Ok(Element(v, more.value), more.rest) else more
  }

  lemma ElementsAre(s: string, limit: nat, max: nat)
    requires limit > 0
    ensures var v := ParseVariant(s, limit - 1, max);
      ParseElements(s, limit, max) == if v.Err? then Err(v.error) else ElementTail(v.value, v.rest, limit, max)
  {
    hide Skip, ParseVariant;
  }

  lemma TailOfNothing(v: Json, limit: nat, max: nat)
    requires limit > 0
    ensures ElementTail(v, "", limit, max) == Err(IncompleteInput)
  {
    SkipNothing();
  }

  lemma {:induction false} ElementsCut(s: string, limit: nat, max: nat, n: nat)
    requires n <= |s| && limit > 0
    ensures var d := ParseElements(s, limit, max);
      Cut(s, d, n, ParseElements(s[..n], limit, max)) && (d.Ok? ==> |d.rest| < |s|)
    decreases |s|, 5
  {
    hide ParseVariant, ParseElements, ElementTail, Cut, Ends, CutLoosely;
    ElementsAre(s, limit, max);
    ElementsAre(s[..n], limit, max);
    VariantCut(s, limit - 1, max, n);
    var v, v' := ParseVariant(s, limit - 1, max), ParseVariant(s[..n], limit - 1, max);
    var d, c := ParseElements(s, limit, max), ParseElements(s[..n], limit, max);
    if v.Err? {
      NotRead(s, d, n, c);
    } else {
      LooseRest(s, v, n, v');
      var used := |s| - |v.rest|;
      var m := Past(n, used);
      ElementTailCut(v.value, v.rest, limit, max, m);
      if n < used && v'.Ok? { TailOfNothing(v'.value, limit, max); }
      LooseThen(s, v, n, v', ElementTail(v.value, v.rest, limit, max), ElementTail(v.value, v.rest[..m], limit, max), d, c);
    }
  }

  lemma LooseRest<T>(s: string, a: Parsed<T>, n: nat, a': Parsed<T>)
    requires n <= |s| && CutLoosely(s, a, n, a') && a.Ok?
    ensures var used := |s| - |a.rest|;
      && |a.rest| <= |s| && Past(n, used) <= |a.rest|
      && (n < used && a'.Ok? ==> a'.rest == "")
      && (n >= used ==> a' == Ok(a.value, a.rest[..n - used]))
  {
    Later(s, |s| - |a.rest|);
  }

  lemma {:induction false} ElementTailCut(v: Json, s: string, limit: nat, max: nat, n: nat)
    requires n <= |s| && limit > 0
    ensures var d := ElementTail(v, s, limit, max);
      Cut(s, d, n, ElementTail(v, s[..n], limit, max)) && Ends(d, s) && (d.Ok? ==> |d.rest| < |s|)
    decreases |s|, 7
  {
    hide Cut, Skip, CutSkip, ElementRest, Ends;
    SkipCut(s, n);
    var d, c := ElementTail(v, s, limit, max), ElementTail(v, s[..n], limit, max);
    if Skip(s).Err? {
      NotRead(s, d, n, c);
    } else {
      SkippedVariant(s, n);
      var t := Skip(s).rest;
      var used := |s| - |t|;
      var m := if used < n then n - used else 1;
      ElementRestCut(v, t, limit, max, m);
      SkipThen(s, n, ElementRest(v, t, limit, max), ElementRest(v, t[..m], limit, max), d, c);
    }
    CutEnds(s, d, n, c);
  }

  lemma {:induction false} ElementRestCut(v: Json, s: string, limit: nat, max: nat, n: nat)
    requires 0 < n <= |s| && limit > 0
    ensures var d := ElementRest(v, s, limit, max);
      Cut(s, d, n, ElementRest(v, s[..n], limit, max)) && Ends(d, s) && (d.Ok? ==> |d.rest| < |s|)
    decreases |s|, 6
  {
    assert s[..n][0] == s[0];
    if s[0] == ']' {
      CharEnds(s, n, Element(v, NoElements));
    } else if s[0] == ',' {
      hide ParseElements, Cut;
      var d, c := ElementRest(v, s, limit, max), ElementRest(v, s[..n], limit, max);
      assert s[..n][1..] == s[1..][..n - 1];
      ElementsCut(s[1..], limit, max, n - 1);
      CutAs(s[1..], ParseElements(s[1..], limit, max), n - 1, ParseElements(s[1..][..n - 1], limit, max), d, c);
      CharThen(s, n, d, c, c);
      CutEnds(s, d, n, c);
    }
  }

  // ---- Objects

  function ObjectTail(s: string, limit: nat, max: nat): Parsed<Json>
    requires limit > 0
  {
    var skipped := Skip(s);
    if skipped.Err? then Err(skipped.error) else ObjectRest(skipped.rest, limit, max)
  }

  function ObjectRest(s: string, limit: nat, max: nat): Parsed<Json>
    requires limit > 0 && s != ""
  {
    if s[0] == '}' then Ok(Object(NoMembers), s[1..]) else AsObject(ParseMembers(s, limit, max))
  }

  function AsObject(ms: Parsed<Members>): Parsed<Json> {
    if ms.Ok? then Ok(Object(ms.value), ms.rest) else Err(ms.error)
  }

  lemma ObjectIs(s: string, limit: nat, max: nat)
    requires s != "" && limit > 0
    ensures ParseObject(s, limit, max) == ObjectTail(s[1..], limit, max)
  {
    hide Skip, ParseMembers;
  }

  lemma {:induction false} ObjectCut(s: string, limit: nat, max: nat, n: nat)
    requires 0 < n <= |s| && ParseObject(s, limit, max).Ok?
    ensures var d := ParseObject(s, limit, max);
      Cut(s, d, n, ParseObject(s[..n], limit, max)) && |d.rest| < |s| && Enclosed(d.value)
    decreases |s|, 0, 0
  {
    hide ParseMembers, Cut, ObjectTail, ObjectRest;
    LimitLeft(s, limit, max);
    ObjectIs(s, limit, max);
    ObjectIs(s[..n], limit, max);
    assert s[..n][1..] == s[1..][..n - 1];
    ObjectTailCut(s[1..], limit, max, n - 1);
    CharThen(s, n, ParseObject(s, limit, max), ObjectTail(s[1..][..n - 1], limit, max), ParseObject(s[..n], limit, max));
  }

  lemma {:induction false} ObjectTailCut(s: string, limit: nat, max: nat, n: nat)
    requires n <= |s| && limit > 0
    ensures Cut(s, ObjectTail(s, limit, max), n, ObjectTail(s[..n], limit, max))
    decreases |s|, 7
  {
    hide ParseMembers, Cut, Skip, CutSkip, ObjectRest, Ends;
    SkipCut(s, n);
    var d, c := ObjectTail(s, limit, max), ObjectTail(s[..n], limit, max);
    if Skip(s).Err? {
      NotRead(s, d, n, c);
    } else {
      SkippedVariant(s, n);
      var t := Skip(s).rest;
      var used := |s| - |t|;
      var m := if used < n then n - used else 1;
      ObjectRestCut(t, limit, max, m);
      SkipThen(s, n, ObjectRest(t, limit, max), ObjectRest(t[..m], limit, max), d, c);
    }
  }

  lemma {:induction false} ObjectRestCut(s: string, limit: nat, max: nat, n: nat)
    requires 0 < n <= |s| && limit > 0
    ensures var d := ObjectRest(s, limit, max);
      Cut(s, d, n, ObjectRest(s[..n], limit, max)) && Ends(d, s) && (d.Ok? ==> |d.rest| < |s|)
    decreases |s|, 6
  {
    assert s[..n][0] == s[0];
    if s[0] == '}' {
      CharEnds(s, n, Object(NoMembers));
    } else {
      hide ParseMembers, Cut;
      MembersCut(s, limit, max, n);
      CutAs(s, ParseMembers(s, limit, max), n, ParseMembers(s[..n], limit, max),
            ObjectRest(s, limit, max), ObjectRest(s[..n], limit, max));
      CutEnds(s, ObjectRest(s, limit, max), n, ObjectRest(s[..n], limit, max));
    }
  }

  /** Behind a key. */
  function KeyTail(key: string, s: string, limit: nat, max: nat): Parsed<Members>
    requires limit > 0
  {
    var skipped := Skip(s);
    if skipped.Err? then Err(skipped.error) else KeyRest(key, skipped.rest, limit, max)
  }

  function KeyRest(key: string, s: string, limit: nat, max: nat): Parsed<Members>
    requires limit > 0 && s != ""
  {
    if s[0] != ':' then Err(InvalidInput) else ColonTail(key, s[1..], limit, max)
  }

  /** Behind a colon. */
  function ColonTail(key: string, s: string, limit: nat, max: nat): Parsed<Members>
    requires limit > 0
  {
    var v := ParseVariant(s, limit - 1, max);
    if v.Err? then Err(v.error) else MemberTail(key, v.value, v.rest, limit, max)
  }

  /** Behind a member. */
  function MemberTail(key: string, v: Json, s: string, limit: nat, max: nat): Parsed<Members>
    requires limit > 0
  {
    var skipped := Skip(s);
    if skipped.Err? then Err(skipped.error) else MemberRest(key, v, skipped.rest, limit, max)
  }

  function MemberRest(key: string, v: Json, s: string, limit: nat, max: nat): Parsed<Members>
    requires limit > 0 && s != ""
  {
    if s[0] == '}' then Ok(Member(key, v, NoMembers), s[1..])
    else if s[0] != ',' then Err(InvalidInput)
    else CommaTail(key, v, s[1..], limit, max)
  }

  /** Behind a comma. */
  function CommaTail(key: string, v: Json, s: string, limit: nat, max: nat): Parsed<Members>
    requires limit > 0
  {
    var skipped := Skip(s);
    if skipped.Err? then Err(skipped.error) else HeadMember(key, v, ParseMembers(skipped.rest, limit, max))
  }

  function HeadMember(key: string, v: Json, more: Parsed<Members>): Parsed<Members> {
    if more.Ok? then Ok(Member(key, v, more.value), more.rest) else more
  }

  lemma MembersAre(s: string, limit: nat, max: nat)
    requires limit > 0
    ensures var key := ParseKey(s);
      ParseMembers(s, limit, max) == if key.Err? then Err(key.error) else KeyTail(key.value, key.rest, limit, max)
  {
    hide Skip, ParseVariant, ParseKey;
  }

  lemma KeyTailOfNothing(key: string, limit: nat, max: nat)
    requires limit > 0
    ensures KeyTail(key, "", limit, max) == Err(IncompleteInput)
  {
    SkipNothing();
  }

  lemma MemberTailOfNothing(key: string, v: Json, limit: nat, max: nat)
    requires limit > 0
    ensures MemberTail(key, v, "", limit, max) == Err(IncompleteInput)
  {
    SkipNothing();
  }

  lemma {:induction false} MembersCut(s: string, limit: nat, max: nat, n: nat)
    requires n <= |s| && limit > 0
    ensures var d := ParseMembers(s, limit, max);
      Cut(s, d, n, ParseMembers(s[..n], limit, max)) && (d.Ok? ==> |d.rest| < |s|)
    decreases |s|, 5
  {
    hide ParseKey, ParseMembers, KeyTail, Cut, Ends, CutLoosely;
    MembersAre(s, limit, max);
    MembersAre(s[..n], limit, max);
    KeyCut(s, n);
    var key, key' := ParseKey(s), ParseKey(s[..n]);
    var d, c := ParseMembers(s, limit, max), ParseMembers(s[..n], limit, max);
    if key.Err? {
      NotRead(s, d, n, c);
    } else {
      LooseRest(s, key, n, key');
      KeyNotEmpty(s);
      var used := |s| - |key.rest|;
      var m := Past(n, used);
      KeyTailCut(key.value, key.rest, limit, max, m);
      if n < used && key'.Ok? { KeyTailOfNothing(key'.value, limit, max); }
      LooseThen(s, key, n, key', KeyTail(key.value, key.rest, limit, max), KeyTail(key.value, key.rest[..m], limit, max), d, c);
    }
  }

  lemma KeyNotEmpty(s: string)
    requires ParseKey(s).Ok?
    ensures |ParseKey(s).rest| < |s|
  {
  }

  lemma {:induction false} KeyTailCut(key: string, s: string, limit: nat, max: nat, n: nat)
    requires n <= |s| && limit > 0
    ensures var d := KeyTail(key, s, limit, max);
      Cut(s, d, n, KeyTail(key, s[..n], limit, max)) && Ends(d, s) && (d.Ok? ==> |d.rest| < |s|)
    decreases |s|, 9
  {
    hide Cut, Skip, CutSkip, KeyRest, Ends;
    SkipCut(s, n);
    var d, c := KeyTail(key, s, limit, max), KeyTail(key, s[..n], limit, max);
    if Skip(s).Err? {
      NotRead(s, d, n, c);
    } else {
      SkippedVariant(s, n);
      var t := Skip(s).rest;
      var used := |s| - |t|;
      var m := if used < n then n - used else 1;
      KeyRestCut(key, t, limit, max, m);
      SkipThen(s, n, KeyRest(key, t, limit, max), KeyRest(key, t[..m], limit, max), d, c);
    }
    CutEnds(s, d, n, c);
  }

  lemma {:induction false} KeyRestCut(key: string, s: string, limit: nat, max: nat, n: nat)
    requires 0 < n <= |s| && limit > 0
    ensures var d := KeyRest(key, s, limit, max);
      Cut(s, d, n, KeyRest(key, s[..n], limit, max)) && Ends(d, s) && (d.Ok? ==> |d.rest| < |s|)
    decreases |s|, 8
  {
    assert s[..n][0] == s[0];
    if s[0] == ':' {
      hide ColonTail, Cut;
      var d, c := KeyRest(key, s, limit, max), KeyRest(key, s[..n], limit, max);
      assert s[..n][1..] == s[1..][..n - 1];
      ColonTailCut(key, s[1..], limit, max, n - 1);
      CharThen(s, n, d, c, c);
      CutEnds(s, d, n, c);
    }
  }

  lemma {:induction false} ColonTailCut(key: string, s: string, limit: nat, max: nat, n: nat)
    requires n <= |s| && limit > 0
    ensures var d := ColonTail(key, s, limit, max);
      Cut(s, d, n, ColonTail(key, s[..n], limit, max)) && (d.Ok? ==> |d.rest| < |s|)
    decreases |s|, 5
  {
    hide ParseVariant, MemberTail, Cut, Ends, CutLoosely;
    VariantCut(s, limit - 1, max, n);
    var v, v' := ParseVariant(s, limit - 1, max), ParseVariant(s[..n], limit - 1, max);
    var d, c := ColonTail(key, s, limit, max), ColonTail(key, s[..n], limit, max);
    if v.Err? {
      NotRead(s, d, n, c);
    } else {
      LooseRest(s, v, n, v');
      var used := |s| - |v.rest|;
      var m := Past(n, used);
      MemberTailCut(key, v.value, v.rest, limit, max, m);
      if n < used && v'.Ok? { MemberTailOfNothing(key, v'.value, limit, max); }
      LooseThen(s, v, n, v', MemberTail(key, v.value, v.rest, limit, max),
                MemberTail(key, v.value, v.rest[..m], limit, max), d, c);
    }
  }

  lemma {:induction false} MemberTailCut(key: string, v: Json, s: string, limit: nat, max: nat, n: nat)
    requires n <= |s| && limit > 0
    ensures var d := MemberTail(key, v, s, limit, max);
      Cut(s, d, n, MemberTail(key, v, s[..n], limit, max)) && Ends(d, s) && (d.Ok? ==> |d.rest| < |s|)
    decreases |s|, 9
  {
    hide Cut, Skip, CutSkip, MemberRest, Ends;
    SkipCut(s, n);
    var d, c := MemberTail(key, v, s, limit, max), MemberTail(key, v, s[..n], limit, max);
    if Skip(s).Err? {
      NotRead(s, d, n, c);
    } else {
      SkippedVariant(s, n);
      var t := Skip(s).rest;
      var used := |s| - |t|;
      var m := if used < n then n - used else 1;
      MemberRestCut(key, v, t, limit, max, m);
      SkipThen(s, n, MemberRest(key, v, t, limit, max), MemberRest(key, v, t[..m], limit, max), d, c);
    }
    CutEnds(s, d, n, c);
  }

  lemma {:induction false} MemberRestCut(key: string, v: Json, s: string, limit: nat, max: nat, n: nat)
    requires 0 < n <= |s| && limit > 0
    ensures var d := MemberRest(key, v, s, limit, max);
      Cut(s, d, n, MemberRest(key, v, s[..n], limit, max)) && Ends(d, s) && (d.Ok? ==> |d.rest| < |s|)
    decreases |s|, 8
  {
    assert s[..n][0] == s[0];
    if s[0] == '}' {
      CharEnds(s, n, Member(key, v, NoMembers));
    } else if s[0] == ',' {
      hide CommaTail, Cut;
      var d, c := MemberRest(key, v, s, limit, max), MemberRest(key, v, s[..n], limit, max);
      assert s[..n][1..] == s[1..][..n - 1];
      CommaTailCut(key, v, s[1..], limit, max, n - 1);
      CharThen(s, n, d, c, c);
      CutEnds(s, d, n, c);
    }
  }

  lemma {:induction false} CommaTailCut(key: string, v: Json, s: string, limit: nat, max: nat, n: nat)
    requires n <= |s| && limit > 0
    ensures Cut(s, CommaTail(key, v, s, limit, max), n, CommaTail(key, v, s[..n], limit, max))
    decreases |s|, 7
  {
    hide Cut, Skip, CutSkip, ParseMembers, Ends;
    SkipCut(s, n);
    var d, c := CommaTail(key, v, s, limit, max), CommaTail(key, v, s[..n], limit, max);
    if Skip(s).Err? {
      NotRead(s, d, n, c);
    } else {
      SkippedVariant(s, n);
      var t := Skip(s).rest;
      var used := |s| - |t|;
      var m := if used < n then n - used else 1;
      MembersCut(t, limit, max, m);
      var b, b' := HeadMember(key, v, ParseMembers(t, limit, max)), HeadMember(key, v, ParseMembers(t[..m], limit, max));
      CutAs(t, ParseMembers(t, limit, max), m, ParseMembers(t[..m], limit, max), b, b');
      CutEnds(t, b, m, b');
      SkipThen(s, n, b, b', d, c);
    }
  }

  /** MAIN (JSON): of whatever text a list or a string was read from, with whatever comments and quotes, every part that
      ends before it does is reported as incomplete, but for one that ends in a slash or a sign, which may be reported
      as invalid; every longer part gives that value again. */
  lemma TruncationIsNoticed(s: string, n: nat, limit: nat, max: nat)
    requires Parse(s, limit, max).Ok? && Enclosed(Parse(s, limit, max).value) && n <= |s|
    ensures var d := Parse(s, limit, max); var used := |s| - |d.rest|; var c := Parse(s[..n], limit, max);
      && d.rest == s[used..]
      && if n >= used then c == Ok(d.value, s[used..n])
         else c == Err(IncompleteInput) || (n > 0 && s[n - 1] in {'/', '+', '-'} && c == Err(InvalidInput))
  {
    hide ParseVariant;
    VariantCut(s, limit, max, n);
  }
}
