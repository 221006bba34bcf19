/**
 Topic filters: the in-place matcher against a reading of both filter and name level by level.
 A filter is a C string, so it holds no NUL; a name is any characters.
 */
module MqttTopic {

  /** What the matcher's loop decides from the rest of the filter and the rest of the name. */
  ghost function MatchesFrom(filter: string, name: string): bool
    decreases |filter|
  {
    if filter == "" || name == "" then filter == "" && name == ""
    else if name[0] == '/' && filter[0] != '/' then false
    else if filter[0] != '+' && filter[0] != '#' && filter[0] != name[0] then false
    else if filter[0] == '+' then MatchesFrom(filter[1..], name[LevelEnd(name)..])
    else if filter[0] == '#' then filter == "#"
    else MatchesFrom(filter[1..], name[1..])
  }

  /** Length of the first level of `s`. */
  ghost function LevelEnd(s: string): (k: nat)
    ensures k <= |s| && (k < |s| ==> s[k] == '/') && forall i :: 0 <= i < k ==> s[i] != '/'
  {
    if s == "" || s[0] == '/' then 0 else 1 + LevelEnd(s[1..])
  }

  lemma LevelEndUnique(s: string, k: nat)
    requires k <= |s| && (k < |s| ==> s[k] == '/') && forall i :: 0 <= i < k ==> s[i] != '/'
    ensures k == LevelEnd(s)
  {
  }

  /** The characters on which the loop stops. */
  predicate Mismatch(f: char, n: char) {
    (n == '/' && f != '/') || (f != '+' && f != '#' && f != n)
  }

  lemma MatchesStep(filter: string, curf: nat, name: string, curn: nat, next: nat)
    requires curf < |filter| && curn < next <= |name|
    requires !Mismatch(filter[curf], name[curn])
    requires
      if filter[curf] == '+' then
        (next < |name| ==> name[next] == '/') && forall i :: curn <= i < next ==> name[i] != '/'
      else next == if filter[curf] == '#' then |name| else curn + 1
    ensures MatchesFrom(filter[curf..], name[curn..]) == MatchesFrom(filter[curf + 1..], name[next..])
  {
    var f, n := filter[curf..], name[curn..];
    assert f[1..] == filter[curf + 1..];
    assert n[next - curn..] == name[next..];
    if filter[curf] == '+' {
      LevelEndUnique(n, next - curn);
    } else if filter[curf] == '#' {
      assert f == "#" <==> f[1..] == "";
    }
  }

  lemma MatchesStops(filter: string, name: string)
    ensures filter == "" || name == "" ==> MatchesFrom(filter, name) == (filter == "" && name == "")
    ensures filter != "" && name != "" && Mismatch(filter[0], name[0]) ==> !MatchesFrom(filter, name)
  {
  }

  /** `_is_topic_matched`. The two cursors walk the filter and the name. */
  method IsTopicMatched(filter: string, name: string) returns (matched: bool)
    ensures matched == MatchesFrom(filter, name)
  {
    hide MatchesFrom;
    var curf: nat, curn: nat := 0, 0;
    assert filter[0..] == filter && name[0..] == name;
    while curf < |filter| && curn < |name|
      invariant curf <= |filter| && curn <= |name|
      invariant MatchesFrom(filter, name) == MatchesFrom(filter[curf..], name[curn..])
      decreases |filter| - curf
    {
      ghost var start := curn;
      MatchesStops(filter[curf..], name[curn..]);
      if name[curn] == '/' && filter[curf] != '/' { break; }
      if filter[curf] != '+' && filter[curf] != '#' && filter[curf] != name[curn] { break; }
      if filter[curf] == '+' {
        var nextpos := curn + 1;
        while nextpos < |name| && name[nextpos] != '/'
          invariant start <= curn < nextpos == curn + 1 <= |name|
          invariant forall i :: start <= i <= curn ==> name[i] != '/'
        {
          curn := curn + 1;
          nextpos := curn + 1;
        }
      } else if filter[curf] == '#' {
        curn := |name| - 1;
      }
      MatchesStep(filter, curf, name, start, curn + 1);
      curf := curf + 1;
      curn := curn + 1;
    }
    MatchesStops(filter[curf..], name[curn..]);
    matched := curn == |name| && curf == |filter|;
  }

  /** The levels between the separators. */
  ghost function Levels(s: string): (ls: seq<string>)
    ensures ls != [] && ls[0] == s[..LevelEnd(s)]
    decreases |s|
  {
    var k := LevelEnd(s);
    if k == |s| then [s] else [s[..k]] + Levels(s[k + 1..])
  }

  /** How the client reads a filter: `+` stands for one non-empty level, and `#` for at least one level, the
      first of them non-empty. */
  ghost predicate LevelsMatch(fs: seq<string>, ns: seq<string>) {
    if fs == [] || ns == [] then fs == [] && ns == []
    else if fs[0] == "#" then ns[0] != ""
    else (if fs[0] == "+" then ns[0] != "" else fs[0] == ns[0]) && LevelsMatch(fs[1..], ns[1..])
  }

  ghost predicate Literal(level: string) {
    '+' !in level && '#' !in level
  }

  /** Section 4.7.1 of MQTT 3.1.1: a wildcard is a whole level, and `#` is the last. */
  ghost predicate WellFormed(fs: seq<string>) {
    fs != [] ==>
      && (Literal(fs[0]) || fs[0] == "+" || fs == ["#"])
      && WellFormed(fs[1..])
  }

  lemma LevelsSlash(s: string)
    requires s != "" && s[0] == '/'
    ensures Levels(s) == [""] + Levels(s[1..])
  {
  }

  lemma LevelsSkip(s: string)
    ensures var k := LevelEnd(s); Levels(s[k..]) == [""] + Levels(s)[1..]
  {
    var k := LevelEnd(s);
    if k == |s| {
      assert s[k..] == "";
    } else {
      LevelsSlash(s[k..]);
      assert s[k..][1..] == s[k + 1..];
    }
  }

  lemma {:induction false} LevelsStep(s: string)
    ensures var k := LevelEnd(s); Levels(s) == if k == |s| then [s] else [s[..k]] + Levels(s[k + 1..])
  {
  }

  lemma LevelsChar(s: string)
    requires s != "" && s[0] != '/'
    ensures Levels(s)[0] != "" && Levels(s)[0][0] == s[0]
    ensures Levels(s[1..]) == [Levels(s)[0][1..]] + Levels(s)[1..]
  {
    hide Levels;
    LevelsStep(s);
    LevelsStep(s[1..]);
    var k := LevelEnd(s);
    LevelEndUnique(s[1..], k - 1);
    assert s[1..][..k - 1] == s[..k][1..];
    if k < |s| { assert s[1..][k..] == s[k + 1..]; }
  }

  lemma LevelsEmpty(s: string)
    ensures Levels(s) == [""] <==> s == ""
  {
    if s != "" { if s[0] == '/' { LevelsSlash(s); } else { LevelsChar(s); } }
  }

  lemma WellFormedLiteral(level: string, fs: seq<string>)
    requires WellFormed(fs) && Literal(level)
    ensures WellFormed([level] + fs)
  {
    assert ([level] + fs)[1..] == fs;
  }

  lemma WellFormedTail(fs: seq<string>)
    requires fs != [] && WellFormed(fs)
    ensures Literal(fs[0]) || fs[0] == "+" || fs == ["#"]
    ensures WellFormed(fs[1..])
  {
  }

  lemma MatchLiteral(level: string, fs: seq<string>, name: string, ns: seq<string>)
    requires Literal(level)
    ensures LevelsMatch([level] + fs, [name] + ns) == (level == name && LevelsMatch(fs, ns))
  {
    assert ([level] + fs)[1..] == fs && ([name] + ns)[1..] == ns;
    assert level != "#" && level != "+";
  }

  lemma MatchNothing(fs: seq<string>)
    requires fs != []
    ensures LevelsMatch(fs, [""]) <==> fs == [""]
  {
  }

  lemma HeadTail(fs: seq<string>)
    requires fs != []
    ensures fs == [fs[0]] + fs[1..]
  {
  }

  /** MAIN (matcher): for every well-formed filter and every name, the matcher's cursors decide what
      comparing level by level decides. */
  lemma {:induction false} MatcherByLevels(filter: string, name: string)
    requires WellFormed(Levels(filter))
    ensures MatchesFrom(filter, name) == LevelsMatch(Levels(filter), Levels(name))
    decreases |filter|
  {
    hide Levels, WellFormed, LevelsMatch;
    var fs, ns := Levels(filter), Levels(name);
    HeadTail(fs);
    HeadTail(ns);
    WellFormedTail(fs);
    LevelsEmpty(filter);
    LevelsEmpty(name);
    if name == "" {
      MatchNothing(fs);
    } else if filter == "" {
      MatchLiteral("", [], ns[0], ns[1..]);
      MatchNoLevels(ns[1..]);
    } else if filter[0] == '/' {
      LevelsSlash(filter);
      MatchLiteral("", fs[1..], ns[0], ns[1..]);
      if name[0] == '/' {
        LevelsSlash(name);
        MatcherByLevels(filter[1..], name[1..]);
      } else {
        LevelsChar(name);
      }
    } else {
      LevelsChar(filter);
      if name[0] == '/' { LevelsSlash(name); } else { LevelsChar(name); }
      if fs[0] == "+" {
        MatchPlus(fs[1..], ns[0], ns[1..]);
        LevelsSkip(name);
        MatchLiteral("", fs[1..], "", ns[1..]);
        WellFormedLiteral("", fs[1..]);
        if name[0] != '/' { MatcherByLevels(filter[1..], name[LevelEnd(name)..]); }
      } else if fs == ["#"] {
        MatchHash(ns);
        LevelsEmpty(filter[1..]);
      } else {
        MatchLiteral(fs[0], fs[1..], ns[0], ns[1..]);
        assert filter[0] in fs[0];
        if filter[0] == name[0] {
          MatchLiteral(fs[0][1..], fs[1..], ns[0][1..], ns[1..]);
          WellFormedLiteral(fs[0][1..], fs[1..]);
          MatcherByLevels(filter[1..], name[1..]);
          assert fs[0] == [filter[0]] + fs[0][1..] && ns[0] == [name[0]] + ns[0][1..];
        }
      }
    }
  }

  lemma MatchNoLevels(ns: seq<string>)
    ensures LevelsMatch([], ns) <==> ns == []
  {
  }

  lemma MatchPlus(fs: seq<string>, name: string, ns: seq<string>)
    ensures LevelsMatch(["+"] + fs, [name] + ns) == (name != "" && LevelsMatch(fs, ns))
  {
    assert (["+"] + fs)[1..] == fs && ([name] + ns)[1..] == ns;
  }

  lemma MatchHash(ns: seq<string>)
    requires ns != []
    ensures LevelsMatch(["#"], ns) <==> ns[0] != ""
  {
  }

  /** Section 4.7.1 of MQTT 3.1.1: `+` stands for any one level, and `#` for any number of levels, none
      included. */
  ghost predicate StandardMatch(fs: seq<string>, ns: seq<string>) {
    if fs == [] then ns == []
    else if fs[0] == "#" then true
    else ns != [] && (fs[0] == "+" || fs[0] == ns[0]) && StandardMatch(fs[1..], ns[1..])
  }

  ghost predicate Wildcard(level: string) {
    level == "+" || level == "#"
  }

  /** Every wildcard finds a non-empty level in its place. */
  ghost predicate WildcardsMeetText(fs: seq<string>, ns: seq<string>) {
    forall i :: 0 <= i < |fs| && Wildcard(fs[i]) ==> i < |ns| && ns[i] != ""
  }

  /** MAIN (matcher): a well-formed filter matches exactly when the standard's does and every wildcard finds a
      non-empty level in its place. */
  lemma {:induction false} LevelsMatchIsStandard(fs: seq<string>, ns: seq<string>)
    requires WellFormed(fs)
    ensures LevelsMatch(fs, ns) <==> StandardMatch(fs, ns) && WildcardsMeetText(fs, ns)
  {
    if fs != [] {
      if ns == [] {
        if StandardMatch(fs, ns) { assert Wildcard(fs[0]); }
      } else if fs[0] == "#" {
        assert !Literal("#") by { assert "#"[0] == '#'; }
        assert fs == ["#"];
        assert Wildcard(fs[0]);
      } else {
        LevelsMatchIsStandard(fs[1..], ns[1..]);
        if WildcardsMeetText(fs[1..], ns[1..]) && (fs[0] == "+" ==> ns[0] != "") {
          forall i | 0 <= i < |fs| && Wildcard(fs[i]) ensures i < |ns| && ns[i] != "" {
            if i > 0 { assert fs[1..][i - 1] == fs[i]; }
          }
        }
        if WildcardsMeetText(fs, ns) {
          forall i | 0 <= i < |fs[1..]| && Wildcard(fs[1..][i]) ensures i < |ns[1..]| && ns[1..][i] != "" {
            assert Wildcard(fs[i + 1]);
          }
          assert fs[0] == "+" ==> Wildcard(fs[0]);
        }
      }
    }
  }

  /** The parent of `#` and an empty level are where the two part. */
  lemma MatcherIsStricter()
    ensures StandardMatch(["sport", "#"], ["sport"]) && !LevelsMatch(["sport", "#"], ["sport"])
    ensures StandardMatch(["+", "a"], ["", "a"]) && !LevelsMatch(["+", "a"], ["", "a"])
  {
    assert ["sport", "#"][1..] == ["#"] && ["sport"][1..] == [];
    assert ["+", "a"][1..] == ["a"] && ["", "a"][1..] == ["a"];
    assert ["a"][1..] == [];
  }
}
