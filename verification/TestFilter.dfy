/** The glob filters of Google Test. */
module TestFilter {
  import opened Bytes

  const UNIVERSAL_FILTER: CharString := "*"
  const DISABLE_TEST_FILTER: CharString := "DISABLED_*:*/DISABLED_*"
  const DEATH_TEST_CASE_FILTER: CharString := "*DeathTest:*DeathTest/*"

  // ------------------------------------------------------------------ one pattern

  /** The pattern ends at the first ':' or at the end of the text. */
  predicate PatternMatchesString(pattern: CharString, str: CharString)
    decreases |pattern| + |str|
  {
    if pattern == "" || pattern[0] == ':' then str == ""
    else if pattern[0] == '?' then str != "" && PatternMatchesString(pattern[1..], str[1..])
    else if pattern[0] == '*' then
      (str != "" && PatternMatchesString(pattern, str[1..])) || PatternMatchesString(pattern[1..], str)
    else str != "" && pattern[0] == str[0] && PatternMatchesString(pattern[1..], str[1..])
  }

  function Concat(parts: seq<string>): string {
    if parts == [] then "" else parts[0] + Concat(parts[1..])
  }

  ghost predicate PartOk(c: char, part: string) {
    if c == '?' then |part| == 1 else c == '*' || part == [c]
  }

  /** `parts` cuts the string into one part for each character of the pattern. */
  ghost predicate Cuts(pattern: string, str: string, parts: seq<string>) {
    && |parts| == |pattern| && Concat(parts) == str
    && forall k :: 0 <= k < |pattern| ==> PartOk(pattern[k], parts[k])
  }

  /** The meaning of a pattern without ':'. */
  ghost predicate Glob(pattern: string, str: string) {
    exists parts :: Cuts(pattern, str, parts)
  }

  /** The text up to the first ':'. */
  function FirstPattern(filter: string): (p: string) {
    if filter == "" || filter[0] == ':' then "" else [filter[0]] + FirstPattern(filter[1..])
  }

  lemma GlobEmpty(str: string)
    ensures Glob("", str) <==> str == ""
  {
    assert str == "" ==> Cuts("", str, []);
  }

  lemma GlobStep(c: char, rest: string, str: string)
    ensures Glob([c] + rest, str) <==>
            exists k :: 0 <= k <= |str| && PartOk(c, str[..k]) && Glob(rest, str[k..])
  {
    var pattern := [c] + rest;
    if Glob(pattern, str) {
      var parts :| Cuts(pattern, str, parts);
      var k := |parts[0]|;
      assert str[..k] == parts[0] && str[k..] == Concat(parts[1..]);
      assert Cuts(rest, str[k..], parts[1..]) by {
        forall i | 0 <= i < |rest| ensures PartOk(rest[i], parts[1..][i]) {
          assert PartOk(pattern[i + 1], parts[i + 1]);
        }
      }
    }
    if k :| 0 <= k <= |str| && PartOk(c, str[..k]) && Glob(rest, str[k..]) {
      var parts :| Cuts(rest, str[k..], parts);
      var whole := [str[..k]] + parts;
      assert whole[1..] == parts;
      assert str == str[..k] + str[k..];
      assert Cuts(pattern, str, whole);
    }
  }

  /** What '*' takes: nothing, or one character and then again. */
  lemma StarStep(rest: string, str: string)
    ensures Glob(['*'] + rest, str) <==>
            Glob(rest, str) || (str != "" && Glob(['*'] + rest, str[1..]))
  {
    hide Glob;
    GlobStep('*', rest, str);
    assert str[0..] == str;
    if str != "" {
      GlobStep('*', rest, str[1..]);
      if k :| 0 <= k <= |str| && PartOk('*', str[..k]) && Glob(rest, str[k..]) {
        if k > 0 {
          assert str[1..][k - 1..] == str[k..];
          assert PartOk('*', str[1..][..k - 1]);
        }
      }
      if k :| 0 <= k <= |str[1..]| && PartOk('*', str[1..][..k]) && Glob(rest, str[1..][k..]) {
        assert str[1..][k..] == str[k + 1..];
        assert PartOk('*', str[..k + 1]);
      }
    }
  }

  lemma SingleStep(c: char, rest: string, str: string)
    requires c != '*'
    ensures Glob([c] + rest, str) <==> str != "" && (c == '?' || c == str[0]) && Glob(rest, str[1..])
  {
    hide Glob;
    GlobStep(c, rest, str);
    if str != "" {
      assert str[..1] == [str[0]];
    }
  }

  /** The recursive matcher decides the meaning of the first pattern. */
  lemma {:induction false} PatternMeaning(pattern: CharString, str: CharString)
    ensures PatternMatchesString(pattern, str) <==> Glob(FirstPattern(pattern), str)
    decreases |pattern| + |str|
  {
    hide Glob;
    if pattern == "" || pattern[0] == ':' {
      GlobEmpty(str);
    } else {
      var rest := FirstPattern(pattern[1..]);
      if pattern[0] == '*' {
        StarStep(rest, str);
        PatternMeaning(pattern[1..], str);
        if str != "" {
          PatternMeaning(pattern, str[1..]);
        }
      } else {
        SingleStep(pattern[0], rest, str);
        if str != "" {
          PatternMeaning(pattern[1..], str[1..]);
        }
      }
    }
  }

  // ------------------------------------------------------------------ filters

  /** The patterns of a filter, which ':' separates. */
  function Patterns(filter: string): (ps: seq<string>)
    ensures |ps| >= 1 && ps[0] == FirstPattern(filter)
    decreases |filter|
  {
    if filter == "" then [""]
    else if filter[0] == ':' then [""] + Patterns(filter[1..])
    else
      var rest := Patterns(filter[1..]);
      [[filter[0]] + rest[0]] + rest[1..]
  }

  ghost function Joined(ps: seq<string>): string
    requires ps != []
  {
    if |ps| == 1 then ps[0] else ps[0] + ":" + Joined(ps[1..])
  }

  lemma JoinedUnfolds(ps: seq<string>)
    requires ps != []
    ensures Joined(ps) == if |ps| == 1 then ps[0] else ps[0] + (":" + Joined(ps[1..]))
  {
    if |ps| > 1 {
      Regroup(ps[0], ":", Joined(ps[1..]));
    }
  }

  lemma Regroup(a: string, b: string, c: string)
    ensures (a + b) + c == a + (b + c)
  {
  }

  lemma JoinedStarts(c: char, rest: seq<string>)
    requires rest != []
    ensures Joined([[c] + rest[0]] + rest[1..]) == [c] + Joined(rest)
  {
    hide Joined;
    var ps := [[c] + rest[0]] + rest[1..];
    assert ps[0] == [c] + rest[0] && ps[1..] == rest[1..];
    JoinedUnfolds(ps);
    JoinedUnfolds(rest);
    if |rest| > 1 {
      Regroup([c], rest[0], ":" + Joined(rest[1..]));
    }
  }

  lemma StaysWithoutColon(c: char, rest: seq<string>)
    requires rest != [] && (forall p <- rest :: ':' !in p) && c != ':'
    ensures forall p <- [[c] + rest[0]] + rest[1..] :: ':' !in p
  {
    assert rest[0] in rest && forall p <- rest[1..] :: p in rest;
  }

  lemma JoinedColon(rest: seq<string>)
    requires rest != []
    ensures Joined([""] + rest) == ":" + Joined(rest)
  {
    assert ([""] + rest)[1..] == rest;
  }

  /** Splitting at ':' loses nothing and leaves no ':'. */
  lemma {:induction false} PatternsSplit(filter: string)
    ensures Joined(Patterns(filter)) == filter
    ensures forall p <- Patterns(filter) :: ':' !in p
    decreases |filter|
  {
    hide Joined;
    if filter == "" {
      assert Joined([""]) == "" by { JoinedOne(""); }
    } else {
      var rest := Patterns(filter[1..]);
      PatternsSplit(filter[1..]);
      assert filter == [filter[0]] + filter[1..];
      if filter[0] == ':' {
        JoinedColon(rest);
      } else {
        JoinedStarts(filter[0], rest);
        StaysWithoutColon(filter[0], rest);
      }
    }
  }

  lemma JoinedOne(p: string)
    ensures Joined([p]) == p
  {
  }

  ghost predicate SomePattern(filter: string, name: string) {
    exists p <- Patterns(filter) :: Glob(p, name)
  }

  /** What strchr finds. */
  method FindColon(s: CharString, from: nat) returns (k: nat)
    requires from <= |s|
    ensures from <= k <= |s| && (k < |s| ==> s[k] == ':') && forall i :: from <= i < k ==> s[i] != ':'
  {
    k := from;
    while k < |s| && s[k] != ':'
      invariant from <= k <= |s| && forall i :: from <= i < k ==> s[i] != ':'
    {
      k := k + 1;
    }
  }

  lemma {:induction false} PatternsAfter(s: string, k: nat)
    requires k <= |s| && (k < |s| ==> s[k] == ':') && forall i :: 0 <= i < k ==> s[i] != ':'
    ensures Patterns(s) == [FirstPattern(s)] + if k < |s| then Patterns(s[k + 1..]) else []
    decreases |s|
  {
    if k == 0 {
    } else {
      PatternsAfter(s[1..], k - 1);
      if k < |s| {
        assert s[1..][k..] == s[k + 1..];
      }
    }
  }

  /** Whether some pattern of the filter matches the name. */
  method MatchesFilter(name: CharString, filter: CharString) returns (r: bool)
    ensures r <==> SomePattern(filter, name)
  {
    hide Glob; hide PatternMatchesString; hide Patterns; hide FirstPattern;
    var cur := 0;
    assert filter[0..] == filter;
    while true
      invariant 0 <= cur <= |filter|
      invariant SomePattern(filter, name) <==> SomePattern(filter[cur..], name)
      decreases |filter| - cur
    {
      ghost var rest := filter[cur..];
      PatternMeaning(rest, name);
      if PatternMatchesString(filter[cur..], name) {
        assert FirstPattern(rest) in Patterns(rest);
        return true;
      }
      var colon := FindColon(filter, cur);
      PatternsAfter(rest, colon - cur);
      if colon == |filter| {
        return false;
      }
      assert rest[colon - cur + 1..] == filter[colon + 1..];
      cur := colon + 1;
    }
  }

  // ------------------------------------------------------------------ positive and negative filters

  /** The text before the first '-', and the text after it if there is one. */
  function SplitAtDash(flag: string): (r: (string, Option<string>))
    ensures '-' !in r.0
    ensures flag == r.0 + if r.1.None? then "" else "-" + r.1.value
  {
    if flag == "" then ("", None)
    else if flag[0] == '-' then ("", Some(flag[1..]))
    else
      var rest := SplitAtDash(flag[1..]);
      ([flag[0]] + rest.0, rest.1)
  }

  ghost predicate Included(flag: string, name: string) {
    var (positive, negative) := SplitAtDash(flag);
    (negative.Some? && positive == "") || SomePattern(positive, name)
  }

  ghost predicate Excluded(flag: string, name: string) {
    var (_, negative) := SplitAtDash(flag);
    negative.Some? && negative.value != "" && SomePattern(negative.value, name)
  }

  lemma UniversalMatches(name: string)
    ensures SomePattern(UNIVERSAL_FILTER, name)
  {
    assert Concat([name]) == name + Concat([]);
    assert Cuts("*", name, [name]);
    var star := UNIVERSAL_FILTER;
    assert star[1..] == "";
    assert FirstPattern(star) == "*";
    hide Patterns;
    assert Patterns(star)[0] == "*";
    assert Glob(Patterns(star)[0], name);
  }

  lemma EmptyFilterMatchesNothing(name: string)
    requires name != ""
    ensures !SomePattern("", name)
  {
    GlobEmpty(name);
  }

  /** A test is accepted when its full name matches a positive pattern and no negative one; an empty positive part
      before a dash means everything and an empty negative part excludes nothing. */
  method FilterMatchesTest(caseName: CharString, testName: CharString, flag: CharString) returns (r: bool)
    ensures r <==> Included(flag, caseName + "." + testName) && !Excluded(flag, caseName + "." + testName)
  {
    hide SomePattern;
    var fullName: CharString := caseName + "." + testName;
    var dash := 0;
    while dash < |flag| && flag[dash] != '-'
      invariant 0 <= dash <= |flag| && '-' !in flag[..dash]
    {
      dash := dash + 1;
    }
    DashSplits(flag, dash);
    var positive: CharString;
    var negative: CharString;
    if dash == |flag| {
      assert flag[..dash] == flag;
      positive, negative := flag, "";
    } else {
      positive, negative := flag[..dash], flag[dash + 1..];
      if positive == "" {
        positive := UNIVERSAL_FILTER;
        UniversalMatches(fullName);
      }
    }
    EmptyFilterMatchesNothing(fullName);
    var isIncluded := MatchesFilter(fullName, positive);
    var isExcluded := MatchesFilter(fullName, negative);
    return isIncluded && !isExcluded;
  }

  lemma {:induction false} DashSplits(flag: string, k: nat)
    requires k <= |flag| && '-' !in flag[..k] && (k < |flag| ==> flag[k] == '-')
    ensures SplitAtDash(flag) == (flag[..k], if k < |flag| then Some(flag[k + 1..]) else None)
    decreases |flag|
  {
    if k == 0 {
    } else {
      assert flag[..k][0] == flag[0];
      assert flag[1..][..k - 1] == flag[..k][1..];
      DashSplits(flag[1..], k - 1);
      assert flag[..k] == [flag[0]] + flag[1..][..k - 1];
    }
  }

  // ------------------------------------------------------------------ names with a meaning

  ghost predicate Literal(text: string) {
    '?' !in text && '*' !in text
  }

  /** A pattern without wildcards matches itself, and with a star behind it what it is a prefix of. */
  lemma {:induction false} LiteralGlob(text: string, tail: string, str: string)
    requires Literal(text)
    ensures Glob(text + tail, str) <==> text <= str && Glob(tail, str[|text|..])
    decreases |text|
  {
    hide Glob;
    if text == "" {
      assert text + tail == tail && str[0..] == str;
    } else {
      assert text + tail == [text[0]] + (text[1..] + tail);
      assert text[0] in text && forall c <- text[1..] :: c in text;
      SingleStep(text[0], text[1..] + tail, str);
      if str != "" {
        LiteralGlob(text[1..], tail, str[1..]);
        assert text <= str <==> text[0] == str[0] && text[1..] <= str[1..];
        if text <= str {
          assert str[1..][|text| - 1..] == str[|text|..];
        }
      }
    }
  }

  ghost predicate EndsWith(name: string, text: string) {
    exists k :: 0 <= k <= |name| && name[k..] == text
  }

  ghost predicate Contains(name: string, text: string) {
    exists k :: 0 <= k <= |name| && text <= name[k..]
  }

  lemma StarLiteral(text: string, name: string)
    requires Literal(text)
    ensures Glob(['*'] + text, name) <==> EndsWith(name, text)
  {
    hide Glob;
    GlobStep('*', text, name);
    forall k | 0 <= k <= |name| ensures Glob(text, name[k..]) <==> name[k..] == text {
      LiteralGlob(text, "", name[k..]);
      assert text + "" == text;
      if text <= name[k..] {
        GlobEmpty(name[k..][|text|..]);
      }
    }
    if EndsWith(name, text) {
      var k :| 0 <= k <= |name| && name[k..] == text;
      assert PartOk('*', name[..k]);
    }
  }

  lemma StarMatchesAll(str: string)
    ensures Glob("*", str)
  {
    assert Concat([str]) == str;
    assert Cuts("*", str, [str]);
  }

  lemma StarLiteralStar(text: string, name: string)
    requires Literal(text)
    ensures Glob(['*'] + (text + "*"), name) <==> Contains(name, text)
  {
    hide Glob;
    GlobStep('*', text + "*", name);
    forall k | 0 <= k <= |name| ensures Glob(text + "*", name[k..]) <==> text <= name[k..] {
      LiteralGlob(text, "*", name[k..]);
      if text <= name[k..] {
        StarMatchesAll(name[k..][|text|..]);
      }
    }
    if Contains(name, text) {
      var k :| 0 <= k <= |name| && text <= name[k..];
      assert PartOk('*', name[..k]);
    }
  }

  lemma {:induction false} FirstPatternIs(a: string, rest: string)
    requires ':' !in a && (rest == "" || rest[0] == ':')
    ensures FirstPattern(a + rest) == a
    decreases |a|
  {
    if a == "" {
      assert a + rest == rest;
    } else {
      assert (a + rest)[1..] == a[1..] + rest && forall c <- a[1..] :: c in a;
      FirstPatternIs(a[1..], rest);
    }
  }

  lemma TwoPatterns(a: string, b: string)
    requires ':' !in a && ':' !in b
    ensures Patterns(a + ":" + b) == [a, b]
  {
    hide Patterns; hide FirstPattern;
    var s := a + ":" + b;
    assert s == a + (":" + b) && b == b + "";
    FirstPatternIs(a, ":" + b);
    FirstPatternIs(b, "");
    PatternsAfter(s, |a|);
    assert s[|a| + 1..] == b;
    PatternsAfter(b, |b|);
  }

  lemma EndOrInside(word: string, name: string)
    requires Literal(word) && ':' !in word
    ensures SomePattern((['*'] + word) + ":" + (['*'] + ((word + "/") + "*")), name) <==>
            EndsWith(name, word) || Contains(name, word + "/")
  {
    hide Glob; hide Patterns; hide EndsWith; hide Contains;
    var a, b := ['*'] + word, ['*'] + ((word + "/") + "*");
    TwoPatterns(a, b);
    StarLiteral(word, name);
    StarLiteralStar(word + "/", name);
    assert a in [a, b] && b in [a, b];
  }

  lemma StartOrInside(word: string, name: string)
    requires Literal(word) && ':' !in word
    ensures SomePattern((word + "*") + ":" + (['*'] + (("/" + word) + "*")), name) <==>
            word <= name || Contains(name, "/" + word)
  {
    hide Glob; hide Patterns; hide Contains;
    var a, b := word + "*", ['*'] + (("/" + word) + "*");
    TwoPatterns(a, b);
    LiteralGlob(word, "*", name);
    if word <= name {
      StarMatchesAll(name[|word|..]);
    }
    StarLiteralStar("/" + word, name);
    assert a in [a, b] && b in [a, b];
  }

  ghost predicate IsDeathTestName(name: string) {
    EndsWith(name, "DeathTest") || Contains(name, "DeathTest/")
  }

  ghost predicate IsDisabledName(name: string) {
    "DISABLED_" <= name || Contains(name, "/DISABLED_")
  }

  /** A test case is a death-test case if its name ends in "DeathTest" or has "DeathTest/" in it. */
  lemma DeathTestNames(name: string)
    ensures SomePattern(DEATH_TEST_CASE_FILTER, name) <==> IsDeathTestName(name)
  {
    hide SomePattern; hide EndsWith; hide Contains;
    EndOrInside("DeathTest", name);
    assert DEATH_TEST_CASE_FILTER == (['*'] + "DeathTest") + ":" + (['*'] + (("DeathTest" + "/") + "*"));
    assert "DeathTest" + "/" == "DeathTest/";
  }

  /** A test or test case is disabled if its name starts with "DISABLED_" or has "/DISABLED_" in it. */
  lemma DisabledNames(name: string)
    ensures SomePattern(DISABLE_TEST_FILTER, name) <==> IsDisabledName(name)
  {
    hide SomePattern; hide Contains;
    StartOrInside("DISABLED_", name);
    assert DISABLE_TEST_FILTER == ("DISABLED_" + "*") + ":" + (['*'] + (("/" + "DISABLED_") + "*"));
    assert "/" + "DISABLED_" == "/DISABLED_";
  }
}
