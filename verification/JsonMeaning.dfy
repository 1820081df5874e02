/** JSON texts byte by byte: how tokens are spelled, what a sentence means, and that json_loads returns exactly that. */
module JsonMeaning {
  import opened Bytes
  import opened Utf8
  import opened JsonString
  import opened Json
  import opened JsonParse
  import opened JsonGrammar
  import opened JsonLiteral

  // ------------------------------------------------------------------ what a sentence means

  /** The pair `p` is the first with its key. */
  ghost predicate FirstAt(pairs: seq<Pair>, p: int) {
    0 <= p < |pairs| && forall r :: 0 <= r < p ==> pairs[r].key != pairs[p].key
  }

  /** The pair `q` is the last with its key. */
  ghost predicate LastAt(pairs: seq<Pair>, q: int) {
    0 <= q < |pairs| && forall r :: q < r < |pairs| ==> pairs[r].key != pairs[q].key
  }

  /** The members are the first occurrences of the keys, in their order; the serial tells where. */
  ghost predicate ListsKeys(ms: seq<Member>, pairs: seq<Pair>) {
    && (forall i, j :: 0 <= i < j < |ms| ==> ms[i].serial < ms[j].serial)
    && (forall i :: 0 <= i < |ms| ==> FirstAt(pairs, ms[i].serial) && ms[i].key == pairs[ms[i].serial].key)
    && forall p :: FirstAt(pairs, p) ==> exists i :: 0 <= i < |ms| && ms[i].serial == p
  }

  /** `v` is the value that the sentence stands for: of the pairs with one key the last counts, at the place of the first. */
  ghost predicate Means(t: Tree, v: Json)
    decreases t
  {
    match t
    case Leaf(tok) =>
      (match tok
       case StringTok(s) => v == String(s)
       case IntegerTok(i) => v == Integer(i)
       case RealTok(lexeme) => v == Real(lexeme)
       case TrueTok => v == True
       case FalseTok => v == False
       case NullTok => v == Null
       case _ => false)
    case Arr(items) => v.Array? && |v.elems| == |items| && forall i :: 0 <= i < |items| ==> Means(items[i], v.elems[i])
    case Obj(pairs) =>
      && v.Object? && ListsKeys(v.members, pairs)
      && forall i, q :: 0 <= i < |v.members| && LastAt(pairs, q) && pairs[q].key == v.members[i].key ==>
           Means(pairs[q].value, v.members[i].value)
  }

  /** No object of the sentence has two pairs with the same key. */
  ghost predicate KeysDiffer(t: Tree) {
    match t
    case Leaf(_) => true
    case Arr(items) => forall i <- items :: KeysDiffer(i)
    case Obj(pairs) =>
      && (forall i, j :: 0 <= i < j < |pairs| ==> pairs[i].key != pairs[j].key)
      && forall p <- pairs :: KeysDiffer(p.value)
  }

  // ------------------------------------------------------------------ the parser gives that meaning

  ghost predicate LastValues(ms: seq<Member>, pairs: seq<Pair>) {
    forall i, q :: 0 <= i < |ms| && LastAt(pairs, q) && pairs[q].key == ms[i].key ==> ms[i].value == ValueOf(pairs[q].value)
  }

  lemma LastGrows(pairs: seq<Pair>, p: Pair, q: int)
    ensures LastAt(pairs + [p], q) <==> q == |pairs| || (LastAt(pairs, q) && pairs[q].key != p.key)
  {
    var more := pairs + [p];
    assert more[|pairs|] == p && forall r :: 0 <= r < |pairs| ==> more[r] == pairs[r];
    if LastAt(more, q) && q < |pairs| {
      assert forall r :: q < r < |pairs| ==> more[r].key != more[q].key;
    }
  }

  lemma FirstGrows(pairs: seq<Pair>, p: Pair, k: int)
    ensures FirstAt(pairs + [p], k) <==>
            FirstAt(pairs, k) || (k == |pairs| && forall r :: 0 <= r < |pairs| ==> pairs[r].key != p.key)
  {
    var more := pairs + [p];
    assert more[|pairs|] == p && forall r :: 0 <= r < |pairs| ==> more[r] == pairs[r];
    if FirstAt(more, k) {
      assert forall r :: 0 <= r < k ==> more[r].key != more[k].key;
    }
  }

  /** Every key of the pairs is the key of a member. */
  lemma KeyListed(ms: seq<Member>, pairs: seq<Pair>, p: nat) returns (i: nat)
    requires ListsKeys(ms, pairs) && p < |pairs|
    ensures i < |ms| && ms[i].key == pairs[p].key
  {
    var q := FirstWith(pairs, p);
    i :| 0 <= i < |ms| && ms[i].serial == q;
  }

  lemma {:induction false} FirstWith(pairs: seq<Pair>, p: nat) returns (q: nat)
    requires p < |pairs|
    ensures FirstAt(pairs, q) && pairs[q].key == pairs[p].key
    decreases p
  {
    if FirstAt(pairs, p) {
      q := p;
    } else {
      var r :| 0 <= r < p && pairs[r].key == pairs[p].key;
      q := FirstWith(pairs, r);
    }
  }

  lemma {:induction false} LastWith(pairs: seq<Pair>, p: nat) returns (q: nat)
    requires p < |pairs|
    ensures LastAt(pairs, q) && pairs[q].key == pairs[p].key
    decreases |pairs| - p
  {
    if LastAt(pairs, p) {
      q := p;
    } else {
      var r :| p < r < |pairs| && pairs[r].key == pairs[p].key;
      q := LastWith(pairs, r);
    }
  }

  lemma SerialsDecideKeys(ms: seq<Member>, pairs: seq<Pair>, i: nat, j: nat)
    requires ListsKeys(ms, pairs) && i < |ms| && j < |ms| && ms[i].key == ms[j].key
    ensures i == j
  {
    assert FirstAt(pairs, ms[i].serial) && FirstAt(pairs, ms[j].serial);
  }

  lemma KeySetIff(done: seq<Member>, before: seq<Pair>, key: seq<Byte>)
    requires ListsKeys(done, before)
    ensures FindKey(done, key).None? <==> forall i :: 0 <= i < |before| ==> before[i].key != key
  {
    hide FindKey;
    if FindKey(done, key).None? {
      forall i | 0 <= i < |before| ensures before[i].key != key {
        var k := KeyListed(done, before, i);
        assert done[k] in done;
      }
    } else {
      assert FirstAt(before, done[FindKey(done, key).value].serial);
    }
  }

  lemma SerialsInRange(ms: seq<Member>, pairs: seq<Pair>)
    requires ListsKeys(ms, pairs)
    ensures forall i :: 0 <= i < |ms| ==> FirstAt(pairs, ms[i].serial) && 0 <= ms[i].serial < |pairs|
  {
  }

  lemma FirstAfterSet(ms: seq<Member>, pairs: seq<Pair>, p: Pair, k: int)
    requires ListsKeys(ms, pairs)
    ensures FirstAt(pairs + [p], k) <==> FirstAt(pairs, k) || (k == |pairs| && FindKey(ms, p.key).None?)
  {
    hide FindKey; hide ListsKeys; hide FirstAt;
    FirstGrows(pairs, p, k);
    KeySetIff(ms, pairs, p.key);
  }

  lemma SetLists(ms: seq<Member>, pairs: seq<Pair>, p: Pair)
    requires ListsKeys(ms, pairs)
    ensures ListsKeys(SetMember(ms, p.key, |pairs|, ValueOf(p.value)), pairs + [p])
  {
    hide FindKey; hide ValueOf; hide ListsKeys; hide FirstAt;
    forall k ensures FirstAt(pairs + [p], k) <==> FirstAt(pairs, k) || (k == |pairs| && FindKey(ms, p.key).None?) {
      FirstAfterSet(ms, pairs, p, k);
    }
    var r := SetMember(ms, p.key, |pairs|, ValueOf(p.value));
    if FindKey(ms, p.key).Some? {
      ListsReplaced(ms, r, pairs, p);
    } else {
      ListsAppended(ms, r[|ms|], pairs, p);
    }
  }

  lemma ListsReplaced(ms: seq<Member>, r: seq<Member>, pairs: seq<Pair>, p: Pair)
    requires ListsKeys(ms, pairs) && |r| == |ms|
    requires forall i :: 0 <= i < |ms| ==> r[i].key == ms[i].key && r[i].serial == ms[i].serial
    requires forall k :: FirstAt(pairs + [p], k) <==> FirstAt(pairs, k)
    ensures ListsKeys(r, pairs + [p])
  {
    SerialsInRange(ms, pairs);
    hide FirstAt;
    forall k | FirstAt(pairs + [p], k) ensures exists i :: 0 <= i < |r| && r[i].serial == k {
      var i :| 0 <= i < |ms| && ms[i].serial == k;
      assert r[i].serial == k;
    }
  }

  lemma ListsAppended(ms: seq<Member>, m: Member, pairs: seq<Pair>, p: Pair)
    requires ListsKeys(ms, pairs) && m.key == p.key && m.serial == |pairs|
    requires forall k :: FirstAt(pairs + [p], k) <==> FirstAt(pairs, k) || k == |pairs|
    ensures ListsKeys(ms + [m], pairs + [p])
  {
    SerialsInRange(ms, pairs);
    hide FirstAt;
    var r := ms + [m];
    forall k | FirstAt(pairs + [p], k) ensures exists i :: 0 <= i < |r| && r[i].serial == k {
      if k == |pairs| {
        assert r[|ms|].serial == k;
      } else {
        var i :| 0 <= i < |ms| && ms[i].serial == k;
        assert r[i].serial == k;
      }
    }
  }

  lemma SetKeepsLast(ms: seq<Member>, pairs: seq<Pair>, p: Pair)
    requires ListsKeys(ms, pairs) && LastValues(ms, pairs)
    ensures LastValues(SetMember(ms, p.key, |pairs|, ValueOf(p.value)), pairs + [p])
  {
    hide FindKey; hide ValueOf;
    var more := pairs + [p];
    var r := SetMember(ms, p.key, |pairs|, ValueOf(p.value));
    forall i, q | 0 <= i < |r| && LastAt(more, q) && more[q].key == r[i].key
      ensures r[i].value == ValueOf(more[q].value)
    {
      LastGrows(pairs, p, q);
      if q == |pairs| {
        SetUnderKey(ms, pairs, p, i);
      } else {
        assert r[i].key != p.key;
        OtherStays(ms, pairs, p, i);
      }
    }
  }

  lemma SetUnderKey(ms: seq<Member>, pairs: seq<Pair>, p: Pair, i: nat)
    requires ListsKeys(ms, pairs)
    requires var r := SetMember(ms, p.key, |pairs|, ValueOf(p.value)); i < |r| && r[i].key == p.key
    ensures SetMember(ms, p.key, |pairs|, ValueOf(p.value))[i].value == ValueOf(p.value)
  {
    hide FindKey; hide ValueOf; hide ListsKeys;
    assert forall k :: 0 <= k < |ms| ==> ms[k] in ms;
    if FindKey(ms, p.key).Some? {
      SerialsDecideKeys(ms, pairs, i, FindKey(ms, p.key).value);
    }
  }

  lemma OtherStays(ms: seq<Member>, pairs: seq<Pair>, p: Pair, i: nat)
    requires var r := SetMember(ms, p.key, |pairs|, ValueOf(p.value)); i < |r| && r[i].key != p.key
    ensures i < |ms| && SetMember(ms, p.key, |pairs|, ValueOf(p.value))[i] == ms[i]
  {
    hide FindKey; hide ValueOf;
  }

  lemma {:induction false} SetAllMeans(done: seq<Member>, before: seq<Pair>, pairs: seq<Pair>)
    requires ListsKeys(done, before) && LastValues(done, before)
    ensures ListsKeys(SetAll(done, |before|, pairs), before + pairs)
    ensures LastValues(SetAll(done, |before|, pairs), before + pairs)
    decreases |pairs|
  {
    hide ListsKeys; hide LastValues; hide SetMember; hide ValueOf;
    if pairs == [] {
      assert before + pairs == before;
    } else {
      var p := pairs[0];
      SetLists(done, before, p);
      SetKeepsLast(done, before, p);
      SetAllMeans(SetMember(done, p.key, |before|, ValueOf(p.value)), before + [p], pairs[1..]);
      assert before + [p] + pairs[1..] == before + pairs;
    }
  }

  lemma ObjectMembers(pairs: seq<Pair>)
    ensures ListsKeys(ValueOf(Obj(pairs)).members, pairs) && LastValues(ValueOf(Obj(pairs)).members, pairs)
  {
    hide ListsKeys; hide LastValues; hide SetAll;
    NoMembers();
    SetAllMeans([], [], pairs);
    assert [] + pairs == pairs;
  }

  lemma NoMembers()
    ensures ListsKeys([], []) && LastValues([], [])
  {
  }

  lemma {:induction false} ValuesOfAt(items: seq<Tree>)
    ensures |ValuesOf(items)| == |items| && forall i :: 0 <= i < |items| ==> ValuesOf(items)[i] == ValueOf(items[i])
    decreases |items|
  {
    hide ValueOf;
    if items == [] {
    } else {
      ValuesOfAt(items[1..]);
    }
  }

  /** The value of a sentence is what it means. */
  lemma {:induction false} ValueIsMeant(t: Tree)
    requires WellFormed(t)
    ensures Means(t, ValueOf(t))
    decreases t
  {
    match t
    case Leaf(_) =>
    case Arr(items) =>
      ValuesOfAt(items);
      hide ValuesOf;
      forall i | 0 <= i < |items| ensures Means(items[i], ValueOf(t).elems[i]) {
        assert items[i] in items;
        ValueIsMeant(items[i]);
      }
    case Obj(pairs) =>
      ObjectMembers(pairs);
      hide ListsKeys; hide SetAll;
      var ms := ValueOf(t).members;
      forall i, q | 0 <= i < |ms| && LastAt(pairs, q) && pairs[q].key == ms[i].key
        ensures Means(pairs[q].value, ms[i].value)
      {
        assert pairs[q] in pairs;
        ValueIsMeant(pairs[q].value);
      }
  }

  // ------------------------------------------------------------------ and no other

  ghost predicate Increasing(xs: seq<nat>) {
    forall i, j :: 0 <= i < j < |xs| ==> xs[i] < xs[j]
  }

  lemma SomeElement(xs: seq<nat>) returns (x: nat)
    requires xs != []
    ensures x in xs
  {
    x := xs[0];
  }

  lemma {:induction false} SameElements(xs: seq<nat>, ys: seq<nat>)
    requires Increasing(xs) && Increasing(ys) && forall x :: x in xs <==> x in ys
    ensures xs == ys
    decreases |xs|
  {
    if xs == [] {
      if ys != [] {
        var y := SomeElement(ys);
      }
    } else if ys == [] {
      var x := SomeElement(xs);
    } else {
      var m, n := |xs| - 1, |ys| - 1;
      assert xs[m] in ys && ys[n] in xs;
      assert xs[m] == ys[n];
      forall x ensures x in xs[..m] <==> x in ys[..n] {
        if x in xs[..m] {
          assert x in xs && x != xs[m];
        }
        if x in ys[..n] {
          assert x in ys && x != ys[n];
        }
      }
      SameElements(xs[..m], ys[..n]);
      assert xs == xs[..m] + [xs[m]] && ys == ys[..n] + [ys[n]];
    }
  }

  function Serials(ms: seq<Member>): (xs: seq<nat>)
    ensures |xs| == |ms| && forall i :: 0 <= i < |ms| ==> xs[i] == ms[i].serial
  {
    seq(|ms|, i requires 0 <= i < |ms| => ms[i].serial)
  }

  /** The keys and serials of the members are fixed by the pairs. */
  lemma SameHeads(a: seq<Member>, b: seq<Member>, pairs: seq<Pair>)
    requires ListsKeys(a, pairs) && ListsKeys(b, pairs)
    ensures |a| == |b| && forall i :: 0 <= i < |a| ==> a[i].key == b[i].key && a[i].serial == b[i].serial
  {
    var xs, ys := Serials(a), Serials(b);
    forall x ensures x in xs <==> x in ys {
      SerialListed(a, b, pairs, x);
      SerialListed(b, a, pairs, x);
    }
    SameElements(xs, ys);
    forall i | 0 <= i < |a| ensures a[i].key == b[i].key && a[i].serial == b[i].serial {
      assert xs[i] == ys[i];
    }
  }

  lemma SerialListed(a: seq<Member>, b: seq<Member>, pairs: seq<Pair>, x: nat)
    requires ListsKeys(a, pairs) && ListsKeys(b, pairs)
    ensures x in Serials(a) ==> x in Serials(b)
  {
    if x in Serials(a) {
      var i :| 0 <= i < |a| && Serials(a)[i] == x;
      assert FirstAt(pairs, a[i].serial);
      var j :| 0 <= j < |b| && b[j].serial == x;
      assert Serials(b)[j] == x;
    }
  }

  /** A sentence means one value only. */
  lemma {:induction false} MeaningIsUnique(t: Tree, v: Json, w: Json)
    requires Means(t, v) && Means(t, w)
    ensures v == w
    decreases t
  {
    match t
    case Leaf(_) =>
    case Arr(items) =>
      forall i | 0 <= i < |items| ensures v.elems[i] == w.elems[i] {
        MeaningIsUnique(items[i], v.elems[i], w.elems[i]);
      }
      assert v.elems == w.elems;
    case Obj(pairs) =>
      SameHeads(v.members, w.members, pairs);
      forall i | 0 <= i < |v.members| ensures v.members[i] == w.members[i] {
        assert FirstAt(pairs, v.members[i].serial);
        var q := LastWith(pairs, v.members[i].serial);
        MeaningIsUnique(pairs[q].value, v.members[i].value, w.members[i].value);
      }
      assert v.members == w.members;
  }

  // ------------------------------------------------------------------ repeated keys

  lemma {:induction false} NoneSetMeans(done: seq<Member>, before: seq<Pair>, pairs: seq<Pair>)
    requires ListsKeys(done, before)
    ensures NoneSet(done, |before|, pairs) <==>
            var all := before + pairs;
            forall i, j :: 0 <= i < j < |all| && j >= |before| ==> all[i].key != all[j].key
    decreases |pairs|
  {
    hide ListsKeys; hide SetMember; hide ValueOf; hide FindKey;
    var all := before + pairs;
    if pairs == [] {
    } else {
      var p := pairs[0];
      SetLists(done, before, p);
      NoneSetMeans(SetMember(done, p.key, |before|, ValueOf(p.value)), before + [p], pairs[1..]);
      assert before + [p] + pairs[1..] == all;
      KeySetIff(done, before, p.key);
      assert forall i :: 0 <= i < |before| ==> all[i] == before[i];
      assert all[|before|] == p;
    }
  }

  lemma {:induction false} NoRepeatsMeans(t: Tree)
    ensures NoRepeats(t) <==> KeysDiffer(t)
    decreases t
  {
    match t
    case Leaf(_) =>
    case Arr(items) =>
      forall i | i in items ensures NoRepeats(i) <==> KeysDiffer(i) {
        NoRepeatsMeans(i);
      }
    case Obj(pairs) =>
      NoneSetMeans([], [], pairs);
      hide NoneSet;
      assert [] + pairs == pairs;
      forall p | p in pairs ensures NoRepeats(p.value) <==> KeysDiffer(p.value) {
        NoRepeatsMeans(p.value);
      }
  }

  // ------------------------------------------------------------------ how tokens are spelled

  ghost predicate Blank(ws: seq<Byte>) {
    forall b <- ws :: b == 32 || b == 9 || b == 10 || b == 13
  }

  ghost predicate NoLetter(after: seq<Byte>) {
    after == [] || !(65 <= after[0] <= 90 || 97 <= after[0] <= 122)
  }

  ghost predicate SpellsString(text: seq<Byte>, v: seq<Byte>) {
    exists items :: AreItems(items) && text == [34] + ItemsText(items) + [34] && Denotes(items) == Some(v)
  }

  /** Integers of 64 bits, and any other number by its text. */
  ghost predicate SpellsNumber(text: seq<Byte>, tok: Token, after: seq<Byte>) {
    exists n ::
      && IsNumber(n) && text == NumberText(n) && EndsNumber(n, after)
      && if n.frac == [] && n.exp == [] then
           -9223372036854775808 <= NumberValue(text) <= 9223372036854775807 && tok == IntegerTok(NumberValue(text))
         else tok == RealTok(text)
  }

  /** The bytes of a token in front of `after`: one of six marks, a string literal, a number or one of three words. */
  ghost predicate SpellsToken(text: seq<Byte>, tok: Token, after: seq<Byte>) {
    match tok
    case Punct(c) => c in {44, 58, 91, 93, 123, 125} && text == [c]
    case StringTok(v) => SpellsString(text, v)
    case IntegerTok(_) => SpellsNumber(text, tok, after)
    case RealTok(_) => SpellsNumber(text, tok, after)
    case TrueTok => text == [116, 114, 117, 101] && NoLetter(after)
    case FalseTok => text == [102, 97, 108, 115, 101] && NoLetter(after)
    case NullTok => text == [110, 117, 108, 108] && NoLetter(after)
    case _ => false
  }

  /** White space, then the token, then `rest`. */
  ghost predicate StartsWith(s: seq<Byte>, tok: Token, rest: seq<Byte>) {
    exists ws, text :: Blank(ws) && s == ws + (text + rest) && SpellsToken(text, tok, rest)
  }

  lemma FirstThenRest(s: seq<Byte>, a: seq<Byte>, b: seq<Byte>)
    requires s != [] && s[1..] == a + b
    ensures s == [s[0]] + a + b
  {
    assert s == [s[0]] + s[1..];
  }

  lemma {:induction false} SkippedIsBlank(s: seq<Byte>) returns (ws: seq<Byte>)
    ensures Blank(ws) && s == ws + SkipSpace(s)
    decreases |s|
  {
    if s == [] || !IsSpace(s[0]) {
      ws := [];
    } else {
      var more := SkippedIsBlank(s[1..]);
      ws := [s[0]] + more;
      FirstThenRest(s, more, SkipSpace(s[1..]));
    }
  }

  lemma LetterRun(s: seq<Byte>)
    ensures forall i :: 0 <= i < AlphaRun(s) ==> IsAlpha(s[i])
    ensures NoLetter(s[AlphaRun(s)..])
    decreases |s|
  {
    if s == [] || !IsAlpha(s[0]) {
    } else {
      LetterRun(s[1..]);
      assert s[AlphaRun(s)..] == s[1..][AlphaRun(s[1..])..];
    }
  }

  lemma TokenAt(s: seq<Byte>, bad: bool) returns (text: seq<Byte>)
    requires !IsEnd(LexAt(s, bad).0)
    ensures s == text + LexAt(s, bad).1 && SpellsToken(text, LexAt(s, bad).0, LexAt(s, bad).1)
  {
    hide LexString; hide LexNumber; hide NoLetter;
    if IsPunct(s[0]) {
      text := [s[0]];
    } else if s[0] == QUOTE {
      text := StringAt(s);
    } else if IsDigit(s[0]) || s[0] == 0x2D {
      text := NumberAt(s);
    } else {
      text := s[..AlphaRun(s)];
      LetterRun(s);
    }
  }

  lemma StringAt(s: seq<Byte>) returns (text: seq<Byte>)
    requires s != [] && s[0] == QUOTE && !LexString(s[1..]).0.Invalid?
    ensures var (tok, rest) := LexString(s[1..]); s == text + rest && SpellsToken(text, tok, rest)
  {
    hide AreItems; hide ItemsText; hide Denotes; hide LexString;
    var (tok, rest) := LexString(s[1..]);
    StringTokenOnly(s[1..]);
    StringsAreExactlyLiterals(s[1..], tok.s, rest);
    var items :| IsLiteral(items, s[1..], tok.s, rest);
    text := [34] + ItemsText(items) + [34];
    Quoted(s, ItemsText(items), rest);
  }

  lemma Quoted(s: seq<Byte>, body: seq<Byte>, rest: seq<Byte>)
    requires s != [] && s[0] == 34 && s[1..] == body + ([34] + rest)
    ensures s == ([34] + body + [34]) + rest
  {
    assert s == [s[0]] + s[1..];
  }

  lemma StringTokenOnly(s: seq<Byte>)
    ensures LexString(s).0.Invalid? || LexString(s).0.StringTok?
  {
    hide ScanBody; hide Unescape;
  }

  lemma NumberTokenOnly(n: Number)
    ensures var v := NumberValue(NumberText(n));
            NumberToken(n) ==
            if n.frac != [] || n.exp != [] then RealTok(NumberText(n))
            else if -9223372036854775808 <= v <= 9223372036854775807 then IntegerTok(v)
            else Invalid
  {
    hide NumberValue;
    assert n.frac == [] && n.exp == [] ==> NumberText(n) == n.minus + n.whole;
  }

  lemma NumberAt(s: seq<Byte>) returns (text: seq<Byte>)
    requires s != [] && !LexNumber(s).0.Invalid?
    ensures var (tok, rest) := LexNumber(s); s == text + rest && SpellsToken(text, tok, rest)
  {
    hide LexNumber; hide IsNumber; hide EndsNumber; hide NumberToken;
    var n := NumberIsGrammatical(s);
    NumberTokenOnly(n);
    text := NumberText(n);
    assert SpellsNumber(text, LexNumber(s).0, LexNumber(s).1);
  }

  /** Whatever is lexed is spelled so. */
  lemma TokenIsSpelled(s: seq<Byte>, bad: bool)
    requires !IsEnd(Lex(s, bad).0)
    ensures StartsWith(s, Lex(s, bad).0, Lex(s, bad).1)
  {
    hide SpellsToken; hide LexAt;
    var ws := SkippedIsBlank(s);
    var text := TokenAt(SkipSpace(s), bad);
    assert s == ws + (text + Lex(s, bad).1);
  }

  lemma WordIsLexed(word: seq<Byte>, after: seq<Byte>, bad: bool)
    requires word != [] && (forall b <- word :: IsAlpha(b)) && NoLetter(after)
    ensures Lex(word + after, bad) == (WordToken(word), after)
  {
    JsonRoundTrip.AlphaRunOf(word, after);
    hide AlphaRun; hide WordToken;
    var s := word + after;
    assert word[0] in word && s[0] == word[0];
    assert s[..|word|] == word && s[|word|..] == after;
  }

  lemma StringIsLexed(text: seq<Byte>, v: seq<Byte>, after: seq<Byte>, bad: bool)
    requires SpellsString(text, v)
    ensures Lex(text + after, bad) == (StringTok(v), after)
  {
    hide AreItems; hide ItemsText; hide Denotes; hide LexString;
    var items :| AreItems(items) && text == [34] + ItemsText(items) + [34] && Denotes(items) == Some(v);
    var s := text + after;
    assert s[1..] == ItemsText(items) + ([QUOTE] + after);
    assert IsLiteral(items, s[1..], v, after);
    StringsAreExactlyLiterals(s[1..], v, after);
  }

  lemma SpelledNumberIsLexed(text: seq<Byte>, tok: Token, after: seq<Byte>, bad: bool)
    requires SpellsNumber(text, tok, after)
    ensures Lex(text + after, bad) == (tok, after)
  {
    hide LexNumber; hide EndsNumber; hide NumberToken;
    var n :|
      && IsNumber(n) && text == NumberText(n) && EndsNumber(n, after)
      && if n.frac == [] && n.exp == [] then
           -9223372036854775808 <= NumberValue(text) <= 9223372036854775807 && tok == IntegerTok(NumberValue(text))
         else tok == RealTok(text);
    NumberTokenOnly(n);
    NumberIsLexed(n, after);
    assert n.whole[0] in n.whole;
    var s := text + after;
    assert s[0] == 0x2D || IsDigit(s[0]);
  }

  /** Whatever is spelled so is lexed. */
  lemma SpelledIsLexed(s: seq<Byte>, tok: Token, rest: seq<Byte>, bad: bool)
    requires StartsWith(s, tok, rest)
    ensures Lex(s, bad) == (tok, rest)
  {
    hide SpellsString; hide SpellsNumber; hide Lex; hide NoLetter;
    var ws, text :| Blank(ws) && s == ws + (text + rest) && SpellsToken(text, tok, rest);
    JsonRoundTrip.LexSkips(ws, text + rest, bad);
    match tok
    case Punct(c) => JsonRoundTrip.LexPunct(c, rest, bad);
    case StringTok(v) => StringIsLexed(text, v, rest, bad);
    case IntegerTok(_) => SpelledNumberIsLexed(text, tok, rest, bad);
    case RealTok(_) => SpelledNumberIsLexed(text, tok, rest, bad);
    case TrueTok => WordIsLexed(text, rest, bad);
    case FalseTok => WordIsLexed(text, rest, bad);
    case NullTok => WordIsLexed(text, rest, bad);
  }

  /** A token is read from a text exactly when the text starts with white space and its spelling. */
  lemma TokensAreSpelled(s: seq<Byte>, bad: bool, tok: Token, rest: seq<Byte>)
    requires !IsEnd(tok)
    ensures Lex(s, bad) == (tok, rest) <==> StartsWith(s, tok, rest)
  {
    hide StartsWith; hide Lex;
    if Lex(s, bad) == (tok, rest) {
      TokenIsSpelled(s, bad);
    }
    if StartsWith(s, tok, rest) {
      SpelledIsLexed(s, tok, rest, bad);
    }
  }

  /** The end is reached exactly when only white space is left and the stream is not broken. */
  lemma EndIsBlank(s: seq<Byte>, bad: bool)
    ensures Lex(s, bad).0.Eof? <==> Blank(s) && !bad
  {
    var ws := SkippedIsBlank(s);
    if SkipSpace(s) == [] {
      assert s == ws;
    } else {
      assert SkipSpace(s)[0] in s;
      NotEof(SkipSpace(s), bad);
    }
  }

  lemma NotEof(s: seq<Byte>, bad: bool)
    requires s != []
    ensures !LexAt(s, bad).0.Eof?
  {
    hide ScanBody; hide Unescape; hide IntegerPart; hide FractionPart; hide ExponentPart; hide NumberValue;
  }

  // ------------------------------------------------------------------ whole texts

  /** The text is these tokens with white space between them, and then `rest`. */
  ghost predicate Spelled(ts: seq<Token>, s: seq<Byte>, rest: seq<Byte>)
    decreases |ts|
  {
    if ts == [] then s == rest
    else exists mid :: StartsWith(s, ts[0], mid) && Spelled(ts[1..], mid, rest)
  }

  lemma {:induction false} LexedIsSpelled(ts: seq<Token>, s: seq<Byte>, rest: seq<Byte>, bad: bool)
    requires forall t <- ts :: !IsEnd(t)
    ensures LexThrough(s, ts, bad) == Some(rest) <==> Spelled(ts, s, rest)
    decreases |ts|
  {
    hide StartsWith; hide Lex;
    if ts == [] {
    } else {
      assert ts[0] in ts && forall t <- ts[1..] :: t in ts;
      var (tok, mid) := Lex(s, bad);
      TokensAreSpelled(s, bad, ts[0], mid);
      LexedIsSpelled(ts[1..], mid, rest, bad);
      if Spelled(ts, s, rest) {
        var m :| StartsWith(s, ts[0], m) && Spelled(ts[1..], m, rest);
        TokensAreSpelled(s, bad, ts[0], m);
      }
    }
  }

  lemma {:induction false} YieldHasNoEnd(t: Tree)
    requires WellFormed(t)
    ensures forall tok <- Yield(t) :: !IsEnd(tok)
    decreases t, 1
  {
    match t
    case Leaf(_) =>
    case Arr(items) =>
      if items != [] {
        ItemsHaveNoEnd(items);
      }
    case Obj(pairs) =>
      if pairs != [] {
        PairsHaveNoEnd(pairs);
      }
  }

  lemma {:induction false} ItemsHaveNoEnd(items: seq<Tree>)
    requires items != [] && forall i <- items :: WellFormed(i)
    ensures forall tok <- YieldItems(items) :: !IsEnd(tok)
    decreases items, 0
  {
    hide Yield;
    YieldHasNoEnd(items[0]);
    if |items| == 1 {
    } else {
      ItemsHaveNoEnd(items[1..]);
    }
  }

  lemma {:induction false} PairsHaveNoEnd(pairs: seq<Pair>)
    requires pairs != [] && forall p <- pairs :: WellFormed(p.value)
    ensures forall tok <- YieldPairs(pairs) :: !IsEnd(tok)
    decreases pairs, 0
  {
    hide Yield;
    assert pairs[0] in pairs;
    YieldHasNoEnd(pairs[0].value);
    if |pairs| == 1 {
    } else {
      PairsHaveNoEnd(pairs[1..]);
    }
  }

  /** A JSON text with the sentence `t`: `rest` is what follows it, white space only unless the flags allow more. */
  ghost predicate IsDocument(t: Tree, s: seq<Byte>, rest: seq<Byte>, bad: bool, f: LoadFlags) {
    && WellFormed(t) && Spelled(Yield(t), s, rest)
    && (f.rejectDuplicates ==> KeysDiffer(t))
    && (f.decodeAny || !t.Leaf?)
    && (f.disableEofCheck || (Blank(rest) && !bad))
  }

  lemma DocumentIsText(t: Tree, s: seq<Byte>, rest: seq<Byte>, bad: bool, f: LoadFlags)
    ensures IsDocument(t, s, rest, bad, f) <==> IsText(t, s, rest, bad, f)
  {
    hide Spelled; hide LexThrough; hide Yield; hide Lex; hide Blank;
    NoRepeatsMeans(t);
    EndIsBlank(rest, bad);
    if WellFormed(t) {
      YieldHasNoEnd(t);
      LexedIsSpelled(Yield(t), s, rest, bad);
    }
  }

  /** parse_json returns a value exactly when the bytes are a JSON text that means this value. */
  lemma ParserReadsTexts(s: seq<Byte>, bad: bool, f: LoadFlags, v: Json)
    ensures Parse(s, bad, f) == Some(v) <==> exists t, rest :: IsDocument(t, s, rest, bad, f) && Means(t, v)
  {
    hide *;
    ParserAcceptsExactly(s, bad, f, v);
    if Parse(s, bad, f) == Some(v) {
      var t, rest :| IsText(t, s, rest, bad, f) && ValueOf(t) == v;
      DocumentIsText(t, s, rest, bad, f);
      TextIsWellFormed(t, s, rest, bad, f);
      ValueIsMeant(t);
    }
    if t, rest :| IsDocument(t, s, rest, bad, f) && Means(t, v) {
      DocumentIsText(t, s, rest, bad, f);
      TextIsWellFormed(t, s, rest, bad, f);
      ValueIsMeant(t);
      MeaningIsUnique(t, v, ValueOf(t));
    }
  }

  lemma TextIsWellFormed(t: Tree, s: seq<Byte>, rest: seq<Byte>, bad: bool, f: LoadFlags)
    requires IsText(t, s, rest, bad, f)
    ensures WellFormed(t)
  {
  }
}
