/** json_equal is equality of what values stand for: objects are maps from keys to values. */
module JsonEqual {
  import opened Bytes
  import opened FiniteSets
  import opened Json

  /** A value without the order of members and their serials. */
  datatype Datum =
    | DNull
    | DTrue
    | DFalse
    | DInteger(i: int)
    | DReal(lexeme: seq<Byte>)
    | DString(s: seq<Byte>)
    | DArray(elems: seq<Datum>)
    | DObject(members: map<seq<Byte>, Datum>)

  ghost function Denote(v: Json): (d: Datum)
    decreases v, 1
  {
    match v
    case Null => DNull
    case True => DTrue
    case False => DFalse
    case Integer(i) => DInteger(i)
    case Real(lexeme) => DReal(lexeme)
    case String(s) => DString(s)
    case Array(elems) => DArray(DenoteAll(elems))
    case Object(members) => DObject(DenoteMembers(members))
  }

  ghost function DenoteAll(elems: seq<Json>): (ds: seq<Datum>)
    ensures |ds| == |elems|
    decreases elems, 0
  {
    if elems == [] then [] else [Denote(elems[0])] + DenoteAll(elems[1..])
  }

  ghost function DenoteMembers(ms: seq<Member>): (m: map<seq<Byte>, Datum>)
    decreases ms, 0
  {
    if ms == [] then map[] else DenoteMembers(ms[1..])[ms[0].key := Denote(ms[0].value)]
  }

  /** As in a hash table, no object has a key twice. */
  ghost predicate Keyed(v: Json) {
    match v
    case Array(elems) => forall e <- elems :: Keyed(e)
    case Object(members) => DistinctKeys(members) && forall m <- members :: Keyed(m.value)
    case _ => true
  }

  lemma {:induction false} DenoteAllAt(elems: seq<Json>)
    ensures forall i :: 0 <= i < |elems| ==> DenoteAll(elems)[i] == Denote(elems[i])
    decreases |elems|
  {
    hide Denote;
    if elems == [] {
    } else {
      DenoteAllAt(elems[1..]);
    }
  }

  lemma {:induction false} DenoteMembersAt(ms: seq<Member>)
    requires DistinctKeys(ms)
    ensures |DenoteMembers(ms).Keys| == |ms|
    ensures forall k :: k in DenoteMembers(ms) <==> exists i :: 0 <= i < |ms| && ms[i].key == k
    ensures forall i :: 0 <= i < |ms| ==>
              ms[i].key in DenoteMembers(ms) && DenoteMembers(ms)[ms[i].key] == Denote(ms[i].value)
    decreases |ms|
  {
    hide Denote;
    if ms == [] {
    } else {
      var rest := ms[1..];
      assert forall i :: 0 <= i < |rest| ==> rest[i] == ms[i + 1];
      DenoteMembersAt(rest);
      assert ms[0].key !in DenoteMembers(rest);
      assert DenoteMembers(ms).Keys == DenoteMembers(rest).Keys + {ms[0].key};
      forall i | 0 <= i < |ms|
        ensures ms[i].key in DenoteMembers(ms) && DenoteMembers(ms)[ms[i].key] == Denote(ms[i].value)
      {
        assert i > 0 ==> ms[i] == rest[i - 1];
      }
    }
  }

  /** A key and its place in the other object. */
  lemma FoundIff(ms: seq<Member>, key: seq<Byte>)
    requires DistinctKeys(ms)
    ensures FindKey(ms, key).Some? <==> key in DenoteMembers(ms)
    ensures FindKey(ms, key).Some? ==> DenoteMembers(ms)[key] == Denote(ms[FindKey(ms, key).value].value)
  {
    hide Denote; hide DenoteMembers; hide FindKey;
    DenoteMembersAt(ms);
    assert forall i :: 0 <= i < |ms| ==> ms[i] in ms;
  }

  lemma {:induction false} EqualIsSameDatum(a: Json, b: Json)
    requires Keyed(a) && Keyed(b)
    ensures Equal(a, b) <==> Denote(a) == Denote(b)
    decreases a
  {
    match a
    case Array(elems) =>
      if b.Array? && |b.elems| == |elems| {
        ArraysAgree(elems, b.elems);
      }
    case Object(members) =>
      if b.Object? {
        ObjectsAgree(members, b.members);
      }
    case _ =>
  }

  lemma {:induction false} ArraysAgree(xs: seq<Json>, ys: seq<Json>)
    requires |xs| == |ys| && (forall x <- xs :: Keyed(x)) && forall y <- ys :: Keyed(y)
    ensures (forall i :: 0 <= i < |xs| ==> Equal(xs[i], ys[i])) <==> DenoteAll(xs) == DenoteAll(ys)
    decreases xs, 0
  {
    hide Denote; hide Keyed; hide Equal; hide DenoteAll;
    DenoteAllAt(xs);
    DenoteAllAt(ys);
    forall i | 0 <= i < |xs| ensures Equal(xs[i], ys[i]) <==> DenoteAll(xs)[i] == DenoteAll(ys)[i] {
      EqualIsSameDatum(xs[i], ys[i]);
    }
  }

  /** json_object_equal on two lists of members. */
  ghost predicate MembersEqual(xs: seq<Member>, ys: seq<Member>) {
    && |ys| == |xs|
    && forall i :: 0 <= i < |xs| ==>
         var found := FindKey(ys, xs[i].key);
         found.Some? && Equal(xs[i].value, ys[found.value].value)
  }

  lemma {:induction false} ObjectsAgree(xs: seq<Member>, ys: seq<Member>)
    requires DistinctKeys(xs) && DistinctKeys(ys)
    requires (forall x <- xs :: Keyed(x.value)) && forall y <- ys :: Keyed(y.value)
    ensures MembersEqual(xs, ys) <==> DenoteMembers(xs) == DenoteMembers(ys)
    decreases xs, 0
  {
    hide Denote; hide Keyed; hide Equal; hide DenoteMembers; hide FindKey; hide DistinctKeys;
    var a, b := DenoteMembers(xs), DenoteMembers(ys);
    DenoteMembersAt(xs);
    DenoteMembersAt(ys);
    forall i | 0 <= i < |xs|
      ensures var found := FindKey(ys, xs[i].key);
              && (found.Some? <==> xs[i].key in b)
              && (found.Some? ==> (Equal(xs[i].value, ys[found.value].value) <==> a[xs[i].key] == b[xs[i].key]))
    {
      FoundIff(ys, xs[i].key);
      var found := FindKey(ys, xs[i].key);
      if found.Some? {
        assert xs[i] in xs && ys[found.value] in ys;
        EqualIsSameDatum(xs[i].value, ys[found.value].value);
      }
    }
    if MembersEqual(xs, ys) {
      assert a.Keys <= b.Keys;
      SubsetSize(a.Keys, b.Keys);
      assert forall k <- a :: a[k] == b[k];
    }
    if a == b {
      assert |xs| == |ys|;
    }
  }
}
