/** The grammar of string literals (section 2.5 of RFC 4627), and that lex_scan_string reads exactly its sentences. */
module JsonLiteral {
  import opened Bytes
  import opened Utf8
  import opened JsonString
  import opened JsonParse

  /** What a literal is made of: bytes that stand for themselves, two-character escapes and UTF-16 code units. */
  datatype Item = Raw(b: Byte) | Short(c: Byte) | Unit(hex: seq<Byte>)

  ghost predicate IsItem(i: Item) {
    match i
    case Raw(b) => b >= 0x20 && b != QUOTE && b != BACKSLASH
    case Short(c) => IsShortEscape(c)
    case Unit(hex) => |hex| == 4 && forall k :: 0 <= k < 4 ==> IsHex(hex[k])
  }

  ghost predicate AreItems(items: seq<Item>) {
    forall i <- items :: IsItem(i)
  }

  function ItemText(i: Item): (t: seq<Byte>) {
    match i
    case Raw(b) => [b]
    case Short(c) => [BACKSLASH, c]
    case Unit(hex) => [BACKSLASH, 0x75] + hex
  }

  function ItemsText(items: seq<Item>): (t: seq<Byte>)
    decreases |items|
  {
    if items == [] then [] else ItemText(items[0]) + ItemsText(items[1..])
  }

  /** The code unit an item stands for, or -1. */
  ghost function UnitOf(i: Item): (v: int)
    requires IsItem(i)
  {
    if !i.Unit? then -1
    else HexValue(i.hex[0]) * 4096 + HexValue(i.hex[1]) * 256 + HexValue(i.hex[2]) * 16 + HexValue(i.hex[3])
  }

  predicate HighUnit(v: int) {
    0xD800 <= v <= 0xDBFF
  }

  predicate LowUnit(v: int) {
    0xDC00 <= v <= 0xDFFF
  }

  /** The bytes that a sequence of items denotes: code units are UTF-16, so surrogates come in pairs, and NUL is not
      allowed. */
  ghost function Denotes(items: seq<Item>): (r: Option<seq<Byte>>)
    requires AreItems(items)
    decreases |items|
  {
    if items == [] then Some([])
    else
      var v := UnitOf(items[0]);
      if items[0].Raw? then Prepend([items[0].b], Denotes(items[1..]))
      else if items[0].Short? then Prepend([ShortValue(items[0].c)], Denotes(items[1..]))
      else if HighUnit(v) then
        if |items| == 1 || !LowUnit(UnitOf(items[1])) then None
        else Prepend(Encode(0x10000 + (v - 0xD800) * 1024 + (UnitOf(items[1]) - 0xDC00)), Denotes(items[2..]))
      else if v == 0 || LowUnit(v) then None
      else Prepend(Encode(v), Denotes(items[1..]))
  }

  // ------------------------------------------------------------------ sentences are read

  lemma UnitUnfolds(i: Item, t: seq<Byte>)
    requires IsItem(i) && i.Unit?
    ensures IsUEscape(ItemText(i) + t) && UValue(ItemText(i) + t) == UnitOf(i) && 0 <= UnitOf(i) < 0x10000
    ensures (ItemText(i) + t)[6..] == t
  {
    var s := ItemText(i) + t;
    assert forall k :: 0 <= k < 4 ==> s[k + 2] == i.hex[k];
  }

  lemma ItemIsScanned(i: Item, t: seq<Byte>)
    requires IsItem(i) && ScanBody(t).Some?
    ensures ScanBody(ItemText(i) + t) == Plus(|ItemText(i)|, ScanBody(t))
  {
    match i
    case Raw(b) => RawByteReadsAs(b, t);
    case Short(c) => ShortReadsAs(c, t);
    case Unit(hex) =>
      UnitUnfolds(i, t);
      hide UValue;
  }

  /** An item other than a surrogate or NUL is read by itself. */
  lemma ItemIsRead(i: Item, t: seq<Byte>)
    requires IsItem(i) && ScanBody(t).Some?
    requires UnitOf(i) != 0 && !HighUnit(UnitOf(i)) && !LowUnit(UnitOf(i))
    ensures ReadsAs(ItemText(i), if i.Raw? then [i.b] else if i.Short? then [ShortValue(i.c)] else Encode(UnitOf(i)), t)
  {
    match i
    case Raw(b) => RawByteReadsAs(b, t);
    case Short(c) => ShortReadsAs(c, t);
    case Unit(hex) =>
      UnitUnfolds(i, t);
      hide UValue; hide Encode; hide UnitOf;
      assert Turn(ItemText(i) + t) == Some((Encode(UnitOf(i)), 6));
  }

  lemma TailItems(items: seq<Item>, k: nat)
    requires AreItems(items) && k <= |items|
    ensures AreItems(items[k..]) && (k < |items| ==> IsItem(items[k]))
  {
    hide IsItem;
  }

  lemma SecondText(items: seq<Item>, close: seq<Byte>)
    requires |items| >= 2
    ensures ItemsText(items) + close ==
            ItemText(items[0]) + (ItemText(items[1]) + (ItemsText(items[2..]) + close))
  {
    hide ItemText;
    assert items[1..][1..] == items[2..];
  }

  lemma FirstText(items: seq<Item>, close: seq<Byte>)
    requires items != []
    ensures ItemsText(items) + close == ItemText(items[0]) + (ItemsText(items[1..]) + close)
  {
    hide ItemText;
  }

  lemma PairIsRead(a: Item, b: Item, t: seq<Byte>)
    requires IsItem(a) && IsItem(b) && HighUnit(UnitOf(a)) && LowUnit(UnitOf(b)) && ScanBody(t).Some?
    ensures ReadsAs(ItemText(a) + ItemText(b), Encode(0x10000 + (UnitOf(a) - 0xD800) * 1024 + (UnitOf(b) - 0xDC00)), t)
  {
    hide Encode; hide UnitOf; hide UValue; hide ScanBody; hide ReadsAs;
    var rest := ItemText(b) + t;
    assert ItemText(a) + ItemText(b) + t == ItemText(a) + rest;
    IsUnit(a);
    IsUnit(b);
    UnitUnfolds(a, rest);
    UnitUnfolds(b, t);
    PairStep(ItemText(a) + ItemText(b), rest, t);
  }

  /** The code unit escaped at the start of `t`, or -1. */
  ghost function FirstUnit(t: seq<Byte>): (v: int) {
    if IsUEscape(t) then UValue(t) else -1
  }

  lemma FirstUnitIs(items: seq<Item>, after: seq<Byte>)
    requires AreItems(items)
    ensures FirstUnit(ItemsText(items) + ([QUOTE] + after)) ==
            if items == [] then -1 else (TailItems(items, 0); UnitOf(items[0]))
  {
    if items == [] {
      assert ItemsText(items) + ([QUOTE] + after) == [QUOTE] + after;
    } else {
      TailItems(items, 0);
      var t := ItemsText(items[1..]) + ([QUOTE] + after);
      FirstText(items, [QUOTE] + after);
      hide ItemsText;
      if items[0].Unit? {
        UnitUnfolds(items[0], t);
      } else {
        assert !IsUEscape(ItemText(items[0]) + t);
      }
    }
  }

  /** A surrogate without its partner, or a NUL, makes the second pass fail. */
  lemma UnitIsRejected(i: Item, t: seq<Byte>)
    requires IsItem(i) && i.Unit? && ScanBody(t).Some?
    requires UnitOf(i) == 0 || LowUnit(UnitOf(i)) || (HighUnit(UnitOf(i)) && !LowUnit(FirstUnit(t)))
    ensures ScanBody(ItemText(i) + t).Some? && Unescape(ItemText(i) + t).None?
  {
    UnitUnfolds(i, t);
    ScanBackslash(t);
    ItemIsScanned(i, t);
    hide UValue; hide Encode; hide UnitOf; hide ScanBody;
    assert Turn(ItemText(i) + t).None?;
  }

  lemma NoItems(after: seq<Byte>)
    ensures ItemsText([]) + ([QUOTE] + after) == [QUOTE] + after
    ensures ScanBody([QUOTE] + after) == Some(0) && Unescape([QUOTE] + after) == Some([]) && Denotes([]) == Some([])
  {
  }

  lemma DenotesUnfolds(items: seq<Item>)
    requires AreItems(items) && items != []
    ensures AreItems(items[1..]) && IsItem(items[0])
    ensures |items| > 1 ==> AreItems(items[2..]) && IsItem(items[1])
    ensures var i, v := items[0], UnitOf(items[0]);
            var pair := |items| > 1 && HighUnit(v) && LowUnit(UnitOf(items[1]));
            Denotes(items) ==
            if pair then Prepend(Encode(0x10000 + (v - 0xD800) * 1024 + (UnitOf(items[1]) - 0xDC00)), Denotes(items[2..]))
            else if v == 0 || HighUnit(v) || LowUnit(v) then None
            else
              Prepend(if i.Raw? then [i.b] else if i.Short? then [ShortValue(i.c)] else Encode(v), Denotes(items[1..]))
  {
    TailItems(items, 0);
    TailItems(items, 1);
    if |items| > 1 {
      TailItems(items, 2);
    }
    hide Encode;
  }

  /** Every sequence of items is read as what it denotes, or rejected if it denotes nothing. */
  lemma {:induction false} ItemsAreRead(items: seq<Item>, after: seq<Byte>)
    requires AreItems(items)
    ensures ScanBody(ItemsText(items) + ([QUOTE] + after)) == Some(|ItemsText(items)|)
    ensures Unescape(ItemsText(items) + ([QUOTE] + after)) == Denotes(items)
    decreases |items|
  {
    hide ScanBody; hide Unescape; hide Turn; hide UnitOf; hide Encode; hide IsItem; hide Denotes; hide ItemText;
    hide AreItems; hide ItemsText; hide UValue; hide FirstUnit;
    var close := [QUOTE] + after;
    if items == [] {
      NoItems(after);
    } else {
      DenotesUnfolds(items);
      ItemsAreRead(items[1..], after);
      FirstText(items, close);
      FirstText(items, []);
      var t := ItemsText(items[1..]) + close;
      ItemIsScanned(items[0], t);
      LengthOfItems(items);
      var v := UnitOf(items[0]);
      if v != 0 && !HighUnit(v) && !LowUnit(v) {
        ItemIsRead(items[0], t);
      } else if |items| > 1 && HighUnit(v) && LowUnit(UnitOf(items[1])) {
        ItemsAreRead(items[2..], after);
        SecondText(items, close);
        var u := ItemsText(items[2..]) + close;
        PairIsRead(items[0], items[1], u);
        assert ItemText(items[0]) + ItemText(items[1]) + u == ItemText(items[0]) + (ItemText(items[1]) + u);
      } else {
        FirstUnitIs(items[1..], after);
        IsUnit(items[0]);
        UnitIsRejected(items[0], t);
      }
    }
  }

  lemma LengthOfItems(items: seq<Item>)
    requires items != []
    ensures |ItemsText(items)| == |ItemText(items[0])| + |ItemsText(items[1..])|
  {
  }

  lemma IsUnit(i: Item)
    requires IsItem(i) && UnitOf(i) >= 0
    ensures i.Unit?
  {
  }

  // ------------------------------------------------------------------ what is read is a sentence

  lemma ConsItems(i: Item, items: seq<Item>, close: seq<Byte>)
    requires IsItem(i) && AreItems(items)
    ensures AreItems([i] + items) && ItemsText([i] + items) + close == ItemText(i) + (ItemsText(items) + close)
  {
    hide ItemText;
    assert ([i] + items)[1..] == items;
  }

  lemma FirstItem(s: seq<Byte>) returns (i: Item)
    requires ScanBody(s).Some? && s[0] != QUOTE
    ensures IsItem(i)
    ensures var k := |ItemText(i)|;
            && 0 < k <= |s| && s == ItemText(i) + s[k..]
            && ScanBody(s[k..]).Some? && ScanBody(s) == Plus(k, ScanBody(s[k..]))
  {
    if s[0] != BACKSLASH {
      i := Raw(s[0]);
    } else if s[1] != 0x75 {
      i := Short(s[1]);
    } else {
      i := Item.Unit(s[2..6]);
    }
  }

  lemma {:induction false} LiteralIsSpelled(s: seq<Byte>) returns (items: seq<Item>)
    requires ScanBody(s).Some?
    ensures AreItems(items) && s == ItemsText(items) + ([QUOTE] + s[ScanBody(s).value + 1..])
    decreases |s|
  {
    hide AreItems; hide IsItem; hide ItemText; hide ItemsText; hide ScanBody; hide Denotes; hide Unescape;
    if s[0] == QUOTE {
      items := [];
      NoItems(s[1..]);
      NoItemsAreItems();
      assert s == [QUOTE] + s[1..];
    } else {
      var i := FirstItem(s);
      var k := |ItemText(i)|;
      var rest := LiteralIsSpelled(s[k..]);
      items := [i] + rest;
      var n := ScanBody(s).value;
      DropTwice(s, k, n - k + 1);
      ConsItems(i, rest, [QUOTE] + s[n + 1..]);
    }
  }

  lemma NoItemsAreItems()
    ensures AreItems([])
  {
  }

  ghost predicate IsLiteral(items: seq<Item>, s: seq<Byte>, v: seq<Byte>, rest: seq<Byte>) {
    AreItems(items) && s == ItemsText(items) + ([QUOTE] + rest) && Denotes(items) == Some(v)
  }

  /** A string token is read exactly where items, a closing quote and `rest` stand, and its value is what they
      denote. */
  lemma StringsAreExactlyLiterals(s: seq<Byte>, v: seq<Byte>, rest: seq<Byte>)
    ensures LexString(s) == (StringTok(v), rest) <==> exists items :: IsLiteral(items, s, v, rest)
  {
    hide ScanBody; hide Unescape; hide AreItems; hide ItemsText; hide Denotes;
    if LexString(s) == (StringTok(v), rest) {
      var items := LiteralIsSpelled(s);
      ItemsAreRead(items, rest);
      assert IsLiteral(items, s, v, rest);
    }
    if exists items :: IsLiteral(items, s, v, rest) {
      var items :| IsLiteral(items, s, v, rest);
      ItemsAreRead(items, rest);
      assert s[|ItemsText(items)| + 1..] == rest;
    }
  }
}
