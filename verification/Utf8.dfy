/** Jansson's UTF-8 coder and decoder (section 3 of RFC 3629). */
module Utf8 {
  import opened Bytes

  predicate IsScalar(cp: int) {
    0 <= cp <= 0x10FFFF && !(0xD800 <= cp <= 0xDFFF)
  }

  /** A Unicode scalar value. */
  type Scalar = cp: int | 0 <= cp <= 0x10FFFF && !(0xD800 <= cp <= 0xDFFF)

  /** utf8_encode, on the code points it accepts (surrogates included). */
  function Encode(cp: int): (s: seq<Byte>)
    requires 0 <= cp <= 0x10FFFF
    ensures 1 <= |s| <= 4
  {
    if cp < 0x80 then [cp]
    else if cp < 0x800 then [0xC0 + cp / 64, 0x80 + cp % 64]
    else if cp < 0x10000 then [0xE0 + cp / 4096, 0x80 + cp / 64 % 64, 0x80 + cp % 64]
    else [0xF0 + cp / 262144, 0x80 + cp / 4096 % 64, 0x80 + cp / 64 % 64, 0x80 + cp % 64]
  }

  ghost predicate IsTail(b: int) {
    0x80 <= b <= 0xBF
  }

  ghost predicate TwoBytes(cp: int, a: int, b: int) {
    0xC2 <= a <= 0xDF && IsTail(b) && cp == (a - 0xC0) * 64 + (b - 0x80)
  }

  ghost predicate ThreeBytes(cp: int, a: int, b: int, c: int) {
    0xE0 <= a <= 0xEF && IsTail(b) && IsTail(c) && cp == (a - 0xE0) * 4096 + (b - 0x80) * 64 + (c - 0x80)
  }

  ghost predicate FourBytes(cp: int, a: int, b: int, c: int, d: int) {
    && 0xF0 <= a <= 0xF4 && IsTail(b) && IsTail(c) && IsTail(d)
    && cp == (a - 0xF0) * 262144 + (b - 0x80) * 4096 + (c - 0x80) * 64 + (d - 0x80)
  }

  /** The encoding by its bytes (section 3 of RFC 3629): lead byte, continuation bytes and the value they carry. */
  lemma EncodingIsUtf8(cp: int)
    requires 0 <= cp <= 0x10FFFF
    ensures var e := Encode(cp);
            if cp <= 0x7F then e == [cp]
            else if cp <= 0x7FF then |e| == 2 && TwoBytes(cp, e[0], e[1])
            else if cp <= 0xFFFF then |e| == 3 && ThreeBytes(cp, e[0], e[1], e[2])
            else |e| == 4 && FourBytes(cp, e[0], e[1], e[2], e[3])
  {
    SixBitDigits(cp);
  }

  /** utf8_check_first: the length of the sequence a byte starts, 0 if it starts none. */
  function CheckFirst(u: Byte): (n: nat)
    ensures n <= 4
  {
    if u < 0x80 then 1
    else if u <= 0xC1 then 0
    else if u <= 0xDF then 2
    else if u <= 0xEF then 3
    else if u <= 0xF4 then 4
    else 0
  }

  /** Appends the payload of continuation bytes to `value`. */
  function Continue(value: nat, tail: seq<Byte>): (r: Option<nat>)
    decreases |tail|
  {
    if tail == [] then Some(value)
    else if tail[0] < 0x80 || tail[0] > 0xBF then None
    else Continue(value * 64 + tail[0] % 64, tail[1..])
  }

  function LeadPayload(u: Byte, size: nat): nat {
    if size == 2 then u % 32 else if size == 3 then u % 16 else u % 8
  }

  /** In range, not a surrogate half, not an overlong form. */
  predicate Accepted(value: int, size: nat) {
    && value <= 0x10FFFF
    && !(0xD800 <= value <= 0xDFFF)
    && !((size == 2 && value < 0x80) || (size == 3 && value < 0x800) || (size == 4 && value < 0x10000))
  }

  /** utf8_check_full on a whole buffer. */
  function CheckFull(buffer: seq<Byte>): (r: Option<nat>) {
    if !(2 <= |buffer| <= 4) then None
    else
      match Continue(LeadPayload(buffer[0], |buffer|), buffer[1..])
      case None => None
      case Some(value) => if Accepted(value, |buffer|) then Some(value) else None
  }

  method Utf8CheckFull(buffer: seq<Byte>) returns (r: Option<nat>)
    ensures r == CheckFull(buffer)
  {
    var size := |buffer|;
    if size != 2 && size != 3 && size != 4 {
      return None;
    }
    var value: nat := LeadPayload(buffer[0], size);
    for i := 1 to size
      invariant Continue(value, buffer[i..]) == Continue(LeadPayload(buffer[0], size), buffer[1..])
    {
      var u := buffer[i];
      if u < 0x80 || u > 0xBF {
        return None;
      }
      assert buffer[i..][1..] == buffer[i + 1..];
      value := value * 64 + u % 64;
    }
    assert buffer[size..] == [];
    return if Accepted(value, size) then Some(value) else None;
  }

  /** What utf8_iterate finds at the start of a non-empty C string. */
  function Next(s: seq<Byte>): (r: Option<(nat, nat)>)
    requires s != []
    ensures r.Some? ==> 1 <= r.value.1 <= |s|
  {
    var count := CheckFirst(s[0]);
    if count == 0 then None
    else if count == 1 then Some((s[0], 1))
    else if count > |s| then None
    else
      match CheckFull(s[..count])
      case None => None
      case Some(cp) => Some((cp, count))
  }

  // ---------------------------------------------- decoding inverts encoding

  lemma NextOfEncode(cp: int, rest: seq<Byte>)
    requires IsScalar(cp)
    ensures Next(Encode(cp) + rest) == Some((cp, |Encode(cp)|))
  {
    var e := Encode(cp);
    var s := e + rest;
    assert s[..|e|] == e;
    if cp >= 0x80 {
      CheckFullOfEncode(cp);
    }
  }

  lemma SixBitDigits(cp: nat)
    ensures cp == cp / 64 * 64 + cp % 64
    ensures cp == cp / 4096 * 4096 + cp / 64 % 64 * 64 + cp % 64
    ensures cp == cp / 262144 * 262144 + cp / 4096 % 64 * 4096 + cp / 64 % 64 * 64 + cp % 64
  {
    assert cp / 4096 == cp / 64 / 64 && cp / 262144 == cp / 4096 / 64;
  }

  lemma SixBitDigits2(a: nat, b: nat)
    requires b < 64
    ensures (a * 64 + b) / 64 == a && (a * 64 + b) % 64 == b
  {
  }

  lemma SixBitDigits3(a: nat, b: nat, c: nat)
    requires b < 64 && c < 64
    ensures var v := a * 4096 + b * 64 + c; v / 4096 == a && v / 64 % 64 == b && v % 64 == c
  {
    SixBitDigits2(a * 64 + b, c);
    SixBitDigits2(a, b);
    var v := a * 4096 + b * 64 + c;
    assert v == (a * 64 + b) * 64 + c;
    assert v / 4096 == v / 64 / 64;
  }

  lemma SixBitDigits4(a: nat, b: nat, c: nat, d: nat)
    requires b < 64 && c < 64 && d < 64
    ensures var v := a * 262144 + b * 4096 + c * 64 + d;
            v / 262144 == a && v / 4096 % 64 == b && v / 64 % 64 == c && v % 64 == d
  {
    SixBitDigits2(a * 4096 + b * 64 + c, d);
    SixBitDigits3(a, b, c);
    var v := a * 262144 + b * 4096 + c * 64 + d;
    assert v == (a * 4096 + b * 64 + c) * 64 + d;
    assert v / 4096 == v / 64 / 64 && v / 262144 == v / 64 / 4096;
  }

  lemma CheckFull2(cp: int, a: nat, b: nat)
    requires 0x80 <= cp == a * 64 + b < 0x800 && b < 64
    ensures CheckFull([0xC0 + a, 0x80 + b]) == Some(cp)
  {
    hide Continue;
    assert (0xC0 + a) % 32 == a;
    assert [0xC0 + a, 0x80 + b][1..] == [0x80 + b];
    Continue1(a, 0x80 + b);
  }

  lemma CheckFull3(cp: int, a: nat, b: nat, c: nat)
    requires IsScalar(cp) && 0x800 <= cp == a * 4096 + b * 64 + c < 0x10000 && b < 64 && c < 64
    ensures CheckFull([0xE0 + a, 0x80 + b, 0x80 + c]) == Some(cp)
  {
    hide Continue;
    assert (0xE0 + a) % 16 == a;
    assert [0xE0 + a, 0x80 + b, 0x80 + c][1..] == [0x80 + b, 0x80 + c];
    Continue2(a, 0x80 + b, 0x80 + c);
  }

  lemma CheckFull4(cp: int, a: nat, b: nat, c: nat, d: nat)
    requires 0x10000 <= cp == a * 262144 + b * 4096 + c * 64 + d <= 0x10FFFF && b < 64 && c < 64 && d < 64
    ensures CheckFull([0xF0 + a, 0x80 + b, 0x80 + c, 0x80 + d]) == Some(cp)
  {
    hide Continue;
    assert (0xF0 + a) % 8 == a;
    assert [0xF0 + a, 0x80 + b, 0x80 + c, 0x80 + d][1..] == [0x80 + b, 0x80 + c, 0x80 + d];
    Continue3(a, 0x80 + b, 0x80 + c, 0x80 + d);
  }

  lemma CheckFullOfEncode(cp: int)
    requires IsScalar(cp) && cp >= 0x80
    ensures CheckFull(Encode(cp)) == Some(cp) && CheckFirst(Encode(cp)[0]) == |Encode(cp)|
  {
    hide CheckFull;
    SixBitDigits(cp);
    if cp < 0x800 {
      CheckFull2(cp, cp / 64, cp % 64);
    } else if cp < 0x10000 {
      CheckFull3(cp, cp / 4096, cp / 64 % 64, cp % 64);
    } else {
      CheckFull4(cp, cp / 262144, cp / 4096 % 64, cp / 64 % 64, cp % 64);
    }
  }

  lemma Continue1(v: nat, a: Byte)
    ensures Continue(v, [a]) == if 0x80 <= a <= 0xBF then Some(v * 64 + (a - 0x80)) else None
  {
    assert [a][1..] == [];
  }

  lemma Continue2(v: nat, a: Byte, b: Byte)
    requires 0x80 <= a <= 0xBF
    ensures Continue(v, [a, b]) == if 0x80 <= b <= 0xBF then Some(v * 4096 + (a - 0x80) * 64 + (b - 0x80)) else None
  {
    assert [a, b][1..] == [b];
    Continue1(v * 64 + (a - 0x80), b);
  }

  lemma Continue3(v: nat, a: Byte, b: Byte, c: Byte)
    requires 0x80 <= a <= 0xBF
    ensures Continue(v, [a, b, c]) ==
            if 0x80 <= b <= 0xBF && 0x80 <= c <= 0xBF
            then Some(v * 262144 + (a - 0x80) * 4096 + (b - 0x80) * 64 + (c - 0x80)) else None
  {
    assert [a, b, c][1..] == [b, c];
    if 0x80 <= b <= 0xBF {
      Continue2(v * 64 + (a - 0x80), b, c);
    }
  }

  lemma Canonical2(e: seq<Byte>)
    requires |e| == 2 && CheckFirst(e[0]) == 2 && CheckFull(e).Some?
    ensures IsScalar(CheckFull(e).value) && e == Encode(CheckFull(e).value)
  {
    hide Continue;
    assert e[1..] == [e[1]];
    Continue1(e[0] % 32, e[1]);
    SixBitDigits2(e[0] % 32, e[1] - 0x80);
  }

  lemma Canonical3(e: seq<Byte>)
    requires |e| == 3 && CheckFirst(e[0]) == 3 && CheckFull(e).Some?
    ensures IsScalar(CheckFull(e).value) && e == Encode(CheckFull(e).value)
  {
    assert 0x80 <= e[1] <= 0xBF;
    hide Continue;
    assert e[1..] == [e[1], e[2]];
    Continue2(e[0] % 16, e[1], e[2]);
    SixBitDigits3(e[0] % 16, e[1] - 0x80, e[2] - 0x80);
  }

  lemma Canonical4(e: seq<Byte>)
    requires |e| == 4 && CheckFirst(e[0]) == 4 && CheckFull(e).Some?
    ensures IsScalar(CheckFull(e).value) && e == Encode(CheckFull(e).value)
  {
    assert 0x80 <= e[1] <= 0xBF;
    hide Continue;
    assert e[1..] == [e[1], e[2], e[3]];
    Continue3(e[0] % 8, e[1], e[2], e[3]);
    SixBitDigits4(e[0] % 8, e[1] - 0x80, e[2] - 0x80, e[3] - 0x80);
  }

  /** Whatever is decoded is a scalar value, and its canonical encoding is what was read. */
  lemma NextIsCanonical(s: seq<Byte>)
    requires s != [] && Next(s).Some?
    ensures var (cp, n) := Next(s).value; IsScalar(cp) && s[..n] == Encode(cp)
  {
    hide CheckFull;
    var (cp, n) := Next(s).value;
    if n == 2 {
      Canonical2(s[..2]);
    } else if n == 3 {
      Canonical3(s[..3]);
    } else if n == 4 {
      Canonical4(s[..4]);
    }
  }

  // ---------------------------------------------- whole strings

  function EncodeAll(cps: seq<Scalar>): (s: seq<Byte>)
    decreases |cps|
  {
    if cps == [] then [] else Encode(cps[0]) + EncodeAll(cps[1..])
  }

  function Decode(s: seq<Byte>): (r: Option<seq<Scalar>>)
    decreases |s|
  {
    if s == [] then Some([])
    else
      match Next(s)
      case None => None
      case Some((cp, n)) =>
        NextIsCanonical(s);
        match Decode(s[n..])
        case None => None
        case Some(cps) => Some([cp] + cps)
  }

  lemma {:induction false} DecodeEncodeAll(cps: seq<Scalar>)
    ensures Decode(EncodeAll(cps)) == Some(cps)
  {
    if cps == [] {
    } else {
      var e, rest := Encode(cps[0]), EncodeAll(cps[1..]);
      NextOfEncode(cps[0], rest);
      assert e + rest != [];
      hide Next;
      hide Encode;
      assert (e + rest)[|e|..] == rest;
      DecodeEncodeAll(cps[1..]);
      assert [cps[0]] + cps[1..] == cps;
    }
  }

  lemma {:induction false} EncodeAllDecode(s: seq<Byte>)
    requires Decode(s).Some?
    ensures EncodeAll(Decode(s).value) == s
    decreases |s|
  {
    hide Next;
    hide Encode;
    if s == [] {
    } else {
      var (cp, n) := Next(s).value;
      NextIsCanonical(s);
      var cps, rest := Decode(s).value, Decode(s[n..]).value;
      assert cps == [cp] + rest;
      assert cps[1..] == rest;
      EncodeAllDecode(s[n..]);
      assert EncodeAll(cps) == Encode(cp) + EncodeAll(rest);
      assert s == s[..n] + s[n..];
    }
  }

  lemma {:induction false} EncodeAllAppend(a: seq<Scalar>, b: seq<Scalar>)
    ensures EncodeAll(a + b) == EncodeAll(a) + EncodeAll(b)
    decreases |a|
  {
    hide Encode;
    if a == [] {
      assert a + b == b;
    } else {
      assert (a + b)[1..] == a[1..] + b;
      EncodeAllAppend(a[1..], b);
    }
  }

  /** utf8_check_string: accepts exactly the encodings of sequences of scalar values. */
  method Utf8CheckString(s: seq<Byte>) returns (ok: bool)
    ensures ok <==> Decode(s).Some?
    ensures ok <==> exists cps :: EncodeAll(cps) == s
  {
    ok := true;
    var i := 0;
    while i < |s| && ok
      invariant 0 <= i <= |s|
      invariant Decode(s).Some? <==> ok && Decode(s[i..]).Some?
      decreases |s| - i, ok
    {
      var count := CheckFirst(s[i]);
      assert s[i..][0] == s[i];
      if count == 0 {
        ok := false;
      } else if count > 1 {
        if i + count > |s| {
          ok := false;
        } else {
          assert s[i..][..count] == s[i..i + count] && s[i..][count..] == s[i + count..];
          var full := Utf8CheckFull(s[i..i + count]);
          if full.None? {
            ok := false;
          } else {
            i := i + count;
          }
        }
      } else {
        assert s[i..][1..] == s[i + 1..];
        i := i + 1;
      }
    }
    if ok {
      assert s[|s|..] == [];
      EncodeAllDecode(s);
    }
    forall cps | EncodeAll(cps) == s ensures Decode(s).Some? {
      DecodeEncodeAll(cps);
    }
  }
}
