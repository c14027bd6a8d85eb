/** UTF-16 (section 2 of RFC 2781): encoding, and the decoding that replaces unpaired surrogates. */
module Utf16 {

  type Unit = x: int | 0 <= x < 0x1_0000

  const REPLACEMENT: char := '\U{FFFD}'

  function EncodeChar(c: char): seq<Unit> {
    var n := c as int;
    if n < 0x1_0000 then [n]
    else [0xD800 + (n - 0x1_0000) / 0x400, 0xDC00 + (n - 0x1_0000) % 0x400]
  }

  function Encode(s: string): seq<Unit> {
    if s == "" then [] else EncodeChar(s[0]) + Encode(s[1..])
  }

  predicate High(u: Unit) { 0xD800 <= u < 0xDC00 }

  predicate Low(u: Unit) { 0xDC00 <= u < 0xE000 }

  function Pair(high: int, low: int): char
    requires 0xD800 <= high < 0xDC00 <= low < 0xE000
  {
    (0x1_0000 + (high - 0xD800) * 0x400 + (low - 0xDC00)) as char
  }

  function DecodeLossy(units: seq<Unit>): string {
    if units == [] then ""
    else if High(units[0]) && |units| >= 2 && Low(units[1]) then
      [Pair(units[0], units[1])] + DecodeLossy(units[2..])
    else if High(units[0]) || Low(units[0]) then [REPLACEMENT] + DecodeLossy(units[1..])
    else [units[0] as char] + DecodeLossy(units[1..])
  }

  /** A character of the basic plane is its own unit. Any other is a high and a low surrogate, which carry the upper and
      the lower ten bits of its distance from U+10000. */
  lemma UnitsOfChar(c: char)
    ensures (c as int) < 0x1_0000 ==> EncodeChar(c) == [c as int] && !(0xD800 <= EncodeChar(c)[0] < 0xE000)
    ensures (c as int) >= 0x1_0000 ==>
              && |EncodeChar(c)| == 2
              && 0xD800 <= EncodeChar(c)[0] < 0xDC00 <= EncodeChar(c)[1] < 0xE000
              && (c as int) == 0x1_0000 + (EncodeChar(c)[0] as int - 0xD800) * 1024 + (EncodeChar(c)[1] as int - 0xDC00)
  {
    var m := (c as int) - 0x1_0000;
    assert m >= 0 ==> m / 0x400 * 0x400 + m % 0x400 == m && m / 0x400 < 0x400;
  }

  /** The units of a text are those of its characters, one after another. */
  lemma {:induction false} EncodeConcat(a: string, b: string)
    ensures Encode(a + b) == Encode(a) + Encode(b)
  {
    if a == "" {
      assert a + b == b;
    } else {
      assert (a + b)[1..] == a[1..] + b;
      EncodeConcat(a[1..], b);
    }
  }

  lemma EncodeOne(c: char)
    ensures Encode([c]) == EncodeChar(c)
  {
    assert [c][1..] == "";
  }

  /** Every string survives, characters outside the basic plane included. */
  lemma {:induction false} DecodeOfEncode(s: string)
    ensures DecodeLossy(Encode(s)) == s
  {
    if s != "" {
      var n, rest := s[0] as int, Encode(s[1..]);
      DecodeOfEncode(s[1..]);
      if n < 0x1_0000 {
        assert Encode(s)[1..] == rest;
      } else {
        assert Encode(s)[2..] == rest;
        var m := n - 0x1_0000;
        assert m / 0x400 * 0x400 + m % 0x400 == m && m / 0x400 < 0x400;
      }
    }
  }

  /** Lossy decoding never changes the number of units, since the replacement character takes one. */
  lemma {:induction false} LossyKeepsLength(units: seq<Unit>)
    ensures |Encode(DecodeLossy(units))| == |units|
  {
    if units != [] {
      var decoded := DecodeLossy(units);
      if High(units[0]) && |units| >= 2 && Low(units[1]) {
        LossyKeepsLength(units[2..]);
        assert decoded[1..] == DecodeLossy(units[2..]);
      } else {
        LossyKeepsLength(units[1..]);
        assert decoded[1..] == DecodeLossy(units[1..]);
      }
    }
  }

  /** A surrogate without its other half. */
  predicate Unpaired(units: seq<Unit>, i: nat)
    requires i < |units|
  {
    || (0xD800 <= units[i] < 0xDC00 && !(i + 1 < |units| && 0xDC00 <= units[i + 1] < 0xE000))
    || (0xDC00 <= units[i] < 0xE000 && !(i > 0 && 0xD800 <= units[i - 1] < 0xDC00))
  }

  /** Whether a surrogate is paired does not depend on what stands before a whole character. */
  lemma UnpairedShift(units: seq<Unit>, taken: nat, i: nat)
    requires taken <= i < |units|
    requires taken == if High(units[0]) && |units| >= 2 && Low(units[1]) then 2 else 1
    ensures Unpaired(units[taken..], i - taken) <==> Unpaired(units, i)
  {
    assert units[taken..][i - taken] == units[i];
    assert i > taken ==> units[taken..][i - taken - 1] == units[i - 1];
    assert i + 1 < |units| ==> units[taken..][i - taken + 1] == units[i + 1];
  }

  /** Lossy decoding keeps every unit but the unpaired surrogates, each of which becomes U+FFFD. */
  lemma {:induction false} LossyReplacesUnpaired(units: seq<Unit>)
    ensures |Encode(DecodeLossy(units))| == |units|
    ensures forall i | 0 <= i < |units| ::
              Encode(DecodeLossy(units))[i] == if Unpaired(units, i) then 0xFFFD else units[i]
  {
    hide Encode, DecodeLossy;
    if units == [] {
      NothingLost();
    } else {
      var taken := if High(units[0]) && |units| >= 2 && Low(units[1]) then 2 else 1;
      var rest := Encode(DecodeLossy(units[taken..]));
      LossyReplacesUnpaired(units[taken..]);
      LossyFirst(units, taken);
      forall i | taken <= i < |units| ensures rest[i - taken] == if Unpaired(units, i) then 0xFFFD else units[i] {
        UnpairedShift(units, taken, i);
        assert units[taken..][i - taken] == units[i];
      }
    }
  }

  lemma EncodeCons(c: char, s: string)
    ensures Encode([c] + s) == EncodeChar(c) + Encode(s)
  {
    assert ([c] + s)[1..] == s;
  }

  lemma NothingLost()
    ensures Encode(DecodeLossy([])) == []
  {
  }

  function FirstLossy(units: seq<Unit>): char
    requires units != []
  {
    if High(units[0]) && |units| >= 2 && Low(units[1]) then Pair(units[0], units[1])
    else if High(units[0]) || Low(units[0]) then REPLACEMENT
    else units[0] as char
  }

  lemma DecodesFirst(units: seq<Unit>, taken: nat)
    requires units != [] && taken == if High(units[0]) && |units| >= 2 && Low(units[1]) then 2 else 1
    ensures DecodeLossy(units) == [FirstLossy(units)] + DecodeLossy(units[taken..])
  {
  }

  lemma FirstEncodes(units: seq<Unit>)
    requires units != []
    ensures EncodeChar(FirstLossy(units)) == if High(units[0]) && |units| >= 2 && Low(units[1]) then [units[0], units[1]]
                                             else if Unpaired(units, 0) then [0xFFFD] else [units[0]]
  {
    hide Pair, EncodeChar;
    if High(units[0]) && |units| >= 2 && Low(units[1]) {
      PairEncodes(units[0], units[1]);
    } else {
      UnitsOfChar(FirstLossy(units));
    }
  }

  /** The units of what is decoded first. */
  lemma LossyFirst(units: seq<Unit>, taken: nat)
    requires units != [] && taken == if High(units[0]) && |units| >= 2 && Low(units[1]) then 2 else 1
    ensures Encode(DecodeLossy(units))
            == (if taken == 2 then [units[0], units[1]] else if Unpaired(units, 0) then [0xFFFD] else [units[0]])
               + Encode(DecodeLossy(units[taken..]))
  {
    hide Encode, DecodeLossy, EncodeChar, FirstLossy, Unpaired;
    DecodesFirst(units, taken);
    FirstEncodes(units);
    EncodeCons(FirstLossy(units), DecodeLossy(units[taken..]));
  }

  lemma PairEncodes(high: Unit, low: Unit)
    requires High(high) && Low(low)
    ensures EncodeChar(Pair(high, low)) == [high, low]
  {
    var m := (high - 0xD800) * 0x400 + (low - 0xDC00);
    assert m / 0x400 == high - 0xD800 && m % 0x400 == low - 0xDC00;
  }

  /** `s.replace(from, to)` for single characters. */
  function Replace(s: string, from: char, to: char): string {
    seq(|s|, i requires 0 <= i < |s| => if s[i] == from then to else s[i])
  }

  lemma {:induction false} ReplaceKeepsLength(s: string, from: char, to: char)
    requires from as int < 0x1_0000 && to as int < 0x1_0000
    ensures |Encode(Replace(s, from, to))| == |Encode(s)|
  {
    if s != "" {
      ReplaceKeepsLength(s[1..], from, to);
      assert Replace(s, from, to)[1..] == Replace(s[1..], from, to);
    }
  }

  /** Turning one separator into the other and back leaves only the second kind. */
  lemma ReplaceBack(s: string, a: char, b: char)
    ensures Replace(Replace(s, a, b), b, a) == Replace(s, b, a)
  {
  }

  /** Replacing touches exactly the occurrences of the one character: none is left, and every other stays in its place. */
  lemma ReplaceReplaces(s: string, from: char, to: char)
    ensures |Replace(s, from, to)| == |s|
    ensures forall i | 0 <= i < |s| && s[i] == from :: Replace(s, from, to)[i] == to
    ensures forall i | 0 <= i < |s| && s[i] != from :: Replace(s, from, to)[i] == s[i]
    ensures from != to ==> from !in Replace(s, from, to)
  {
  }

  /** A basic character stands in the units exactly if it stands in the text. */
  lemma {:induction false} UnitOfChar(s: string, c: char)
    requires (c as int) < 0x1_0000
    ensures (c as int) in Encode(s) <==> c in s
  {
    if s != "" {
      UnitsOfChar(s[0]);
      UnitOfChar(s[1..], c);
      assert s == [s[0]] + s[1..];
      assert (c as int) in EncodeChar(s[0]) <==> c == s[0];
    }
  }
}
