/** AFC payloads (src/afc.rs): text as UTF-8 (RFC 3629), lists and dictionaries of zero-terminated strings. */
module Payload {
  import opened Wrappers
  import opened Splitting
  import opened Paths

  type Byte = x: int | 0 <= x < 256

  const REPLACEMENT: char := '\U{FFFD}'

  // ----- UTF-8 -----

  function EncodeChar(c: char): seq<Byte> {
    var n := c as int;
    if n < 0x80 then [n]
    else if n < 0x800 then [0xC0 + n / 0x40, 0x80 + n % 0x40]
    else if n < 0x1_0000 then [0xE0 + n / 0x1000, 0x80 + n / 0x40 % 0x40, 0x80 + n % 0x40]
    else [0xF0 + n / 0x4_0000, 0x80 + n / 0x1000 % 0x40, 0x80 + n / 0x40 % 0x40, 0x80 + n % 0x40]
  }

  function Utf8(s: string): seq<Byte> {
    if s == "" then [] else EncodeChar(s[0]) + Utf8(s[1..])
  }

  predicate Continues(bytes: seq<Byte>, at: nat) {
    at < |bytes| && 0x80 <= bytes[at] < 0xC0
  }

  /** The second byte of a three-byte form: no overlong forms and no surrogates. */
  predicate SecondOfThree(lead: Byte, bytes: seq<Byte>) {
    && Continues(bytes, 1)
    && (lead == 0xE0 ==> bytes[1] >= 0xA0)
    && (lead == 0xED ==> bytes[1] < 0xA0)
  }

  /** The second byte of a four-byte form: no overlong forms and nothing past U+10FFFF. */
  predicate SecondOfFour(lead: Byte, bytes: seq<Byte>) {
    && Continues(bytes, 1)
    && (lead == 0xF0 ==> bytes[1] >= 0x90)
    && (lead == 0xF4 ==> bytes[1] < 0x90)
  }

  datatype Decoded = Decoded(c: char, length: nat)

  function Tail(b: int): int { b - 0x80 }

  /** The first character, or the replacement character for the longest prefix that cannot begin one. */
  function DecodeFirst(bytes: seq<Byte>): (d: Decoded)
    requires bytes != []
    ensures 1 <= d.length <= |bytes|
  {
    var lead := bytes[0] as int;
    if lead < 0x80 then Decoded(lead as char, 1)
    else if 0xC2 <= lead < 0xE0 then
      if Continues(bytes, 1) then Decoded(((lead - 0xC0) * 0x40 + Tail(bytes[1])) as char, 2)
      else Decoded(REPLACEMENT, 1)
    else if 0xE0 <= lead < 0xF0 then
      if !SecondOfThree(lead, bytes) then Decoded(REPLACEMENT, 1)
      else if !Continues(bytes, 2) then Decoded(REPLACEMENT, 2)
      else Decoded(((lead - 0xE0) * 0x1000 + Tail(bytes[1]) * 0x40 + Tail(bytes[2])) as char, 3)
    else if 0xF0 <= lead < 0xF5 then
      if !SecondOfFour(lead, bytes) then Decoded(REPLACEMENT, 1)
      else if !Continues(bytes, 2) then Decoded(REPLACEMENT, 2)
      else if !Continues(bytes, 3) then Decoded(REPLACEMENT, 3)
      else Decoded(((lead - 0xF0) * 0x4_0000 + Tail(bytes[1]) * 0x1000 + Tail(bytes[2]) * 0x40 + Tail(bytes[3])) as char, 4)
    else Decoded(REPLACEMENT, 1)
  }

  /** from_utf8_lossy */
  function DecodeLossy(bytes: seq<Byte>): string
    decreases |bytes|
  {
    if bytes == [] then ""
    else
      var d := DecodeFirst(bytes);
      [d.c] + DecodeLossy(bytes[d.length..])
  }

  /** The bits of a character and the bytes they are spread over. */
  predicate IsUtf8Form(n: int, bytes: seq<Byte>) {
    || (|bytes| == 1 && n < 0x80 && bytes[0] == n)
    || (|bytes| == 2 && 0x80 <= n < 0x800 && 0xC0 <= bytes[0] < 0xE0
        && n == (bytes[0] as int - 192) * 64 + (bytes[1] as int - 128))
    || (|bytes| == 3 && 0x800 <= n < 0x1_0000 && 0xE0 <= bytes[0] < 0xF0
        && n == (bytes[0] as int - 224) * 4096 + (bytes[1] as int - 128) * 64 + (bytes[2] as int - 128))
    || (|bytes| == 4 && 0x1_0000 <= n < 0x11_0000 && 0xF0 <= bytes[0] < 0xF8
        && n == (bytes[0] as int - 240) * 262144 + (bytes[1] as int - 128) * 4096 + (bytes[2] as int - 128) * 64 + (bytes[3] as int - 128))
  }

  /** The encoding of a character has the length its code point needs, a lead byte of that length, and continuation bytes
      that carry six bits each. */
  lemma BytesOfChar(c: char)
    ensures IsUtf8Form(c as int, EncodeChar(c))
    ensures forall i | 1 <= i < |EncodeChar(c)| :: 0x80 <= EncodeChar(c)[i] < 0xC0
  {
    var n := c as int;
    if 0x800 <= n < 0x1_0000 {
      ThreeByteForm(n);
    } else if n >= 0x1_0000 {
      FourByteForm(n);
    }
  }

  /** The bytes of a text are those of its characters, one after another. */
  lemma {:induction false} Utf8Concat(a: string, b: string)
    ensures Utf8(a + b) == Utf8(a) + Utf8(b)
  {
    if a == "" {
      assert a + b == b;
    } else {
      assert (a + b)[1..] == a[1..] + b;
      Utf8Concat(a[1..], b);
    }
  }

  lemma Utf8One(c: char)
    ensures Utf8([c]) == EncodeChar(c)
  {
    assert [c][1..] == "";
  }

  lemma ThreeByteForm(n: int)
    requires 0x800 <= n < 0x1_0000 && !(0xD800 <= n < 0xE000)
    ensures var lead, second, third := n / 0x1000, n / 0x40 % 0x40, n % 0x40;
            && lead * 0x1000 + second * 0x40 + third == n && 0 <= lead < 0x10
            && (lead == 0 ==> second >= 0x20) && (lead == 0xD ==> second < 0x20)
  {
  }

  lemma FourByteForm(n: int)
    requires 0x1_0000 <= n < 0x11_0000
    ensures var lead, second, third, fourth := n / 0x4_0000, n / 0x1000 % 0x40, n / 0x40 % 0x40, n % 0x40;
            && lead * 0x4_0000 + second * 0x1000 + third * 0x40 + fourth == n && 0 <= lead < 5
            && (lead == 0 ==> second >= 0x10) && (lead == 4 ==> second < 0x10)
  {
  }

  lemma DecodeFirstOfEncode(c: char, rest: seq<Byte>)
    ensures DecodeFirst(EncodeChar(c) + rest) == Decoded(c, |EncodeChar(c)|)
  {
    var n := c as int;
    var bytes := EncodeChar(c) + rest;
    if n < 0x80 {
      assert bytes[0] == n;
    } else if n < 0x800 {
      assert bytes[0] == 0xC0 + n / 0x40 && bytes[1] == 0x80 + n % 0x40;
    } else if n < 0x1_0000 {
      ThreeByteForm(n);
      assert bytes[0] == 0xE0 + n / 0x1000 && bytes[1] == 0x80 + n / 0x40 % 0x40 && bytes[2] == 0x80 + n % 0x40;
    } else {
      FourByteForm(n);
      assert bytes[0] == 0xF0 + n / 0x4_0000 && bytes[1] == 0x80 + n / 0x1000 % 0x40;
      assert bytes[2] == 0x80 + n / 0x40 % 0x40 && bytes[3] == 0x80 + n % 0x40;
    }
  }

  lemma OnlyPairsDecode(bytes: seq<Byte>)
    requires |bytes| >= 2 && 0xC2 <= bytes[0] < 0xE0 && Continues(bytes, 1)
    ensures EncodeChar(DecodeFirst(bytes).c) == [bytes[0], bytes[1]]
  {
  }

  lemma OnlyTriplesDecode(bytes: seq<Byte>)
    requires |bytes| >= 3 && 0xE0 <= bytes[0] < 0xF0 && SecondOfThree(bytes[0], bytes) && Continues(bytes, 2)
    ensures EncodeChar(DecodeFirst(bytes).c) == [bytes[0], bytes[1], bytes[2]]
  {
    SumOfThree(bytes[0] as int - 0xE0, bytes[1] as int - 0x80, bytes[2] as int - 0x80);
  }

  lemma OnlyFoursDecode(bytes: seq<Byte>)
    requires |bytes| >= 4 && 0xF0 <= bytes[0] < 0xF5 && SecondOfFour(bytes[0], bytes)
    requires Continues(bytes, 2) && Continues(bytes, 3)
    ensures EncodeChar(DecodeFirst(bytes).c) == [bytes[0], bytes[1], bytes[2], bytes[3]]
  {
    SumOfFour(bytes[0] as int - 0xF0, bytes[1] as int - 0x80, bytes[2] as int - 0x80, bytes[3] as int - 0x80);
  }

  /** Nothing but the encoding of a character decodes to it: overlong forms, surrogates, code points past U+10FFFF and
      forms cut short all give the replacement character. */
  lemma OnlyEncodingsDecode(bytes: seq<Byte>)
    requires bytes != []
    ensures DecodeFirst(bytes).c != '\U{FFFD}' ==> bytes[..DecodeFirst(bytes).length] == EncodeChar(DecodeFirst(bytes).c)
  {
    var d := DecodeFirst(bytes);
    if d.c != REPLACEMENT && d.length == 1 {
      assert bytes[..1] == [bytes[0]];
    } else if d.c != REPLACEMENT {
      hide EncodeChar;
      if d.length == 2 {
        OnlyPairsDecode(bytes);
        assert bytes[..2] == [bytes[0], bytes[1]];
      } else if d.length == 3 {
        OnlyTriplesDecode(bytes);
        assert bytes[..3] == [bytes[0], bytes[1], bytes[2]];
      } else {
        OnlyFoursDecode(bytes);
        assert bytes[..4] == [bytes[0], bytes[1], bytes[2], bytes[3]];
      }
    }
  }

  /** Bytes that do not begin with a character are replaced by the longest beginning of one, or by a single byte. */
  lemma ReplacesLongestBeginning(bytes: seq<Byte>)
    requires bytes != [] && forall c :: !(EncodeChar(c) <= bytes)
    ensures var d := DecodeFirst(bytes);
            && d.c == '\U{FFFD}'
            && (d.length == 1 || exists c :: bytes[..d.length] <= EncodeChar(c))
            && (d.length < |bytes| ==> forall c :: !(bytes[..d.length + 1] <= EncodeChar(c)))
  {
    hide EncodeChar;
    var d := DecodeFirst(bytes);
    if d.c != REPLACEMENT {
      OnlyEncodingsDecode(bytes);
    } else if d.length < |bytes| {
      forall c ensures !(bytes[..d.length + 1] <= EncodeChar(c)) {
        NotFurther(bytes, c);
      }
    }
    if d.length > 1 {
      BeginsSome(bytes);
    }
  }

  lemma NotFurther(bytes: seq<Byte>, c: char)
    requires bytes != [] && DecodeFirst(bytes).c == REPLACEMENT && DecodeFirst(bytes).length < |bytes|
    requires !(EncodeChar(c) <= bytes)
    ensures !(bytes[..DecodeFirst(bytes).length + 1] <= EncodeChar(c))
  {
    hide EncodeChar;
    var d, e := DecodeFirst(bytes), EncodeChar(c);
    DecodeFirstOfEncode(c, []);
    assert e + [] == e;
    BytesOfChar(c);
    assert forall i | 0 <= i <= d.length :: bytes[..d.length + 1][i] == bytes[i];
  }

  lemma BeginsSome(bytes: seq<Byte>)
    requires bytes != [] && DecodeFirst(bytes).c == REPLACEMENT && DecodeFirst(bytes).length > 1
    requires !(EncodeChar(REPLACEMENT) <= bytes)
    ensures exists c :: bytes[..DecodeFirst(bytes).length] <= EncodeChar(c)
  {
    hide EncodeChar;
    var d := DecodeFirst(bytes);
    if 0xE0 <= bytes[0] < 0xF0 && !(SecondOfThree(bytes[0], bytes) && Continues(bytes, 2)) {
      var filled: seq<Byte> := [bytes[0], bytes[1], 0x80];
      OnlyTriplesDecode(filled);
      assert bytes[..d.length] <= EncodeChar(DecodeFirst(filled).c);
    } else if 0xF0 <= bytes[0] {
      var filled: seq<Byte> := [bytes[0], bytes[1], if d.length == 3 then bytes[2] else 0x80, 0x80];
      OnlyFoursDecode(filled);
      assert bytes[..d.length] <= EncodeChar(DecodeFirst(filled).c);
    } else {
      WholeIsEncoding(bytes);
    }
  }

  lemma WholeIsEncoding(bytes: seq<Byte>)
    requires bytes != [] && DecodeFirst(bytes).length > 1 && bytes[0] < 0xF0
    requires 0xE0 <= bytes[0] ==> SecondOfThree(bytes[0], bytes) && Continues(bytes, 2)
    ensures bytes[..DecodeFirst(bytes).length] == EncodeChar(DecodeFirst(bytes).c)
  {
    hide EncodeChar;
    if bytes[0] < 0xE0 {
      OnlyPairsDecode(bytes);
      assert bytes[..2] == [bytes[0], bytes[1]];
    } else {
      OnlyTriplesDecode(bytes);
      assert bytes[..3] == [bytes[0], bytes[1], bytes[2]];
    }
  }

  lemma SumOfThree(a: int, b: int, c: int)
    requires 0 <= a && 0 <= b < 0x40 && 0 <= c < 0x40
    ensures var n := a * 0x1000 + b * 0x40 + c; n / 0x1000 == a && n / 0x40 % 0x40 == b && n % 0x40 == c
  {
    var n := a * 0x1000 + b * 0x40 + c;
    assert n / 0x40 == a * 0x40 + b && n % 0x40 == c;
    assert n / 0x1000 == n / 0x40 / 0x40;
  }

  lemma SumOfFour(a: int, b: int, c: int, d: int)
    requires 0 <= a && 0 <= b < 0x40 && 0 <= c < 0x40 && 0 <= d < 0x40
    ensures var n := a * 0x4_0000 + b * 0x1000 + c * 0x40 + d;
            n / 0x4_0000 == a && n / 0x1000 % 0x40 == b && n / 0x40 % 0x40 == c && n % 0x40 == d
  {
    var n := a * 0x4_0000 + b * 0x1000 + c * 0x40 + d;
    SumOfThree(a, b, c);
    assert n / 0x40 == a * 0x1000 + b * 0x40 + c;
    assert n / 0x1000 == n / 0x40 / 0x40 && n / 0x4_0000 == n / 0x40 / 0x1000;
  }

  /** Valid text survives lossy decoding. */
  lemma {:induction false} DecodeOfUtf8(s: string)
    ensures DecodeLossy(Utf8(s)) == s
  {
    if s != "" {
      var rest := Utf8(s[1..]);
      DecodeFirstOfEncode(s[0], rest);
      assert Utf8(s)[|EncodeChar(s[0])|..] == rest;
      DecodeOfUtf8(s[1..]);
    }
  }

  /** The zero byte encodes only the zero character. */
  lemma {:induction false} ZeroFree(s: string)
    ensures 0 in Utf8(s) <==> '\0' in s
  {
    if s != "" {
      ZeroFree(s[1..]);
      assert 0 in EncodeChar(s[0]) <==> s[0] == '\0';
      assert s == [s[0]] + s[1..];
    }
  }

  lemma Utf8NonEmpty(s: string)
    ensures Utf8(s) == [] <==> s == ""
  {
  }

  // ----- Lists -----

  /** `nul` */
  function Nul(value: string): seq<Byte> { Utf8(value) + [0] }

  function Terminated(values: seq<string>): seq<Byte> {
    if values == [] then [] else Nul(values[0]) + Terminated(values[1..])
  }

  function DecodeAll(items: seq<seq<Byte>>): seq<string> {
    seq(|items|, i requires 0 <= i < |items| => DecodeLossy(items[i]))
  }

  /** `strings` */
  function Strings(bytes: seq<Byte>): seq<string> {
    DecodeAll(Pieces(bytes, 0))
  }

  /** Text that can be sent as one string: not empty and without the zero character. */
  predicate Sendable(value: string) { Solid(value, '\0') }

  predicate AllSendable(values: seq<string>) { forall i | 0 <= i < |values| :: Sendable(values[i]) }

  lemma StringsAtNul(value: string, rest: seq<Byte>)
    requires Sendable(value)
    ensures Strings(Nul(value) + rest) == [value] + Strings(rest)
  {
    ZeroFree(value);
    Utf8NonEmpty(value);
    DecodeOfUtf8(value);
    PiecesAtSeparator(Utf8(value), 0, rest);
    PiecesOfSolid(Utf8(value), 0);
    assert Nul(value) + rest == Utf8(value) + [0] + rest;
  }

  /** A list of sendable strings comes back from its terminated encodings. */
  lemma {:induction false} StringsOfTerminated(values: seq<string>)
    requires AllSendable(values)
    ensures Strings(Terminated(values)) == values
  {
    if values == [] {
      assert NonEmpty<Byte>([[]]) == NonEmpty<Byte>([[]][1..]);
      assert Pieces<Byte>([], 0) == [];
    } else {
      StringsAtNul(values[0], Terminated(values[1..]));
      StringsOfTerminated(values[1..]);
      assert values == [values[0]] + values[1..];
    }
  }

  function Zeros(bytes: seq<Byte>): nat {
    if bytes == [] then 0 else Zeros(bytes[..|bytes| - 1]) + if bytes[|bytes| - 1] == 0 then 1 else 0
  }

  lemma {:induction false} ZerosConcat(a: seq<Byte>, b: seq<Byte>)
    ensures Zeros(a + b) == Zeros(a) + Zeros(b)
    decreases |b|
  {
    if b == [] {
      assert a + b == a;
    } else {
      assert (a + b)[..|a + b| - 1] == a + b[..|b| - 1];
      ZerosConcat(a, b[..|b| - 1]);
    }
  }

  lemma {:induction false} NoZeros(bytes: seq<Byte>)
    requires 0 !in bytes
    ensures Zeros(bytes) == 0
  {
    if bytes != [] {
      NoZeros(bytes[..|bytes| - 1]);
    }
  }

  /** A payload of sendable strings has one zero byte for each, the last of them at its end,
      and is no longer than the strings and those zeros. */
  lemma {:induction false} ZerosTerminate(values: seq<string>)
    requires AllSendable(values)
    ensures Zeros(Terminated(values)) == |values|
    ensures values != [] ==> Terminated(values) != [] && Terminated(values)[|Terminated(values)| - 1] == 0
    ensures values != [] ==> Utf8(values[0]) + [0] <= Terminated(values)
  {
    if values != [] {
      ZerosTerminate(values[1..]);
      assert Sendable(values[0]);
      ZeroFree(values[0]);
      NoZeros(Utf8(values[0]));
      ZerosConcat(Utf8(values[0]), [0]);
      ZerosConcat(Nul(values[0]), Terminated(values[1..]));
      assert [0][..0] == [] && Zeros([0]) == 1;
    }
  }

  /** The payload of a rename: both paths under the mount root. */
  function RenamePayload(root: string, from: string, to: string): seq<Byte> {
    Nul(DevicePath(root, from)) + Nul(DevicePath(root, to))
  }

  /** It decodes to exactly the two device paths, and determines the two mount paths. */
  lemma RenamePayloadDecodes(root: string, from: string, to: string)
    requires Canonical(root) && Canonical(from) && Canonical(to)
    requires '\0' !in root && '\0' !in from && '\0' !in to
    ensures Strings(RenamePayload(root, from, to)) == [DevicePath(root, from), DevicePath(root, to)]
  {
    DevicePathSendable(root, from);
    DevicePathSendable(root, to);
    StringsAtNul(DevicePath(root, from), Nul(DevicePath(root, to)));
    assert Nul(DevicePath(root, to)) == Nul(DevicePath(root, to)) + [];
    StringsAtNul(DevicePath(root, to), []);
    StringsOfTerminated([]);
  }

  lemma RenamePayloadInjective(root: string, from: string, to: string, from': string, to': string)
    requires Canonical(root) && Canonical(from) && Canonical(to) && Canonical(from') && Canonical(to')
    requires '\0' !in root && '\0' !in from && '\0' !in to && '\0' !in from' && '\0' !in to'
    requires RenamePayload(root, from, to) == RenamePayload(root, from', to')
    ensures from == from' && to == to'
  {
    RenamePayloadDecodes(root, from, to);
    RenamePayloadDecodes(root, from', to');
    var a, b := Strings(RenamePayload(root, from, to)), Strings(RenamePayload(root, from', to'));
    assert a[0] == b[0] && a[1] == b[1];
    DevicePathInjective(root, from, from');
    DevicePathInjective(root, to, to');
  }

  lemma DevicePathSendable(root: string, path: string)
    requires Canonical(root) && Canonical(path) && '\0' !in root && '\0' !in path
    ensures Sendable(DevicePath(root, path))
  {
    DevicePathPrepends(root, path);
    if root != "/" {
      TrimCanonical(root);
    }
  }

  // ----- Dictionaries -----

  datatype Error = Malformed

  /** Pairs collected from the front: a later binding replaces an earlier one. */
  function Collect(values: seq<string>): (m: map<string, string>)
    requires |values| % 2 == 0
    decreases |values|
  {
    if values == [] then map[]
    else Collect(values[..|values| - 2])[values[|values| - 2] := values[|values| - 1]]
  }

  /** `dictionary` */
  function Dictionary(bytes: seq<Byte>): Result<map<string, string>, Error> {
    var values := Strings(bytes);
    if |values| % 2 != 0 then Err(Malformed) else Ok(Collect(values))
  }

  /** The k-th pair binds this key. */
  predicate Binds(values: seq<string>, k: nat, key: string) {
    2 * k + 1 < |values| && values[2 * k] == key
  }

  /** The k-th pair is the last one with its key. */
  ghost predicate LastBinding(values: seq<string>, k: nat, key: string) {
    Binds(values, k, key) && forall j: nat | k < j :: !Binds(values, j, key)
  }

  /** The map binds each key that stands first in a pair to the value of the last such pair, and nothing else. */
  lemma {:induction false} CollectIsLastWins(values: seq<string>)
    requires |values| % 2 == 0
    ensures forall k: nat, key | Binds(values, k, key) :: key in Collect(values)
    ensures forall k: nat, key | LastBinding(values, k, key) :: key in Collect(values) && Collect(values)[key] == values[2 * k + 1]
    ensures forall key | key in Collect(values) :: exists k: nat :: Binds(values, k, key)
    decreases |values|
  {
    if values != [] {
      var init, last := values[..|values| - 2], |values| / 2 - 1;
      CollectIsLastWins(init);
      assert Binds(values, last, values[2 * last]);
      assert forall k: nat, key :: Binds(values, k, key) <==> Binds(init, k, key) || (k == last && key == values[2 * last]);
      forall k: nat, key | LastBinding(values, k, key)
        ensures key in Collect(values) && Collect(values)[key] == values[2 * k + 1]
      {
        if k != last {
          assert LastBinding(init, k, key);
        }
      }
    }
  }

  /** A serialisation of a map: every key once, in any order, each followed by its value. */
  ghost predicate Serialises(values: seq<string>, m: map<string, string>) {
    && |values| == 2 * |m|
    && (forall k: nat, key | Binds(values, k, key) :: key in m && values[2 * k + 1] == m[key])
    && BindsOnce(values)
  }

  ghost predicate BindsOnce(values: seq<string>) {
    forall j: nat, k: nat, key | Binds(values, j, key) && Binds(values, k, key) :: j == k
  }

  /** Every map has one. */
  lemma {:induction false} SomeSerialisation(m: map<string, string>) returns (values: seq<string>)
    ensures Serialises(values, m)
    decreases |m|
  {
    if m == map[] {
      values := [];
    } else {
      var key :| key in m;
      var rest := m - {key};
      assert m == rest[key := m[key]];
      var init := SomeSerialisation(rest);
      values := init + [key, m[key]];
      assert forall k: nat, other :: Binds(values, k, other) ==>
               if k < |rest| then Binds(init, k, other) && values[2 * k + 1] == init[2 * k + 1] else k == |rest| && other == key;
    }
  }

  lemma {:induction false} KeysCounted(values: seq<string>)
    requires |values| % 2 == 0 && BindsOnce(values)
    ensures |Collect(values)| == |values| / 2
    decreases |values|
  {
    if values != [] {
      var init, last := values[..|values| - 2], |values| / 2 - 1;
      assert forall k: nat, key :: Binds(init, k, key) ==> Binds(values, k, key) && k != last;
      KeysCounted(init);
      CollectIsLastWins(init);
      assert Binds(values, last, values[2 * last]);
      assert values[2 * last] !in Collect(init);
    }
  }

  lemma SubsetOfSameSize<T>(a: set<T>, b: set<T>)
    requires a <= b && |a| == |b|
    ensures a == b
  {
    assert |b - a| == |b| - |a|;
  }

  lemma CollectedAgrees(m: map<string, string>, values: seq<string>)
    requires Serialises(values, m)
    ensures forall key | key in Collect(values) :: key in m && Collect(values)[key] == m[key]
  {
    CollectIsLastWins(values);
    forall key | key in Collect(values) ensures key in m && Collect(values)[key] == m[key] {
      var k: nat :| Binds(values, k, key);
      assert LastBinding(values, k, key);
    }
  }

  /** Decoding inverts every serialisation of a map with sendable keys and values. */
  lemma DictionaryInverts(m: map<string, string>, values: seq<string>)
    requires Serialises(values, m) && AllSendable(values)
    ensures Dictionary(Terminated(values)) == Ok(m)
  {
    hide AllSendable, Collect, BindsOnce, Strings, Terminated;
    StringsOfTerminated(values);
    KeysCounted(values);
    CollectedAgrees(m, values);
    var decoded := Collect(values);
    assert |decoded.Keys| == |m.Keys|;
    SubsetOfSameSize(decoded.Keys, m.Keys);
    assert decoded == m;
  }

  /** Decoding fails exactly on an odd number of strings, and otherwise the last binding of a key wins. */
  lemma DictionaryMeaning(bytes: seq<Byte>)
    ensures var values := Strings(bytes);
            && (Dictionary(bytes).Ok? <==> |values| % 2 == 0)
            && (Dictionary(bytes).Ok? ==> forall k: nat, key | LastBinding(values, k, key) ::
                  key in Dictionary(bytes).value && Dictionary(bytes).value[key] == values[2 * k + 1])
            && (Dictionary(bytes).Ok? ==> forall key | key in Dictionary(bytes).value :: exists k: nat :: Binds(values, k, key))
  {
    if |Strings(bytes)| % 2 == 0 {
      CollectIsLastWins(Strings(bytes));
    }
  }

  /** `take`: the value is returned once and the key is gone. */
  method Take(values: map<string, string>, key: string) returns (reply: Option<string>, rest: map<string, string>)
    ensures reply.Some? <==> key in values
    ensures reply.Some? ==> reply.value == values[key] && rest[key := reply.value] == values
    ensures key !in rest && forall k | k in values && k != key :: k in rest && rest[k] == values[k]
  {
    rest := values - {key};
    reply := if key in values then Some(values[key]) else None;
    assert key in values ==> rest[key := values[key]] == values;
  }
}
