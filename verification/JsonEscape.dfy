/** Writing a scriptlet argument as a JSON string, byte by byte over its UTF-8 form. */
module JsonEscape {
  import opened Prelude

  type byte = n: int | 0 <= n < 0x100

  const QUOTE: byte := 0x22
  const BACKSLASH: byte := 0x5C
  const LETTER_U: byte := 0x75

  /** The look-up table: what follows the backslash, or 0 for a byte that stays as it is. */
  function Escaped(b: byte): byte {
    if b == 0x08 then 0x62
    else if b == 0x09 then 0x74
    else if b == 0x0A then 0x6E
    else if b == 0x0C then 0x66
    else if b == 0x0D then 0x72
    else if b < 0x20 then LETTER_U
    else if b == QUOTE then QUOTE
    else if b == BACKSLASH then BACKSLASH
    else 0
  }

  /** A digit of the lower-case hexadecimal format. */
  function HexDigit(n: nat): byte
    requires n < 16
  {
    if n < 10 then 0x30 + n else 0x61 + n - 10
  }

  function FourHexDigits(b: byte): seq<byte> {
    [0x30, 0x30, HexDigit(b / 16), HexDigit(b % 16)]
  }

  // ----- the escaper -----

  /** Byte-by-byte escaping. */
  function EscapeByte(b: byte): seq<byte> {
    if Escaped(b) == 0 then [b]
    else [BACKSLASH, Escaped(b)] + (if Escaped(b) == LETTER_U then FourHexDigits(b) else [])
  }

  /**
   * Seven bytes have an escape of two characters, all other control bytes one of six with lower-case
   * digits, and no other byte is escaped.
   */
  lemma EscapeForm(b: byte)
    ensures var e, short := EscapeByte(b), b in {0x08, 0x09, 0x0A, 0x0C, 0x0D, QUOTE, BACKSLASH};
            if short then |e| == 2 && e[0] == BACKSLASH
            else if b < 0x20 then
              |e| == 6 && e[..2] == [BACKSLASH, LETTER_U]
              && forall i :: 2 <= i < 6 ==> 0x30 <= e[i] <= 0x39 || 0x61 <= e[i] <= 0x66
            else e == [b]
  {
  }

  function EscapeBytes(s: seq<byte>): seq<byte> {
    if s == [] then [] else EscapeByte(s[0]) + EscapeBytes(s[1..])
  }

  lemma {:induction false} EscapeConcat(a: seq<byte>, b: seq<byte>)
    ensures EscapeBytes(a + b) == EscapeBytes(a) + EscapeBytes(b)
  {
    if a == [] {
      assert a + b == b;
    } else {
      assert (a + b)[1..] == a[1..] + b;
      EscapeConcat(a[1..], b);
    }
  }

  lemma {:induction false} PlainStays(s: seq<byte>)
    requires forall i :: 0 <= i < |s| ==> Escaped(s[i]) == 0
    ensures EscapeBytes(s) == s
  {
    if s != [] {
      PlainStays(s[1..]);
    }
  }

  /** The text up to `index`, of which the last stretch is plain, and one more byte. */
  lemma EscapeStep(s: seq<byte>, start: nat, index: nat)
    requires start <= index < |s|
    requires forall i :: start <= i < index ==> Escaped(s[i]) == 0
    ensures EscapeBytes(s[..index + 1]) == EscapeBytes(s[..start]) + s[start..index] + EscapeByte(s[index])
  {
    assert s[..index] == s[..start] + s[start..index];
    assert s[..index + 1] == s[..index] + [s[index]];
    EscapeConcat(s[..start], s[start..index]);
    EscapeConcat(s[..index], [s[index]]);
    PlainStays(s[start..index]);
    assert EscapeBytes([s[index]]) == EscapeByte(s[index]) + EscapeBytes([]);
  }

  /** What one round of the loop writes, in the order in which it does. */
  lemma WritesOneByte(written: seq<byte>, s: seq<byte>, start: nat, index: nat)
    requires start <= index < |s|
    requires forall i :: start <= i < index ==> Escaped(s[i]) == 0
    requires Escaped(s[index]) != 0
    ensures var output := written + EscapeBytes(s[..start]) + s[start..index] + [BACKSLASH, Escaped(s[index])];
            written + EscapeBytes(s[..index + 1])
            == if Escaped(s[index]) == LETTER_U then output + FourHexDigits(s[index]) else output
  {
    EscapeStep(s, start, index);
    var front, plain := EscapeBytes(s[..start]), s[start..index];
    var escape, hex := [BACKSLASH, Escaped(s[index])], FourHexDigits(s[index]);
    assert ((written + front) + plain) + escape == written + (front + plain + escape);
    assert (((written + front) + plain) + escape) + hex == written + (front + plain + (escape + hex));
    assert escape + [] == escape;
  }

  lemma WritesTheRest(written: seq<byte>, s: seq<byte>, start: nat)
    requires start <= |s|
    requires forall i :: start <= i < |s| ==> Escaped(s[i]) == 0
    ensures written + EscapeBytes(s[..start]) + s[start..] == written + EscapeBytes(s)
  {
    RestStays(s, start);
    Regroup(written, EscapeBytes(s[..start]), s[start..]);
  }

  lemma RestStays(s: seq<byte>, start: nat)
    requires start <= |s|
    requires forall i :: start <= i < |s| ==> Escaped(s[i]) == 0
    ensures EscapeBytes(s) == EscapeBytes(s[..start]) + s[start..]
  {
    var front, rest := s[..start], s[start..];
    assert s == front + rest;
    EscapeConcat(front, rest);
    PlainStays(rest);
  }

  /** The second phase. `start` is both the first byte looked at and the first one not yet written. */
  method WriteStringComplex(written: seq<byte>, s: seq<byte>, from: nat) returns (output: seq<byte>)
    requires from <= |s| && forall i :: 0 <= i < from ==> Escaped(s[i]) == 0
    ensures output == written + EscapeBytes(s)
  {
    var start := from;
    output := written + s[..start];
    PlainStays(s[..start]);
    for index := from to |s|
      invariant start <= index
      invariant forall i :: start <= i < index ==> Escaped(s[i]) == 0
      invariant output == written + EscapeBytes(s[..start])
    {
      var escape := Escaped(s[index]);
      if escape > 0 {
        WritesOneByte(written, s, start, index);
      }
      if escape > 0 {
        output := output + s[start..index];
        output := output + [BACKSLASH, escape];
        start := index + 1;
      }
      if escape == LETTER_U {
        output := output + FourHexDigits(s[index]);
      }
    }
    WritesTheRest(written, s, start);
    output := output + s[start..];
  }

  /** The first phase looks for a byte to escape and copies the text whole when there is none. */
  method StringifyArg(quoted: bool, arg: seq<byte>) returns (output: seq<byte>)
    ensures output == if quoted then [QUOTE] + EscapeBytes(arg) + [QUOTE] else EscapeBytes(arg)
  {
    output := if quoted then [QUOTE] else [];
    ghost var opening := output;
    var index := 0;
    while index < |arg| && Escaped(arg[index]) == 0
      invariant index <= |arg| && forall i :: 0 <= i < index ==> Escaped(arg[i]) == 0
    {
      index := index + 1;
    }
    if index < |arg| {
      output := WriteStringComplex(output, arg, index);
    } else {
      PlainStays(arg);
      output := output + arg;
    }
    assert output == opening + EscapeBytes(arg);
    if quoted {
      output := output + [QUOTE];
    }
  }

  // ----- reading it back, by section 7 of RFC 8259 -----

  function HexValue(b: byte): Option<nat> {
    if 0x30 <= b <= 0x39 then Some(b - 0x30)
    else if 0x61 <= b <= 0x66 then Some(b - 0x61 + 10)
    else if 0x41 <= b <= 0x46 then Some(b - 0x41 + 10)
    else None
  }

  /** The code unit that four hexadecimal digits name. */
  function CodeUnit(s: seq<byte>): Option<nat>
    requires |s| == 4
  {
    var a, b, c, d := HexValue(s[0]), HexValue(s[1]), HexValue(s[2]), HexValue(s[3]);
    if a.Some? && b.Some? && c.Some? && d.Some?
    then Some(a.value * 0x1000 + b.value * 0x100 + c.value * 0x10 + d.value) else None
  }

  /** UTF-8; a surrogate has no encoding of its own. */
  function Utf8(unit: nat): Option<seq<byte>> {
    if unit < 0x80 then Some([unit])
    else if unit < 0x800 then Some([0xC0 + unit / 0x40, 0x80 + unit % 0x40])
    else if 0xD800 <= unit < 0xE000 || unit >= 0x10000 then None
    else Some([0xE0 + unit / 0x1000, 0x80 + unit / 0x40 % 0x40, 0x80 + unit % 0x40])
  }

  /** The byte that a two-character escape stands for. */
  function TwoCharacterEscape(b: byte): Option<byte> {
    if b == QUOTE || b == BACKSLASH || b == 0x2F then Some(b)
    else if b == 0x62 then Some(0x08)
    else if b == 0x66 then Some(0x0C)
    else if b == 0x6E then Some(0x0A)
    else if b == 0x72 then Some(0x0D)
    else if b == 0x74 then Some(0x09)
    else None
  }

  /** One `char` of the grammar: the bytes it stands for and how long it is. */
  function DecodeOne(s: seq<byte>): (r: Option<(seq<byte>, nat)>)
    ensures r.Some? ==> 0 < r.value.1 <= |s|
  {
    if s == [] || s[0] < 0x20 || s[0] == QUOTE then None
    else if s[0] != BACKSLASH then Some(([s[0]], 1))
    else if |s| >= 2 && TwoCharacterEscape(s[1]).Some? then Some(([TwoCharacterEscape(s[1]).value], 2))
    else if |s| >= 6 && s[1] == LETTER_U then
      var unit := CodeUnit(s[2..6]);
      if unit.None? || Utf8(unit.value).None? then None else Some((Utf8(unit.value).value, 6))
    else None
  }

  /** `*char`: what stands between the quotation marks. */
  function Decode(s: seq<byte>): Option<seq<byte>> {
    if s == [] then Some([])
    else
      var one := DecodeOne(s);
      if one.None? then None else Prepended(one.value.0, Decode(s[one.value.1..]))
  }

  /** A whole `string`. */
  function DecodeString(s: seq<byte>): Option<seq<byte>> {
    if |s| >= 2 && s[0] == QUOTE && s[|s| - 1] == QUOTE then Decode(s[1..|s| - 1]) else None
  }

  /** What follows a `char` does not change how it is read. */
  lemma DecodeOneIsLocal(a: seq<byte>, b: seq<byte>)
    requires DecodeOne(a).Some?
    ensures DecodeOne(a + b) == DecodeOne(a)
  {
    if |a| >= 6 {
      assert (a + b)[2..6] == a[2..6];
    }
  }

  /** Decoding goes piece by piece. */
  lemma {:induction false} DecodeConcat(a: seq<byte>, b: seq<byte>)
    requires Decode(a).Some?
    ensures Decode(a + b) == Prepended(Decode(a).value, Decode(b))
    decreases |a|
  {
    if a == [] {
      assert a + b == b;
      PrependedTwice([], [], Decode(b));
    } else {
      DecodeOneIsLocal(a, b);
      var n := DecodeOne(a).value.1;
      assert (a + b)[n..] == a[n..] + b;
      DecodeConcat(a[n..], b);
      PrependedTwice(DecodeOne(a).value.0, Decode(a[n..]).value, Decode(b));
    }
  }

  lemma EscapedByteDecodes(b: byte)
    ensures DecodeOne(EscapeByte(b)) == Some(([b], |EscapeByte(b)|))
    ensures Decode(EscapeByte(b)) == Some([b])
  {
    var e := EscapeByte(b);
    if Escaped(b) == LETTER_U {
      assert e[2..6] == FourHexDigits(b);
      assert HexValue(HexDigit(b / 16)) == Some(b / 16) && HexValue(HexDigit(b % 16)) == Some(b % 16);
      assert CodeUnit(FourHexDigits(b)) == Some(b);
    }
    assert e[|e|..] == [];
    assert [b] + [] == [b];
  }

  /** The escaped argument stands for the argument. */
  lemma {:induction false} EscapeRoundTrip(arg: seq<byte>)
    ensures Decode(EscapeBytes(arg)) == Some(arg)
  {
    if arg != [] {
      EscapedByteDecodes(arg[0]);
      DecodeConcat(EscapeByte(arg[0]), EscapeBytes(arg[1..]));
      EscapeRoundTrip(arg[1..]);
      assert arg == [arg[0]] + arg[1..];
    }
  }

  /** The quoted form is a JSON string for the argument, so two arguments never look the same. */
  lemma QuotedRoundTrip(arg: seq<byte>)
    ensures DecodeString([QUOTE] + EscapeBytes(arg) + [QUOTE]) == Some(arg)
  {
    var s := [QUOTE] + EscapeBytes(arg) + [QUOTE];
    assert s[1..|s| - 1] == EscapeBytes(arg);
    EscapeRoundTrip(arg);
  }

  /** The unquoted form is safe inside any JSON string: it adds the argument there and nothing else. */
  lemma SafeInsideAString(before: seq<byte>, arg: seq<byte>, after: seq<byte>)
    requires Decode(before).Some?
    ensures Decode(before + EscapeBytes(arg) + after)
            == Prepended(Decode(before).value + arg, Decode(after))
  {
    EscapeRoundTrip(arg);
    DecodeConcat(before, EscapeBytes(arg));
    DecodeConcat(before + EscapeBytes(arg), after);
  }

  // ----- what the output looks like -----

  /** Does a backslash escape position `i`? */
  predicate Armed(s: seq<byte>, i: nat)
    requires i <= |s|
  {
    i > 0 && s[i - 1] == BACKSLASH && !Armed(s, i - 1)
  }

  /** No control byte, no quotation mark that is not escaped, no backslash left over at the end. */
  predicate Safe(s: seq<byte>) {
    && (forall i :: 0 <= i < |s| ==> s[i] >= 0x20)
    && (forall i :: 0 <= i < |s| && s[i] == QUOTE ==> Armed(s, i))
    && !Armed(s, |s|)
  }

  lemma {:induction false} ArmedInPrefix(a: seq<byte>, b: seq<byte>, i: nat)
    requires i <= |a|
    ensures Armed(a + b, i) == Armed(a, i)
  {
    if i > 0 {
      ArmedInPrefix(a, b, i - 1);
    }
  }

  lemma {:induction false} ArmedInSuffix(a: seq<byte>, b: seq<byte>, i: nat)
    requires i <= |b| && !Armed(a, |a|)
    ensures Armed(a + b, |a| + i) == Armed(b, i)
  {
    if i > 0 {
      ArmedInSuffix(a, b, i - 1);
    } else {
      ArmedInPrefix(a, b, |a|);
    }
  }

  lemma SafeConcat(a: seq<byte>, b: seq<byte>)
    requires Safe(a) && Safe(b)
    ensures Safe(a + b)
  {
    var s := a + b;
    forall i | 0 <= i < |s| && s[i] == QUOTE ensures Armed(s, i) {
      if i < |a| {
        ArmedInPrefix(a, b, i);
      } else {
        ArmedInSuffix(a, b, i - |a|);
      }
    }
    ArmedInSuffix(a, b, |b|);
  }

  lemma EscapedByteIsSafe(b: byte)
    ensures Safe(EscapeByte(b))
  {
    var e := EscapeByte(b);
    if Escaped(b) != 0 {
      assert !Armed(e, 0) && Armed(e, 1) && !Armed(e, 2);
      if Escaped(b) == LETTER_U {
        assert |e| == 6 && e[5] != BACKSLASH;
      }
    }
  }

  lemma {:induction false} OutputIsSafe(arg: seq<byte>)
    ensures Safe(EscapeBytes(arg))
  {
    if arg != [] {
      EscapedByteIsSafe(arg[0]);
      OutputIsSafe(arg[1..]);
      SafeConcat(EscapeByte(arg[0]), EscapeBytes(arg[1..]));
    }
  }
}
