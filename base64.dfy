/**
 * The standard base64 encoding with padding (section 4 of RFC 4648), which
 * PEM uses for its body, and the 64-column line wrapping of PEM (section 2
 * of RFC 7468). Only what certificate PEM conversion needs is modelled.
 */
module Base64 {
  import opened AuctionTypes

  const Pad: char := '='
  /** PEM bodies are wrapped after this many characters. */
  const LineLength: nat := 64

  /** The character that encodes the 6-bit value `v`: A-Z, a-z, 0-9, '+', '/'. */
  function Symbol(v: nat): (c: char)
    requires v < 64
    ensures c != Pad && c != '\n' && c != '\r' && c != ' ' && c != '\t'
  {
    if v < 26 then (v + 'A' as int) as char
    else if v < 52 then (v - 26 + 'a' as int) as char
    else if v < 62 then (v - 52 + '0' as int) as char
    else if v == 62 then '+'
    else '/'
  }

  /** The 6-bit value of a base64 character, or None for any other character. */
  function Value(c: char): (r: Option<nat>)
    ensures r.Some? ==> r.value < 64 && Symbol(r.value) == c
  {
    if 'A' <= c <= 'Z' then Some(c as int - 'A' as int)
    else if 'a' <= c <= 'z' then Some(c as int - 'a' as int + 26)
    else if '0' <= c <= '9' then Some(c as int - '0' as int + 52)
    else if c == '+' then Some(62)
    else if c == '/' then Some(63)
    else None
  }

  lemma ValueOfSymbol(v: nat)
    requires v < 64
    ensures Value(Symbol(v)) == Some(v)
  {
  }

  /** The base64 text of `d`, four characters per three bytes, the last group padded with `=`. */
  function Encode(d: Bytes): (s: string)
    ensures |s| == (|d| + 2) / 3 * 4
    ensures forall i :: 0 <= i < |s| ==> !IsSpace(s[i])
    decreases |d|
  {
    if |d| == 0 then []
    else
      var b0 := d[0] as int;
      if |d| == 1 then
        [Symbol(b0 / 4), Symbol(b0 % 4 * 16), Pad, Pad]
      else
        var b1 := d[1] as int;
        if |d| == 2 then
          [Symbol(b0 / 4), Symbol(b0 % 4 * 16 + b1 / 16), Symbol(b1 % 16 * 4), Pad]
        else
          var b2 := d[2] as int;
          [Symbol(b0 / 4), Symbol(b0 % 4 * 16 + b1 / 16), Symbol(b1 % 16 * 4 + b2 / 64), Symbol(b2 % 64)]
          + Encode(d[3..])
  }

  /** The bytes encoded by one group of four base64 characters, of which the last `pads` are `=`. */
  function DecodeGroup(c0: char, c1: char, c2: char, c3: char, pads: nat): (r: Option<Bytes>)
    requires pads <= 2
    ensures r.Some? ==> |r.value| == 3 - pads
  {
    match (Value(c0), Value(c1), Value(c2), Value(c3))
    case (Some(v0), Some(v1), _, _) =>
      var b0 := (v0 * 4 + v1 / 16) as uint8;
      if pads == 2 then Some([b0])
      else if Value(c2).None? then None
      else
        var v2 := Value(c2).value;
        var b1 := (v1 % 16 * 16 + v2 / 4) as uint8;
        if pads == 1 then Some([b0, b1])
        else if Value(c3).None? then None
        else Some([b0, b1, (v2 % 4 * 64 + Value(c3).value) as uint8])
    case _ => None
  }

  /**
   * Decodes base64 text without line breaks. Fails on a length that is not
   * a multiple of four, on a character outside the alphabet, or on padding
   * anywhere but at the end.
   */
  function Decode(s: string): (r: Option<Bytes>)
    decreases |s|
  {
    if |s| == 0 then Some([])
    else if |s| < 4 then None
    else
      var pads := if |s| == 4 && s[3] == Pad then (if s[2] == Pad then 2 else 1) else 0;
      match DecodeGroup(s[0], s[1], s[2], s[3], pads)
      case None => None
      case Some(group) =>
        if pads > 0 then Some(group)
        else
          match Decode(s[4..])
          case None => None
          case Some(rest) => Some(group + rest)
  }

  lemma DecodeOneByte(b0: uint8)
    ensures DecodeGroup(Symbol(b0 as int / 4), Symbol(b0 as int % 4 * 16), Pad, Pad, 2) == Some([b0])
  {
    var x := b0 as int;
    ValueOfSymbol(x / 4);
    ValueOfSymbol(x % 4 * 16);
    assert x / 4 * 4 + x % 4 * 16 / 16 == x;
  }

  lemma DecodeTwoBytes(b0: uint8, b1: uint8)
    ensures DecodeGroup(Symbol(b0 as int / 4), Symbol(b0 as int % 4 * 16 + b1 as int / 16),
                        Symbol(b1 as int % 16 * 4), Pad, 1) == Some([b0, b1])
  {
    var x, y := b0 as int, b1 as int;
    ValueOfSymbol(x / 4);
    ValueOfSymbol(x % 4 * 16 + y / 16);
    ValueOfSymbol(y % 16 * 4);
    assert x / 4 * 4 + (x % 4 * 16 + y / 16) / 16 == x;
    assert (x % 4 * 16 + y / 16) % 16 * 16 + y % 16 * 4 / 4 == y;
  }

  lemma DecodeThreeBytes(b0: uint8, b1: uint8, b2: uint8, c0: char, c1: char, c2: char, c3: char)
    requires c0 == Symbol(b0 as int / 4) && c1 == Symbol(b0 as int % 4 * 16 + b1 as int / 16)
    requires c2 == Symbol(b1 as int % 16 * 4 + b2 as int / 64) && c3 == Symbol(b2 as int % 64)
    ensures DecodeGroup(c0, c1, c2, c3, 0) == Some([b0, b1, b2])
  {
    var x, y, z := b0 as int, b1 as int, b2 as int;
    ValueOfSymbol(x / 4);
    ValueOfSymbol(x % 4 * 16 + y / 16);
    ValueOfSymbol(y % 16 * 4 + z / 64);
    ValueOfSymbol(z % 64);
    assert x / 4 * 4 + (x % 4 * 16 + y / 16) / 16 == x;
    assert (x % 4 * 16 + y / 16) % 16 * 16 + (y % 16 * 4 + z / 64) / 4 == y;
    assert (y % 16 * 4 + z / 64) % 4 * 64 + z % 64 == z;
  }

  /** A group without padding in front of text that decodes. */
  lemma DecodeCons(s: string, group: Bytes, rest: Bytes)
    requires |s| > 4 || (|s| == 4 && s[3] != Pad)
    requires DecodeGroup(s[0], s[1], s[2], s[3], 0) == Some(group)
    requires Decode(s[4..]) == Some(rest)
    ensures Decode(s) == Some(group + rest)
  {
  }

  /** The first group of the encoding of at least three bytes decodes to those bytes. */
  lemma EncodeFirstGroup(d: Bytes)
    requires |d| >= 3
    ensures var s := Encode(d);
      && (|s| > 4 || (|s| == 4 && s[3] != Pad))
      && s[4..] == Encode(d[3..])
      && DecodeGroup(s[0], s[1], s[2], s[3], 0) == Some(d[..3])
  {
    var s := Encode(d);
    DecodeThreeBytes(d[0], d[1], d[2], s[0], s[1], s[2], s[3]);
    assert d[..3] == [d[0], d[1], d[2]];
  }

  /** Decoding undoes encoding, for every byte string. */
  lemma {:induction false} DecodeEncode(d: Bytes)
    ensures Decode(Encode(d)) == Some(d)
    decreases |d|
  {
    if |d| == 1 {
      DecodeOneByte(d[0]);
      assert d == [d[0]];
    } else if |d| == 2 {
      DecodeTwoBytes(d[0], d[1]);
      assert d == [d[0], d[1]];
    } else if |d| >= 3 {
      EncodeFirstGroup(d);
      DecodeEncode(d[3..]);
      DecodeCons(Encode(d), d[..3], d[3..]);
      assert d[..3] + d[3..] == d;
    }
  }

  /** `s` cut into lines of `LineLength` characters, each line ended by a newline. */
  function Wrap(s: string): (w: string)
    decreases |s|
  {
    if |s| == 0 then []
    else if |s| <= LineLength then s + "\n"
    else s[..LineLength] + "\n" + Wrap(s[LineLength..])
  }

  /** Whitespace that PEM decoding skips inside a body. */
  predicate IsSpace(c: char)
  {
    c == '\n' || c == '\r' || c == ' ' || c == '\t'
  }

  /** `s` without its whitespace. */
  function Unwrap(s: string): (u: string)
    ensures |u| <= |s|
    decreases |s|
  {
    if |s| == 0 then []
    else (if IsSpace(s[0]) then [] else [s[0]]) + Unwrap(s[1..])
  }

  lemma {:induction false} UnwrapAppend(a: string, b: string)
    ensures Unwrap(a + b) == Unwrap(a) + Unwrap(b)
    decreases |a|
  {
    if |a| == 0 {
      assert a + b == b;
    } else {
      assert (a + b)[1..] == a[1..] + b;
      UnwrapAppend(a[1..], b);
    }
  }

  lemma {:induction false} UnwrapPlain(s: string)
    requires forall i :: 0 <= i < |s| ==> !IsSpace(s[i])
    ensures Unwrap(s) == s
    decreases |s|
  {
    if |s| > 0 {
      UnwrapPlain(s[1..]);
      assert s == [s[0]] + s[1..];
    }
  }

  lemma {:induction false} UnwrapWrap(s: string)
    requires forall i :: 0 <= i < |s| ==> !IsSpace(s[i])
    ensures Unwrap(Wrap(s)) == s
    decreases |s|
  {
    if |s| == 0 {
    } else if |s| <= LineLength {
      UnwrapAppend(s, "\n");
      UnwrapPlain(s);
      assert Unwrap("\n") == [];
    } else {
      var line := s[..LineLength];
      UnwrapAppend(line + "\n", Wrap(s[LineLength..]));
      UnwrapAppend(line, "\n");
      UnwrapPlain(line);
      assert Unwrap("\n") == [];
      UnwrapWrap(s[LineLength..]);
      assert line + s[LineLength..] == s;
    }
  }
}
