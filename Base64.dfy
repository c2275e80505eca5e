/** The basic Base64 encoding of section 4 of RFC 4648, as
    `java.util.Base64.getEncoder()` writes it (always padded with `=`) and as
    `java.util.Base64.getDecoder()` reads it. The decoder is Java's: padding
    may be left off a final unit of two or three symbols, the unused low bits
    of the last symbol are ignored, and anything else outside the alphabet,
    a dangling single symbol, a half-padded unit or text after the padding
    is an error. */
module Base64 {

  import opened Wrappers
  import opened Bytes

  /** A character of the 64-symbol alphabet of Table 1 of RFC 4648. */
  predicate IsSymbol(c: char) {
    'A' <= c <= 'Z' || 'a' <= c <= 'z' || '0' <= c <= '9' || c == '+' || c == '/'
  }

  /** The symbol for a six-bit value. */
  function Symbol(v: int): (c: char)
    requires 0 <= v < 64
    ensures IsSymbol(c)
  {
    if v < 26 then ('A' as int + v) as char
    else if v < 52 then ('a' as int + (v - 26)) as char
    else if v < 62 then ('0' as int + (v - 52)) as char
    else if v == 62 then '+'
    else '/'
  }

  /** The six-bit value of a symbol; `Symbol` and `Value` are inverse. */
  function Value(c: char): (v: int)
    requires IsSymbol(c)
    ensures 0 <= v < 64 && Symbol(v) == c
  {
    if 'A' <= c <= 'Z' then c as int - 'A' as int
    else if 'a' <= c <= 'z' then c as int - 'a' as int + 26
    else if '0' <= c <= '9' then c as int - '0' as int + 52
    else if c == '+' then 62
    else 63
  }

  lemma ValueOfSymbol(v: int)
    requires 0 <= v < 64
    ensures Value(Symbol(v)) == v
  {
  }

  /** The four symbols of three octets. */
  function EncodeUnit(b0: byte, b1: byte, b2: byte): string
  {
    [Symbol(b0 / 4), Symbol((b0 % 4) * 16 + b1 / 16), Symbol((b1 % 16) * 4 + b2 / 64), Symbol(b2 % 64)]
  }

  /** The padded encoding: four characters for every three octets or part
      of three, all of them symbols or `=`. */
  function Encode(b: seq<byte>): (r: string)
    ensures |r| == 4 * ((|b| + 2) / 3)
    ensures forall k :: 0 <= k < |r| ==> IsSymbol(r[k]) || r[k] == '='
    decreases |b|
  {
    if |b| == 0 then ""
    else if |b| == 1 then [Symbol(b[0] / 4), Symbol((b[0] % 4) * 16), '=', '=']
    else if |b| == 2 then [Symbol(b[0] / 4), Symbol((b[0] % 4) * 16 + b[1] / 16), Symbol((b[1] % 16) * 4), '=']
    else
      assert (|b| + 2) / 3 == (|b| - 1) / 3 + 1;
      EncodeUnit(b[0], b[1], b[2]) + Encode(b[3..])
  }

  /** The first, second and third octet carried by the leading symbols of a
      unit; the bits below the last octet are dropped. */
  function Octet0(c0: char, c1: char): byte
    requires IsSymbol(c0) && IsSymbol(c1)
  {
    Value(c0) * 4 + Value(c1) / 16
  }

  function Octet1(c1: char, c2: char): byte
    requires IsSymbol(c1) && IsSymbol(c2)
  {
    (Value(c1) % 16) * 16 + Value(c2) / 4
  }

  function Octet2(c2: char, c3: char): byte
    requires IsSymbol(c2) && IsSymbol(c3)
  {
    (Value(c2) % 4) * 64 + Value(c3)
  }

  /** `Base64.getDecoder().decode(s)`: `None` where Java throws
      IllegalArgumentException. Accepted text gives six bits per symbol,
      rounded down to whole octets. */
  function Decode(s: string): (r: Option<seq<byte>>)
    ensures r.Some? ==> |r.value| == 6 * (|s| - multiset(s)['=']) / 8
    decreases |s|
  {
    if |s| == 0 then Some([])
    else if |s| >= 4 && IsSymbol(s[0]) && IsSymbol(s[1]) && IsSymbol(s[2]) && IsSymbol(s[3]) then
      UnitLength(s);
      match Decode(s[4..])
      case None => None
      case Some(rest) => Some([Octet0(s[0], s[1]), Octet1(s[1], s[2]), Octet2(s[2], s[3])] + rest)
    // the final unit: fewer than four symbols, then the end, padding or an error
    else if !IsSymbol(s[0]) || |s| == 1 || !IsSymbol(s[1]) then None
    else if |s| == 2 then FinalLength(s, 2); Some([Octet0(s[0], s[1])])
    else if s[2] == '=' then
      if |s| == 4 && s[3] == '=' then
        FinalLength(s, 2);
        Some([Octet0(s[0], s[1])])
      else None
    else if !IsSymbol(s[2]) then None
    else if |s| == 3 || (|s| == 4 && s[3] == '=') then
      FinalLength(s, 3);
      Some([Octet0(s[0], s[1]), Octet1(s[1], s[2])])
    else None
  }

  /** A full unit of four symbols adds three octets to the decoded length. */
  lemma UnitLength(s: string)
    requires |s| >= 4 && IsSymbol(s[0]) && IsSymbol(s[1]) && IsSymbol(s[2]) && IsSymbol(s[3])
    ensures 6 * (|s| - multiset(s)['=']) / 8 == 3 + 6 * (|s[4..]| - multiset(s[4..])['=']) / 8
  {
    assert s == s[..4] + s[4..];
    assert multiset(s[..4])['='] == 0;
    var x := |s[4..]| - multiset(s[4..])['='];
    assert 6 * (x + 4) == 24 + 6 * x;
  }

  /** A final unit of k symbols and its padding decodes to k - 1 octets. */
  lemma FinalLength(s: string, k: nat)
    requires 2 <= k <= |s| <= 4
    requires forall i :: 0 <= i < k ==> IsSymbol(s[i])
    requires forall i :: k <= i < |s| ==> s[i] == '='
    ensures 6 * (|s| - multiset(s)['=']) / 8 == k - 1
  {
    assert s == s[..k] + s[k..];
    assert multiset(s[..k])['='] == 0 by {
      assert forall i :: 0 <= i < k ==> s[..k][i] != '=';
    }
    assert multiset(s[k..])['='] == |s| - k by {
      if |s| - k == 1 {
        assert s[k..] == "=";
      } else if |s| - k == 2 {
        assert s[k..] == "==";
      }
    }
  }

  /** The symbols of a full unit carry its three octets back. */
  lemma DecodeEncodeUnit(b0: byte, b1: byte, b2: byte)
    ensures var e := EncodeUnit(b0, b1, b2);
      Octet0(e[0], e[1]) == b0 && Octet1(e[1], e[2]) == b1 && Octet2(e[2], e[3]) == b2
  {
    var v1 := (b0 % 4) * 16 + b1 / 16;
    var v2 := (b1 % 16) * 4 + b2 / 64;
    ValueOfSymbol(b0 / 4);
    ValueOfSymbol(v1);
    ValueOfSymbol(v2);
    ValueOfSymbol(b2 % 64);
    assert v1 / 16 == b0 % 4 && v1 % 16 == b1 / 16;
    assert v2 / 4 == b1 % 16 && v2 % 4 == b2 / 64;
  }

  /** The padded unit of two octets decodes to those octets. */
  lemma DecodeEncodeTwo(b0: byte, b1: byte)
    ensures Decode(Encode([b0, b1])) == Some([b0, b1])
  {
    var e := Encode([b0, b1]);
    var v1 := (b0 % 4) * 16 + b1 / 16;
    assert e == [Symbol(b0 / 4), Symbol(v1), Symbol((b1 % 16) * 4), '='];
    ValueOfSymbol(b0 / 4);
    ValueOfSymbol(v1);
    ValueOfSymbol((b1 % 16) * 4);
    assert v1 / 16 == b0 % 4 && v1 % 16 == b1 / 16;
    assert Octet0(e[0], e[1]) == b0;
    assert Octet1(e[1], e[2]) == b1;
  }

  /** The padded unit of one octet decodes to that octet. */
  lemma DecodeEncodeOne(b0: byte)
    ensures Decode(Encode([b0])) == Some([b0])
  {
    ValueOfSymbol(b0 / 4);
    ValueOfSymbol((b0 % 4) * 16);
  }

  /** Decoding undoes encoding. */
  lemma {:induction false} DecodeEncode(b: seq<byte>)
    ensures Decode(Encode(b)) == Some(b)
    decreases |b|
  {
    if |b| == 1 {
      assert b == [b[0]];
      DecodeEncodeOne(b[0]);
    } else if |b| == 2 {
      assert b == [b[0], b[1]];
      DecodeEncodeTwo(b[0], b[1]);
    } else if |b| >= 3 {
      assert b == [b[0], b[1], b[2]] + b[3..];
      var u := EncodeUnit(b[0], b[1], b[2]);
      var rest := Encode(b[3..]);
      assert Encode(b) == u + rest;
      DecodeEncodeUnit(b[0], b[1], b[2]);
      DecodeEncode(b[3..]);
      DecodeAfterUnit(u, rest);
      assert Decode(u + rest) == Some([b[0], b[1], b[2]] + b[3..]);
    }
  }

  /** A full unit of four symbols in front of a text adds its three octets
      in front of what the text decodes to, and fails when the text fails. */
  lemma DecodeAfterUnit(u: string, rest: string)
    requires |u| == 4 && IsSymbol(u[0]) && IsSymbol(u[1]) && IsSymbol(u[2]) && IsSymbol(u[3])
    ensures Decode(u + rest) ==
      match Decode(rest)
      case None => None
      case Some(tail) => Some([Octet0(u[0], u[1]), Octet1(u[1], u[2]), Octet2(u[2], u[3])] + tail)
  {
    assert (u + rest)[4..] == rest;
  }

  /** A text the decoder accepts holds nothing but symbols and `=`. */
  lemma {:induction false} DecodeAlphabet(s: string)
    requires Decode(s).Some?
    ensures forall k :: 0 <= k < |s| ==> IsSymbol(s[k]) || s[k] == '='
    decreases |s|
  {
    if |s| >= 4 && IsSymbol(s[0]) && IsSymbol(s[1]) && IsSymbol(s[2]) && IsSymbol(s[3]) {
      DecodeAlphabet(s[4..]);
      assert forall k :: 4 <= k < |s| ==> s[k] == s[4..][k - 4];
    }
  }

  /** A line break anywhere makes the text undecodable. */
  lemma DecodeRejectsNewline(s: string)
    requires '\n' in s
    ensures Decode(s).None?
  {
    if Decode(s).Some? {
      DecodeAlphabet(s);
    }
  }
}
