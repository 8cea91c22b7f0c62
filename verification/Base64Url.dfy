/** Unpadded base64url (section 5 of RFC 4648), with the lenient decoder the runtime really uses. */
module Base64Url {
  import opened Wrappers

  type Sextet = v: int | 0 <= v < 64

  function Digit(v: Sextet): char {
    if v < 26 then ('A' as int + v) as char
    else if v < 52 then ('a' as int + v - 26) as char
    else if v < 62 then ('0' as int + v - 52) as char
    else if v == 62 then '-'
    else '_'
  }

  /** The value of a digit; the standard alphabet's '+' and '/' are read as well. */
  function Value(c: char): Option<Sextet> {
    if 'A' <= c <= 'Z' then Some(c as int - 'A' as int)
    else if 'a' <= c <= 'z' then Some(c as int - 'a' as int + 26)
    else if '0' <= c <= '9' then Some(c as int - '0' as int + 52)
    else if c == '-' || c == '+' then Some(62)
    else if c == '_' || c == '/' then Some(63)
    else None
  }

  lemma DigitHasItsValue(v: Sextet)
    ensures Value(Digit(v)) == Some(v) && Digit(v) != '=' && Digit(v) != ':' && Digit(v) as int < 128
  {
  }

  /** The URL-safe alphabet: upper case, lower case, digits, hyphen and underscore, each in order. */
  lemma DigitsExactly(v: Sextet)
    ensures 'A' <= Digit(v) <= 'Z' <==> v < 26
    ensures 'a' <= Digit(v) <= 'z' <==> 26 <= v < 52
    ensures '0' <= Digit(v) <= '9' <==> 52 <= v < 62
    ensures Digit(v) == '-' <==> v == 62
    ensures Digit(v) == '_' <==> v == 63
    ensures v < 63 && v !in {25, 51, 61, 62} ==> Digit(v + 1) as int == Digit(v) as int + 1
  {
  }

  /** The decoder is lenient: it also reads the standard alphabet, and passes over anything else. */
  lemma DecodesLeniently(c: char, s: string, quad: nat, left: nat, pads: nat)
    requires quad < 4 && (quad == 1 ==> left < 64) && (quad == 2 ==> left < 16) && (quad == 3 ==> left < 4)
    ensures Value('+') == Value('-') == Some(62) && Value('/') == Value('_') == Some(63)
    ensures !('A' <= c <= 'Z' || 'a' <= c <= 'z' || '0' <= c <= '9' || c in "+/-_=")
            ==> Scan([c] + s, quad, left, pads) == Scan(s, quad, left, pads)
  {
    assert ([c] + s)[1..] == s;
    assert Value(c).None? || 'A' <= c <= 'Z' || 'a' <= c <= 'z' || '0' <= c <= '9' || c in "+/-_";
    assert "+/-_="[4] == '=';
  }

  function Group(a: Byte, b: Byte, c: Byte): string {
    [Digit(a / 4), Digit(a % 4 * 16 + b / 16), Digit(b % 16 * 4 + c / 64), Digit(c % 64)]
  }

  /** `_b64e`: three bytes make four digits, a rest of one or two bytes two or three. */
  function Encode(bs: Bytes): string {
    if bs == [] then ""
    else if |bs| == 1 then [Digit(bs[0] / 4), Digit(bs[0] % 4 * 16)]
    else if |bs| == 2 then [Digit(bs[0] / 4), Digit(bs[0] % 4 * 16 + bs[1] / 16), Digit(bs[1] % 16 * 4)]
    else Group(bs[0], bs[1], bs[2]) + Encode(bs[3..])
  }

  /** The decoder's scan: `quad` digits of the current group of four read, `left` the bits carried over,
      `pads` the padding seen since the last digit. Anything else is skipped. */
  function Scan(s: string, quad: nat, left: nat, pads: nat): Option<Bytes>
    requires quad < 4
    requires (quad == 1 ==> left < 64) && (quad == 2 ==> left < 16) && (quad == 3 ==> left < 4)
  {
    if s == "" then if quad == 0 then Some([]) else None
    else if s[0] == '=' then
      if quad >= 2 && quad + pads + 1 >= 4 then Some([])
      else Scan(s[1..], quad, left, if quad >= 2 then pads + 1 else pads)
    else if Value(s[0]).None? then Scan(s[1..], quad, left, pads)
    else
      var v := Value(s[0]).value;
      match quad
      case 0 => Scan(s[1..], 1, v, 0)
      case 1 => Emit(left * 4 + v / 16, Scan(s[1..], 2, v % 16, 0))
      case 2 => Emit(left * 16 + v / 4, Scan(s[1..], 3, v % 4, 0))
      case 3 => Emit(left * 64 + v, Scan(s[1..], 0, 0, 0))
  }

  function Emit(b: Byte, rest: Option<Bytes>): Option<Bytes> {
    if rest.None? then None else Some([b] + rest.value)
  }

  function Padding(n: nat): string {
    if n % 4 == 0 then "" else if n % 4 == 1 then "===" else if n % 4 == 2 then "==" else "="
  }

  predicate Ascii(s: string) {
    forall i :: 0 <= i < |s| ==> s[i] as int < 128
  }

  /** `_b64d`: pad to a multiple of four, then scan; text that is not ASCII is refused outright. */
  function Decode(s: string): Option<Bytes> {
    if !Ascii(s) then None else Scan(s + Padding(|s|), 0, 0, 0)
  }

  lemma {:induction false} EncodedIsPlain(bs: Bytes)
    ensures Ascii(Encode(bs)) && forall i :: 0 <= i < |Encode(bs)| ==> Encode(bs)[i] != ':'
  {
    forall v: Sextet {
      DigitHasItsValue(v);
    }
    if |bs| >= 3 {
      EncodedIsPlain(bs[3..]);
    }
  }

  lemma ScanDigit(v: Sextet, rest: string, quad: nat, left: nat, pads: nat)
    requires quad < 4
    requires (quad == 1 ==> left < 64) && (quad == 2 ==> left < 16) && (quad == 3 ==> left < 4)
    ensures Scan([Digit(v)] + rest, quad, left, pads) == match quad {
              case 0 => Scan(rest, 1, v, 0)
              case 1 => Emit(left * 4 + v / 16, Scan(rest, 2, v % 16, 0))
              case 2 => Emit(left * 16 + v / 4, Scan(rest, 3, v % 4, 0))
              case 3 => Emit(left * 64 + v, Scan(rest, 0, 0, 0))
            }
  {
    DigitHasItsValue(v);
    assert ([Digit(v)] + rest)[1..] == rest;
  }

  lemma ScanFour(w: Sextet, x: Sextet, y: Sextet, z: Sextet, rest: string)
    ensures Scan([Digit(w)] + ([Digit(x)] + ([Digit(y)] + ([Digit(z)] + rest))), 0, 0, 0)
         == Emit(w * 4 + x / 16, Emit(x % 16 * 16 + y / 4, Emit(y % 4 * 64 + z, Scan(rest, 0, 0, 0))))
  {
    var s3 := [Digit(z)] + rest;
    var s2 := [Digit(y)] + s3;
    var s1 := [Digit(x)] + s2;
    ScanDigit(w, s1, 0, 0, 0);
    ScanDigit(x, s2, 1, w, 0);
    ScanLastTwo(y, z, rest, x % 16);
  }

  lemma ScanLastTwo(y: Sextet, z: Sextet, rest: string, left: nat)
    requires left < 16
    ensures Scan([Digit(y)] + ([Digit(z)] + rest), 2, left, 0) == Emit(left * 16 + y / 4, Emit(y % 4 * 64 + z, Scan(rest, 0, 0, 0)))
  {
    ScanDigit(y, [Digit(z)] + rest, 2, left, 0);
    ScanDigit(z, rest, 3, y % 4, 0);
  }

  lemma ScanTwo(w: Sextet, x: Sextet)
    ensures Scan([Digit(w)] + ([Digit(x)] + "=="), 0, 0, 0) == Emit(w * 4 + x / 16, Some([]))
  {
    ScanDigit(w, [Digit(x)] + "==", 0, 0, 0);
    ScanDigit(x, "==", 1, w, 0);
    assert Scan("==", 2, x % 16, 0) == Scan("=", 2, x % 16, 1);
  }

  lemma ScanThree(w: Sextet, x: Sextet, y: Sextet)
    ensures Scan([Digit(w)] + ([Digit(x)] + ([Digit(y)] + "=")), 0, 0, 0)
         == Emit(w * 4 + x / 16, Emit(x % 16 * 16 + y / 4, Some([])))
  {
    ScanDigit(w, [Digit(x)] + ([Digit(y)] + "="), 0, 0, 0);
    ScanDigit(x, [Digit(y)] + "=", 1, w, 0);
    ScanDigit(y, "=", 2, x % 16, 0);
  }

  lemma Recombine(a: Byte, b: Byte, c: Byte)
    ensures var w, x, y, z := a / 4, a % 4 * 16 + b / 16, b % 16 * 4 + c / 64, c % 64;
            w * 4 + x / 16 == a && x % 16 * 16 + y / 4 == b && y % 4 * 64 + z == c
  {
  }

  lemma ScanGroup(a: Byte, b: Byte, c: Byte, rest: string)
    ensures Scan(Group(a, b, c) + rest, 0, 0, 0) == Emit(a, Emit(b, Emit(c, Scan(rest, 0, 0, 0))))
  {
    var w, x, y, z := a / 4, a % 4 * 16 + b / 16, b % 16 * 4 + c / 64, c % 64;
    Recombine(a, b, c);
    ScanFour(w, x, y, z, rest);
    assert Group(a, b, c) + rest == [Digit(w)] + ([Digit(x)] + ([Digit(y)] + ([Digit(z)] + rest)));
  }

  lemma TailOfOne(a: Byte, s: string)
    requires s == [Digit(a / 4), Digit(a % 4 * 16)] + "=="
    ensures Scan(s, 0, 0, 0) == Some([a])
  {
    Recombine(a, 0, 0);
    ScanTwo(a / 4, a % 4 * 16);
    assert s == [Digit(a / 4)] + ([Digit(a % 4 * 16)] + "==");
    assert [a] + [] == [a];
  }

  lemma TailOfTwo(a: Byte, b: Byte, s: string)
    requires s == [Digit(a / 4), Digit(a % 4 * 16 + b / 16), Digit(b % 16 * 4)] + "="
    ensures Scan(s, 0, 0, 0) == Some([a, b])
  {
    var w, x, y := a / 4, a % 4 * 16 + b / 16, b % 16 * 4;
    Recombine(a, b, 0);
    ScanThree(w, x, y);
    assert s == [Digit(w)] + ([Digit(x)] + ([Digit(y)] + "="));
    assert [b] + [] == [b] && [a] + [b] == [a, b];
  }

  function Padded(bs: Bytes): string {
    Encode(bs) + Padding(|Encode(bs)|)
  }

  lemma PaddedTail(bs: Bytes)
    requires 1 <= |bs| <= 2
    ensures |bs| == 1 ==> Padded(bs) == [Digit(bs[0] / 4), Digit(bs[0] % 4 * 16)] + "=="
    ensures |bs| == 2 ==> Padded(bs) == [Digit(bs[0] / 4), Digit(bs[0] % 4 * 16 + bs[1] / 16), Digit(bs[1] % 16 * 4)] + "="
  {
  }

  lemma PaddedGroup(bs: Bytes)
    requires |bs| >= 3
    ensures Padded(bs) == Group(bs[0], bs[1], bs[2]) + Padded(bs[3..])
  {
    PaddingIgnoresGroup(Group(bs[0], bs[1], bs[2]), Encode(bs[3..]));
  }

  lemma PaddingIgnoresGroup(group: string, rest: string)
    requires |group| == 4
    ensures group + rest + Padding(|group + rest|) == group + (rest + Padding(|rest|))
  {
  }

  lemma EmitThree(bs: Bytes)
    requires |bs| >= 3
    ensures Emit(bs[0], Emit(bs[1], Emit(bs[2], Some(bs[3..])))) == Some(bs)
  {
    assert [bs[0]] + ([bs[1]] + ([bs[2]] + bs[3..])) == bs;
  }

  lemma {:induction false} ScanInverts(bs: Bytes)
    ensures Scan(Padded(bs), 0, 0, 0) == Some(bs)
  {
    if bs == [] {
      assert Padded(bs) == "";
    } else if |bs| <= 2 {
      PaddedTail(bs);
      if |bs| == 1 {
        TailOfOne(bs[0], Padded(bs));
        assert bs == [bs[0]];
      } else {
        TailOfTwo(bs[0], bs[1], Padded(bs));
        assert bs == [bs[0], bs[1]];
      }
    } else {
      ScanInverts(bs[3..]);
      PaddedGroup(bs);
      ScanGroup(bs[0], bs[1], bs[2], Padded(bs[3..]));
      EmitThree(bs);
    }
  }

  /** Decoding what was encoded gives the bytes back. */
  lemma DecodeEncode(bs: Bytes)
    ensures Decode(Encode(bs)) == Some(bs)
  {
    EncodedIsPlain(bs);
    ScanInverts(bs);
  }
}
