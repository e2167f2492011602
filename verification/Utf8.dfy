/** UTF-8 as html_studio.py uses it: strict encoding, and decoding in which every
    maximal ill-formed subpart becomes one U+FFFD (errors="replace"). */
module Utf8 {
  import opened Text

  newtype byte = x: int | 0 <= x < 256

  const LF: byte := 10
  const REPLACEMENT: char := '\U{FFFD}'

  function EncodeChar(c: char): (r: seq<byte>)
    ensures 1 <= |r| <= 4
    ensures |r| == 1 <==> c as int < 0x80
    ensures forall i :: 0 <= i < |r| ==> (r[i] == LF <==> c == '\n')
  {
    var n := c as int;
    if n < 0x80 then [n as byte]
    else if n < 0x800 then [(0xC0 + n / 64) as byte, (0x80 + n % 64) as byte]
    else if n < 0x10000 then
      [(0xE0 + n / 4096) as byte, (0x80 + n / 64 % 64) as byte, (0x80 + n % 64) as byte]
    else
      [(0xF0 + n / 262144) as byte, (0x80 + n / 4096 % 64) as byte,
       (0x80 + n / 64 % 64) as byte, (0x80 + n % 64) as byte]
  }

  function Encode(s: string): (r: seq<byte>)
    ensures |s| <= |r|
  {
    if s == [] then [] else EncodeChar(s[0]) + Encode(s[1..])
  }

  predicate Continues(b: byte) { 0x80 <= b <= 0xBF }

  /** The second byte of a three-byte sequence: no overlong forms, no surrogates. */
  predicate Second3(b0: byte, b1: byte) {
    (if b0 == 0xE0 then 0xA0 else 0x80) <= b1 <= (if b0 == 0xED then 0x9F else 0xBF)
  }

  /** The second byte of a four-byte sequence: no overlong forms, nothing above U+10FFFF. */
  predicate Second4(b0: byte, b1: byte) {
    (if b0 == 0xF0 then 0x90 else 0x80) <= b1 <= (if b0 == 0xF4 then 0x8F else 0xBF)
  }

  /** Decodes the first character, and says how many bytes it took. */
  function DecodeOne(b: seq<byte>): (r: (char, nat))
    requires b != []
    ensures 1 <= r.1 <= |b|
    ensures forall i :: 1 <= i < r.1 ==> 0x80 <= b[i]
    ensures b[0] < 0x80 ==> r == (b[0] as int as char, 1)
    ensures r.0 == '\n' ==> b[0] == LF
  {
    var b0 := b[0] as int;
    if b0 < 0x80 then (b0 as char, 1)
    else if 0xC2 <= b0 <= 0xDF then
      if |b| > 1 && Continues(b[1])
      then (((b0 - 0xC0) * 64 + (b[1] as int - 0x80)) as char, 2)
      else (REPLACEMENT, 1)
    else if 0xE0 <= b0 <= 0xEF then
      if |b| > 1 && Second3(b[0], b[1]) then
        if |b| > 2 && Continues(b[2])
        then (((b0 - 0xE0) * 4096 + (b[1] as int - 0x80) * 64 + (b[2] as int - 0x80)) as char, 3)
        else (REPLACEMENT, 2)
      else (REPLACEMENT, 1)
    else if 0xF0 <= b0 <= 0xF4 then
      if |b| > 1 && Second4(b[0], b[1]) then
        if |b| > 2 && Continues(b[2]) then
          if |b| > 3 && Continues(b[3])
          then (((b0 - 0xF0) * 262144 + (b[1] as int - 0x80) * 4096
                 + (b[2] as int - 0x80) * 64 + (b[3] as int - 0x80)) as char, 4)
          else (REPLACEMENT, 3)
        else (REPLACEMENT, 2)
      else (REPLACEMENT, 1)
    else (REPLACEMENT, 1)
  }

  function Decode(b: seq<byte>): string {
    if b == [] then "" else
      var (c, n) := DecodeOne(b);
      [c] + Decode(b[n..])
  }

  /** Bytes that follow an ASCII byte never change what came before them. */
  lemma DecodeOneConcat(a: seq<byte>, c: seq<byte>)
    requires a != []
    requires c != [] ==> c[0] < 0x80
    ensures DecodeOne(a + c) == DecodeOne(a)
  {
  }

  /** Decoding splits at any ASCII byte, whether or not the bytes are valid UTF-8:
      decoding line by line is decoding the whole stream. */
  lemma {:induction false} DecodeConcat(a: seq<byte>, c: seq<byte>)
    requires c != [] ==> c[0] < 0x80
    ensures Decode(a + c) == Decode(a) + Decode(c)
    decreases |a|
  {
    if a == [] {
      assert a + c == c;
    } else {
      DecodeOneConcat(a, c);
      var (ch, n) := DecodeOne(a);
      assert (a + c)[n..] == a[n..] + c;
      DecodeConcat(a[n..], c);
    }
  }

  lemma DecodeEncodeChar(c: char, rest: seq<byte>)
    ensures DecodeOne(EncodeChar(c) + rest) == (c, |EncodeChar(c)|)
  {
    if c as int < 0x800 { DecodeShort(c, rest); }
    else if c as int < 0x10000 { DecodeThree(c, rest); }
    else { DecodeFour(c, rest); }
  }

  lemma DecodeShort(c: char, rest: seq<byte>)
    requires c as int < 0x800
    ensures DecodeOne(EncodeChar(c) + rest) == (c, |EncodeChar(c)|)
  {
    Digits(c as int);
  }

  lemma DecodeThree(c: char, rest: seq<byte>)
    requires 0x800 <= c as int < 0x10000
    ensures DecodeOne(EncodeChar(c) + rest) == (c, |EncodeChar(c)|)
  {
    var n := c as int;
    Digits(n);
    Digits(n / 64);
    assert n / 64 / 64 == n / 4096;
  }

  lemma DecodeFour(c: char, rest: seq<byte>)
    requires 0x10000 <= c as int
    ensures DecodeOne(EncodeChar(c) + rest) == (c, |EncodeChar(c)|)
  {
    var n := c as int;
    Digits(n);
    Digits(n / 64);
    Digits(n / 4096);
    assert n / 64 / 64 == n / 4096 && n / 4096 / 64 == n / 262144;
  }

  lemma Digits(n: nat)
    ensures n == n / 64 * 64 + n % 64
  {
  }

  lemma {:induction false} DecodeEncode(s: string)
    ensures Decode(Encode(s)) == s
  {
    if s != [] {
      var e, rest := EncodeChar(s[0]), Encode(s[1..]);
      DecodeEncodeChar(s[0], rest);
      assert (e + rest)[|e|..] == rest;
      DecodeEncode(s[1..]);
    }
  }

  lemma {:induction false} EncodeConcat(a: string, b: string)
    ensures Encode(a + b) == Encode(a) + Encode(b)
  {
    if a == [] {
      assert a + b == b;
    } else {
      assert (a + b)[1..] == a[1..] + b;
      EncodeConcat(a[1..], b);
    }
  }

  lemma {:induction false} EncodeLength(s: string)
    ensures |Encode(s)| <= 4 * |s|
  {
    if s != [] { EncodeLength(s[1..]); }
  }

  lemma {:induction false} EncodeNoLf(s: string)
    requires '\n' !in s
    ensures LF !in Encode(s)
  {
    if s != [] { EncodeNoLf(s[1..]); }
  }

  lemma {:induction false} DecodeNoLf(b: seq<byte>)
    requires LF !in b
    ensures '\n' !in Decode(b)
    decreases |b|
  {
    if b != [] {
      var (c, n) := DecodeOne(b);
      assert c != '\n';
      DecodeNoLf(b[n..]);
    }
  }

  // ---------------------------------------------------------------- ill-formed bytes

  /** What the encoding of a character looks like. */
  predicate WellFormed(e: seq<byte>) {
    match |e|
    case 1 => e[0] < 0x80
    case 2 => 0xC2 <= e[0] <= 0xDF && Continues(e[1])
    case 3 => 0xE0 <= e[0] <= 0xEF && Second3(e[0], e[1]) && Continues(e[2])
    case 4 => 0xF0 <= e[0] <= 0xF4 && Second4(e[0], e[1]) && Continues(e[2]) && Continues(e[3])
    case _ => false
  }

  lemma EncodedWellFormed(c: char)
    ensures WellFormed(EncodeChar(c))
  {
    var n := c as int;
    Digits(n);
    Digits(n / 64);
    if n >= 0x10000 {
      Digits(n / 4096);
      assert n / 64 / 64 == n / 4096 && n / 4096 / 64 == n / 262144;
    } else if n >= 0x800 {
      assert n / 64 / 64 == n / 4096;
    }
  }

  /** Some character is encoded by bytes that begin with `p`. */
  ghost predicate BeginsCharacter(p: seq<byte>) {
    exists c: char :: p <= EncodeChar(c)
  }

  /** A lead byte with a fitting second byte, or with two more bytes, begins a character. */
  lemma LeadBegins(b: seq<byte>, n: nat)
    requires 2 <= n <= |b|
    requires 0xE0 <= b[0] <= 0xF4
    requires if b[0] <= 0xEF then n == 2 && Second3(b[0], b[1])
             else n <= 3 && Second4(b[0], b[1]) && (n == 3 ==> Continues(b[2]))
    ensures BeginsCharacter(b[..n])
  {
    if b[0] <= 0xEF {
      var e := b[..2] + [0x80];
      var c := DecodeOne(e).0;
      EncodeDecodeThree(e);
      assert b[..2] <= e == EncodeChar(c);
    } else {
      var e := if n == 2 then b[..2] + [0x80, 0x80] else b[..3] + [0x80];
      var c := DecodeOne(e).0;
      EncodeDecodeFour(e);
      assert b[..n] <= e == EncodeChar(c);
    }
  }

  lemma EncodeDecodeTwo(e: seq<byte>)
    requires |e| == 2 && WellFormed(e)
    ensures EncodeChar(DecodeOne(e).0) == e
  {
  }

  lemma EncodeDecodeThree(e: seq<byte>)
    requires |e| == 3 && WellFormed(e)
    ensures EncodeChar(DecodeOne(e).0) == e
  {
    var n := DecodeOne(e).0 as int;
    var x, y, z := e[0] as int - 0xE0, e[1] as int - 0x80, e[2] as int - 0x80;
    assert n == (x * 64 + y) * 64 + z;
    Parts(x * 64 + y, z);
    Parts(x, y);
    assert n / 4096 == n / 64 / 64;
  }

  lemma EncodeDecodeFour(e: seq<byte>)
    requires |e| == 4 && WellFormed(e)
    ensures EncodeChar(DecodeOne(e).0) == e
  {
    var n := DecodeOne(e).0 as int;
    var x, y, z, u := e[0] as int - 0xF0, e[1] as int - 0x80, e[2] as int - 0x80, e[3] as int - 0x80;
    assert n == ((x * 64 + y) * 64 + z) * 64 + u;
    Parts((x * 64 + y) * 64 + z, u);
    Parts(x * 64 + y, z);
    Parts(x, y);
    assert n / 4096 == n / 64 / 64 && n / 262144 == n / 4096 / 64;
  }

  lemma Parts(a: nat, b: nat)
    requires b < 64
    ensures (a * 64 + b) / 64 == a && (a * 64 + b) % 64 == b
  {
  }

  lemma TakenEncodes(b: seq<byte>)
    requires b != [] && WellFormed(b[..DecodeOne(b).1])
    ensures EncodeChar(DecodeOne(b).0) == b[..DecodeOne(b).1]
  {
    var e := b[..DecodeOne(b).1];
    assert DecodeOne(e).0 == DecodeOne(b).0;
    if |e| == 2 {
      EncodeDecodeTwo(e);
    } else if |e| == 3 {
      EncodeDecodeThree(e);
    } else if |e| == 4 {
      EncodeDecodeFour(e);
    }
  }

  /** Bytes that begin with no character are replaced. */
  lemma IllFormed(b: seq<byte>)
    requires b != [] && forall d: char :: !(EncodeChar(d) <= b)
    ensures !WellFormed(b[..DecodeOne(b).1])
  {
    hide WellFormed, DecodeOne, EncodeChar;
    if WellFormed(b[..DecodeOne(b).1]) { TakenEncodes(b); }
  }

  lemma Replaced(b: seq<byte>)
    requires b != [] && !WellFormed(b[..DecodeOne(b).1])
    ensures var (c, n) := DecodeOne(b);
            && c == REPLACEMENT && n <= 3
            && (n > 1 ==>
                  && 0xE0 <= b[0] <= 0xF4
                  && if b[0] <= 0xEF then n == 2 && Second3(b[0], b[1])
                     else Second4(b[0], b[1]) && (n == 3 ==> Continues(b[2])))
  {
  }

  /** No character begins with more bytes than are taken. */
  lemma NotLonger(b: seq<byte>, m: nat, e: seq<byte>)
    requires b != [] && DecodeOne(b).0 == REPLACEMENT && DecodeOne(b).1 < m <= |b|
    requires WellFormed(e)
    ensures !(b[..m] <= e)
  {
    assert forall i :: 0 <= i < m ==> b[..m][i] == b[i];
  }

  /** Decoding takes the character that the bytes begin with; when there is none, U+FFFD stands
      for the longest run of bytes that begins a character, or for one byte. */
  lemma MaximalSubpart(b: seq<byte>)
    requires b != []
    ensures var (c, n) := DecodeOne(b);
            if exists d: char :: EncodeChar(d) <= b then EncodeChar(c) == b[..n]
            else
              && c == REPLACEMENT && (n == 1 || BeginsCharacter(b[..n]))
              && forall m :: n < m <= |b| ==> !BeginsCharacter(b[..m])
  {
    hide WellFormed, DecodeOne, EncodeChar, Second3, Second4, Continues;
    var (c, n) := DecodeOne(b);
    if d: char :| EncodeChar(d) <= b {
      var e := EncodeChar(d);
      assert b == e + b[|e|..];
      DecodeEncodeChar(d, b[|e|..]);
    } else {
      IllFormed(b);
      Replaced(b);
      forall m, d: char | n < m <= |b|
        ensures !(b[..m] <= EncodeChar(d))
      {
        EncodedWellFormed(d);
        NotLonger(b, m, EncodeChar(d));
      }
      if n > 1 { LeadBegins(b, n); }
    }
  }
}
