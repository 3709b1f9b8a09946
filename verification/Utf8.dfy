/** Bytes, and the bytes that `String::from_utf8` takes for text. */
module Utf8 {
  import opened Text

  newtype byte = b: int | 0 <= b < 0x100

  type Bytes = seq<byte>

  // ------------------------------------------------------------------ the encoder

  /** One scalar value, in one to four bytes. */
  function EncodeChar(c: char): Bytes {
    var n := c as int;
    if n < 0x80 then [n as byte]
    else
      var low, high := n % 0x40, n / 0x40;
      if n < 0x800 then [(0xC0 + high) as byte, Continuation(low)]
      else
        var middle, top := high % 0x40, high / 0x40;
        if n < 0x1_0000 then [(0xE0 + top) as byte, Continuation(middle), Continuation(low)]
        else [(0xF0 + top / 0x40) as byte, Continuation(top % 0x40), Continuation(middle), Continuation(low)]
  }

  function Continuation(payload: nat): byte
    requires payload < 0x40
  {
    (0x80 + payload) as byte
  }

  /** `as_bytes`. */
  function Encode(s: string): Bytes {
    if s == "" then [] else EncodeChar(s[0]) + Encode(s[1..])
  }

  /** A byte string, as in `b"..."`. */
  function ByteString(s: string): Bytes {
    seq(|s|, i requires 0 <= i < |s| => (s[i] as int % 0x100) as byte)
  }

  // ------------------------------------------------------------------ the decoder

  /** How many bytes the character takes that the bytes begin with, by the table of well-formed
      sequences of the Unicode standard (table 3-7); 0 when they begin with none. */
  function Width(b: Bytes): (n: nat)
    ensures n <= |b|
  {
    if b == [] then 0
    else if b[0] < 0x80 then 1
    else if 0xC2 <= b[0] <= 0xDF then if Continues(b, 1) then 2 else 0
    else if 0xE0 <= b[0] <= 0xEF then
      if Continues(b, 1) && Continues(b, 2)
         && (b[0] == 0xE0 ==> 0xA0 <= b[1]) && (b[0] == 0xED ==> b[1] <= 0x9F) then 3 else 0
    else if 0xF0 <= b[0] <= 0xF4 then
      if Continues(b, 1) && Continues(b, 2) && Continues(b, 3)
         && (b[0] == 0xF0 ==> 0x90 <= b[1]) && (b[0] == 0xF4 ==> b[1] <= 0x8F) then 4 else 0
    else 0
  }

  predicate Continues(b: Bytes, i: nat) {
    i < |b| && 0x80 <= b[i] <= 0xBF
  }

  /** The payload of a continuation byte. */
  function Low(b: byte): nat
    requires 0x80 <= b
  {
    b as int - 0x80
  }

  function CharOf(b: Bytes): char
    requires Width(b) != 0
  {
    (match Width(b)
     case 1 => b[0] as int
     case 2 => (b[0] as int - 0xC0) * 0x40 + Low(b[1])
     case 3 => ((b[0] as int - 0xE0) * 0x40 + Low(b[1])) * 0x40 + Low(b[2])
     case _ => (((b[0] as int - 0xF0) * 0x40 + Low(b[1])) * 0x40 + Low(b[2])) * 0x40 + Low(b[3])) as char
  }

  /** `String::from_utf8`. */
  function Decode(b: Bytes): Option<string> {
    if b == [] then Some("") else
      var n := Width(b);
      if n == 0 then None else
        var rest := Decode(b[n..]);
        if rest.None? then None else Some([CharOf(b)] + rest.value)
  }

  predicate IsText(b: Bytes) {
    Decode(b).Some?
  }

  // ------------------------------------------------------------------ one undoes the other

  lemma CharRoundTrip(c: char, rest: Bytes)
    ensures Width(EncodeChar(c) + rest) == |EncodeChar(c)| > 0
    ensures CharOf(EncodeChar(c) + rest) == c
  {
    var n := c as int;
    var e := EncodeChar(c);
    var b := e + rest;
    assert forall i :: 0 <= i < |e| ==> b[i] == e[i];
    if n < 0x80 {
      assert Width(b) == 1;
    } else if n < 0x800 {
      assert Width(b) == 2;
    } else if n < 0x1_0000 {
      assert Width(b) == 3;
    } else {
      assert Width(b) == 4;
    }
  }

  lemma {:induction false} DecodeEncode(s: string)
    ensures Decode(Encode(s)) == Some(s)
  {
    if s != "" {
      var b := Encode(s);
      DecodeEncode(s[1..]);
      CharRoundTrip(s[0], Encode(s[1..]));
      assert b[|EncodeChar(s[0])|..] == Encode(s[1..]);
      assert s == [s[0]] + s[1..];
    }
  }

  lemma Digits(high: nat, low: nat)
    requires low < 0x40
    ensures (high * 0x40 + low) % 0x40 == low && (high * 0x40 + low) / 0x40 == high
  {
  }

  lemma TwoBytes(b: Bytes)
    requires Width(b) == 2
    ensures EncodeChar(CharOf(b)) == b[..2]
  {
    Digits(b[0] as int - 0xC0, Low(b[1]));
  }

  lemma ThreeBytes(b: Bytes)
    requires Width(b) == 3
    ensures EncodeChar(CharOf(b)) == b[..3]
  {
    var top := b[0] as int - 0xE0;
    Digits(top, Low(b[1]));
    Digits(top * 0x40 + Low(b[1]), Low(b[2]));
  }

  lemma FourBytes(b: Bytes)
    requires Width(b) == 4
    ensures EncodeChar(CharOf(b)) == b[..4]
  {
    var top := b[0] as int - 0xF0;
    Digits(top, Low(b[1]));
    Digits(top * 0x40 + Low(b[1]), Low(b[2]));
    Digits((top * 0x40 + Low(b[1])) * 0x40 + Low(b[2]), Low(b[3]));
  }

  lemma BytesRoundTrip(b: Bytes)
    requires Width(b) != 0
    ensures EncodeChar(CharOf(b)) == b[..Width(b)]
  {
    match Width(b) {
      case 1 =>
      case 2 => TwoBytes(b);
      case 3 => ThreeBytes(b);
      case _ => FourBytes(b);
    }
  }

  lemma EncodeCons(c: char, s: string, b: Bytes, n: nat)
    requires n <= |b| && EncodeChar(c) == b[..n] && Encode(s) == b[n..]
    ensures Encode([c] + s) == b
  {
    assert ([c] + s)[1..] == s && b == b[..n] + b[n..];
  }

  lemma {:induction false} EncodeDecode(b: Bytes)
    requires IsText(b)
    ensures Encode(Decode(b).value) == b
  {
    if b != [] {
      EncodeDecode(b[Width(b)..]);
      BytesRoundTrip(b);
      EncodeCons(CharOf(b), Decode(b[Width(b)..]).value, b, Width(b));
    }
  }

  predicate Encodes(s: string, b: Bytes) {
    Encode(s) == b
  }

  /** Text is what some string encodes to, and one string only. */
  lemma TextIsEncoded(b: Bytes)
    ensures IsText(b) <==> exists s: string :: Encodes(s, b)
    ensures forall s: string :: Encodes(s, b) ==> Decode(b) == Some(s)
  {
    if IsText(b) {
      EncodeDecode(b);
      assert Encodes(Decode(b).value, b);
    }
    forall s: string | Encodes(s, b) ensures Decode(b) == Some(s) {
      DecodeEncode(s);
    }
  }

  // ------------------------------------------------------------------ what is refused

  /** The bytes that stand nowhere in UTF-8. */
  predicate Refused(x: byte) {
    x == 0xC0 || x == 0xC1 || 0xF5 <= x
  }

  lemma {:induction false} RefusedByteIsNoText(b: Bytes, i: nat)
    requires i < |b| && Refused(b[i])
    ensures !IsText(b)
    decreases |b|
  {
    var n := Width(b);
    if n != 0 {
      assert forall j :: 0 <= j < n ==> !Refused(b[j]);
      RefusedByteIsNoText(b[n..], i - n);
    }
  }

  /** ASCII is text. */
  lemma {:induction false} AsciiIsText(b: Bytes)
    requires forall i :: 0 <= i < |b| ==> b[i] < 0x80
    ensures IsText(b)
  {
    if b != [] {
      assert forall i :: 0 <= i < |b[1..]| ==> b[1..][i] == b[i + 1];
      AsciiIsText(b[1..]);
    }
  }
}
