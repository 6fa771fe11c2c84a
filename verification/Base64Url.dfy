/**
 base64url without padding, as `base64UrlEncode` and `base64UrlDecode` make it from standard base64:
 sections 4 and 5 of RFC 4648, section 2 and appendix C of RFC 7515.
 */
module Base64Url {
  import opened Wrappers

  newtype byte = b: int | 0 <= b < 256

  newtype sextet = v: int | 0 <= v < 64

  type Bytes = seq<byte>

  // ------------------------------------------------------------------ the alphabet

  predicate IsAlphabet(c: char) {
    'A' <= c <= 'Z' || 'a' <= c <= 'z' || '0' <= c <= '9' || c == '+' || c == '/'
  }

  function FromChar(c: char): sextet
    requires IsAlphabet(c)
  {
    if 'A' <= c <= 'Z' then (c - 'A') as sextet
    else if 'a' <= c <= 'z' then (c - 'a') as sextet + 26
    else if '0' <= c <= '9' then (c - '0') as sextet + 52
    else if c == '+' then 62
    else 63
  }

  /** Table 1 of RFC 4648. */
  function ToChar(v: sextet): (c: char)
    ensures IsAlphabet(c) && c != '=' && FromChar(c) == v
  {
    if v < 26 then 'A' + v as char
    else if v < 52 then 'a' + (v - 26) as char
    else if v < 62 then '0' + (v - 52) as char
    else if v == 62 then '+'
    else '/'
  }

  // ------------------------------------------------------------------ standard base64

  function First(x: byte): sextet {
    (x / 4) as sextet
  }

  function Second(x: byte, y: byte): sextet {
    ((x as int % 4) * 16 + y as int / 16) as sextet
  }

  function Third(y: byte, z: byte): sextet {
    ((y as int % 16) * 4 + z as int / 64) as sextet
  }

  function Fourth(z: byte): sextet {
    (z % 64) as sextet
  }

  /** `buf.toString('base64')`. */
  function Encode(b: Bytes): string {
    if b == [] then ""
    else if |b| == 1 then
      [ToChar(First(b[0])), ToChar(Second(b[0], 0)), '=', '=']
    else if |b| == 2 then
      [ToChar(First(b[0])), ToChar(Second(b[0], b[1])), ToChar(Third(b[1], 0)), '=']
    else
      [ToChar(First(b[0])), ToChar(Second(b[0], b[1])), ToChar(Third(b[1], b[2])), ToChar(Fourth(b[2]))]
      + Encode(b[3..])
  }

  function FirstByte(p: sextet, q: sextet): byte {
    (p as int * 4 + q as int / 16) as byte
  }

  function SecondByte(q: sextet, r: sextet): byte {
    ((q as int % 16) * 16 + r as int / 4) as byte
  }

  function ThirdByte(r: sextet, s: sextet): byte {
    ((r as int % 4) * 64 + s as int) as byte
  }

  /** `Buffer.from(s, 'base64')` on padded base64; nothing for any other string. */
  function Decode(s: string): Option<Bytes> {
    if s == "" then Some([])
    else if |s| < 4 || !IsAlphabet(s[0]) || !IsAlphabet(s[1]) then None
    else
      var p, q := FromChar(s[0]), FromChar(s[1]);
      if s[2] == '=' then
        if s[3] == '=' && |s| == 4 then Some([FirstByte(p, q)]) else None
      else if !IsAlphabet(s[2]) then None
      else
        var r := FromChar(s[2]);
        if s[3] == '=' then
          if |s| == 4 then Some([FirstByte(p, q), SecondByte(q, r)]) else None
        else if !IsAlphabet(s[3]) then None
        else
          match Decode(s[4..])
          case None => None
          case Some(rest) => Some([FirstByte(p, q), SecondByte(q, r), ThirdByte(r, FromChar(s[3]))] + rest)
  }

  lemma BytesBack(x: byte, y: byte, z: byte)
    ensures FirstByte(First(x), Second(x, y)) == x
    ensures SecondByte(Second(x, y), Third(y, z)) == y
    ensures ThirdByte(Third(y, z), Fourth(z)) == z
  {
  }

  /** Four characters spell the same 24 bits as three bytes, most significant first. */
  lemma SameBits(x: byte, y: byte, z: byte)
    ensures ((First(x) as int * 64 + Second(x, y) as int) * 64 + Third(y, z) as int) * 64 + Fourth(z) as int
         == (x as int * 256 + y as int) * 256 + z as int
  {
  }

  /** Standard base64 decodes to what was encoded. */
  lemma {:induction false} DecodeEncode(b: Bytes)
    ensures Decode(Encode(b)) == Some(b)
  {
    hide First, Second, Third, Fourth, FirstByte, SecondByte, ThirdByte, ToChar, FromChar, IsAlphabet;
    if |b| == 1 {
      BytesBack(b[0], 0, 0);
      assert b == [b[0]];
    } else if |b| == 2 {
      BytesBack(b[0], b[1], 0);
      assert b == [b[0], b[1]];
    } else if |b| >= 3 {
      BytesBack(b[0], b[1], b[2]);
      DecodeEncode(b[3..]);
      assert Encode(b)[4..] == Encode(b[3..]);
      assert b == [b[0], b[1], b[2]] + b[3..];
    }
  }

  // ------------------------------------------------------------------ base64url

  function Unpadded(s: string): string {
    if s == "" then "" else (if s[0] == '=' then "" else [s[0]]) + Unpadded(s[1..])
  }

  function Replace(s: string, a: char, b: char): (t: string)
    ensures |t| == |s|
    ensures forall i :: 0 <= i < |s| ==> t[i] == if s[i] == a then b else s[i]
  {
    seq(|s|, i requires 0 <= i < |s| => if s[i] == a then b else s[i])
  }

  /** `base64UrlEncode` on a buffer. */
  function UrlEncode(b: Bytes): string {
    Replace(Replace(Unpadded(Encode(b)), '+', '-'), '/', '_')
  }

  function Padding(n: nat): string {
    seq(n, _ => '=')
  }

  /** `base64UrlDecode`, up to the conversion of the bytes to a string. */
  function UrlDecode(s: string): Option<Bytes> {
    var padded := Replace(Replace(s, '-', '+'), '_', '/');
    var pad := |padded| % 4;
    Decode(if pad != 0 then padded + Padding(4 - pad) else padded)
  }

  predicate IsUrlSafe(c: char) {
    'A' <= c <= 'Z' || 'a' <= c <= 'z' || '0' <= c <= '9' || c == '-' || c == '_'
  }

  lemma {:induction false} UnpaddedConcat(s: string, t: string)
    ensures Unpadded(s + t) == Unpadded(s) + Unpadded(t)
  {
    if s == "" {
      assert s + t == t;
    } else {
      UnpaddedConcat(s[1..], t);
      assert (s + t)[0] == s[0] && (s + t)[1..] == s[1..] + t;
      var head := if s[0] == '=' then "" else [s[0]];
      assert head + (Unpadded(s[1..]) + Unpadded(t)) == (head + Unpadded(s[1..])) + Unpadded(t);
    }
  }

  lemma {:induction false} UnpaddedAlphabet(s: string)
    requires forall i :: 0 <= i < |s| ==> s[i] != '='
    ensures Unpadded(s) == s
  {
    if s != "" {
      UnpaddedAlphabet(s[1..]);
    }
  }

  lemma {:induction false} UnpaddedPadding(n: nat)
    ensures Unpadded(Padding(n)) == ""
  {
    if n > 0 {
      assert Padding(n)[1..] == Padding(n - 1);
      UnpaddedPadding(n - 1);
    }
  }

  /** How many padding characters an encoding ends with. */
  function PaddingOf(b: Bytes): nat {
    (3 - |b| % 3) % 3
  }

  /** The encoding without its padding. */
  function Text(b: Bytes): string {
    if b == [] then ""
    else if |b| == 1 then [ToChar(First(b[0])), ToChar(Second(b[0], 0))]
    else if |b| == 2 then [ToChar(First(b[0])), ToChar(Second(b[0], b[1])), ToChar(Third(b[1], 0))]
    else
      [ToChar(First(b[0])), ToChar(Second(b[0], b[1])), ToChar(Third(b[1], b[2])), ToChar(Fourth(b[2]))] + Text(b[3..])
  }

  lemma ShortPadding(b: Bytes)
    ensures |b| == 0 ==> Padding(PaddingOf(b)) == ""
    ensures |b| == 1 ==> Padding(PaddingOf(b)) == ['=', '=']
    ensures |b| == 2 ==> Padding(PaddingOf(b)) == ['=']
    ensures |b| >= 3 ==> PaddingOf(b[3..]) == PaddingOf(b)
  {
  }

  /** An encoding is alphabet characters followed by padding, in quadruples. */
  lemma {:induction false} EncodeShape(b: Bytes)
    ensures Encode(b) == Text(b) + Padding(PaddingOf(b))
    ensures forall i :: 0 <= i < |Text(b)| ==> IsAlphabet(Text(b)[i])
    ensures (|Text(b)| + PaddingOf(b)) % 4 == 0
  {
    hide First, Second, Third, Fourth, ToChar, IsAlphabet, Padding;
    ShortPadding(b);
    if |b| >= 3 {
      EncodeShape(b[3..]);
      var head := Encode(b)[..4];
      assert Encode(b) == head + (Text(b[3..]) + Padding(PaddingOf(b)));
      assert Text(b) == head + Text(b[3..]);
    }
  }

  lemma StripPadding(b: Bytes)
    ensures Unpadded(Encode(b)) == Text(b)
  {
    EncodeShape(b);
    UnpaddedConcat(Text(b), Padding(PaddingOf(b)));
    UnpaddedAlphabet(Text(b));
    UnpaddedPadding(PaddingOf(b));
  }

  lemma SwapBack(text: string)
    requires forall i :: 0 <= i < |text| ==> IsAlphabet(text[i])
    ensures var url := Replace(Replace(text, '+', '-'), '/', '_');
            && Replace(Replace(url, '-', '+'), '_', '/') == text
            && forall i :: 0 <= i < |url| ==> IsUrlSafe(url[i])
  {
  }

  /** The padding to restore follows from the length. */
  lemma RestorePadding(text: string, n: nat)
    requires n < 4 && (|text| + n) % 4 == 0
    ensures var pad := |text| % 4;
            text + Padding(n) == if pad != 0 then text + Padding(4 - pad) else text
  {
    assert text + Padding(0) == text;
  }

  /**
   Every byte string survives: stripping the padding and restoring it from the length modulo four is
   harmless, and the encoding holds no character but letters, digits, hyphen and underscore.
   */
  lemma UrlRoundTrip(b: Bytes)
    ensures UrlDecode(UrlEncode(b)) == Some(b)
    ensures forall i :: 0 <= i < |UrlEncode(b)| ==> IsUrlSafe(UrlEncode(b)[i])
  {
    hide Encode, Decode, Text, Replace, Padding, Unpadded, IsAlphabet, IsUrlSafe;
    EncodeShape(b);
    StripPadding(b);
    SwapBack(Text(b));
    DecodeEncode(b);
    RestorePadding(Text(b), PaddingOf(b));
  }

  /** Different byte strings have different encodings. */
  lemma UrlEncodeInjective(a: Bytes, b: Bytes)
    requires UrlEncode(a) == UrlEncode(b)
    ensures a == b
  {
    UrlRoundTrip(a);
    UrlRoundTrip(b);
  }

  // ------------------------------------------------------------------ digit by digit

  const UPPER_CASE := "ABCDEFGHIJKLMNOPQRSTUVWXYZ"
  const LOWER_CASE := "abcdefghijklmnopqrstuvwxyz"
  const DIGITS := "0123456789"

  /** Table 1 of RFC 4648, and table 2. */
  const ALPHABET := UPPER_CASE + LOWER_CASE + DIGITS + "+/"
  const URL_ALPHABET := UPPER_CASE + LOWER_CASE + DIGITS + "-_"

  lemma UpperCase(i: nat)
    requires i < 26
    ensures |UPPER_CASE| == 26 && UPPER_CASE[i] == 'A' + i as char
  {
  }

  lemma LowerCase(i: nat)
    requires i < 26
    ensures |LOWER_CASE| == 26 && LOWER_CASE[i] == 'a' + i as char
  {
  }

  lemma Digits(i: nat)
    requires i < 10
    ensures |DIGITS| == 10 && DIGITS[i] == '0' + i as char
  {
  }

  /** Each value is written as the character the table gives it. */
  lemma CharIsInTable(v: sextet)
    ensures |ALPHABET| == 64 && |URL_ALPHABET| == 64
    ensures ToChar(v) == ALPHABET[v]
    ensures URL_ALPHABET[v] == if ALPHABET[v] == '+' then '-' else if ALPHABET[v] == '/' then '_' else ALPHABET[v]
  {
    if v < 26 {
      UpperCase(v as nat);
    } else if v < 52 {
      LowerCase(v as nat - 26);
    } else if v < 62 {
      Digits(v as nat - 52);
    }
  }

  /** The k-th byte, and zero past the end. */
  function ByteAt(b: Bytes, k: nat): nat {
    if k < |b| then b[k] as nat else 0
  }

  /** Three bytes as one number of 24 bits, most significant first. */
  function Group(b: Bytes, i: nat): nat {
    (ByteAt(b, 3 * i) * 256 + ByteAt(b, 3 * i + 1)) * 256 + ByteAt(b, 3 * i + 2)
  }

  /** Its four digits of six bits, most significant first. */
  function DigitOf(group: nat, j: nat): (v: sextet)
    requires j < 4
  {
    (if j == 0 then group / 262144 % 64
     else if j == 1 then group / 4096 % 64
     else if j == 2 then group / 64 % 64
     else group % 64) as sextet
  }

  lemma FromDigits(p: sextet, q: sextet, r: sextet, s: sextet)
    ensures var group := ((p as nat * 64 + q as nat) * 64 + r as nat) * 64 + s as nat;
            DigitOf(group, 0) == p && DigitOf(group, 1) == q && DigitOf(group, 2) == r && DigitOf(group, 3) == s
  {
  }

  lemma DigitsOfBytes(x: byte, y: byte, z: byte)
    ensures var group := (x as nat * 256 + y as nat) * 256 + z as nat;
            && DigitOf(group, 0) == First(x) && DigitOf(group, 1) == Second(x, y)
            && DigitOf(group, 2) == Third(y, z) && DigitOf(group, 3) == Fourth(z)
  {
    SameBits(x, y, z);
    FromDigits(First(x), Second(x, y), Third(y, z), Fourth(z));
  }

  lemma GroupOfRest(b: Bytes, i: nat)
    requires |b| >= 3 && i > 0
    ensures Group(b[3..], i - 1) == Group(b, i)
  {
  }

  lemma FirstGroup(b: Bytes)
    requires b != []
    ensures var y: byte, z: byte := if |b| > 1 then b[1] else 0, if |b| > 2 then b[2] else 0;
            Group(b, 0) == (b[0] as nat * 256 + y as nat) * 256 + z as nat
  {
  }

  /** The text of an encoding, character by character: the p-th is the one for the p-th group of six bits. */
  lemma {:induction false} TextDigits(b: Bytes, p: nat)
    requires p < |Text(b)|
    ensures Text(b)[p] == ToChar(DigitOf(Group(b, p / 4), p % 4))
  {
    hide DigitOf, Group, First, Second, Third, Fourth, ToChar;
    if p >= 4 {
      TextDigits(b[3..], p - 4);
      GroupOfRest(b, p / 4);
      assert (p - 4) / 4 == p / 4 - 1 && (p - 4) % 4 == p % 4;
    } else {
      FirstGroup(b);
      assert p / 4 == 0 && p % 4 == p;
      DigitsOfBytes(b[0], if |b| > 1 then b[1] else 0, if |b| > 2 then b[2] else 0);
    }
  }

  lemma {:induction false} TextLength(b: Bytes)
    ensures |Text(b)| == (4 * |b| + 2) / 3
  {
    if |b| >= 3 {
      TextLength(b[3..]);
    }
  }

  lemma Replaced(b: Bytes, p: nat)
    requires p < |Text(b)|
    ensures |UrlEncode(b)| == |Text(b)|
    ensures var c := Text(b)[p];
            UrlEncode(b)[p] == if c == '+' then '-' else if c == '/' then '_' else c
  {
    hide Encode, Text, Unpadded;
    StripPadding(b);
  }

  lemma EmptyText(b: Bytes)
    ensures |UrlEncode(b)| == |Text(b)|
  {
    hide Encode, Text, Unpadded;
    StripPadding(b);
  }

  /**
   The encoding is the bits of the bytes in groups of six, most significant first, the last one filled up with zeros,
   each written as the character that the table for URLs gives it.
   */
  lemma UrlEncodeDigits(b: Bytes)
    ensures |UrlEncode(b)| == (4 * |b| + 2) / 3 && |URL_ALPHABET| == 64
    ensures forall p :: 0 <= p < |UrlEncode(b)| ==> UrlEncode(b)[p] == URL_ALPHABET[DigitOf(Group(b, p / 4), p % 4)]
  {
    hide UrlEncode, Text, Group, DigitOf, ToChar;
    TextLength(b);
    CharIsInTable(0);
    EmptyText(b);
    forall p | 0 <= p < |Text(b)|
      ensures |UrlEncode(b)| == |Text(b)|
      ensures UrlEncode(b)[p] == URL_ALPHABET[DigitOf(Group(b, p / 4), p % 4)]
    {
      Replaced(b, p);
      TextDigits(b, p);
      CharIsInTable(DigitOf(Group(b, p / 4), p % 4));
    }
  }
}
