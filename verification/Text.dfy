/** UTF-8, the byte form of a Rust `String` (section 3 of RFC 3629).  Transcripts
    hash these bytes, so equal transcripts must mean equal strings. */
module Text {
  import opened Prelude

  /** A byte-string literal, all of whose characters are ASCII. */
  function Ascii(s: string): Bytes {
    seq(|s|, i requires 0 <= i < |s| => s[i] as int % 256)
  }

  function EncodeChar(c: char): (b: Bytes)
    ensures 1 <= |b| <= 4
  {
    var n := c as int;
    var n1 := n / 64;
    var n2 := n1 / 64;
    if n < 0x80 then [n]
    else if n < 0x800 then [0xC0 + n1, 0x80 + n % 64]
    else if n < 0x1_0000 then [0xE0 + n2, 0x80 + n1 % 64, 0x80 + n % 64]
    else [0xF0 + n2 / 64, 0x80 + n2 % 64, 0x80 + n1 % 64, 0x80 + n % 64]
  }

  function Utf8(s: string): (b: Bytes)
    ensures |s| <= |b| <= 4 * |s|
  {
    if s == [] then [] else EncodeChar(s[0]) + Utf8(s[1..])
  }

  function LengthOfLead(lead: byte): (n: nat)
    ensures 1 <= n <= 4
  {
    if lead < 0x80 then 1 else if lead < 0xE0 then 2 else if lead < 0xF0 then 3 else 4
  }

  lemma LeadTellsLength(c: char)
    ensures |EncodeChar(c)| == LengthOfLead(EncodeChar(c)[0])
  {
  }

  /** The lead byte tells the length, so a character is determined by any byte
      string that begins with its encoding. */
  lemma EncodeCharPrefixFree(c: char, x: Bytes, d: char, y: Bytes)
    requires EncodeChar(c) + x == EncodeChar(d) + y
    ensures c == d && x == y
  {
    hide EncodeChar, LengthOfLead, Decode;
    LeadTellsLength(c);
    LeadTellsLength(d);
    var p, q := EncodeChar(c) + x, EncodeChar(d) + y;
    assert EncodeChar(c)[0] == p[0] == q[0] == EncodeChar(d)[0];
    ConcatCancel(EncodeChar(c), x, EncodeChar(d), y);
    CharOfEncoding(c);
    CharOfEncoding(d);
  }

  function Decode(b: Bytes): int
    requires 1 <= |b| <= 4
  {
    var at := (i: nat) => if i < |b| then b[i] as int else 0;
    if |b| == 1 then at(0)
    else if |b| == 2 then (at(0) - 0xC0) * 64 + (at(1) - 0x80)
    else if |b| == 3 then ((at(0) - 0xE0) * 64 + (at(1) - 0x80)) * 64 + (at(2) - 0x80)
    else (((at(0) - 0xF0) * 64 + (at(1) - 0x80)) * 64 + (at(2) - 0x80)) * 64 + (at(3) - 0x80)
  }

  lemma CharOfEncoding(c: char)
    ensures Decode(EncodeChar(c)) == c as int
  {
  }

  lemma {:induction false} Utf8Injective(s: string, t: string)
    requires Utf8(s) == Utf8(t)
    ensures s == t
  {
    if s != [] && t != [] {
      EncodeCharPrefixFree(s[0], Utf8(s[1..]), t[0], Utf8(t[1..]));
      Utf8Injective(s[1..], t[1..]);
      assert s == [s[0]] + s[1..] && t == [t[0]] + t[1..];
    }
  }

  lemma {:induction false} Utf8Append(s: string, t: string)
    ensures Utf8(s + t) == Utf8(s) + Utf8(t)
  {
    if s == [] {
      assert s + t == t;
    } else {
      assert (s + t)[1..] == s[1..] + t;
      Utf8Append(s[1..], t);
    }
  }

  /** `String::from_utf8`: well-formed UTF-8 only. */
  function DecodeUtf8(b: Bytes): (r: Option<string>)
    ensures r.Some? ==> Utf8(r.value) == b
    decreases |b|
  {
    hide EncodeChar, Decode, LengthOfLead;
    if b == [] then Some([])
    else
      var n := LengthOfLead(b[0]);
      if |b| < n then None
      else
        var v := Decode(b[..n]);
        if !(0 <= v < 0xD800 || 0xE000 <= v < 0x11_0000) then None
        else if EncodeChar(v as char) != b[..n] then None
        else
          match DecodeUtf8(b[n..])
          case Some(rest) =>
            var s := [v as char] + rest;
            assert s[1..] == rest && b == b[..n] + b[n..];
            Some(s)
          case None => None
  }

  /** Decoding accepts exactly the encodings of strings. */
  lemma {:induction false} DecodeUtf8OfUtf8(s: string)
    ensures DecodeUtf8(Utf8(s)) == Some(s)
  {
    hide EncodeChar, LengthOfLead, Decode;
    if s != [] {
      var b, n := Utf8(s), |EncodeChar(s[0])|;
      LeadTellsLength(s[0]);
      CharOfEncoding(s[0]);
      assert b[0] == EncodeChar(s[0])[0];
      assert b[..n] == EncodeChar(s[0]) && b[n..] == Utf8(s[1..]);
      DecodeUtf8OfUtf8(s[1..]);
      assert s == [s[0]] + s[1..];
    }
  }

  // ------------------------------------------------- transcript fields

  /** A length-prefixed string. */
  function TextField(s: string): Bytes { Field(Utf8(s)) }

  /** A length that its eight-byte prefix can hold, as every Rust string has. */
  predicate Representable(s: string) { |Utf8(s)| < TWO_TO_64 }

  lemma TextFieldCancel(a: string, x: Bytes, b: string, y: Bytes)
    requires Representable(a) && Representable(b)
    requires TextField(a) + x == TextField(b) + y
    ensures a == b && x == y
  {
    FieldCancel(Utf8(a), x, Utf8(b), y);
    Utf8Injective(a, b);
  }

  lemma ShortRepresentable(s: string)
    requires 4 * |s| < TWO_TO_64
    ensures Representable(s)
  {
    hide Utf8;
  }
}
