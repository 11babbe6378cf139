/** Text as UTF-8: what names look like inside keys and registry records. */
module Utf8 {
  import opened Basics
  import opened Bytes

  function EncodeChar(c: char): (b: bytes)
    ensures 1 <= |b| <= 4
  {
    var n := c as int;
    if n < 0x80 then [n]
    else if n < 0x800 then [0xC0 + n / 0x40, 0x80 + n % 0x40]
    else if n < 0x1_0000 then [0xE0 + n / 0x1000, 0x80 + n / 0x40 % 0x40, 0x80 + n % 0x40]
    else [0xF0 + n / 0x4_0000, 0x80 + n / 0x1000 % 0x40, 0x80 + n / 0x40 % 0x40, 0x80 + n % 0x40]
  }

  function Encode(s: string): bytes {
    if s == "" then [] else EncodeChar(s[0]) + Encode(s[1..])
  }

  predicate Continues(b: byte) { 0x80 <= b < 0xC0 }

  predicate IsScalar(n: int) { 0 <= n < 0xD800 || 0xE000 <= n < 0x11_0000 }

  /** The first character and how many bytes it takes; overlong forms, surrogates and
      stray bytes are refused. */
  function DecodeChar(b: bytes): Option<(char, nat)> {
    if b == [] then None
    else if b[0] < 0x80 then Some((b[0] as char, 1))
    else if 0xC0 <= b[0] < 0xE0 then
      if |b| < 2 || !Continues(b[1]) then None
      else
        var n: int := (b[0] as int - 0xC0) * 0x40 + (b[1] as int - 0x80);
        if n >= 0x80 then Some((n as char, 2)) else None
    else if 0xE0 <= b[0] < 0xF0 then
      if |b| < 3 || !Continues(b[1]) || !Continues(b[2]) then None
      else
        var n: int := (b[0] as int - 0xE0) * 0x1000 + (b[1] as int - 0x80) * 0x40 + (b[2] as int - 0x80);
        if n >= 0x800 && IsScalar(n) then Some((n as char, 3)) else None
    else if 0xF0 <= b[0] < 0xF8 then
      if |b| < 4 || !Continues(b[1]) || !Continues(b[2]) || !Continues(b[3]) then None
      else
        var n: int := (b[0] as int - 0xF0) * 0x4_0000 + (b[1] as int - 0x80) * 0x1000 + (b[2] as int - 0x80) * 0x40 + (b[3] as int - 0x80);
        if n >= 0x1_0000 && IsScalar(n) then Some((n as char, 4)) else None
    else None
  }

  function Decode(b: bytes): Option<string>
    decreases |b|
  {
    if b == [] then Some("")
    else match DecodeChar(b)
         case None => None
         case Some((c, n)) =>
           if n == 0 || n > |b| then None
           else match Decode(b[n..]) case Some(s) => Some([c] + s) case None => None
  }

  lemma CharParts(c: char)
    ensures IsScalar(c as int)
    ensures var n := c as int; n == n / 0x40 * 0x40 + n % 0x40 && n / 0x40 == n / 0x1000 * 0x40 + n / 0x40 % 0x40
    ensures var n := c as int; n / 0x1000 == n / 0x4_0000 * 0x40 + n / 0x1000 % 0x40
  {}

  lemma DecodeEncodeChar(c: char, rest: bytes)
    ensures DecodeChar(EncodeChar(c) + rest) == Some((c, |EncodeChar(c)|))
  {
    CharParts(c);
    var b := EncodeChar(c) + rest;
    assert forall i | 0 <= i < |EncodeChar(c)| :: b[i] == EncodeChar(c)[i];
  }

  lemma {:induction false} DecodeEncode(s: string)
    ensures Decode(Encode(s)) == Some(s)
    decreases |s|
  {
    hide EncodeChar, DecodeChar;
    if s != "" {
      DecodeEncode(s[1..]);
      DecodeMore(s[0], Encode(s[1..]));
      assert [s[0]] + s[1..] == s;
    }
  }

  /** Two of the examples in section 7 of RFC 3629. */
  lemma KnownTexts()
    ensures Encode("A\U{2262}\U{0391}.") == [0x41, 0xE2, 0x89, 0xA2, 0xCE, 0x91, 0x2E]
    ensures Encode("\U{233B4}") == [0xF0, 0xA3, 0x8E, 0xB4]
  {
    var s := "A\U{2262}\U{0391}.";
    assert s[1..][0] == '\U{2262}' && s[1..][1..][0] == '\U{0391}' && s[1..][1..][1..][0] == '.';
    assert s[1..][1..][1..][1..] == "";
    assert EncodeChar('\U{2262}') == [0xE2, 0x89, 0xA2] && EncodeChar('\U{0391}') == [0xCE, 0x91];
    assert EncodeChar('\U{233B4}') == [0xF0, 0xA3, 0x8E, 0xB4];
  }

  lemma DecodeMore(c: char, rest: bytes)
    requires Decode(rest).Some?
    ensures Decode(EncodeChar(c) + rest) == Some([c] + Decode(rest).value)
  {
    hide EncodeChar, DecodeChar;
    DecodeEncodeChar(c, rest);
    assert (EncodeChar(c) + rest)[|EncodeChar(c)|..] == rest;
  }

  /** A larger character has larger bytes, at the first place they differ. */
  lemma CharOrder(c: char, d: char)
    requires c < d
    ensures Below(EncodeChar(c), EncodeChar(d))
  {
    CharParts(c);
    CharParts(d);
    var x, y := EncodeChar(c), EncodeChar(d);
    if |x| == |y| {
      SameLengthChars(c, d);
    } else {
      assert x[0] < y[0];
    }
  }

  lemma SameLengthChars(c: char, d: char)
    requires c < d && |EncodeChar(c)| == |EncodeChar(d)|
    ensures Below(EncodeChar(c), EncodeChar(d))
  {
    hide Below;
    var x, y := EncodeChar(c), EncodeChar(d);
    if |x| == 1 { FirstDiffers(x, y, 0); }
    if |x| == 2 { PairsDiffer(c, d); }
    if |x| == 3 { TriplesDiffer(c, d); }
    if |x| == 4 { QuadsDiffer(c, d); }
  }

  lemma PairsDiffer(c: char, d: char)
    requires c < d && |EncodeChar(c)| == |EncodeChar(d)| == 2
    ensures Below(EncodeChar(c), EncodeChar(d))
  {
    hide Below;
    CharParts(c);
    CharParts(d);
    var x, y := EncodeChar(c), EncodeChar(d);
    FirstDiffers(x, y, if x[0] < y[0] then 0 else 1);
  }

  lemma TriplesDiffer(c: char, d: char)
    requires c < d && |EncodeChar(c)| == |EncodeChar(d)| == 3
    ensures Below(EncodeChar(c), EncodeChar(d))
  {
    hide Below;
    CharParts(c);
    CharParts(d);
    var x, y := EncodeChar(c), EncodeChar(d);
    FirstDiffers(x, y, if x[0] < y[0] then 0 else if x[1] < y[1] then 1 else 2);
  }

  lemma QuadsDiffer(c: char, d: char)
    requires c < d && |EncodeChar(c)| == |EncodeChar(d)| == 4
    ensures Below(EncodeChar(c), EncodeChar(d))
  {
    hide Below;
    CharParts(c);
    CharParts(d);
    var x, y := EncodeChar(c), EncodeChar(d);
    FirstDiffers(x, y, if x[0] < y[0] then 0 else if x[1] < y[1] then 1 else if x[2] < y[2] then 2 else 3);
  }

  lemma {:induction false} FirstDiffers(x: bytes, y: bytes, i: nat)
    requires i < |x| && i < |y| && x[i] < y[i] && forall j | 0 <= j < i :: x[j] == y[j]
    ensures Below(x, y)
    decreases i
  {
    if i > 0 { FirstDiffers(x[1..], y[1..], i - 1); }
  }

  /** Names compare as their UTF-8 bytes do. */
  lemma {:induction false} NameOrder(a: string, b: string)
    ensures NameLess(a, b) <==> LexLess(Encode(a), Encode(b))
    decreases |a|
  {
    hide EncodeChar, Below;
    if a != "" && b != "" {
      var x, y := EncodeChar(a[0]), EncodeChar(b[0]);
      if a[0] == b[0] {
        NameOrder(a[1..], b[1..]);
        LexPrepend(x, Encode(a[1..]), Encode(b[1..]));
      } else if a[0] < b[0] {
        CharOrder(a[0], b[0]);
        BelowAppend(x, y, Encode(a[1..]), Encode(b[1..]));
        BelowIsLess(Encode(a), Encode(b));
      } else {
        CharOrder(b[0], a[0]);
        BelowAppend(y, x, Encode(b[1..]), Encode(a[1..]));
        BelowIsLess(Encode(b), Encode(a));
        LexAsymmetric(Encode(b), Encode(a));
      }
    }
  }

  /** Different texts have different bytes. */
  lemma EncodeInjective(a: string, b: string)
    ensures Encode(a) == Encode(b) <==> a == b
  {
    hide Encode, Decode;
    DecodeEncode(a);
    DecodeEncode(b);
  }
}
