/**
 * Kotlin (JVM) strings: a `String` is a sequence of UTF-16 code units, and `length`,
 * `substring` and `chunked` count and cut code units. A character outside the Basic
 * Multilingual Plane is two units (a surrogate pair), so a cut may fall between them.
 * A Dafny `string` is a sequence of Unicode scalar values; `Utf16` encodes one as a Kotlin
 * string and `Decode` reads it back.
 */
module KotlinText {
  import opened Wrappers

  /** One UTF-16 code unit (a Kotlin `Char`). */
  newtype CodeUnit = x: int | 0 <= x < 0x1_0000

  /** A Kotlin `String`. */
  type KString = seq<CodeUnit>

  predicate IsHighSurrogate(u: CodeUnit) {
    0xD800 <= u < 0xDC00
  }

  predicate IsLowSurrogate(u: CodeUnit) {
    0xDC00 <= u < 0xE000
  }

  /** A character outside the Basic Multilingual Plane, written as two code units. */
  predicate IsSupplementary(c: char) {
    c as int >= 0x1_0000
  }

  /** The code units of one character: itself, or a high and a low surrogate. */
  function EncodeChar(c: char): (r: KString)
    ensures |r| == (if IsSupplementary(c) then 2 else 1)
  {
    var v := c as int;
    if v < 0x1_0000 then [v as CodeUnit]
    else
      var w := v - 0x1_0000;
      [(0xD800 + w / 0x400) as CodeUnit, (0xDC00 + w % 0x400) as CodeUnit]
  }

  /** The Kotlin string holding a text. */
  function Utf16(s: string): KString
    decreases |s|
  {
    if s == [] then [] else EncodeChar(s[0]) + Utf16(s[1..])
  }

  /** The number of characters that take two code units. */
  function SupplementaryCount(s: string): nat
    decreases |s|
  {
    if s == [] then 0 else (if IsSupplementary(s[0]) then 1 else 0) + SupplementaryCount(s[1..])
  }

  /** Reading code units back as text; an unpaired surrogate is not a text. */
  function Decode(u: KString): Option<string>
    decreases |u|
  {
    if u == [] then Some([])
    else if |u| >= 2 && IsHighSurrogate(u[0]) && IsLowSurrogate(u[1]) then
      var v := 0x1_0000 + (u[0] as int - 0xD800) * 0x400 + (u[1] as int - 0xDC00);
      match Decode(u[2..])
      case None => None
      case Some(rest) => Some([v as char] + rest)
    else if IsHighSurrogate(u[0]) || IsLowSurrogate(u[0]) then None
    else
      match Decode(u[1..])
      case None => None
      case Some(rest) => Some([u[0] as int as char] + rest)
  }

  /** Decoding undoes encoding, so different texts are different Kotlin strings. */
  lemma {:induction false} DecodeUtf16(s: string)
    ensures Decode(Utf16(s)) == Some(s)
    decreases |s|
  {
    if s != [] {
      DecodeUtf16(s[1..]);
      var c := s[0];
      var e := EncodeChar(c);
      var u := Utf16(s);
      assert u == e + Utf16(s[1..]);
      if IsSupplementary(c) {
        var w := c as int - 0x1_0000;
        assert w == (w / 0x400) * 0x400 + w % 0x400;
        assert u[2..] == Utf16(s[1..]);
      } else {
        assert u[1..] == Utf16(s[1..]);
      }
      assert s == [c] + s[1..];
    }
  }

  lemma Utf16Injective(s: string, t: string)
    requires Utf16(s) == Utf16(t)
    ensures s == t
  {
    DecodeUtf16(s);
    DecodeUtf16(t);
  }

  /** Encoding a concatenation encodes each part. */
  lemma {:induction false} Utf16Append(a: string, b: string)
    ensures Utf16(a + b) == Utf16(a) + Utf16(b)
    decreases |a|
  {
    if a == [] {
      assert a + b == b;
    } else {
      assert (a + b)[0] == a[0] && (a + b)[1..] == a[1..] + b;
      Utf16Append(a[1..], b);
    }
  }

  /** Kotlin's `length`: one unit per character, plus one for each supplementary character. */
  lemma {:induction false} Utf16Length(s: string)
    ensures |Utf16(s)| == |s| + SupplementaryCount(s)
    decreases |s|
  {
    if s != [] {
      Utf16Length(s[1..]);
    }
  }

  /** A text made only of supplementary characters has twice as many code units. */
  lemma {:induction false} AllSupplementaryDouble(s: string)
    requires forall i :: 0 <= i < |s| ==> IsSupplementary(s[i])
    ensures |Utf16(s)| == 2 * |s|
    decreases |s|
  {
    if s != [] {
      AllSupplementaryDouble(s[1..]);
    }
  }
}
