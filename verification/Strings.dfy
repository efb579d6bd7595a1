/** Names as CFileDataIO stores them (src/SafeFile.cpp): UTF-8 as RFC 3629 has it, handed about as C strings,
    with the byte order mark and the Latin-1 fallback of its reader. */
module Strings {
  import opened Common

  /** A Unicode scalar value. */
  type Rune = n: int | 0 <= n < 0x11_0000 && !(0xD800 <= n < 0xE000)

  type Text = seq<Rune>

  const BOM: Rune := 0xFEFF
  const BOM_BYTES: seq<byte> := [0xEF, 0xBB, 0xBF]

  // ----- UTF-8 -----

  function EncodeRune(c: Rune): (s: seq<byte>)
    ensures 1 <= |s| <= 4
  {
    if c < 0x80 then [c]
    else if c < 0x800 then [0xC0 + c / 0x40, 0x80 + c % 0x40]
    else if c < 0x1_0000 then [0xE0 + c / 0x1000, 0x80 + c / 0x40 % 0x40, 0x80 + c % 0x40]
    else [0xF0 + c / 0x4_0000, 0x80 + c / 0x1000 % 0x40, 0x80 + c / 0x40 % 0x40, 0x80 + c % 0x40]
  }

  predicate Continues(b: byte) {
    0x80 <= b < 0xC0
  }

  /** The bits of a byte under its marker. */
  function Below(b: byte, marker: nat): int {
    b - marker
  }

  predicate ScalarFrom(n: int, least: nat) {
    least <= n < 0x11_0000 && !(0xD800 <= n < 0xE000)
  }

  /** The first character, in its shortest form only. */
  function RuneAt(s: seq<byte>): (r: Option<(Rune, seq<byte>)>)
    ensures r.Some? ==> |r.value.1| < |s|
  {
    if s == [] then None
    else if s[0] < 0x80 then Some((s[0], s[1..]))
    else if 0xC0 <= s[0] < 0xE0 && |s| >= 2 && Continues(s[1]) then
      var n := Below(s[0], 0xC0) * 0x40 + Below(s[1], 0x80);
      if ScalarFrom(n, 0x80) then Some((n, s[2..])) else None
    else if 0xE0 <= s[0] < 0xF0 && |s| >= 3 && Continues(s[1]) && Continues(s[2]) then
      var n := Below(s[0], 0xE0) * 0x1000 + Below(s[1], 0x80) * 0x40 + Below(s[2], 0x80);
      if ScalarFrom(n, 0x800) then Some((n, s[3..])) else None
    else if 0xF0 <= s[0] < 0xF8 && |s| >= 4 && Continues(s[1]) && Continues(s[2]) && Continues(s[3]) then
      var n := Below(s[0], 0xF0) * 0x4_0000 + Below(s[1], 0x80) * 0x1000 + Below(s[2], 0x80) * 0x40 + Below(s[3], 0x80);
      if ScalarFrom(n, 0x1_0000) then Some((n, s[4..])) else None
    else None
  }

  function Utf8(t: Text): seq<byte> {
    if t == [] then [] else EncodeRune(t[0]) + Utf8(t[1..])
  }

  function FromUtf8(s: seq<byte>): Option<Text> {
    if s == [] then Some([])
    else match RuneAt(s)
      case None => None
      case Some((c, more)) =>
        match FromUtf8(more)
        case None => None
        case Some(t) => Some([c] + t)
  }

  lemma RuneRoundTrip(c: Rune, more: seq<byte>)
    ensures RuneAt(EncodeRune(c) + more) == Some((c, more))
  {
    var s := EncodeRune(c);
    assert (s + more)[|s|..] == more;
    assert forall i | 0 <= i < |s| :: (s + more)[i] == s[i];
    Digits(c);
  }

  lemma Digits(c: nat)
    ensures c == c / 0x40 * 0x40 + c % 0x40
    ensures c / 0x40 == c / 0x1000 * 0x40 + c / 0x40 % 0x40
    ensures c / 0x1000 == c / 0x4_0000 * 0x40 + c / 0x1000 % 0x40
  {}

  lemma {:induction false} Utf8RoundTrip(t: Text)
    ensures FromUtf8(Utf8(t)) == Some(t)
  {
    if t != [] {
      RuneRoundTrip(t[0], Utf8(t[1..]));
      Utf8RoundTrip(t[1..]);
      assert [t[0]] + t[1..] == t;
    }
  }

  /** The table of section 3 of RFC 3629: how many bytes a character takes, and where its bits are in them. */
  lemma RuneBits(c: Rune)
    ensures var s := EncodeRune(c);
            && |s| == (if c <= 0x7F then 1 else if c <= 0x7FF then 2 else if c <= 0xFFFF then 3 else 4)
            && (forall i | 1 <= i < |s| :: 0x80 <= s[i] <= 0xBF)
            && c == match |s|
                    case 1 => s[0] as int
                    case 2 => 0x40 * (s[0] - 0xC0) as int + (s[1] - 0x80) as int
                    case 3 => 0x1000 * (s[0] - 0xE0) as int + 0x40 * (s[1] - 0x80) as int + (s[2] - 0x80) as int
                    case _ => 0x4_0000 * (s[0] - 0xF0) as int + 0x1000 * (s[1] - 0x80) as int
                              + 0x40 * (s[2] - 0x80) as int + (s[3] - 0x80) as int
  {
    Digits(c);
  }

  /** Six bits at a time. */
  lemma SixBits(a: int, b: int)
    requires 0 <= a && 0 <= b < 0x40
    ensures (a * 0x40 + b) / 0x40 == a && (a * 0x40 + b) % 0x40 == b
  {}

  lemma EncodesTo(a: nat, b: nat, c: nat, d: nat)
    requires b < 0x40 && c < 0x40 && d < 0x40
    ensures var n := a * 0x40 + b;
            0x80 <= n < 0x800 ==> EncodeRune(n) == [0xC0 + a, 0x80 + b]
    ensures var n := (a * 0x40 + b) * 0x40 + c;
            0x800 <= n < 0x1_0000 && !(0xD800 <= n < 0xE000) ==> EncodeRune(n) == [0xE0 + a, 0x80 + b, 0x80 + c]
    ensures var n := ((a * 0x40 + b) * 0x40 + c) * 0x40 + d;
            0x1_0000 <= n < 0x11_0000 ==> EncodeRune(n) == [0xF0 + a, 0x80 + b, 0x80 + c, 0x80 + d]
  {
    var n := a * 0x40 + b;
    SixBits(a, b);
    SixBits(n, c);
    SixBits(n * 0x40 + c, d);
    assert ((n * 0x40 + c) * 0x40 + d) / 0x1000 == n;
    assert (n * 0x40 + c) / 0x1000 == a;
    assert ((n * 0x40 + c) * 0x40 + d) / 0x4_0000 == a;
  }

  lemma RuneIsShortest(s: seq<byte>)
    requires RuneAt(s).Some?
    ensures var (c, more) := RuneAt(s).value; s == EncodeRune(c) + more
  {
    if s[0] < 0x80 {
      assert s == [s[0]] + s[1..];
    } else if s[0] < 0xE0 {
      EncodesTo(s[0] - 0xC0, s[1] - 0x80, 0, 0);
      assert s == [s[0], s[1]] + s[2..];
    } else if s[0] < 0xF0 {
      EncodesTo(s[0] - 0xE0, s[1] - 0x80, s[2] - 0x80, 0);
      assert s == [s[0], s[1], s[2]] + s[3..];
    } else {
      FourAreShortest(s);
    }
  }

  lemma FourAreShortest(s: seq<byte>)
    requires s != [] && s[0] >= 0xF0 && RuneAt(s).Some?
    ensures var (c, more) := RuneAt(s).value; s == EncodeRune(c) + more
  {
    EncodesTo(s[0] - 0xF0, s[1] - 0x80, s[2] - 0x80, s[3] - 0x80);
    assert s == [s[0], s[1], s[2], s[3]] + s[4..];
  }

  /** Nothing but the UTF-8 form of a text decodes to it: overlong forms, surrogates and what is out of range do not
      decode at all. */
  lemma {:induction false} OnlyUtf8Decodes(s: seq<byte>, t: Text)
    ensures FromUtf8(s) == Some(t) <==> s == Utf8(t)
    decreases |s|
  {
    if s == Utf8(t) {
      Utf8RoundTrip(t);
    } else if s != [] && RuneAt(s).Some? {
      var (c, more) := RuneAt(s).value;
      RuneIsShortest(s);
      if FromUtf8(s) == Some(t) {
        OnlyUtf8Decodes(more, t[1..]);
      }
    }
  }

  lemma {:induction false} Utf8IsShort(t: Text)
    ensures |Utf8(t)| <= 4 * |t|
  {
    if t != [] {
      Utf8IsShort(t[1..]);
    }
  }

  // ----- C strings -----

  /** What `strlen` sees: everything up to a zero. */
  function UpToZero<T(==)>(s: seq<T>, zero: T): (r: seq<T>)
    ensures |r| <= |s| && zero !in r
  {
    if s == [] || s[0] == zero then [] else [s[0]] + UpToZero(s[1..], zero)
  }

  lemma {:induction false} UpToZeroJoins(s: seq<byte>, more: seq<byte>)
    requires 0 !in s
    ensures UpToZero(s + more, 0) == s + UpToZero(more, 0)
  {
    if s == [] {
      assert s + more == more;
    } else {
      assert (s + more)[1..] == s[1..] + more;
      UpToZeroJoins(s[1..], more);
    }
  }

  lemma {:induction false} ZeroEndsIt(t: Text)
    ensures UpToZero(Utf8(t), 0) == Utf8(UpToZero(t, 0))
  {
    if t != [] {
      if t[0] == 0 {
        assert Utf8(t)[0] == 0;
      } else {
        UpToZeroJoins(EncodeRune(t[0]), Utf8(t[1..]));
        ZeroEndsIt(t[1..]);
        assert UpToZero(t, 0)[1..] == UpToZero(t[1..], 0);
      }
    }
  }

  // ----- Writing a string and reading it back -----

  /** The bytes WriteString puts after a two-byte length, in the raw UTF-8 encoding. */
  function StringBytes(t: Text): (s: seq<byte>)
    ensures |s| <= 0xFFFF
  {
    var s := UpToZero(Utf8(t), 0);
    if |s| > 0xFFFF then s[..0xFFFF] else s
  }

  function Decoded(s: seq<byte>): Text {
    match FromUtf8(UpToZero(s, 0))
    case Some(t) => t
    case None => []
  }

  /** ReadOnlyString with the UTF-8 option. */
  function StringFrom(raw: seq<byte>): Text {
    if BOM_BYTES <= raw then Decoded(raw[3..])
    else
      var t := Decoded(raw);
      if t == [] then seq(|raw|, i requires 0 <= i < |raw| => raw[i]) else t
  }

  predicate StartsWithMark(t: Text) {
    t != [] && t[0] == BOM
  }

  /** A string ends at a NUL, and a byte order mark in front of it is not part of it. */
  function Kept(t: Text): Text {
    var s := UpToZero(t, 0);
    if StartsWithMark(s) then s[1..] else s
  }

  lemma MarkIsMark(t: Text)
    ensures BOM_BYTES <= Utf8(t) <==> StartsWithMark(t)
    ensures StartsWithMark(t) ==> Utf8(t)[3..] == Utf8(t[1..])
  {
    if t != [] {
      RuneRoundTrip(t[0], Utf8(t[1..]));
      RuneRoundTrip(BOM, []);
      assert EncodeRune(BOM) == BOM_BYTES;
      if BOM_BYTES <= Utf8(t) {
        assert RuneAt(Utf8(t)).value.0 == BOM;
      }
    }
  }

  /** Reading back a string that fits gives what was written up to a NUL, less a byte order mark in front. */
  lemma ReadsBack(t: Text)
    requires |Utf8(t)| <= 0xFFFF
    ensures StringFrom(StringBytes(t)) == Kept(t)
  {
    var s := UpToZero(t, 0);
    ZeroEndsIt(t);
    MarkIsMark(s);
    var rest := if StartsWithMark(s) then s[1..] else s;
    assert 0 !in rest;
    NoZeros(rest, 0);
    ZeroEndsIt(rest);
    Utf8RoundTrip(rest);
  }

  lemma {:induction false} NoZeros<T>(s: seq<T>, zero: T)
    requires zero !in s
    ensures UpToZero(s, zero) == s
  {
    if s != [] {
      NoZeros(s[1..], zero);
    }
  }

  /** What is not UTF-8 at all is read byte by byte as Latin-1. */
  lemma MalformedIsLatin1(raw: seq<byte>)
    requires raw != [] && 0 !in raw && !(BOM_BYTES <= raw) && forall t: Text :: Utf8(t) != raw
    ensures |StringFrom(raw)| == |raw| && forall i | 0 <= i < |raw| :: StringFrom(raw)[i] == raw[i]
  {
    NoZeros(raw, 0);
    if FromUtf8(raw).Some? {
      OnlyUtf8Decodes(raw, FromUtf8(raw).value);
    }
  }

  /** So it comes back unchanged exactly when it has neither. */
  lemma ReadsBackWhole(t: Text)
    requires |Utf8(t)| <= 0xFFFF
    ensures StringFrom(StringBytes(t)) == t <==> 0 !in t && !StartsWithMark(t)
  {
    ReadsBack(t);
    if 0 !in t {
      NoZeros(t, 0);
    }
  }
}
