/**
 * `encodeURIComponent` and its inverse `decodeURIComponent`, following the
 * "URI Handling Functions" clause of ECMA-262 (Encode and Decode with an
 * empty reserved set). A Dafny `char` is a Unicode scalar value, so every
 * string here is well formed and the encoder never fails; each character
 * is written as the UTF-8 bytes of its scalar value, every byte as `%XY`
 * with upper-case hexadecimal digits (percent-encoding, section 2.1 of
 * RFC 3986), except the characters left unescaped.
 */
module UriComponent {
  import opened Wrappers
  import opened Text

  type Byte = b: int | 0 <= b < 256

  /**
   * The characters `encodeURIComponent` leaves as they are: the unreserved
   * characters of section 2.3 of RFC 3986 (letters, digits, `-._~`) and `!*'()`.
   */
  predicate IsUnreserved(c: char) {
    ('A' <= c <= 'Z') || ('a' <= c <= 'z') || ('0' <= c <= '9') ||
    c == '-' || c == '_' || c == '.' || c == '~' ||
    c == '!' || c == '*' || c == '\'' || c == '(' || c == ')'
  }

  const HexChars: string := "0123456789ABCDEF"

  function HexDigit(d: int): (h: char)
    requires 0 <= d < 16
    ensures IsUnreserved(h) && h != '%'
  {
    HexChars[d]
  }

  /** The value of a hexadecimal digit, either case. */
  function HexValue(h: char): (r: Option<int>)
    ensures r.Some? ==> 0 <= r.value < 16
  {
    if '0' <= h <= '9' then Some(h as int - '0' as int)
    else if 'A' <= h <= 'F' then Some(h as int - 'A' as int + 10)
    else if 'a' <= h <= 'f' then Some(h as int - 'a' as int + 10)
    else None
  }

  lemma HexDigitValue(d: int)
    requires 0 <= d < 16
    ensures HexValue(HexDigit(d)) == Some(d)
  {
  }

  /** One byte written as `%XY`. */
  function Escape(b: Byte): (e: string)
    ensures |e| == 3 && e[0] == '%' && e[1] != '%' && e[2] != '%'
  {
    ['%', HexDigit(b / 16), HexDigit(b % 16)]
  }

  lemma EscapeInjective(b: Byte, d: Byte)
    requires Escape(b) == Escape(d)
    ensures b == d
  {
    HexDigitValue(b / 16);
    HexDigitValue(b % 16);
    HexDigitValue(d / 16);
    HexDigitValue(d % 16);
    assert Escape(b)[1] == Escape(d)[1] && Escape(b)[2] == Escape(d)[2];
  }

  function EscapeBytes(bs: seq<Byte>): (e: string)
    ensures |e| == 3 * |bs|
  {
    if bs == [] then [] else Escape(bs[0]) + EscapeBytes(bs[1..])
  }

  /** The UTF-8 encoding of one scalar value: one byte below 0x80, else a lead byte and continuation bytes. */
  function Utf8(c: char): (bs: seq<Byte>)
    ensures 1 <= |bs| <= 4
    ensures |bs| == 1 <==> c as int < 0x80
    ensures |bs| == 1 ==> bs[0] == c as int
    ensures |bs| > 1 ==> forall i :: 0 <= i < |bs| ==> bs[i] >= 0x80
  {
    var n := c as int;
    if n < 0x80 then [n]
    else if n < 0x800 then [0xC0 + n / 64, 0x80 + n % 64]
    else if n < 0x10000 then [0xE0 + n / 4096, 0x80 + (n / 64) % 64, 0x80 + n % 64]
    else [0xF0 + n / 262144, 0x80 + (n / 4096) % 64, 0x80 + (n / 64) % 64, 0x80 + n % 64]
  }

  /** One character, left as it is when unreserved or in `keep`, escaped otherwise. */
  function EncodeChar(c: char, keep: set<char>): string {
    if c in keep || IsUnreserved(c) then [c] else EscapeBytes(Utf8(c))
  }

  /** Encodes every character of `s` except those in `keep`. */
  function EncodeExcept(s: string, keep: set<char>): (r: string)
    ensures forall i :: 0 <= i < |r| ==> r[i] in keep || IsUnreserved(r[i]) || r[i] == '%'
  {
    if s == [] then []
    else
      var head := EncodeChar(s[0], keep);
      assert forall i :: 0 <= i < |head| ==> head[i] in keep || IsUnreserved(head[i]) || head[i] == '%' by {
        if !(s[0] in keep || IsUnreserved(s[0])) {
          EscapeBytesAlphabet(Utf8(s[0]));
        }
      }
      head + EncodeExcept(s[1..], keep)
  }

  lemma {:induction false} EscapeBytesAlphabet(bs: seq<Byte>)
    ensures forall i :: 0 <= i < |EscapeBytes(bs)| ==> IsUnreserved(EscapeBytes(bs)[i]) || EscapeBytes(bs)[i] == '%'
  {
    if bs != [] {
      EscapeBytesAlphabet(bs[1..]);
    }
  }

  /** `encodeURIComponent(s)`. */
  function EncodeUriComponent(s: string): (r: string)
    ensures forall i :: 0 <= i < |r| ==> IsUnreserved(r[i]) || r[i] == '%'
  {
    EncodeExcept(s, {})
  }

  // ---------------------------------------------------------------------
  // Decoding: the inverse the encoder is checked against.

  /** The byte written as `%XY` at index `i` of `s`, if there is one. */
  function ByteAt(s: string, i: nat): (r: Option<Byte>)
    ensures r.Some? ==> i + 3 <= |s| && s[i] == '%'
  {
    if i + 3 <= |s| && s[i] == '%' then
      match (HexValue(s[i + 1]), HexValue(s[i + 2]))
      case (Some(h), Some(l)) => Some(h * 16 + l)
      case _ => None
    else None
  }

  /**
   * Reads `n` continuation bytes (`10xxxxxx`) escaped from index `i` on,
   * shifting their six payload bits into `acc`.
   */
  function Continuations(s: string, i: nat, n: nat, acc: int): (r: Option<int>)
    ensures r.Some? && n > 0 ==> i + 3 * n <= |s|
    decreases n
  {
    if n == 0 then Some(acc)
    else match ByteAt(s, i)
      case None => None
      case Some(b) =>
        if 0x80 <= b < 0xC0 then Continuations(s, i + 3, n - 1, acc * 64 + (b - 0x80)) else None
  }

  /** A decoded scalar value is accepted only if it is in range, not overlong and not a surrogate. */
  function Finish(s: string, lead: int, n: nat, min: int): (r: Option<(char, nat)>)
    requires n > 0 && min > 0
    ensures r.Some? ==> 3 <= r.value.1 <= |s|
  {
    match Continuations(s, 3, n, lead)
    case None => None
    case Some(v) =>
      if min <= v <= 0x10FFFF && !(0xD800 <= v < 0xE000) then Some((v as char, 3 * (n + 1))) else None
  }

  /** Decodes the escaped UTF-8 sequence at the start of `s`: the character and how many characters it took. */
  function DecodeEscape(s: string): (r: Option<(char, nat)>)
    ensures r.Some? ==> 3 <= r.value.1 <= |s|
  {
    match ByteAt(s, 0)
    case None => None
    case Some(b0) =>
      if b0 < 0x80 then Some((b0 as char, 3))
      else if b0 < 0xC0 then None
      else if b0 < 0xE0 then Finish(s, b0 - 0xC0, 1, 0x80)
      else if b0 < 0xF0 then Finish(s, b0 - 0xE0, 2, 0x800)
      else if b0 < 0xF8 then Finish(s, b0 - 0xF0, 3, 0x10000)
      else None
  }

  /** `decodeURIComponent(s)`; `None` where it throws a URIError. */
  function DecodeUriComponent(s: string): Option<string>
    decreases |s|
  {
    if s == [] then Some([])
    else if s[0] != '%' then
      match DecodeUriComponent(s[1..])
      case None => None
      case Some(t) => Some([s[0]] + t)
    else
      match DecodeEscape(s)
      case None => None
      case Some((c, n)) =>
        match DecodeUriComponent(s[n..])
        case None => None
        case Some(t) => Some([c] + t)
  }

  lemma {:induction false} EscapeBytesAt(bs: seq<Byte>, t: string, j: nat)
    requires j < |bs|
    ensures (EscapeBytes(bs) + t)[3 * j .. 3 * j + 3] == Escape(bs[j])
  {
    var e := EscapeBytes(bs);
    assert (e + t)[3 * j .. 3 * j + 3] == e[3 * j .. 3 * j + 3];
    EscapedSlice(bs, j);
  }

  lemma {:induction false} EscapedSlice(bs: seq<Byte>, j: nat)
    requires j < |bs|
    ensures EscapeBytes(bs)[3 * j .. 3 * j + 3] == Escape(bs[j])
  {
    var head, rest := Escape(bs[0]), EscapeBytes(bs[1..]);
    assert EscapeBytes(bs) == head + rest;
    if j > 0 {
      EscapedSlice(bs[1..], j - 1);
      SliceAfter(head, rest, 3 * (j - 1), 3);
    }
  }

  lemma SliceAfter(a: string, b: string, i: nat, n: nat)
    requires i + n <= |b|
    ensures (a + b)[|a| + i .. |a| + i + n] == b[i .. i + n]
  {
  }

  lemma {:induction false} ByteAtOfEscape(s: string, i: nat, b: Byte)
    requires i + 3 <= |s| && s[i..i + 3] == Escape(b)
    ensures ByteAt(s, i) == Some(b)
  {
    assert s[i] == Escape(b)[0] && s[i + 1] == Escape(b)[1] && s[i + 2] == Escape(b)[2];
    HexDigitValue(b / 16);
    HexDigitValue(b % 16);
  }

  lemma {:induction false} ByteAtEscaped(bs: seq<Byte>, t: string, j: nat)
    requires j < |bs|
    ensures ByteAt(EscapeBytes(bs) + t, 3 * j) == Some(bs[j])
  {
    var s := EscapeBytes(bs) + t;
    assert 3 * j + 3 <= |s|;
    EscapeBytesAt(bs, t, j);
    ByteAtOfEscape(s, 3 * j, bs[j]);
  }

  lemma Base64Digits(n: int)
    requires n >= 0
    ensures (n / 64) * 64 + n % 64 == n
    ensures (n / 4096) * 64 + (n / 64) % 64 == n / 64
    ensures (n / 262144) * 64 + (n / 4096) % 64 == n / 4096
  {
  }

  lemma {:induction false} DecodeTwoBytes(c: char, t: string)
    requires 0x80 <= c as int < 0x800
    ensures DecodeEscape(EscapeBytes(Utf8(c)) + t) == Some((c, 6))
  {
    var bs, n := Utf8(c), c as int;
    var s := EscapeBytes(bs) + t;
    Base64Digits(n);
    ByteAtEscaped(bs, t, 0);
    ByteAtEscaped(bs, t, 1);
    DecodeLeadOfTwo(s, bs[0], bs[1]);
  }

  /** An escaped two-byte sequence decodes to its lead's five bits followed by the continuation's six. */
  lemma {:induction false} DecodeLeadOfTwo(s: string, b0: Byte, b1: Byte)
    requires ByteAt(s, 0) == Some(b0) && 0xC0 <= b0 < 0xE0
    requires ByteAt(s, 3) == Some(b1) && 0x80 <= b1 < 0xC0
    requires (b0 - 0xC0) * 64 + (b1 - 0x80) >= 0x80
    ensures DecodeEscape(s) == Some((((b0 - 0xC0) * 64 + (b1 - 0x80)) as char, 6))
  {
    ContinuationsAt(s, 3, b1, 0, b0 - 0xC0);
  }

  lemma {:induction false} DecodeThreeBytes(c: char, t: string)
    requires 0x800 <= c as int < 0x10000
    ensures DecodeEscape(EscapeBytes(Utf8(c)) + t) == Some((c, 9))
  {
    var bs, n := Utf8(c), c as int;
    var s := EscapeBytes(bs) + t;
    Base64Digits(n);
    ByteAtEscaped(bs, t, 0);
    ByteAtEscaped(bs, t, 1);
    ByteAtEscaped(bs, t, 2);
    DecodeLeadOfThree(s, bs[0], bs[1], bs[2]);
  }

  /** An escaped three-byte sequence decodes to its lead's four bits followed by six from each continuation. */
  lemma {:induction false} DecodeLeadOfThree(s: string, b0: Byte, b1: Byte, b2: Byte)
    requires ByteAt(s, 0) == Some(b0) && 0xE0 <= b0 < 0xF0
    requires ByteAt(s, 3) == Some(b1) && 0x80 <= b1 < 0xC0
    requires ByteAt(s, 6) == Some(b2) && 0x80 <= b2 < 0xC0
    requires var v := ((b0 - 0xE0) * 64 + (b1 - 0x80)) * 64 + (b2 - 0x80); v >= 0x800 && !(0xD800 <= v < 0xE000)
    ensures DecodeEscape(s) == Some(((((b0 - 0xE0) * 64 + (b1 - 0x80)) * 64 + (b2 - 0x80)) as char, 9))
  {
    ContinuationsAt(s, 3, b1, 1, b0 - 0xE0);
    ContinuationsAt(s, 6, b2, 0, (b0 - 0xE0) * 64 + (b1 - 0x80));
  }

  lemma ContinuationsAt(s: string, i: nat, b: Byte, n: nat, acc: int)
    requires ByteAt(s, i) == Some(b) && 0x80 <= b < 0xC0
    ensures Continuations(s, i, n + 1, acc) == Continuations(s, i + 3, n, acc * 64 + (b - 0x80))
  {
  }

  lemma {:induction false} DecodeFourBytes(c: char, t: string)
    requires 0x10000 <= c as int
    ensures DecodeEscape(EscapeBytes(Utf8(c)) + t) == Some((c, 12))
  {
    var bs, n := Utf8(c), c as int;
    var s := EscapeBytes(bs) + t;
    Base64Digits(n);
    ByteAtEscaped(bs, t, 0);
    ByteAtEscaped(bs, t, 1);
    ByteAtEscaped(bs, t, 2);
    ByteAtEscaped(bs, t, 3);
    DecodeLeadOfFour(s, bs[0], bs[1], bs[2], bs[3]);
  }

  /** An escaped four-byte sequence decodes to its lead's three bits followed by six from each continuation. */
  lemma {:induction false} DecodeLeadOfFour(s: string, b0: Byte, b1: Byte, b2: Byte, b3: Byte)
    requires ByteAt(s, 0) == Some(b0) && 0xF0 <= b0 < 0xF8
    requires ByteAt(s, 3) == Some(b1) && 0x80 <= b1 < 0xC0
    requires ByteAt(s, 6) == Some(b2) && 0x80 <= b2 < 0xC0
    requires ByteAt(s, 9) == Some(b3) && 0x80 <= b3 < 0xC0
    requires var v := (((b0 - 0xF0) * 64 + (b1 - 0x80)) * 64 + (b2 - 0x80)) * 64 + (b3 - 0x80); 0x10000 <= v <= 0x10FFFF
    ensures DecodeEscape(s) == Some((((((b0 - 0xF0) * 64 + (b1 - 0x80)) * 64 + (b2 - 0x80)) * 64 + (b3 - 0x80)) as char, 12))
  {
    var v1 := (b0 - 0xF0) * 64 + (b1 - 0x80);
    var v2 := v1 * 64 + (b2 - 0x80);
    ContinuationsAt(s, 3, b1, 2, b0 - 0xF0);
    ContinuationsAt(s, 6, b2, 1, v1);
    ContinuationsAt(s, 9, b3, 0, v2);
    assert Continuations(s, 3, 3, b0 - 0xF0) == Some(v2 * 64 + (b3 - 0x80));
  }

  /** Decoding the escapes of one character's UTF-8 bytes gives that character back. */
  lemma {:induction false} DecodeEscapedChar(c: char, t: string)
    ensures DecodeEscape(EscapeBytes(Utf8(c)) + t) == Some((c, 3 * |Utf8(c)|))
  {
    var n := c as int;
    if n < 0x80 {
      ByteAtEscaped(Utf8(c), t, 0);
    } else if n < 0x800 {
      DecodeTwoBytes(c, t);
    } else if n < 0x10000 {
      DecodeThreeBytes(c, t);
    } else {
      DecodeFourBytes(c, t);
    }
  }

  lemma DecodeLiteralCons(c: char, rest: string, t: string)
    requires c != '%' && DecodeUriComponent(rest) == Some(t)
    ensures DecodeUriComponent([c] + rest) == Some([c] + t)
  {
    assert ([c] + rest)[1..] == rest;
  }

  lemma DecodeEscapedCons(c: char, rest: string, t: string)
    requires DecodeUriComponent(rest) == Some(t)
    ensures DecodeUriComponent(EscapeBytes(Utf8(c)) + rest) == Some([c] + t)
  {
    var e := EscapeBytes(Utf8(c));
    DecodeEscapedChar(c, rest);
    assert (e + rest)[0] == '%';
    assert (e + rest)[|e|..] == rest;
  }

  /** Decoding undoes encoding, whatever characters were kept literal (other than `%`). */
  lemma {:induction false} DecodeEncodeExcept(s: string, keep: set<char>)
    requires '%' !in keep
    ensures DecodeUriComponent(EncodeExcept(s, keep)) == Some(s)
  {
    if s != [] {
      var rest := EncodeExcept(s[1..], keep);
      DecodeEncodeExcept(s[1..], keep);
      assert EncodeExcept(s, keep) == EncodeChar(s[0], keep) + rest;
      assert s == [s[0]] + s[1..];
      if s[0] in keep || IsUnreserved(s[0]) {
        DecodeLiteralCons(s[0], rest, s[1..]);
      } else {
        DecodeEscapedCons(s[0], rest, s[1..]);
      }
    }
  }

  /** `decodeURIComponent(encodeURIComponent(s)) == s`. */
  lemma DecodeEncode(s: string)
    ensures DecodeUriComponent(EncodeUriComponent(s)) == Some(s)
  {
    DecodeEncodeExcept(s, {});
  }

  // ---------------------------------------------------------------------
  // Replacing one escape by its literal character.

  lemma ReplaceSkipsEscape(b: Byte, t: string, pb: Byte, rep: string)
    requires b != pb
    ensures ReplaceAll(Escape(b) + t, Escape(pb), rep) == Escape(b) + ReplaceAll(t, Escape(pb), rep)
  {
    if Escape(b) == Escape(pb) {
      EscapeInjective(b, pb);
    }
    ReplaceSkipsPiece(Escape(b), t, Escape(pb), rep);
  }

  lemma {:induction false} ReplaceSkipsEscapes(bs: seq<Byte>, t: string, pb: Byte, rep: string)
    requires pb !in bs
    ensures ReplaceAll(EscapeBytes(bs) + t, Escape(pb), rep) == EscapeBytes(bs) + ReplaceAll(t, Escape(pb), rep)
  {
    var pat := Escape(pb);
    if bs == [] {
      assert EscapeBytes(bs) + t == t;
    } else {
      var head, rest := Escape(bs[0]), EscapeBytes(bs[1..]);
      assert EscapeBytes(bs) == head + rest;
      ReplaceSkipsEscape(bs[0], rest + t, pb, rep);
      ReplaceSkipsEscapes(bs[1..], t, pb, rep);
      ReplaceThroughPrefix(head, rest, t, pat, rep);
    }
  }

  /**
   * Replacing every escape of the ASCII character `x` by `x` itself turns an
   * encoding that escaped `x` into one that keeps it literal.
   */
  lemma {:induction false} RestoreLiteral(s: string, keep: set<char>, x: char)
    requires x as int < 0x80 && x != '%' && !IsUnreserved(x) && '%' !in keep
    ensures ReplaceAll(EncodeExcept(s, keep), Escape(x as int), [x]) == EncodeExcept(s, keep + {x})
  {
    var pat := Escape(x as int);
    if s != [] {
      var c := s[0];
      var tail := EncodeExcept(s[1..], keep);
      RestoreLiteral(s[1..], keep, x);
      if c in keep || IsUnreserved(c) {
        ReplaceSkipsChar(c, tail, pat, [x]);
      } else if c == x {
        assert EncodeChar(c, keep) == pat;
        assert (pat + tail)[..3] == pat && (pat + tail)[3..] == tail;
      } else {
        ReplaceSkipsEscapes(Utf8(c), tail, x as int, [x]);
      }
    }
  }
}
