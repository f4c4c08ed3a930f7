/** Strings as the proxy sees them. Decoders and case maps are parameters: every result holds for all of them.
    Validity of UTF-8, trimming and substring search are written out. */
module Texts {
  import opened Bytes

  /** `decode8` is `String::from_utf8_lossy`, `decode16` is `String::from_utf16_lossy`, `encode8`/`encode16` are
      `as_bytes`/`encode_utf16`, `upper`/`lower` the case maps. */
  datatype Codec = Codec(decode8: Bytes -> string, decode16: seq<Unit16> -> string,
                         encode8: string -> Bytes, encode16: string -> seq<Unit16>,
                         upper: string -> string, lower: string -> string)
  {
    function Lossy8(b: Bytes): string {
      if b == [] then "" else decode8(b)
    }

    function Lossy16(u: seq<Unit16>): string {
      if u == [] then "" else decode16(u)
    }
  }

  /** The decoders are the codec's, and nothing decodes to the empty string. */
  lemma LossyIsTheDecoder(t: Codec, b: Bytes, u: seq<Unit16>)
    ensures t.Lossy8([]) == "" && t.Lossy16([]) == ""
    ensures b != [] ==> t.Lossy8(b) == t.decode8(b)
    ensures u != [] ==> t.Lossy16(u) == t.decode16(u)
  {
  }

  // ---------- UTF-8 validity ----------

  predicate Continues(s: Bytes, i: nat, lo: int, hi: int) {
    i < |s| && lo <= s[i] <= hi
  }

  /** The width of the well-formed code point at the head of s, or 0 (table 3-7 of the Unicode Standard). */
  function Utf8Width(s: Bytes): (w: nat)
    ensures w <= |s|
  {
    if s == [] then 0
    else if s[0] < 0x80 then 1
    else if 0xC2 <= s[0] <= 0xDF then if Continues(s, 1, 0x80, 0xBF) then 2 else 0
    else if 0xE0 <= s[0] <= 0xEF then
      var lo := if s[0] == 0xE0 then 0xA0 else 0x80;
      var hi := if s[0] == 0xED then 0x9F else 0xBF;
      if Continues(s, 1, lo, hi) && Continues(s, 2, 0x80, 0xBF) then 3 else 0
    else if 0xF0 <= s[0] <= 0xF4 then
      var lo := if s[0] == 0xF0 then 0x90 else 0x80;
      var hi := if s[0] == 0xF4 then 0x8F else 0xBF;
      if Continues(s, 1, lo, hi) && Continues(s, 2, 0x80, 0xBF) && Continues(s, 3, 0x80, 0xBF) then 4 else 0
    else 0
  }

  predicate Utf8Valid(s: Bytes) {
    s == [] || (Utf8Width(s) > 0 && Utf8Valid(s[Utf8Width(s)..]))
  }

  lemma {:induction false} AsciiIsUtf8(s: Bytes)
    requires forall i :: 0 <= i < |s| ==> s[i] < 0x80
    ensures Utf8Valid(s)
  {
    if s != [] {
      AsciiIsUtf8(s[1..]);
    }
  }

  /** A Unicode scalar value. */
  type Scalar = n: int | 0 <= n < 0xD800 || 0xE000 <= n < 0x11_0000

  /** The UTF-8 encoding form of one scalar value (table 3-6 of the Unicode Standard). */
  function EncodeScalar(n: Scalar): (b: Bytes)
    ensures 1 <= |b| <= 4
  {
    if n < 0x80 then [n]
    else if n < 0x800 then [0xC0 + n / 64, 0x80 + n % 64]
    else if n < 0x1_0000 then [0xE0 + n / 4096, 0x80 + n / 64 % 64, 0x80 + n % 64]
    else [0xF0 + n / 262144, 0x80 + n / 4096 % 64, 0x80 + n / 64 % 64, 0x80 + n % 64]
  }

  function EncodeScalars(text: seq<Scalar>): Bytes {
    if text == [] then [] else EncodeScalar(text[0]) + EncodeScalars(text[1..])
  }

  /** Every encoded scalar value is recognised with its width, whatever follows. */
  lemma ScalarIsRecognised(n: Scalar, more: Bytes)
    ensures Utf8Width(EncodeScalar(n) + more) == |EncodeScalar(n)|
  {
    var s := EncodeScalar(n) + more;
    assert s[..|EncodeScalar(n)|] == EncodeScalar(n);
    if n >= 0x1_0000 {
      FourBytesOf(n);
    } else if n >= 0x800 {
      ThreeBytesOf(n);
    }
  }

  lemma ThreeBytesOf(n: int)
    requires 0x800 <= n < 0x1_0000
    ensures n == 4096 * (n / 4096) + 64 * (n / 64 % 64) + n % 64
  {
    var q := n / 64;
    assert n == 64 * q + n % 64 && q == 64 * (q / 64) + q % 64 && q / 64 == n / 4096;
  }

  lemma FourBytesOf(n: int)
    requires 0x1_0000 <= n < 0x11_0000
    ensures n == 262144 * (n / 262144) + 4096 * (n / 4096 % 64) + 64 * (n / 64 % 64) + n % 64
  {
    var q := n / 64;
    var r := q / 64;
    assert n == 64 * q + n % 64 && q == 64 * r + q % 64 && r == 64 * (r / 64) + r % 64;
    assert r == n / 4096 && r / 64 == n / 262144;
  }

  /** What is recognised is an encoded scalar value. */
  lemma RecognisedIsScalar(s: Bytes) returns (n: Scalar)
    requires Utf8Width(s) > 0
    ensures EncodeScalar(n) == s[..Utf8Width(s)]
  {
    var w := Utf8Width(s);
    if w == 1 {
      n := s[0];
    } else if w == 2 {
      n := 64 * (s[0] as int - 0xC0) + (s[1] as int - 0x80);
    } else if w == 3 {
      n := ThreeByteScalar(s[0], s[1], s[2]);
    } else {
      n := FourByteScalar(s[0], s[1], s[2], s[3]);
    }
  }

  lemma ThreeByteScalar(a: byte, b: byte, c: byte) returns (n: Scalar)
    requires 0xE0 <= a <= 0xEF && (if a == 0xE0 then 0xA0 else 0x80) <= b <= (if a == 0xED then 0x9F else 0xBF)
    requires 0x80 <= c <= 0xBF
    ensures EncodeScalar(n) == [a, b, c]
  {
    var m: int := 4096 * (a as int - 0xE0) + 64 * (b as int - 0x80) + (c as int - 0x80);
    assert m % 64 == c - 0x80 && m / 64 == 64 * (a - 0xE0) + (b - 0x80);
    assert m / 64 % 64 == b - 0x80 && m / 4096 == a - 0xE0;
    n := m;
  }

  lemma FourDigits(a: nat, b: nat, c: nat, d: nat) returns (n: nat)
    requires b < 64 && c < 64 && d < 64
    ensures n == 262144 * a + 4096 * b + 64 * c + d
    ensures n / 262144 == a && n / 4096 % 64 == b && n / 64 % 64 == c && n % 64 == d
  {
    var q := 4096 * a + 64 * b + c;
    var r := 64 * a + b;
    n := 64 * q + d;
    assert n % 64 == d && n / 64 == q;
    assert q % 64 == c && q / 64 == r && n / 4096 == r;
    assert r % 64 == b && r / 64 == a && n / 262144 == a;
  }

  lemma FourByteScalar(a: byte, b: byte, c: byte, d: byte) returns (n: Scalar)
    requires 0xF0 <= a <= 0xF4 && (if a == 0xF0 then 0x90 else 0x80) <= b <= (if a == 0xF4 then 0x8F else 0xBF)
    requires 0x80 <= c <= 0xBF && 0x80 <= d <= 0xBF
    ensures EncodeScalar(n) == [a, b, c, d]
  {
    var m := FourDigits(a - 0xF0, b - 0x80, c - 0x80, d - 0x80);
    n := m;
  }

  lemma {:induction false} EncodedIsValid(text: seq<Scalar>)
    ensures Utf8Valid(EncodeScalars(text))
  {
    if text != [] {
      var first, rest := EncodeScalar(text[0]), EncodeScalars(text[1..]);
      ScalarIsRecognised(text[0], rest);
      Seam(first, rest);
      EncodedIsValid(text[1..]);
    }
  }

  lemma {:induction false} ValidIsEncoded(s: Bytes) returns (text: seq<Scalar>)
    requires Utf8Valid(s)
    ensures s == EncodeScalars(text)
  {
    if s == [] {
      text := [];
    } else {
      var w := Utf8Width(s);
      var n := RecognisedIsScalar(s);
      var rest := ValidIsEncoded(s[w..]);
      text := [n] + rest;
      assert text[1..] == rest && s == s[..w] + s[w..];
    }
  }

  /** The exact line: bytes pass as UTF-8 if and only if they are the encoding of some scalar values. */
  lemma Utf8ValidIff(s: Bytes)
    ensures Utf8Valid(s) <==> exists text :: s == EncodeScalars(text)
  {
    if Utf8Valid(s) {
      var text := ValidIsEncoded(s);
    }
    forall text | s == EncodeScalars(text) ensures Utf8Valid(s) {
      EncodedIsValid(text);
    }
  }

  lemma {:induction false} EncodedAppend(a: seq<Scalar>, b: seq<Scalar>)
    ensures EncodeScalars(a + b) == EncodeScalars(a) + EncodeScalars(b)
  {
    if a == [] {
      assert a + b == b;
    } else {
      assert (a + b)[1..] == a[1..] + b;
      EncodedAppend(a[1..], b);
      Assoc(EncodeScalar(a[0]), EncodeScalars(a[1..]), EncodeScalars(b));
    }
  }

  /** Valid texts one after the other are a valid text. */
  lemma ValidAppend(a: Bytes, b: Bytes)
    requires Utf8Valid(a) && Utf8Valid(b)
    ensures Utf8Valid(a + b)
  {
    var x := ValidIsEncoded(a);
    var y := ValidIsEncoded(b);
    EncodedAppend(x, y);
    EncodedIsValid(x + y);
  }

  // ---------- trimming ----------

  /** `char::is_whitespace`: the Unicode White_Space property. */
  predicate IsWhitespace(c: char) {
    var n := c as int;
    9 <= n <= 13 || n == 0x20 || n == 0x85 || n == 0xA0 || n == 0x1680 || 0x2000 <= n <= 0x200A
    || n == 0x2028 || n == 0x2029 || n == 0x202F || n == 0x205F || n == 0x3000
  }

  /** The 25 code points with the White_Space property, one by one. */
  lemma WhitespaceIsTheProperty(c: char)
    ensures IsWhitespace(c) <==>
            c as int in {0x09, 0x0A, 0x0B, 0x0C, 0x0D, 0x20, 0x85, 0xA0, 0x1680, 0x2000, 0x2001, 0x2002, 0x2003, 0x2004,
                         0x2005, 0x2006, 0x2007, 0x2008, 0x2009, 0x200A, 0x2028, 0x2029, 0x202F, 0x205F, 0x3000}
  {
  }

  function TrimStart(s: string, drop: char -> bool): string {
    if s != [] && drop(s[0]) then TrimStart(s[1..], drop) else s
  }

  function TrimEnd(s: string, drop: char -> bool): string {
    if s != [] && drop(s[|s| - 1]) then TrimEnd(s[..|s| - 1], drop) else s
  }

  function Trim(s: string): string {
    TrimEnd(TrimStart(s, IsWhitespace), IsWhitespace)
  }

  predicate Bare(s: string, drop: char -> bool) {
    s == [] || (!drop(s[0]) && !drop(s[|s| - 1]))
  }

  predicate AllDropped(s: string, drop: char -> bool) {
    forall i | 0 <= i < |s| :: drop(s[i])
  }

  lemma {:induction false} TrimStartOf(pre: string, s: string, drop: char -> bool)
    requires AllDropped(pre, drop) && (s == [] || !drop(s[0]))
    ensures TrimStart(pre + s, drop) == s
  {
    if pre == [] {
      assert pre + s == s;
    } else {
      assert (pre + s)[1..] == pre[1..] + s;
      TrimStartOf(pre[1..], s, drop);
    }
  }

  lemma {:induction false} TrimEndOf(s: string, post: string, drop: char -> bool)
    requires AllDropped(post, drop) && (s == [] || !drop(s[|s| - 1]))
    ensures TrimEnd(s + post, drop) == s
  {
    if post == [] {
      assert s + post == s;
    } else {
      assert (s + post)[..|s + post| - 1] == s + post[..|post| - 1];
      TrimEndOf(s, post[..|post| - 1], drop);
    }
  }

  /** Trimming returns the core: whatever whitespace surrounds a text without outer whitespace is what goes. */
  lemma TrimReturnsTheCore(pre: string, core: string, post: string)
    requires AllDropped(pre, IsWhitespace) && AllDropped(post, IsWhitespace) && Bare(core, IsWhitespace)
    ensures Trim(pre + core + post) == core
  {
    if core == [] {
      assert pre + core + post == (pre + post) + [];
      TrimStartOf(pre + post, [], IsWhitespace);
      assert TrimEnd([], IsWhitespace) == [];
    } else {
      assert pre + core + post == pre + (core + post);
      TrimStartOf(pre, core + post, IsWhitespace);
      TrimEndOf(core, post, IsWhitespace);
    }
  }

  lemma {:induction false} SplitStart(s: string, drop: char -> bool) returns (pre: string)
    ensures s == pre + TrimStart(s, drop) && AllDropped(pre, drop)
    ensures TrimStart(s, drop) == [] || !drop(TrimStart(s, drop)[0])
  {
    if s != [] && drop(s[0]) {
      pre := SplitStart(s[1..], drop);
      pre := [s[0]] + pre;
    } else {
      pre := [];
    }
  }

  lemma {:induction false} SplitEnd(s: string, drop: char -> bool) returns (post: string)
    ensures s == TrimEnd(s, drop) + post && AllDropped(post, drop)
    ensures TrimEnd(s, drop) == [] || !drop(TrimEnd(s, drop)[|TrimEnd(s, drop)| - 1])
  {
    if s != [] && drop(s[|s| - 1]) {
      post := SplitEnd(s[..|s| - 1], drop);
      post := post + [s[|s| - 1]];
    } else {
      post := [];
    }
  }

  /** Every text has a core, and trimming finds it. */
  lemma TrimSplits(s: string) returns (pre: string, post: string)
    ensures s == pre + Trim(s) + post
    ensures AllDropped(pre, IsWhitespace) && AllDropped(post, IsWhitespace) && Bare(Trim(s), IsWhitespace)
  {
    pre := SplitStart(s, IsWhitespace);
    post := SplitEnd(TrimStart(s, IsWhitespace), IsWhitespace);
    assert Trim(s) <= TrimStart(s, IsWhitespace);
  }

  /** More whitespace around a text changes nothing. */
  lemma PaddingIsTrimmed(pre: string, s: string, post: string)
    requires AllDropped(pre, IsWhitespace) && AllDropped(post, IsWhitespace)
    ensures Trim(pre + s + post) == Trim(s)
  {
    var a, b := TrimSplits(s);
    assert pre + s + post == (pre + a) + Trim(s) + (b + post);
    TrimReturnsTheCore(pre + a, Trim(s), b + post);
  }

  predicate IsNulChar(c: char) {
    c as int == 0
  }

  /** `trim_matches('\0')` */
  function TrimNuls(s: string): string {
    TrimEnd(TrimStart(s, IsNulChar), IsNulChar)
  }

  /** What is left of s once NULs at its ends and then whitespace at the ends of the rest are gone. */
  ghost predicate IsCore(s: string, core: string) {
    exists nuls, pre, post, nuls' :: IsCoreBetween(s, nuls, pre, core, post, nuls')
  }

  predicate IsCoreBetween(s: string, nuls: string, pre: string, core: string, post: string, nuls': string) {
    && s == nuls + (pre + core + post) + nuls'
    && (forall c | c in nuls + nuls' :: c == '\0')
    && (var m := pre + core + post; m == [] || (m[0] != '\0' && m[|m| - 1] != '\0'))
    && AllDropped(pre, IsWhitespace) && AllDropped(post, IsWhitespace) && Bare(core, IsWhitespace)
  }

  /** Trimming NULs and then whitespace finds the core, and there is no other. */
  lemma CoreIsTheOne(s: string, core: string)
    ensures IsCore(s, core) <==> core == Trim(TrimNuls(s))
  {
    hide Trim, TrimNuls;
    if nuls, pre, post, nuls' :| IsCoreBetween(s, nuls, pre, core, post, nuls') {
      assert forall i | 0 <= i < |nuls| :: nuls[i] in nuls + nuls';
      assert forall i | 0 <= i < |nuls'| :: nuls'[i] in nuls + nuls';
      NulsAreTrimmed(nuls, pre + core + post, nuls');
      TrimReturnsTheCore(pre, core, post);
    }
    if core == Trim(TrimNuls(s)) {
      var nuls, nuls' := NulsSplit(s);
      var pre, post := TrimSplits(TrimNuls(s));
      assert IsCoreBetween(s, nuls, pre, core, post, nuls');
    }
  }

  lemma NulsAreTrimmed(nuls: string, m: string, nuls': string)
    requires AllDropped(nuls, IsNulChar) && AllDropped(nuls', IsNulChar) && Bare(m, IsNulChar)
    ensures TrimNuls(nuls + m + nuls') == m
  {
    if m == [] {
      assert nuls + m + nuls' == (nuls + nuls') + [];
      TrimStartOf(nuls + nuls', [], IsNulChar);
      assert TrimEnd([], IsNulChar) == [];
    } else {
      assert nuls + m + nuls' == nuls + (m + nuls');
      TrimStartOf(nuls, m + nuls', IsNulChar);
      TrimEndOf(m, nuls', IsNulChar);
    }
  }

  lemma NulsSplit(s: string) returns (nuls: string, nuls': string)
    ensures s == nuls + TrimNuls(s) + nuls'
    ensures AllDropped(nuls, IsNulChar) && AllDropped(nuls', IsNulChar) && Bare(TrimNuls(s), IsNulChar)
  {
    nuls := SplitStart(s, IsNulChar);
    nuls' := SplitEnd(TrimStart(s, IsNulChar), IsNulChar);
    assert TrimNuls(s) <= TrimStart(s, IsNulChar);
  }

  /** The first item of `split_whitespace`, or the empty string. */
  function FirstWord(s: string): string {
    UntilWhitespace(TrimStart(s, IsWhitespace))
  }

  function UntilWhitespace(s: string): string {
    if s == [] || IsWhitespace(s[0]) then [] else [s[0]] + UntilWhitespace(s[1..])
  }

  predicate NoneDropped(s: string, drop: char -> bool) {
    forall i | 0 <= i < |s| :: !drop(s[i])
  }

  /** The first word is what stands between leading whitespace and the next whitespace or the end. */
  lemma FirstWordIs(pad: string, word: string, more: string)
    requires AllDropped(pad, IsWhitespace) && NoneDropped(word, IsWhitespace)
    requires more == [] || IsWhitespace(more[0])
    requires word == [] ==> more == []
    ensures FirstWord(pad + word + more) == word
  {
    assert pad + word + more == pad + (word + more);
    TrimStartOf(pad, word + more, IsWhitespace);
    WordEnds(word, more);
  }

  lemma {:induction false} WordEnds(word: string, more: string)
    requires NoneDropped(word, IsWhitespace) && (more == [] || IsWhitespace(more[0]))
    ensures UntilWhitespace(word + more) == word
  {
    if word == [] {
      assert word + more == more;
    } else {
      assert (word + more)[1..] == word[1..] + more;
      WordEnds(word[1..], more);
    }
  }

  // ---------- searching ----------

  predicate StartsWith(s: string, prefix: string) {
    prefix <= s
  }

  predicate Contains(s: string, part: string) {
    exists i :: 0 <= i <= |s| && StartsWith(s[i..], part)
  }

  /** Containing a part is being made of something, the part, and something. */
  lemma ContainsIff(s: string, part: string)
    ensures Contains(s, part) <==> exists a, b :: s == a + part + b
  {
    if i :| 0 <= i <= |s| && StartsWith(s[i..], part) {
      assert s == s[..i] + part + s[i..][|part|..];
    }
    forall a, b | s == a + part + b ensures Contains(s, part) {
      assert s[|a|..] == part + b;
      assert StartsWith(s[|a|..], part);
    }
  }

  lemma StartsWithIff(s: string, prefix: string)
    ensures StartsWith(s, prefix) <==> exists rest :: s == prefix + rest
  {
    if StartsWith(s, prefix) {
      assert s == prefix + s[|prefix|..];
    }
  }
}
