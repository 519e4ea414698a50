/** One UTF-8 character: the byte grammar of section 4 of RFC 3629, the
    encoding of section 3 of RFC 3629, and Go's `utf8.DecodeRune`, which
    decodes the first character of a byte string or reports an error. */
module Utf8 {

  /** One byte of a Go string. */
  type Byte = b: int | 0 <= b < 0x100

  /** A Go rune: a signed 32-bit integer, which need not be a Unicode
      scalar value. */
  type Rune = r: int | -0x8000_0000 <= r < 0x8000_0000

  /** U+FFFD REPLACEMENT CHARACTER, Go's `utf8.RuneError`. */
  const RuneError: Rune := 0xFFFD

  /** The largest Unicode code point, Go's `utf8.MaxRune`. */
  const MaxRune: Rune := 0x10FFFF

  /** A Unicode scalar value: a code point that is not a surrogate. These are
      exactly the characters UTF-8 can encode (section 3 of RFC 3629). */
  predicate IsScalar(c: int) {
    0 <= c <= MaxRune && !(0xD800 <= c <= 0xDFFF)
  }

  /** UTF8-tail of section 4 of RFC 3629. */
  predicate IsTail(b: Byte) {
    0x80 <= b <= 0xBF
  }

  /** UTF8-char of section 4 of RFC 3629: `c` is exactly one well-formed
      character (shortest form, no surrogates, nothing above U+10FFFF). */
  predicate IsUtf8Char(c: seq<Byte>) {
    if |c| == 1 then
      c[0] <= 0x7F
    else if |c| == 2 then
      0xC2 <= c[0] <= 0xDF && IsTail(c[1])
    else if |c| == 3 then
      ((c[0] == 0xE0 && 0xA0 <= c[1] <= 0xBF)
       || (0xE1 <= c[0] <= 0xEC && IsTail(c[1]))
       || (c[0] == 0xED && 0x80 <= c[1] <= 0x9F)
       || (0xEE <= c[0] <= 0xEF && IsTail(c[1])))
      && IsTail(c[2])
    else if |c| == 4 then
      ((c[0] == 0xF0 && 0x90 <= c[1] <= 0xBF)
       || (0xF1 <= c[0] <= 0xF3 && IsTail(c[1]))
       || (c[0] == 0xF4 && 0x80 <= c[1] <= 0x8F))
      && IsTail(c[2]) && IsTail(c[3])
    else
      false
  }

  /** `p` starts with a well-formed character of `n` bytes. */
  predicate StartsWithChar(p: seq<Byte>, n: int) {
    1 <= n <= |p| && IsUtf8Char(p[..n])
  }

  /** The UTF-8 encoding of a scalar value, following the table of section 3
      of RFC 3629: the bits of `c` are spread over one lead byte and up to
      three continuation bytes of six bits each. */
  function EncodeScalar(c: int): (b: seq<Byte>)
    requires IsScalar(c)
    ensures IsUtf8Char(b)
    ensures |b| == 1 <==> c < 0x80
  {
    if c < 0x80 then
      [c]
    else if c < 0x800 then
      SplitTwo(c);
      [0xC0 + c / 64, 0x80 + c % 64]
    else if c < 0x1_0000 then
      SplitThree(c);
      [0xE0 + c / 4096, 0x80 + (c / 64) % 64, 0x80 + c % 64]
    else
      SplitFour(c);
      [0xF0 + c / 262144, 0x80 + (c / 4096) % 64, 0x80 + (c / 64) % 64, 0x80 + c % 64]
  }

  /** What `utf8.DecodeRune` returns: a rune and the number of bytes it used. */
  datatype Decoded = Decoded(rune: Rune, size: nat) {
    /** The `(RuneError, 1)` result by which Go reports an invalid encoding.
        (A well-formed U+FFFD decodes with size 3 and is not an error.) */
    predicate IsError() {
      rune == RuneError && size == 1
    }
  }

  /** The length of the sequence that a lead byte announces, as Go's `first`
      table records it; 0 for a byte that cannot start a character. */
  function LeadSize(b: Byte): (n: nat)
    ensures n <= 4
  {
    if b < 0x80 then 1
    else if 0xC2 <= b <= 0xDF then 2
    else if 0xE0 <= b <= 0xEF then 3
    else if 0xF0 <= b <= 0xF4 then 4
    else 0
  }

  /** Lower bound for the second byte after lead byte `b` (Go's `acceptRanges`). */
  function AcceptLo(b: Byte): Byte {
    if b == 0xE0 then 0xA0 else if b == 0xF0 then 0x90 else 0x80
  }

  /** Upper bound for the second byte after lead byte `b` (Go's `acceptRanges`). */
  function AcceptHi(b: Byte): Byte {
    if b == 0xED then 0x9F else if b == 0xF4 then 0x8F else 0xBF
  }

  /** Go's `utf8.DecodeRune`: decodes the first character of `p`. An empty
      `p` gives `(RuneError, 0)`; an invalid or truncated encoding gives
      `(RuneError, 1)`, so a caller always advances by at least one byte. The
      masks of the Go code (`0x1F`, `0x0F`, `0x07`, `0x3F`) are written as
      remainders and its shifts as multiplications. */
  function DecodeRune(p: seq<Byte>): (d: Decoded)
    ensures |p| == 0 ==> d == Decoded(RuneError, 0)
    ensures |p| > 0 ==> 1 <= d.size <= |p| && d.size <= 4
  {
    if |p| == 0 then Decoded(RuneError, 0)
    else
      var p0: int := p[0];
      var sz := LeadSize(p0);
      if sz == 1 then Decoded(p0, 1)
      else if sz == 0 || |p| < sz then Decoded(RuneError, 1)
      else
        var b1: int := p[1];
        if b1 < AcceptLo(p0) || AcceptHi(p0) < b1 then Decoded(RuneError, 1)
        else if sz == 2 then Decoded((p0 % 32) * 64 + b1 % 64, 2)
        else
          var b2: int := p[2];
          if !IsTail(b2) then Decoded(RuneError, 1)
          else if sz == 3 then Decoded((p0 % 16) * 4096 + (b1 % 64) * 64 + b2 % 64, 3)
          else
            var b3: int := p[3];
            if !IsTail(b3) then Decoded(RuneError, 1)
            else Decoded((p0 % 8) * 262144 + (b1 % 64) * 4096 + (b2 % 64) * 64 + b3 % 64, 4)
  }

  /** When `p` starts with a well-formed character of `n` bytes, Go decodes
      exactly that character: it consumes `n` bytes, reports no error, and
      the rune is the scalar value whose encoding those bytes are. */
  lemma DecodeRuneAccepts(p: seq<Byte>, n: int)
    requires StartsWithChar(p, n)
    ensures DecodeRune(p).size == n && !DecodeRune(p).IsError()
    ensures IsScalar(DecodeRune(p).rune)
    ensures EncodeScalar(DecodeRune(p).rune) == p[..n]
  {
    var q := p[..n];
    assert q[0] == p[0];
    if n >= 2 { assert q[1] == p[1]; }
    if n >= 3 { assert q[2] == p[2]; }
    if n >= 4 { assert q[3] == p[3]; }
    if n == 2 {
      AcceptsTwo(p[0], p[1]);
      assert q == [p[0], p[1]];
    } else if n == 3 {
      AcceptsThree(p[0], p[1], p[2]);
      assert q == [p[0], p[1], p[2]];
    } else if n == 4 {
      AcceptsFour(p[0], p[1], p[2], p[3]);
      assert q == [p[0], p[1], p[2], p[3]];
    }
  }

  /** `c` is `hi` six-bit groups followed by the six bits `lo`. */
  lemma SixBits(c: int, hi: int, lo: int)
    requires 0 <= lo < 64 && c == hi * 64 + lo
    ensures c / 64 == hi && c % 64 == lo
  {
  }

  /** A code point of two-byte length splits into 5 + 6 bits. */
  lemma SplitTwo(c: int)
    requires 0x80 <= c < 0x800
    ensures 2 <= c / 64 < 32 && 0 <= c % 64 < 64
    ensures c == (c / 64) * 64 + c % 64
  {
  }

  /** A code point of three-byte length splits into 4 + 6 + 6 bits. */
  lemma SplitThree(c: int)
    requires 0x800 <= c < 0x1_0000
    ensures 0 <= c / 4096 < 16
    ensures c == (c / 4096) * 4096 + ((c / 64) % 64) * 64 + c % 64
  {
    SixBits(c / 64, c / 4096, (c / 64) % 64);
  }

  /** A code point of four-byte length splits into 3 + 6 + 6 + 6 bits. */
  lemma SplitFour(c: int)
    requires 0x1_0000 <= c <= MaxRune
    ensures 0 <= c / 262144 < 8
    ensures c == (c / 262144) * 262144 + ((c / 4096) % 64) * 4096 + ((c / 64) % 64) * 64 + c % 64
  {
    SixBits(c / 64, c / 4096, (c / 64) % 64);
    SixBits(c / 4096, c / 262144, (c / 4096) % 64);
  }

  /** Three groups of bits are recovered from the number they make up. */
  lemma JoinThree(c: int, x: int, y: int, z: int)
    requires 0 <= y < 64 && 0 <= z < 64 && c == x * 4096 + y * 64 + z
    ensures c / 4096 == x && (c / 64) % 64 == y && c % 64 == z
  {
    SixBits(c, x * 64 + y, z);
    SixBits(x * 64 + y, x, y);
  }

  /** Four groups of bits are recovered from the number they make up. */
  lemma JoinFour(c: int, w: int, x: int, y: int, z: int)
    requires 0 <= x < 64 && 0 <= y < 64 && 0 <= z < 64
    requires c == w * 262144 + x * 4096 + y * 64 + z
    ensures c / 262144 == w && (c / 4096) % 64 == x && (c / 64) % 64 == y && c % 64 == z
  {
    JoinThree(c / 64, w, x, y);
    SixBits(c, (c / 64), z);
    assert c / 4096 == (c / 64) / 64;
    assert c / 262144 == (c / 64) / 4096;
  }

  /** A well-formed two-byte character decodes to the scalar it encodes. */
  lemma AcceptsTwo(b0: Byte, b1: Byte)
    requires IsUtf8Char([b0, b1])
    ensures var c := (b0 % 32) * 64 + b1 % 64;
      IsScalar(c) && EncodeScalar(c) == [b0, b1]
  {
    var c := (b0 % 32) * 64 + b1 % 64;
    SixBits(b0, 3, b0 - 0xC0);
    SixBits(b1, 2, b1 - 0x80);
    SixBits(c, b0 - 0xC0, b1 - 0x80);
  }

  /** A well-formed three-byte character decodes to the scalar it encodes. */
  lemma AcceptsThree(b0: Byte, b1: Byte, b2: Byte)
    requires IsUtf8Char([b0, b1, b2])
    ensures var c := (b0 % 16) * 4096 + (b1 % 64) * 64 + b2 % 64;
      IsScalar(c) && EncodeScalar(c) == [b0, b1, b2]
  {
    var x, y, z := b0 - 0xE0, b1 - 0x80, b2 - 0x80;
    assert 0 <= x < 16 && IsTail(b1) && IsTail(b2);
    assert b0 % 16 == x;
    SixBits(b1, 2, y);
    SixBits(b2, 2, z);
    var c := x * 4096 + y * 64 + z;
    assert (b0 % 16) * 4096 + (b1 % 64) * 64 + b2 % 64 == c;
    assert 0x800 <= c < 0x1_0000 && IsScalar(c);
    JoinThree(c, x, y, z);
    assert EncodeScalar(c) == [0xE0 + c / 4096, 0x80 + (c / 64) % 64, 0x80 + c % 64];
  }

  /** A well-formed four-byte character decodes to the scalar it encodes. */
  lemma AcceptsFour(b0: Byte, b1: Byte, b2: Byte, b3: Byte)
    requires IsUtf8Char([b0, b1, b2, b3])
    ensures var c := (b0 % 8) * 262144 + (b1 % 64) * 4096 + (b2 % 64) * 64 + b3 % 64;
      IsScalar(c) && EncodeScalar(c) == [b0, b1, b2, b3]
  {
    var w, x, y, z := b0 - 0xF0, b1 - 0x80, b2 - 0x80, b3 - 0x80;
    assert 0 <= w < 5 && IsTail(b1) && IsTail(b2) && IsTail(b3);
    assert b0 % 8 == w;
    SixBits(b1, 2, x);
    SixBits(b2, 2, y);
    SixBits(b3, 2, z);
    var c := w * 262144 + x * 4096 + y * 64 + z;
    assert (b0 % 8) * 262144 + (b1 % 64) * 4096 + (b2 % 64) * 64 + b3 % 64 == c;
    assert 0x1_0000 <= c <= MaxRune && IsScalar(c);
    JoinFour(c, w, x, y, z);
    assert EncodeScalar(c) == [0xF0 + c / 262144, 0x80 + (c / 4096) % 64, 0x80 + (c / 64) % 64, 0x80 + c % 64];
  }

  /** When no prefix of a non-empty `p` is a well-formed character, Go
      reports the error result and consumes one byte. */
  lemma DecodeRuneRejects(p: seq<Byte>)
    requires |p| > 0
    requires forall n :: !StartsWithChar(p, n)
    ensures DecodeRune(p) == Decoded(RuneError, 1)
  {
    var sz := LeadSize(p[0]);
    if 1 <= sz <= |p| {
      assert !IsUtf8Char(p[..sz]) by { assert !StartsWithChar(p, sz); }
      assert p[..sz][0] == p[0];
      if sz >= 2 { assert p[..sz][1] == p[1]; }
      if sz >= 3 { assert p[..sz][2] == p[2]; }
      if sz >= 4 { assert p[..sz][3] == p[3]; }
    }
  }

  /** Go's decoder reports no error exactly when `p` starts with a
      well-formed character, and then it has decoded that character. */
  lemma DecodeRuneNoError(p: seq<Byte>)
    requires |p| > 0
    ensures !DecodeRune(p).IsError() <==> StartsWithChar(p, DecodeRune(p).size)
    ensures !DecodeRune(p).IsError() ==>
      IsScalar(DecodeRune(p).rune) && EncodeScalar(DecodeRune(p).rune) == p[..DecodeRune(p).size]
  {
    if forall n :: !StartsWithChar(p, n) {
      DecodeRuneRejects(p);
    } else {
      var n :| StartsWithChar(p, n);
      DecodeRuneAccepts(p, n);
    }
  }

  /** Decoding the encoding of a scalar value `c`, whatever follows it, gives
      back `c` and consumes exactly its encoding. */
  lemma DecodeEncodeScalar(c: int, rest: seq<Byte>)
    requires IsScalar(c)
    ensures DecodeRune(EncodeScalar(c) + rest) == Decoded(c, |EncodeScalar(c)|)
  {
    var e := EncodeScalar(c);
    var p := e + rest;
    assert p[..|e|] == e;
    DecodeRuneAccepts(p, |e|);
    if 0x80 <= c < 0x800 {
      EncodedTwo(c);
    } else if 0x800 <= c < 0x1_0000 {
      EncodedThree(c);
    } else if 0x1_0000 <= c {
      EncodedFour(c);
    }
  }

  /** Go's two-byte decoding formula inverts the two-byte encoding. */
  lemma EncodedTwo(c: int)
    requires 0x80 <= c < 0x800
    ensures ((0xC0 + c / 64) % 32) * 64 + (0x80 + c % 64) % 64 == c
  {
    SixBits(0xC0 + c / 64, 3, c / 64);
    SixBits(0x80 + c % 64, 2, c % 64);
  }

  /** Go's three-byte decoding formula inverts the three-byte encoding. */
  lemma EncodedThree(c: int)
    requires 0x800 <= c < 0x1_0000
    ensures ((0xE0 + c / 4096) % 16) * 4096 + ((0x80 + (c / 64) % 64) % 64) * 64 + (0x80 + c % 64) % 64 == c
  {
    var x, y, z := c / 4096, (c / 64) % 64, c % 64;
    assert (0xE0 + x) % 16 == x;
    SixBits(0x80 + y, 2, y);
    SixBits(0x80 + z, 2, z);
    assert c / 64 == x * 64 + y;
  }

  /** Go's four-byte decoding formula inverts the four-byte encoding. */
  lemma EncodedFour(c: int)
    requires 0x1_0000 <= c <= MaxRune
    ensures ((0xF0 + c / 262144) % 8) * 262144 + ((0x80 + (c / 4096) % 64) % 64) * 4096
            + ((0x80 + (c / 64) % 64) % 64) * 64 + (0x80 + c % 64) % 64 == c
  {
    var w, x, y, z := c / 262144, (c / 4096) % 64, (c / 64) % 64, c % 64;
    assert (0xF0 + w) % 8 == w;
    SixBits(0x80 + x, 2, x);
    SixBits(0x80 + y, 2, y);
    SixBits(0x80 + z, 2, z);
    assert c / 4096 == w * 64 + x;
    assert c / 64 == (w * 64 + x) * 64 + y;
  }
}
