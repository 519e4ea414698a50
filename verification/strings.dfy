/** Whole strings: the RFC 3629 grammar `UTF8-octets = *( UTF8-char )`,
    Go's `utf8.ValidString`, and Go's two conversions between a string and
    its runes, `[]rune(s)` and `string(rs)`. */
module Strings {
  import opened Utf8

  /** UTF8-octets of section 4 of RFC 3629: `s` is a concatenation of
      well-formed characters. */
  predicate Valid(s: seq<Byte>)
    decreases |s|
  {
    s == [] || exists n | 1 <= n <= |s| :: StartsWithChar(s, n) && Valid(s[n..])
  }

  /** Go's `utf8.ValidString`: decoding from the front never meets the
      `(RuneError, 1)` error result. */
  predicate ValidString(s: seq<Byte>)
    decreases |s|
  {
    s == [] || (var d := DecodeRune(s); !d.IsError() && ValidString(s[d.size..]))
  }

  /** Go's `[]rune(s)`: decodes `s` from the front; each invalid byte becomes
      U+FFFD and decoding resumes at the next byte. The runes are always
      scalar values and there are never more of them than bytes. Go performs
      the conversion with its runtime decoder, which decodes each step as
      `DecodeRune` does. */
  function Runes(s: seq<Byte>): (rs: seq<Rune>)
    ensures |rs| <= |s|
    ensures forall i :: 0 <= i < |rs| ==> IsScalar(rs[i])
    decreases |s|
  {
    if s == [] then []
    else
      var d := DecodeRune(s);
      if d.IsError() then [RuneError] + Runes(s[1..])
      else
        DecodeRuneNoError(s);
        [d.rune] + Runes(s[d.size..])
  }

  /** The bytes Go writes for one rune: a scalar value is encoded as RFC 3629
      prescribes; a surrogate, a negative rune or one above U+10FFFF is
      written as U+FFFD. */
  function EncodeRune(r: Rune): (b: seq<Byte>)
    ensures IsUtf8Char(b)
    ensures IsScalar(r) ==> DecodeRune(b) == Decoded(r, |b|)
  {
    var c := if IsScalar(r) then r else RuneError;
    DecodeEncodeScalar(c, []);
    assert EncodeScalar(c) + [] == EncodeScalar(c);
    EncodeScalar(c)
  }

  /** Go's `string(rs)`: the concatenated encodings of the runes, as the Go
      runtime writes them (the same bytes as `EncodeRune`). The result is
      always well-formed UTF-8. */
  function Encode(rs: seq<Rune>): (s: seq<Byte>)
    ensures Valid(s)
  {
    if rs == [] then []
    else
      var e := EncodeRune(rs[0]);
      var s := e + Encode(rs[1..]);
      assert s[..|e|] == e && s[|e|..] == Encode(rs[1..]);
      assert StartsWithChar(s, |e|);
      s
  }

  /** Go's `ValidString` accepts exactly the strings of the RFC 3629
      grammar. */
  lemma {:induction false} ValidStringIffValid(s: seq<Byte>)
    ensures ValidString(s) <==> Valid(s)
    decreases |s|
  {
    if s != [] {
      var d := DecodeRune(s);
      DecodeRuneNoError(s);
      if !d.IsError() {
        ValidStringIffValid(s[d.size..]);
        // the grammar cannot split `s` anywhere else
        forall m | StartsWithChar(s, m)
          ensures m == d.size
        {
          DecodeRuneAccepts(s, m);
        }
      } else {
        forall m | StartsWithChar(s, m)
          ensures false
        {
          DecodeRuneAccepts(s, m);
        }
      }
    }
  }

  /** Decoding the encoding of scalar runes gives the runes back. */
  lemma {:induction false} RunesOfEncode(rs: seq<Rune>)
    requires forall i :: 0 <= i < |rs| ==> IsScalar(rs[i])
    ensures Runes(Encode(rs)) == rs
  {
    if rs != [] {
      var e := EncodeRune(rs[0]);
      var tail := Encode(rs[1..]);
      var s := Encode(rs);
      assert s == e + tail;
      EncodeRuneScalar(rs[0]);
      DecodeEncodeScalar(rs[0], tail);
      RunesStep(s);
      assert s[|e|..] == tail;
      RunesOfEncode(rs[1..]);
      assert rs == [rs[0]] + rs[1..];
    }
  }

  /** Encoding the runes of a well-formed string gives the string back. */
  lemma {:induction false} EncodeOfRunes(s: seq<Byte>)
    requires ValidString(s)
    ensures Encode(Runes(s)) == s
    decreases |s|
  {
    if s != [] {
      var d := DecodeRune(s);
      var n := d.size;
      DecodeRuneNoError(s);
      var rest := Runes(s[n..]);
      RunesStep(s);
      EncodeOfRunes(s[n..]);
      EncodeCons(d.rune, rest);
      EncodeRuneScalar(d.rune);
      assert s[..n] + s[n..] == s;
    }
  }

  /** One step of Go's decoding loop when the first character is valid. */
  lemma RunesStep(s: seq<Byte>)
    requires s != [] && !DecodeRune(s).IsError()
    ensures Runes(s) == [DecodeRune(s).rune] + Runes(s[DecodeRune(s).size..])
  {
  }

  /** A scalar value is written as its RFC 3629 encoding. */
  lemma EncodeRuneScalar(r: Rune)
    requires IsScalar(r)
    ensures EncodeRune(r) == EncodeScalar(r)
  {
  }

  /** Encoding distributes over a leading rune. */
  lemma EncodeCons(r: Rune, rs: seq<Rune>)
    ensures Encode([r] + rs) == EncodeRune(r) + Encode(rs)
  {
    assert ([r] + rs)[1..] == rs;
  }

  /** Re-encoding Go's decoding of `s` restores `s` exactly when `s` is
      well-formed: on any other string some byte was replaced by U+FFFD. */
  lemma RoundTripIffValid(s: seq<Byte>)
    ensures Encode(Runes(s)) == s <==> ValidString(s)
  {
    if ValidString(s) {
      EncodeOfRunes(s);
    } else {
      ValidStringIffValid(s);
    }
  }
}
