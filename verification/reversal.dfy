/** The three string reversals of the repository and the public `Reverse`
    that delegates to the second. A Go string is a byte sequence; the
    reversals differ in what they reverse and in what they do with bytes
    that are not well-formed UTF-8. */
module Reversal {
  import opened Wrappers
  import opened Seqs
  import opened Utf8
  import opened Strings

  /** The only error `ReverseV3` reports: its input is not valid UTF-8. */
  datatype Error = InvalidUtf8

  /** The two-pointer loop shared by all three reversals: `i` walks up from
      the front, `j` down from the back, and the elements at `i` and `j` are
      swapped until the pointers meet in the middle. */
  method SwapReverse<T>(s: seq<T>) returns (r: seq<T>)
    ensures r == Rev(s)
  {
    r := s;
    var n := |r|;
    var i, j := 0, n - 1;
    while i < n / 2
      invariant 0 <= i <= n / 2 && j == n - 1 - i
      invariant |r| == n
      invariant forall k :: 0 <= k < i ==> r[k] == s[n - 1 - k] && r[n - 1 - k] == s[k]
      invariant forall k :: i <= k < n - i ==> r[k] == s[k]
    {
      r := r[i := r[j]][j := r[i]];
      i, j := i + 1, j - 1;
    }
  }

  /** Go's `ReverseV1`: reverses the bytes of `s`, with no regard for
      characters that span several bytes. */
  method ReverseV1(s: seq<Byte>) returns (r: seq<Byte>)
    ensures |r| == |s|
    ensures forall k :: 0 <= k < |s| ==> r[k] == s[|s| - 1 - k]
    ensures r == Rev(s)
  {
    r := SwapReverse(s);
  }

  /** What `ReverseV2` computes: the string whose runes are those of `s`
      (as Go decodes them, invalid bytes becoming U+FFFD) in reverse order.
      The result is always valid UTF-8. */
  function RuneReverse(s: seq<Byte>): (r: seq<Byte>)
    ensures ValidString(r)
    ensures Runes(r) == Rev(Runes(s))
  {
    var rs := Rev(Runes(s));
    RunesOfEncode(rs);
    ValidStringIffValid(Encode(rs));
    Encode(rs)
  }

  /** Go's `ReverseV2`: decodes `s` into runes, reverses them with the swap
      loop and encodes the result. */
  method ReverseV2(s: seq<Byte>) returns (r: seq<Byte>)
    ensures r == RuneReverse(s)
    ensures Runes(r) == Rev(Runes(s))
    ensures ValidString(r)
  {
    var runes := Runes(s);
    var reversed := SwapReverse<Rune>(runes);
    r := Encode(reversed);
    assert r == RuneReverse(s);
  }

  /** Go's `Reverse`: the public entry point, which is `ReverseV2`. */
  method Reverse(s: seq<Byte>) returns (r: seq<Byte>)
    ensures r == RuneReverse(s)
    ensures Runes(r) == Rev(Runes(s))
    ensures ValidString(r)
  {
    r := ReverseV2(s);
  }

  /** Go's `ReverseV3`: rejects a string that is not valid UTF-8, returning
      it unchanged with an error; otherwise reverses its runes. */
  method ReverseV3(s: seq<Byte>) returns (r: seq<Byte>, err: Option<Error>)
    ensures !ValidString(s) ==> r == s && err == Some(InvalidUtf8)
    ensures ValidString(s) ==> err == None && ValidString(r)
    ensures ValidString(s) ==> Runes(r) == Rev(Runes(s)) && |Runes(r)| == |Runes(s)|
    ensures ValidString(s) ==> r == RuneReverse(s)
  {
    if !ValidString(s) {
      return s, Some(InvalidUtf8);
    }
    var runes := Runes(s);
    var reversed := SwapReverse<Rune>(runes);
    r, err := Encode(reversed), None;
    assert r == RuneReverse(s);
  }

  /** Reversing runes twice gives `s` re-encoded: every invalid byte of `s`
      has become U+FFFD. */
  lemma RuneReverseTwice(s: seq<Byte>)
    ensures RuneReverse(RuneReverse(s)) == Encode(Runes(s))
  {
    var r := RuneReverse(s);
    var rr := RuneReverse(r);
    RevRev(Runes(s));
    assert Runes(rr) == Runes(s);
    EncodeOfRunes(rr);
  }

  /** Rune reversal is an involution exactly on valid UTF-8. So `ReverseV2`
      cannot be undone on malformed input, and `ReverseV3`, which only
      reverses valid input and always yields valid output, is undone by
      applying it again. */
  lemma RuneReverseInvolutionIff(s: seq<Byte>)
    ensures RuneReverse(RuneReverse(s)) == s <==> ValidString(s)
  {
    RuneReverseTwice(s);
    RoundTripIffValid(s);
  }

  /** `ReverseV3` on valid input: its output is valid, so a second call does
      not fail, and that second call returns the original string. */
  lemma ReverseV3Involution(s: seq<Byte>)
    requires ValidString(s)
    ensures ValidString(RuneReverse(s))
    ensures RuneReverse(RuneReverse(s)) == s
  {
    RuneReverseInvolutionIff(s);
  }

  /** The counterexample recorded for `ReverseV1`: the two-byte character
      U+011D (ĝ) reversed byte-wise becomes two invalid bytes that Go decodes
      as two U+FFFD runes; reversing again restores the one character. */
  lemma ByteReversalBreaksMultiByte()
    ensures var s: seq<Byte> := [0xC4, 0x9D];
      && s == EncodeScalar(0x11D)
      && ValidString(s) && Runes(s) == [0x11D]
      && Rev(s) == [0x9D, 0xC4]
      && !ValidString(Rev(s))
      && Runes(Rev(s)) == [RuneError, RuneError]
      && Rev(Rev(s)) == s
      && RuneReverse(s) == s && Rev(s) != RuneReverse(s)
  {
    var s: seq<Byte> := [0xC4, 0x9D];
    assert Rev(s) == [0x9D, 0xC4] by { assert Rev(s)[0] == s[1]; }
    assert DecodeRune(s) == Decoded(0x11D, 2);
    assert s[2..] == [];
    assert Runes(s) == [0x11D];
    assert Rev(Runes(s)) == [0x11D];
    assert RuneReverse(s) == s by { EncodeOfRunes(s); }
    var t := Rev(s);
    assert DecodeRune(t) == Decoded(RuneError, 1);
    assert t[1..] == [0xC4];
    assert DecodeRune(t[1..]) == Decoded(RuneError, 1);
    assert t[1..][1..] == [];
    RevRev(s);
  }

  /** The flaw of `ReverseV1` in general: on valid UTF-8, byte reversal
      gives valid UTF-8 exactly when every character is a single byte. Any
      multi-byte character leaves a continuation byte at the front of the
      reversed string, where it can only be preceded by ASCII. */
  lemma {:induction false} ByteReversalValidIffAscii(s: seq<Byte>)
    requires ValidString(s)
    ensures ValidString(Rev(s)) <==> forall k :: 0 <= k < |s| ==> s[k] < 0x80
  {
    if forall k :: 0 <= k < |s| ==> s[k] < 0x80 {
      AsciiReversal(s);
      assert ValidString(RuneReverse(s));
    } else {
      var m := LastHighByte(s);
      ValidStringIffValid(s);
      LastHighByteIsTail(s, m);
      var t := Rev(s);
      var p := |s| - 1 - m;
      assert t[p] == s[m];
      assert forall k :: 0 <= k < p ==> t[k] == s[|s| - 1 - k];
      AsciiThenTailInvalid(t, p);
    }
  }

  /** The index of the last byte of `s` that is not ASCII. */
  function LastHighByte(s: seq<Byte>): (m: int)
    requires exists k :: 0 <= k < |s| && s[k] >= 0x80
    ensures 0 <= m < |s| && s[m] >= 0x80
    ensures forall k :: m < k < |s| ==> s[k] < 0x80
  {
    if s[|s| - 1] >= 0x80 then |s| - 1 else LastHighByte(s[..|s| - 1])
  }

  /** In well-formed UTF-8, a non-ASCII byte followed only by ASCII ends a
      multi-byte character, so it is a continuation byte. */
  lemma {:induction false} LastHighByteIsTail(s: seq<Byte>, m: int)
    requires Valid(s)
    requires 0 <= m < |s| && s[m] >= 0x80
    requires forall k :: m < k < |s| ==> s[k] < 0x80
    ensures IsTail(s[m])
    decreases |s|
  {
    var n :| 1 <= n <= |s| && StartsWithChar(s, n) && Valid(s[n..]);
    var c := s[..n];
    if m >= n {
      LastHighByteIsTail(s[n..], m - n);
    } else {
      assert c[m] == s[m] && c[n - 1] == s[n - 1];
    }
  }

  /** Go rejects a string in which ASCII bytes are followed by a continuation
      byte: nothing before it can start the character it continues. */
  lemma {:induction false} AsciiThenTailInvalid(t: seq<Byte>, p: int)
    requires 0 <= p < |t| && IsTail(t[p])
    requires forall k :: 0 <= k < p ==> t[k] < 0x80
    ensures !ValidString(t)
    decreases p
  {
    if p > 0 {
      assert DecodeRune(t).size == 1;
      AsciiThenTailInvalid(t[1..], p - 1);
    }
  }

  /** The counterexample recorded for `ReverseV2`: the lone continuation byte
      0x9F decodes as U+FFFD, so reversing yields the three bytes of U+FFFD,
      and reversing again does too: the original byte is lost, while the rune
      count stays 1 throughout. */
  lemma RuneReversalLosesInvalidByte()
    ensures var s: seq<Byte> := [0x9F];
      && !ValidString(s) && Runes(s) == [RuneError]
      && RuneReverse(s) == [0xEF, 0xBF, 0xBD]
      && RuneReverse(RuneReverse(s)) == [0xEF, 0xBF, 0xBD]
      && RuneReverse(RuneReverse(s)) != s
      && |Runes(RuneReverse(s))| == 1
  {
    var s: seq<Byte> := [0x9F];
    assert DecodeRune(s) == Decoded(RuneError, 1);
    assert s[1..] == [];
    assert Runes(s) == [RuneError];
    assert Rev(Runes(s)) == [RuneError];
    assert EncodeRune(RuneError) == [0xEF, 0xBF, 0xBD];
    assert Encode([RuneError]) == [0xEF, 0xBF, 0xBD] by { EncodeCons(RuneError, []); }
    RuneReverseTwice(s);
  }

  /** On ASCII text, where every character is one byte, byte reversal and
      rune reversal agree. */
  lemma {:induction false} AsciiReversal(s: seq<Byte>)
    requires forall k :: 0 <= k < |s| ==> s[k] < 0x80
    ensures RuneReverse(s) == Rev(s)
  {
    AsciiRunes(s);
    var rs := Rev(Runes(s));
    forall k | 0 <= k < |s|
      ensures rs[k] == Rev(s)[k]
    {
      assert rs[k] == Runes(s)[|s| - 1 - k];
    }
    AsciiEncode(rs);
    assert RuneReverse(s) == Encode(rs);
  }

  /** ASCII bytes decode one-to-one into runes. */
  lemma {:induction false} AsciiRunes(s: seq<Byte>)
    requires forall k :: 0 <= k < |s| ==> s[k] < 0x80
    ensures |Runes(s)| == |s|
    ensures forall k :: 0 <= k < |s| ==> Runes(s)[k] == s[k]
  {
    if s != [] {
      AsciiRunes(s[1..]);
    }
  }

  /** ASCII runes encode one-to-one into bytes. */
  lemma {:induction false} AsciiEncode(rs: seq<Rune>)
    requires forall k :: 0 <= k < |rs| ==> 0 <= rs[k] < 0x80
    ensures |Encode(rs)| == |rs|
    ensures forall k :: 0 <= k < |rs| ==> Encode(rs)[k] == rs[k]
  {
    if rs != [] {
      AsciiEncode(rs[1..]);
    }
  }

  /** ASCII text is valid UTF-8: every byte is a character of its own. */
  lemma {:induction false} AsciiValid(s: seq<Byte>)
    requires forall k :: 0 <= k < |s| ==> s[k] < 0x80
    ensures ValidString(s)
  {
    if s != [] {
      assert DecodeRune(s) == Decoded(s[0], 1);
      AsciiValid(s[1..]);
    }
  }

  /** `Reverse("hello")` is `"olleh"`; "hello" is valid UTF-8, so
      `ReverseV3("hello")` also gives `"olleh"`, with no error. */
  lemma ReverseHello(s: seq<Byte>)
    requires s == [0x68, 0x65, 0x6C, 0x6C, 0x6F]
    ensures ValidString(s)
    ensures RuneReverse(s) == [0x6F, 0x6C, 0x6C, 0x65, 0x68]
  {
    assert forall k :: 0 <= k < |s| ==> s[k] < 0x80;
    AsciiValid(s);
    AsciiReversal(s);
    RevHello(s);
  }

  /** The bytes of "hello" reversed are those of "olleh". */
  lemma RevHello(s: seq<Byte>)
    requires s == [0x68, 0x65, 0x6C, 0x6C, 0x6F]
    ensures Rev(s) == [0x6F, 0x6C, 0x6C, 0x65, 0x68]
  {
    var r := Rev(s);
    assert r[0] == s[4] && r[1] == s[3] && r[2] == s[2] && r[3] == s[1] && r[4] == s[0];
  }
}
