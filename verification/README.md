# Unicode-safe string reversal, modelled in Dafny

The repository holds three versions of a Go string reversal, each a fix of
the one before, and a public `Reverse` that delegates to the second:

- `ReverseV1` reverses the bytes of the string, which breaks every
  character that UTF-8 encodes in more than one byte;
- `ReverseV2` converts the string to runes (`[]rune(s)`), reverses the runes
  and converts back (`string(r)`); Go's conversion silently turns every
  invalid byte into U+FFFD, so on malformed input reversing twice does not
  give the input back;
- `ReverseV3` first asks `utf8.ValidString`; malformed input is returned
  unchanged with an error, valid input is reversed rune by rune.

A Go string is modelled as `seq<Byte>`, a rune as a 32-bit signed integer.
The model is in four modules:

- `Seqs` (`seqs.dfy`): `Rev`, the functional reverse every reversal is
  measured against.
- `Utf8` (`utf8.dfy`): one character. The byte grammar `UTF8-char` of
  section 4 of RFC 3629 (`IsUtf8Char`), the encoding table of section 3 of
  RFC 3629 (`EncodeScalar`), and Go's `utf8.DecodeRune` written after Go's
  lead-byte tables (`LeadSize`, `AcceptLo`, `AcceptHi`), with its
  `(RuneError, 1)` error result and its one-byte advance.
  `main.go` never calls `utf8.DecodeRune` itself: its conversions
  `[]rune(s)` and `string(r)` use the Go runtime's own decoder and encoder.
  Those produce the same results as `utf8.DecodeRune` and the encoder of the
  `unicode/utf8` package. The model therefore defines both conversions
  through `DecodeRune` and `EncodeRune`.
- `Strings` (`strings.dfy`): whole strings. The grammar `UTF8-octets`
  (`Valid`), Go's `utf8.ValidString` (`ValidString`), Go's lossy
  `[]rune(s)` (`Runes`) and Go's `string(rs)` (`Encode`, which writes
  U+FFFD for runes that are not scalar values), with the round trips
  between them.
- `Reversal` (`reversal.dfy`): the swap loop shared by all three versions,
  the four Go functions as methods, `RuneReverse` (what `ReverseV2`
  computes), and the lemmas that separate the flawed versions from the
  correct one, including the two counterexamples recorded in the source
  comments.

The Go error value is `Option<Error>`: `None` is `nil`, and the one error is
`InvalidUtf8`.

## Model

| member | source | states |
|---|---|---|
| Reversal.SwapReverse | main.go:35-37 | the two-pointer swap loop leaves exactly the reverse of its input; the loop invariant keeps the swapped prefix and suffix and the untouched middle |
| Seqs.Rev | main.go:34-38 | the reverse has the input's length and element k is input element len-1-k |
| Seqs.RevRev | main.go:34-38 | byte reversal is an involution: reversing twice gives back the original sequence |
| Reversal.ReverseV1 | main.go:33-39 | the result keeps the length and byte k equals input byte len-1-k, for every input |
| Reversal.ByteReversalBreaksMultiByte | main.go:25-31 | the recorded counterexample: the valid one-rune string ĝ (`\xc4\x9d`) becomes `\x9d\xc4`, which is invalid and decodes to 2 runes, while reversing again restores it (1 rune) and rune reversal leaves it unchanged |
| Reversal.ByteReversalValidIffAscii | main.go:25 | on valid UTF-8, byte reversal yields valid UTF-8 if and only if every byte is ASCII: any multi-byte character makes the result invalid |
| Reversal.LastHighByteIsTail | main.go:25 | in valid UTF-8 a non-ASCII byte followed only by ASCII is a continuation byte |
| Reversal.AsciiThenTailInvalid | main.go:30-31 | Go rejects a string where a continuation byte follows nothing but ASCII |
| Reversal.RuneReverse | main.go:53-58 | decoding, reversing and re-encoding always yields valid UTF-8 whose runes are the input's decoded runes in reverse order, so the rune count is kept |
| Reversal.ReverseV2 | main.go:51-59 | the result is valid UTF-8 and decodes to the reverse of the input's lossy rune sequence |
| Reversal.Reverse | main.go:20-22 | the public entry point gives the same result as ReverseV2 for every input |
| Reversal.RuneReversalLosesInvalidByte | main.go:43-49 | the recorded counterexample: `\x9f` is invalid, reverses to the bytes of U+FFFD and stays U+FFFD when reversed again, with rune count 1 throughout |
| Reversal.RuneReverseTwice | main.go:43 | reversing runes twice yields the input with every invalid byte replaced by U+FFFD |
| Reversal.RuneReverseInvolutionIff | main.go:61-62 | rune reversal is undone by a second reversal exactly when the input is valid UTF-8 |
| Reversal.ReverseV3 | main.go:81-90 | invalid input comes back unchanged with the error; valid input gives no error and a valid result that decodes to the reversed runes, with the same rune count |
| Reversal.ReverseV3Involution | main.go:81-89 | on valid input the result is valid, so a second call does not fail and returns the original string |
| Reversal.AsciiReversal | main.go:24-25 | on ASCII text byte reversal and rune reversal agree |
| Reversal.AsciiRunes | main.go:53 | ASCII bytes decode to the same values as runes |
| Reversal.AsciiEncode | main.go:58 | ASCII runes encode to the same values as bytes |
| Reversal.AsciiValid | main.go:82 | text made only of ASCII bytes passes Go's validity check |
| Reversal.ReverseHello | main.go:20-22 | `Reverse("hello")` is `"olleh"`, and `"hello"` is valid UTF-8, so `ReverseV3("hello")` gives `"olleh"` with no error |
| Utf8.EncodeScalar | main.go:58 | the encoding of a scalar value is one well-formed character, one byte exactly for ASCII |
| Utf8.DecodeRune | main.go:53 | decoding a non-empty string consumes between one and four bytes and never more than there are; an empty one gives `(RuneError, 0)`; the lead byte's length class comes from `LeadSize`, which gives Go's `first` table |
| Utf8.DecodeRuneAccepts | main.go:53 | when the string starts with a well-formed character, Go decodes exactly it: its length, no error, the scalar whose encoding those bytes are |
| Utf8.DecodeRuneRejects | main.go:53 | when no prefix is a well-formed character, Go returns `(RuneError, 1)` |
| Utf8.DecodeRuneNoError | main.go:53 | Go's decoder reports no error exactly when the string starts with a well-formed character, and the rune it then returns is the scalar those bytes encode |
| Utf8.DecodeEncodeScalar | main.go:53-58 | decoding the encoding of a scalar value, whatever follows, gives the value back and consumes its encoding |
| Utf8.AcceptsTwo | main.go:53 | a well-formed two-byte character decodes to the scalar it encodes |
| Utf8.AcceptsThree | main.go:53 | a well-formed three-byte character decodes to the scalar it encodes |
| Utf8.AcceptsFour | main.go:53 | a well-formed four-byte character decodes to the scalar it encodes |
| Utf8.EncodedTwo | main.go:53-58 | Go's two-byte decoding formula inverts the two-byte encoding |
| Utf8.EncodedThree | main.go:53-58 | Go's three-byte decoding formula inverts the three-byte encoding |
| Utf8.EncodedFour | main.go:53-58 | Go's four-byte decoding formula inverts the four-byte encoding |
| Strings.Runes | main.go:53 | Go's lossy decode yields only scalar values and never more runes than bytes |
| Strings.RunesStep | main.go:53 | when the first character is valid, Go's decoding yields its rune followed by the decoding of the rest |
| Strings.EncodeRune | main.go:58 | one rune is written as one well-formed character, which decodes back to the rune when it is a scalar value |
| Strings.EncodeRuneScalar | main.go:58 | a rune that is a scalar value is written as its RFC 3629 encoding |
| Strings.Encode | main.go:58 | Go's rune-to-string conversion always produces valid UTF-8 |
| Strings.EncodeCons | main.go:58 | encoding a leading rune followed by more runes is the rune's encoding followed by theirs |
| Strings.ValidString | main.go:82 | decoding from the front never meets the `(RuneError, 1)` result; equal to the RFC 3629 grammar by `ValidStringIffValid` |
| Strings.ValidStringIffValid | main.go:82 | Go's validity check accepts exactly the strings of the RFC 3629 byte grammar |
| Strings.RunesOfEncode | main.go:53-58 | decoding the encoding of scalar runes gives the runes back |
| Strings.EncodeOfRunes | main.go:53-58 | encoding the decoded runes of a valid string gives the string back |
| Strings.RoundTripIffValid | main.go:53-58 | re-encoding the decoded runes restores the string if and only if it is valid UTF-8 |

## Left out

- `main` (main.go:11-18): it only prints a demonstration to the console.
- The two `fmt.Printf` calls inside `ReverseV2` (main.go:52, 54): console tracing with no effect on the result.
- The error message text of `errors.New` (main.go:83): the error is the single value `InvalidUtf8`.
- The fuzzing commands and logs in the comments (main.go:27-31, 45-49, 64-79): only the two counterexamples they report are kept, as lemmas.
- Go's `unicode/utf8` package is not part of this model's source. `DecodeRune`, `ValidString` and the rune encoder are modelled from Go's documented behaviour and its lead-byte tables; the eight-bytes-at-a-time ASCII fast path of `ValidString` is an optimisation with the same result and is not modelled.
- The Go loops swap in place in a freshly allocated slice; the model swaps in an immutable sequence, which has the same observable result.
- Memory allocation and the copies made by Go's `[]byte(s)` and `string(b)` conversions: they do not change any value.

Rune count under `ReverseV2`: Go's decoding replaces each invalid byte by
exactly one U+FFFD, so the result of `ReverseV2` always has as many runes as
Go decodes from the input (`RuneReverse` states it). What `ReverseV2` loses on
malformed input is the input's bytes, not its rune count.
