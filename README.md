# preserveEnds masking strategy in Dafny

This project models the `preserveEnds` strategy of go-masker
(`MaskPreserveEnds` and the strategy name `MaskTypePreserveEnds` in
`masking_func.go`). The strategy masks a string value while keeping a few code
points at each end:

- An empty value comes back empty.
- Otherwise `start` and `end` default to 3. An argument of the form
  `(start,end)` overrides them. The text between the first `(` and the first
  `)` is split on `,`. When there are at least two parts, each of the first two
  is trimmed of white space and read by `strconv.Atoi` on its own. A part that
  `Atoi` rejects keeps its default.
- When `start + end` reaches the code-point count, a value of at most 3 code
  points is masked entirely. A longer value keeps one code point at each end.
- Otherwise the first `start` and last `end` code points are kept, and the
  `count - start - end` between them become copies of the mask character.

The modules follow the program and the parts of Go's standard library it calls:

- `GoInt` (`go_int.dfy`): Go's 64-bit `int`, its range, and the wrap-around of
  `+` and `-`.
- `GoStrconv` (`go_strconv.dfy`): `strconv.Atoi`, which text it accepts and
  the value it reads, and `Itoa` as its inverse.
- `GoStrings` (`go_strings.dfy`): `strings.Index`, `Split`, `TrimSpace` (with
  `unicode.IsSpace`) and `Repeat`, on strings seen as code-point sequences.
- `Masker` (`masking_func.dfy`): the strategy itself. `PreserveEnds` is the
  specification function. `MaskPreserveEnds` is a method that runs the Go
  function statement by statement (locals `start` and `end`, the collapse to
  1 and 1, and a builder with three appends), proved equal to
  `PreserveEnds`. `ReadCounts` is the argument-parsing part of the Go code,
  written out as statements and proved equal to the function `ParseArgs`.
  The strategy name is the constant `MaskTypePreserveEnds`.

Go's `int` is modelled as 64 bits wide, so the arithmetic on `start` and `end`
wraps around as Go's does. The Go code never reports an error, but it can
panic. A negative count whose Go sum with the other count stays below the
code-point count, for example `(-1,3)` on a value of 8 code points, makes the
call panic. The panic comes at a slice (masking_func.go:50 or 55) or, for a
very negative `end` such as in `(0,-9223372036854775808)`, in
`strings.Repeat` (masking_func.go:53), whose count then wraps to a negative
value. When that sum reaches the count, the collapse applies as for any other
counts. Counts whose true sum exceeds `MaxInt` wrap to a negative Go sum, so
the collapse is skipped, and the code then also panics. The model does not
clamp either case: a panic is the explicit outcome `Panicked`.

## Model

| member | source | states |
|---|---|---|
| Masker.MaskPreserveEnds | masking_func.go:13-58 | For every mask character, argument and value, the step-by-step run returns exactly what `PreserveEnds` specifies, with the same panics |
| Masker.ReadCounts | masking_func.go:18-35 | The defaults, overwritten part by part, end as the pair `ParseArgs` describes |
| Masker.PreserveEnds | masking_func.go:13-58 | Whenever the function returns instead of panicking, its error is nil |
| Masker.MaskRunes | masking_func.go:37-57 | The masking stage never returns a non-nil error |
| Masker.ParseArgs | masking_func.go:18-35 | Both counts read from an argument are Go `int` values (within `MinInt..MaxInt`) |
| Masker.ParsedOr | masking_func.go:28-33 | One part, trimmed and read by `Atoi`: the result is a Go `int`, and it is either the default or the value `Atoi` reads from the trimmed part |
| Masker.KeepEnds | masking_func.go:49-55 | The three builder appends: the result starts with the value's first `keepStart` code points and ends with its last `keepEnd` code points |
| Masker.EmptyValue | masking_func.go:14-16 | An empty value gives `""` and a nil error, whatever the argument |
| Masker.NoParensKeepsDefaults | masking_func.go:20-25 | Without a `(` or without a `)`, both counts are 3 |
| Masker.CloseBeforeOpenKeepsDefaults | masking_func.go:22-25 | A `)` before the first `(` leaves both counts at 3 |
| Masker.ParensAt | masking_func.go:22-26 | `Index` finds the first `(` right after a prefix without parentheses, and the first `)` right after the text between them, which is what gets split |
| Masker.ParseArgsBetween | masking_func.go:25-34 | With `inner` between the first `(` and the first `)`, the counts are the first two comma-separated pieces of `inner`, read, or the defaults when there are fewer than two |
| Masker.NoCommaKeepsDefaults | masking_func.go:26-27 | Parenthesised text without a comma gives fewer than two parts, so both counts are 3 |
| Masker.FirstTwoPieces | masking_func.go:26-27 | `a,b` followed by nothing or by more comma-separated text splits into at least two pieces, and the first two are `a` and `b` |
| Masker.ParseArgsParts | masking_func.go:26-33 | `start` is read from the first part alone and `end` from the second alone, each falling back to its own default; any third part is ignored |
| Masker.ParsedOrTrimmed | masking_func.go:28-33 | A part is read after trimming: white space around it does not matter, and text that `Atoi` rejects keeps the default |
| Masker.ParseArgsPair | masking_func.go:26-33 | `(a,b)` with no `,` or `)` inside `a` or `b` reads `a` as `start` and `b` as `end` |
| Masker.ParsedOrItoa | masking_func.go:28-33 | A count written in decimal by `Itoa` is read back exactly |
| Masker.ParseArgsItoa | masking_func.go:18-35 | `(start,end)` written with `Itoa` parses back to exactly `start` and `end`, for every pair of Go `int` values |
| Masker.ShortValueFullyMasked | masking_func.go:39-42 | When the Go sum `start + end` reaches the length of a value of 1 to 3 code points, the result is the mask repeated once per code point |
| Masker.CollapseKeepsOneAtEachEnd | masking_func.go:39-55 | When the Go sum reaches the length of a longer value, the result is its first code point, `length - 2` masks and its last code point |
| Masker.CountsKept | masking_func.go:47-57 | Non-negative counts whose sum is below the length keep exactly `start` code points in front and `end` at the back, with `length - start - end` masks between them |
| Masker.NegativeCountPanics | masking_func.go:47-55 | A negative count whose Go sum stays below the length makes the call panic; nothing is clamped |
| Masker.PanicsExactly | masking_func.go:39-57 | A non-empty value panics if and only if a count is negative and the Go sum stays below the length, or both counts are non-negative and their true sum exceeds `MaxInt` |
| Masker.NoPanicForFittingCounts | masking_func.go:39-57 | Non-negative counts whose true sum fits in an `int` never make the call panic |
| Masker.OverflowingCountsPanic | masking_func.go:39-55 | Non-negative counts whose true sum exceeds `MaxInt` wrap around, skip the collapse, and make the call panic |
| Masker.KeepEndsAt | masking_func.go:49-55 | With a one-character mask, the built string has the value's length, the value's own code points outside the masked middle, and the mask character inside it |
| Masker.ReturnedShape | masking_func.go:37-57 | Every returned result keeps the ends of the value and masks a non-empty middle. It keeps nothing for a short collapsed value, one code point at each end for a longer collapsed value, and otherwise exactly the parsed counts |
| Masker.SingleCharMask | masking_func.go:37-57 | With a one-character mask, every returned result has as many code points as the value and masks at least one of them; every other code point is the value's own |
| Masker.ExampleThreeThree | masking_func.go:13-58 | `"1234567890"` with `(3,3)` gives `"123****890"` |
| Masker.ExampleShort | masking_func.go:37-42 | `"abc"` with the default counts gives `"***"` |
| Masker.ExampleCollapse | masking_func.go:39-55 | `"abcde"` with the default counts gives `"a***e"` |
| Masker.ExampleUnreadablePart | masking_func.go:26-33 | `( 2 , x , 9)` reads as `(2, 3)`: the spaced `2` is read, the unreadable `x` keeps its default, the third part is ignored |
| Masker.SpacedParts | masking_func.go:28-33 | `" 2 "` reads as 2 and `" x "` keeps the default 3 |
| Masker.ExampleNegativePanics | masking_func.go:47-50 | `(-1,3)` on an 8-code-point value panics |
| Masker.ExampleMinEndPanics | masking_func.go:39-53 | `(0,-9223372036854775808)` on `"abcde"` skips the collapse, and the Go mask length `5 - 0 - end` is negative, so the call panics in `strings.Repeat` |
| Masker.ExampleOverflowPanics | masking_func.go:39-55 | `(9223372036854775807,1)` makes every non-empty value panic |
| GoInt.Wrap | masking_func.go:39 | Go's two's-complement wrap-around: the result is a Go `int` and differs from the true value by 0 or by 2^64 |
| GoInt.Add | masking_func.go:39 | Go's `start + end` is always a Go `int` |
| GoInt.Sub | masking_func.go:52-55 | Go's `runeCount - start - end` and `runeCount - end` are always Go `int` values |
| GoInt.AddNonNegative | masking_func.go:39 | For non-negative Go `int` values, Go's sum is the true sum when that fits, and negative when it exceeds `MaxInt` |
| GoStrconv.Atoi | masking_func.go:28-33 | A number that `Atoi` accepts lies within the Go `int` range |
| GoStrconv.AtoiItoa | masking_func.go:28-33 | `Atoi` reads back every `int` that `Itoa` writes |
| GoStrconv.AtoiOneDigit | masking_func.go:28-33 | A single digit, with or without a `-` in front, reads as its value |
| GoStrconv.AtoiPlusSign | masking_func.go:28-33 | A leading `+` on a string of digits changes nothing |
| GoStrconv.AtoiRejectsSpace | masking_func.go:28-33 | `Atoi` rejects a leading or trailing space, which is why each part is trimmed first |
| GoStrings.Index | masking_func.go:22-23 | `strings.Index` returns -1 or a position that holds the searched character |
| GoStrings.IndexIsFirst | masking_func.go:22-23 | `Index` is -1 exactly when the character is absent; otherwise no earlier position holds it |
| GoStrings.IndexAfter | masking_func.go:22-23 | In `p + [c] + q` with no `c` in `p`, the first `c` is at `|p|` |
| GoStrings.Split | masking_func.go:26 | `strings.Split` always returns at least one piece |
| GoStrings.SplitCount | masking_func.go:26-27 | There are two pieces or more exactly when the separator occurs |
| GoStrings.SplitPieces | masking_func.go:26 | No piece contains the separator |
| GoStrings.SplitJoin | masking_func.go:26 | Joining the pieces with the separator gives back the original text |
| GoStrings.JoinSplit | masking_func.go:26 | Splitting a join of separator-free pieces gives back the pieces |
| GoStrings.SplitFirst | masking_func.go:26 | A leading separator-free piece is the first piece, and the rest is split the same way |
| GoStrings.IsSpace | masking_func.go:28-31 | The characters `unicode.IsSpace` accepts, which `strings.TrimSpace` removes: tab, newline, vertical tab, form feed, carriage return, space, U+0085, U+00A0, and above U+00FF U+1680, U+2000 to U+200A, U+2028, U+2029, U+202F, U+205F and U+3000 (no contract; a predicate) |
| GoStrings.TrimLeft | masking_func.go:28-31 | Drops leading `IsSpace` characters one at a time (no contract; `TrimLeftSplits` and `TrimLeftPadded` state its properties) |
| GoStrings.TrimRight | masking_func.go:28-31 | Drops trailing `IsSpace` characters one at a time (no contract; `TrimRightSplits` and `TrimRightPadded` state its properties) |
| GoStrings.TrimSpace | masking_func.go:28-31 | `strings.TrimSpace` as `TrimRight` after `TrimLeft` (no contract; `TrimSpaceSplits`, `TrimSpaceEnds`, `TrimSpaceBlank` and `TrimSpacePadded` state its properties) |
| GoStrings.TrimLeftSplits | masking_func.go:28-31 | `s` is a white-space prefix followed by `TrimLeft(s)`, which does not start with white space |
| GoStrings.TrimRightSplits | masking_func.go:28-31 | `s` is `TrimRight(s)` followed by a white-space suffix, and `TrimRight(s)` does not end with white space |
| GoStrings.TrimLeftPadded | masking_func.go:28-31 | `TrimLeft` removes a white-space prefix and nothing more |
| GoStrings.TrimRightPadded | masking_func.go:28-31 | `TrimRight` removes a white-space suffix and nothing more |
| GoStrings.TrimSpaceSplits | masking_func.go:28-31 | `TrimSpace(s)` is `s` without a white-space prefix and a white-space suffix |
| GoStrings.TrimSpaceEnds | masking_func.go:28-31 | `TrimSpace(s)` neither starts nor ends with white space |
| GoStrings.TrimSpaceBlank | masking_func.go:28-31 | White space alone trims to the empty string |
| GoStrings.TrimSpacePadded | masking_func.go:28-31 | `TrimSpace` removes exactly the white-space padding around a core that neither starts nor ends with white space |
| GoStrings.Repeat | masking_func.go:41 | `strings.Repeat(m, n)`: `n` copies of `m` one after another (no contract; `RepeatLength` and `RepeatChar` state its properties) |
| GoStrings.RepeatLength | masking_func.go:41 | `strings.Repeat(m, n)` is `n` times as long as `m` |
| GoStrings.RepeatChar | masking_func.go:53 | Repeating a one-character mask `n` times gives `n` copies of that character |

## Left out

- `mask.go` is not part of this model: it sets up the go-mask library, its other strategies and the default instance, and offers `RegisterMaskStringFunc` (mask.go:68-74), through which a caller can register `MaskPreserveEnds` under a name such as `MaskTypePreserveEnds`. The strategy name is kept as the constant `Masker.MaskTypePreserveEnds`.
- `mask.MaskChar()` reads the library's global mask character. The model takes the mask character as the parameter `maskChar` instead.
- `doc.go` holds documentation only.
- A value is a sequence of Unicode code points, so `utf8.RuneCountInString(value)` is its length and `[]rune(value)` is the value itself. Invalid UTF-8 bytes, which Go decodes to U+FFFD, are not modelled.
- Go's `int` is modelled as 64 bits wide. A 32-bit platform is not modelled.
- MaskPreserveEnds: requires the value to have at most `MaxInt` code points. Every Go string on a 64-bit platform meets this.
- Panicked: a panic is one outcome. The model does not record which slice or which `strings.Repeat` call panicked, or the panic message.
- `strings.Repeat` also panics when the length of its result overflows an `int`. This needs a result longer than memory can hold, so it is not modelled. Allocation and the `strings.Builder` buffer are not modelled either.
- GoStrconv.Atoi: the kind of error (`ErrSyntax` or `ErrRange`) matches Go's only for text made of an optional sign and digits. On a digit run that overflows before a later non-digit, such as `99999999999999999999x`, Go reports `ErrRange` and the model `ErrSyntax`. `MaskPreserveEnds` only tests whether the error is nil, and which text is accepted, with which value, is exact.
