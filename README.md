# Lexer matchers — a Dafny model

This project models the lexer of a small Lisp-style interpreter written in Rust
(`src/lexer/lexer.rs`). The file defines a `Token` enum and `Lexed`, a pair of a
token and the text left over. It also defines single-token matchers. Each
matcher tries to recognise one lexeme at the start of a string and returns
`Option<Lexed>`:

- `number` takes the maximal leading run of digits, parses it as an `i32` and
  returns `Number(n)` with the text after the run. An empty run or an overflow
  gives no match.
- `char` is a generic one-character matcher. Six wrappers call it with a fixed
  character and token: `l_brace`, `r_brace`, `plus`, `minus`, `asterisk`,
  `slash`.

Everything lives in module `Lexer` in `lexer.dfy`:

- Strings are `seq<char>`.
- `Token` (src/lexer/lexer.rs:1-10) and `Lexed` (src/lexer/lexer.rs:12-16)
  are datatypes, and a match result is `Option<Lexed>`.
- `i32`, the payload of `Token::Number` (src/lexer/lexer.rs:5), is a newtype
  over the range -2^31 .. 2^31-1.
- The matchers are pure functions named `MatchNumber`, `MatchChar`,
  `MatchLBrace` and so on. The unit tests in the same file are example lemmas.

Rust's `str::parse::<i32>` is modelled by `ParseI32`, which follows Rust's
documented behaviour. It accepts an optional `+` or `-`, then one or more ASCII
digits whose signed value fits in `i32`. Every failure is `None`, because
`number` throws the error kind away.

The code has no scanner loop, no whitespace skipping and no lookahead. It has
seven token kinds, and its `char` does not compare the first character with
anything (see Findings).

## Model

| member | source | states |
|---|---|---|
| Lexer.DigitRunLength | src/lexer/lexer.rs:25 | the index of the first non-digit, or the length when all characters are digits: everything before it is a digit and the character at it, if any, is not |
| Lexer.DigitRunUnique | src/lexer/lexer.rs:25 | the maximal digit run is unique: any split point with all digits before it and a non-digit (or the end) at it is the one `position` finds |
| Lexer.ParseI32 | src/lexer/lexer.rs:29-32 | on a non-empty all-digit string, `parse::<i32>` succeeds exactly when the decimal value is at most 2147483647, and then yields that value; it never succeeds on the empty string |
| Lexer.ParseI32AcceptsSign | src/lexer/lexer.rs:25-29 | `parse` on its own would accept `-5`, `+5` and `-2147483648` and reject a lone `+`, so only the digit-run cut keeps signs out of number tokens |
| Lexer.DecimalValueAtI32Max | src/lexer/lexer.rs:29 | the digit strings `2147483647` and `2147483648` have the values i32::MAX and i32::MAX + 1 |
| Lexer.DecimalValueLeadingZero | src/lexer/lexer.rs:29 | prepending `0` to a digit string keeps it a digit string and does not change its value |
| Lexer.MatchNumber | src/lexer/lexer.rs:23-34 | no match on empty input or a non-digit first character (a sign or a space included); on success the token is `Number(n)` with n >= 0 and the rest is a strictly shorter suffix of the input |
| Lexer.MatchNumberSplit | src/lexer/lexer.rs:25-33 | for any digit string p followed by text that is empty or starts with a non-digit: the result is `Number(value of p)` with exactly that text as rest, or no match when p is empty or its value exceeds i32::MAX, which characterises the matcher on every input |
| Lexer.MatchNumberMaximalMunch | src/lexer/lexer.rs:25-31 | on success: consumed prefix ++ rest == input, the prefix is non-empty and all digits, the token carries its decimal value, and the rest is empty or starts with a non-digit |
| Lexer.MatchNumberOverflow | src/lexer/lexer.rs:29-32 | a leading digit run whose value exceeds 2147483647 gives no match |
| Lexer.MatchNumberLeadingZero | src/lexer/lexer.rs:27-31 | on input starting with a digit, adding a leading `0` does not change the result |
| Lexer.MatchNumberNoWhitespace | src/lexer/lexer.rs:25-28 | input starting with whitespace is no match, and the characters a successful match consumes contain no whitespace |
| Lexer.MatchChar | src/lexer/lexer.rs:60-67 | as written: no match exactly on empty input; otherwise the supplied token with the input minus its first character as rest, whatever that character is |
| Lexer.MatchCharIgnoresTarget | src/lexer/lexer.rs:60-66 | the result is the same for every `target`, because the pattern at line 64 binds a fresh name instead of comparing |
| Lexer.MatchCharKeepsWhitespace | src/lexer/lexer.rs:61-64 | exactly one character is consumed, so whitespace after it stays in the rest, character for character |
| Lexer.MatchCharIntended | src/lexer/lexer.rs:60-67 | the corrected matcher: a match exactly when the input is non-empty and its first character is `target`, and then the token with the input's tail |
| Lexer.MatchCharAgreement | src/lexer/lexer.rs:60-67 | the matcher as written and the corrected one give the same result exactly when the input is empty or starts with `target` |
| Lexer.MatchLBraceAcceptsAnyChar | src/lexer/lexer.rs:36-38 | the discrepancy on concrete input: `l_brace(" (")` gives `LBrace` with rest `(`, `l_brace("7")` gives `LBrace` with empty rest, and the corrected matcher rejects `" ("` |
| Lexer.MatchLBrace | src/lexer/lexer.rs:36-38 | no match exactly on empty input; otherwise `LBrace` with the input's tail as rest |
| Lexer.MatchRBrace | src/lexer/lexer.rs:40-42 | no match exactly on empty input; otherwise `RBrace` with the input's tail as rest |
| Lexer.MatchPlus | src/lexer/lexer.rs:44-46 | no match exactly on empty input; otherwise `Plus` with the input's tail as rest |
| Lexer.MatchMinus | src/lexer/lexer.rs:48-50 | no match exactly on empty input; otherwise `Minus` with the input's tail as rest |
| Lexer.MatchAsterisk | src/lexer/lexer.rs:52-54 | no match exactly on empty input; otherwise `Asterisk` with the input's tail as rest |
| Lexer.MatchSlash | src/lexer/lexer.rs:56-58 | no match exactly on empty input; otherwise `Slash` with the input's tail as rest |
| Lexer.TestLBrace | src/lexer/lexer.rs:78-82 | `l_brace("()")` is `LBrace` with rest `)` |
| Lexer.TestRBrace | src/lexer/lexer.rs:85-89 | `r_brace("))")` is `RBrace` with rest `)` |
| Lexer.TestNumber | src/lexer/lexer.rs:92-104 | `number("123c")` is `Number(123)` with rest `c`, `number("123")` is `Number(123)` with empty rest, and `number("+123")` is no match |
| Lexer.TestOperator | src/lexer/lexer.rs:107-139 | `plus`, `minus`, `asterisk` and `slash` on their character alone give empty rest, and followed by `" 1 2"` give rest `" 1 2"` |
| Lexer.TestsAgreeWithIntended | src/lexer/lexer.rs:78-138 | every unit-test input gives the same result under the corrected matcher, so the tests cannot tell the two readings apart |
| Lexer.SignIsSeparateToken | src/lexer/lexer.rs:48-50 | `-5` is not a number; `minus` takes the `-` and leaves `5`, which `number` reads as `Number(5)` |
| Lexer.NumberI32Bounds | src/lexer/lexer.rs:29-32 | `number("2147483647")` is `Number(2147483647)` with empty rest; `number("2147483648")` is no match |

## Left out

- `lex` (src/lexer/lexer.rs:69-71) only prints its argument. That is I/O with no logic.
- `Lexed::new` (src/lexer/lexer.rs:17-21) only builds the pair, so the datatype constructor `Lexed` stands for it.
- Unicode digits: `char::is_numeric` accepts more than ASCII `0`-`9`. The model uses ASCII digits only. For non-ASCII input the character index from `position` is used as a byte index at lines 27-28, which can mis-split the string or panic. The model indexes characters as sequence elements, so it does not capture that. The two part ways on such input: for `"5²"` the source's numeric run is the whole string, `parse` rejects it and the result is no match, while `MatchNumber("5²")` is `Number(5)` with rest `"²"`; for `"5²x"` the source panics, because byte index 2 falls inside `²`. A mis-split slice always keeps a non-ASCII numeric character, so the source never produces a different number, only no match or a panic.
- The lifetime in `Lexed<'a>`: `rest` is a plain sequence. `MatchNumber` and `MatchChar` state that it is a suffix of the input.
- The `Debug` and `PartialEq` derives: Dafny's datatype equality covers the comparisons the tests make.
- `IsWhitespace` lists only space, tab, newline and carriage return. It is used only to state that no matcher skips whitespace.

## Findings

| source | as written | input that shows it | evidently intended | confidence | as-written member | corrected member |
|---|---|---|---|---|---|---|
| src/lexer/lexer.rs:64 | the arm `Some(target)` binds a fresh variable instead of comparing with the parameter, so `char` accepts any first character | `l_brace(" (")` gives `LBrace` with rest `(`; `l_brace("7")` gives `LBrace` | match only when the first character equals `target` | not executed | Lexer.MatchChar, Lexer.MatchLBraceAcceptsAnyChar | Lexer.MatchCharIntended |

The six wrappers are modelled on `MatchChar` as written, because that is what
the code does. `MatchCharAgreement` states exactly which inputs the two
readings disagree on. `TestsAgreeWithIntended` shows that the unit tests pass
under both readings.
