# Message-id extractor of the GitHub issue notification handler

The handler receives an email-receipt event and answers with the GitHub
issue the email belongs to. All of its logic is one extraction: take the
first record of the event, read that record's message id, strip the angle
brackets from both ends, split the rest on `/`, require at least four
segments, take segment 0 as the owner and segment 1 as the repository, and
parse segment 3 as a `u64` issue number. Every step can fail, and each
failure ends the extraction.

This project models that extraction as a pure function and proves what it
does:

- `wrappers.dfy`: `Option` and `Result`.
- `rust_str.dfy` (module `RustStr`): `str::trim_matches` with a character
  set (`TrimMatches`), `str::split` on one character (`Split`) and its
  inverse `Join`.
- `rust_num.dfy` (module `RustNum`): the `u64` type, `u64::from_str`
  (`ParseU64`, with the error kinds `Empty`, `InvalidDigit` and
  `PosOverflow`) and the decimal text of a `u64` (`Decimal`).
- `handler.dfy` (module `Handler`): the `Response` record, the error kinds
  `NoRecord`, `NoMessageId`, `Malformed(raw)` and `BadIssueNumber(kind)`,
  and the extraction `Extract`. An event is a sequence of records. Each
  record is reduced to its optional message id.

What the code does, which a reader might not expect:

- Trimming removes whole runs of `<` and `>` from each end, not one bracket
  per side. `<<a/b/c/1>>` extracts like `a/b/c/1`.
- `parse::<u64>` accepts one leading `+`. So `a/b/c/+7` gives issue 7.
- The owner and the repository are not checked. Either may be empty
  (`///7` gives owner `""`, repository `""`, issue 7). The repository may
  hold any character except `/`. So may the owner, except that it never
  starts with `<` or `>`: trimming removes those from the front of the id.
- Segments after index 3 are allowed and ignored, and so is segment 2.

## Model

| member | source | states |
|---|---|---|
| `Handler.Extract` | src/main.rs:16-56 | `NoRecord` exactly when there is no record; `NoMessageId` exactly when the first record has no message id; `Malformed` exactly when the trimmed id holds fewer than three `/`, and it then carries the untrimmed id; `BadIssueNumber` exactly when there are at least four segments and parsing segment 3 fails, and it then carries the kind that parse reports |
| `Handler.ExtractOkIff` | src/main.rs:35-55 | extraction yields a given Response exactly when the trimmed id is `/`-joined segments with that owner at 0, that repository at 1 and, at 3, an optional `+` and digits whose value is the issue number; segment 2 and later segments are unconstrained |
| `Handler.ExtractFirstRecordOnly` | src/main.rs:20-33 | two events whose first records agree give the same outcome, whatever the later records hold |
| `Handler.ExtractIgnoresOtherSegments` | src/main.rs:42-55 | two ids with at least four segments that agree on segments 0, 1 and 3 give the same outcome |
| `Handler.ExtractBracketsOptional` | src/main.rs:35-40 | wrapping an id in `<` and `>` does not change success, the Response or a parse error; a Malformed error carries the id as received |
| `Handler.ExtractRoundTrip` | src/main.rs:35-55 | owner, repository and reserved segment without `/`, owner not starting with a bracket, joined with the decimal text of any `u64`, with or without brackets, extract back to that owner, repository and number |
| `Handler.ExtractJoinedRoundTrip` | src/main.rs:35-55 | the same round trip, with the id written as the `/`-join of its four segments |
| `Handler.JoinFour` | src/main.rs:36 | joining four segments with `/` is their concatenation with a `/` between each pair |
| `RustStr.TrimMatches` | src/main.rs:35 | the result does not start or end with a trimmed character; it is an infix of the input; every character before and after it is a trimmed character |
| `RustStr.TrimMatchesUnique` | src/main.rs:35 | any infix with those three properties is the trimmed result, so the contract of `TrimMatches` determines it |
| `RustStr.TrimMatchesUnpadded` | src/main.rs:35 | an id with no bracket at either end is left unchanged |
| `RustStr.TrimMatchesIdempotent` | src/main.rs:35 | trimming twice is trimming once |
| `RustStr.TrimMatchesAbsorbs` | src/main.rs:35 | one more trimmed character on each side does not change the result |
| `RustStr.LeadingRun` | src/main.rs:35 | the length of the longest prefix made of trimmed characters |
| `RustStr.TrailingRun` | src/main.rs:35 | the length of the longest suffix made of trimmed characters |
| `RustStr.Split` | src/main.rs:36 | one more piece than there are separators; no piece holds the separator; joining the pieces with the separator gives the input back |
| `RustStr.SplitJoin` | src/main.rs:36 | splitting the join of separator-free pieces gives those pieces back, so `Split` is the only split with the properties above |
| `RustStr.SplitNoSeparator` | src/main.rs:36 | a string without the separator splits into itself alone |
| `RustStr.SplitFirstPiece` | src/main.rs:36 | a separator-free prefix followed by a separator splits off as the first piece |
| `RustNum.ParseU64` | src/main.rs:45-48 | the empty string is `Empty`; `Empty` is reported for nothing else, except possibly a lone `+` |
| `RustNum.Accumulate` | src/main.rs:45-48 | the digit loop never reports `Empty` |
| `RustNum.ParseU64Spec` | src/main.rs:45-48 | parsing succeeds exactly on an optional `+` followed by one or more ASCII digits whose value is at most 2^64-1, and then returns that value; too large a value is `PosOverflow` |
| `RustNum.ParseU64BadChar` | src/main.rs:45-48 | at the first character that is not a digit: `InvalidDigit` if the digits before it fit in a `u64`, otherwise `PosOverflow`; never a partial value |
| `RustNum.AccumulatePrefix` | src/main.rs:45-48 | after the first digits are consumed without overflow, the loop holds their decimal value |
| `RustNum.Decimal` | src/main.rs:45-48 | the decimal text of a number, which `parse::<u64>` reads back: a non-empty digit string whose value is that number, with no leading zero |
| `RustNum.ParseDecimal` | src/main.rs:45-48 | parsing the decimal text of a `u64` gives the number back |

## Left out

- Logging through `tracing` (`info!` and `error!`, src/main.rs:17, 23, 31, 38, 46, 50): it never changes the outcome.
- The process entry point and the Lambda runtime (`main`, `run`, `service_fn`, src/main.rs:58-63): asynchronous plumbing outside the extraction.
- The text of the error messages, including the `Display` text of Rust's parse error: only the error kind and the data it carries are modelled.
- The JSON shape of the event and of the Response (serde, `aws_lambda_events`): each record is reduced to its optional message id.
- Strings are sequences of characters, not UTF-8 bytes. Trimming and splitting here work on characters, and a non-ASCII character is an invalid digit either way.
- `RustNum.ParseU64`: its contract does not fix the error kind of a lone `+`. The model returns `InvalidDigit`, as current Rust releases do; older releases returned `Empty`.
