# year_progress_bot, modelled in Dafny

The bot answers one chat command. A message from a human that starts with
`!` is cut at single spaces. The first token, lowercased, is the command,
and the remaining tokens are its arguments. Only the command `yp` is
answered, and its first argument picks the reply:

- no argument: the year-progress line, for example `[▓▓▓▓▓▓▓░░░░░░░░] 50%`;
- `ping`: `Pong! This message had a latency of <N>ms.`;
- `help`: a fixed help text;
- anything else, including the empty token that a trailing or doubled
  space produces: `Unknown arguments. Try '!yp help' for more information.`

The year-progress line shows how far the current UTC hour lies into its
calendar year. The elapsed part counts whole hours from 1 January 00:00
to the start of the current day, plus the hour of day. The year length is
the number of hours between this 1 January and the next one. The
percentage is truncated, and the bar has 15 cells: one `▓` per full
fifteenth of 100 percent, that is floor(p * 15 / 100) of them, padded with
`░`.

The model has four modules:

- `Decimal` (decimal.dfy): Rust's `{}` rendering of integers, and a
  parser that reads it back.
- `Tokens` (tokens.dfy): `split(" ")` as a function, its inverse `Join`,
  and the collecting loop as a method proved equal to the function. It
  also holds ASCII lowercasing.
- `YearProgress` (year_progress.dfy): proleptic Gregorian day numbers,
  hours elapsed and hours in the year, the truncated percentage, the bar
  (a function, and the building loop as a method), and the rendered line
  with a reader for it.
- `Dispatch` (dispatch.dfy): `Handler::message` as a function from
  (bot flag, text, clock reading, latency) to an optional reply, plus the
  same parse as a method.

The clock reading and the measured latency are parameters. Sending the
reply is left to the chat client, so the reply is returned instead.

Two consequences of the code are worth stating:

- The percentage tops out at 99. The elapsed hour count is at most the
  year's hours minus one, so the last hour of a year shows 99%
  (`YearProgress.YearBoundaries`).
- The bar always has 15 cells. On 2 July 2024 at 12:00 it has 7 `▓` and
  8 `░` cells (`YearProgress.Example2024`).

## Model

| member | source | states |
|---|---|---|
| `Dispatch.Respond` | src/main.rs:16-51 | A bot author never gets a reply, and neither does text without the `!` prefix. A reply comes exactly when the author is human and the text is `!`, then `y`/`Y`, then `p`/`P`, then the end of the text or a space. |
| `Dispatch.SilentCases` | src/main.rs:17-28 | `!` alone, `!other`, `yp` without a prefix, and `!yp` from a bot all get no reply. |
| `Dispatch.TriggerIff` | src/main.rs:24-28 | After the prefix is stripped, splitting and lowercasing the first token gives `yp` if and only if the text is a trigger message. |
| `Dispatch.ParseInvocation` | src/main.rs:20-26 | The parse fails exactly when the text lacks the `!` prefix. |
| `Dispatch.ParseInvocationNoSpaces` | src/main.rs:25-26 | Neither the command nor any argument contains a space. |
| `Dispatch.ParseInvocationRoundTrip` | src/main.rs:24-26 | The command is the lowercase of the raw first token. `!` followed by the raw token and the arguments, joined by single spaces, gives back the message. |
| `Dispatch.Tokenize` | src/main.rs:24-26 | Collecting the split, removing element 0 and lowercasing it gives the same result as `ParseInvocation`. |
| `Dispatch.BareTrigger` | src/main.rs:29-33 | `!yp`, with the command in any case, replies with the year-progress line for the given clock reading. That line reads back as its percentage and its number of filled cells. |
| `Dispatch.DispatchTable` | src/main.rs:34-49 | For `!yp <arg>` followed by nothing or a space, the reply depends only on `arg`, compared case-sensitively: `ping` gives the pong line with the latency, `help` the help text, anything else the unknown-arguments text. |
| `Dispatch.LaterArgumentsIgnored` | src/main.rs:34-49 | Arguments after the first never change the reply. |
| `Dispatch.TrailingSpace` | src/main.rs:25-48 | `!yp ` has one empty argument and gets the unknown-arguments reply. |
| `Dispatch.DoubledSpace` | src/main.rs:25-48 | In `!yp  ping` the first argument is empty, so the reply is unknown-arguments, not pong. |
| `Dispatch.UpperCaseCommand` | src/main.rs:26-36 | `!YP ping` is answered with pong, because the command is lowercased. |
| `Dispatch.UpperCaseArgument` | src/main.rs:34-48 | `!yp PING` gets the unknown-arguments reply, because arguments are not lowercased. |
| `Dispatch.Classify` | src/main.rs:29-49 | No argument selects the year-progress branch, a first argument `ping` the pong branch, `help` the help branch, and anything else the unknown-arguments branch. Only the first argument is read; see `DispatchTable` and `LaterArgumentsIgnored`. |
| `Dispatch.ReplyTextDistinct` | src/main.rs:29-49 | The reply `ReplyText` gives for each branch is non-empty, and its first character tells the four branches apart: `[` for the progress line, `P` for pong, `A` for help, `U` for unknown arguments. |
| `Dispatch.PongTextReadsBack` | src/main.rs:35-36 | The pong reply `PongText` is `Pong! This message had a latency of `, then the latency, then `ms.`. The middle part is a signed decimal that reads back as the latency. |
| `Dispatch.PongTextInjective` | src/main.rs:35-36 | Different latencies give different pong replies. |
| `Tokens.Split` | src/main.rs:25-26 | Splitting always yields at least one token, so removing element 0 cannot fail. |
| `Tokens.SplitTokensHaveNoSpace` | src/main.rs:25 | No token of a split contains a space. |
| `Tokens.JoinSplit` | src/main.rs:25 | Joining the tokens of a split with single spaces gives back the text. |
| `Tokens.SplitJoin` | src/main.rs:25 | Splitting the join of one or more space-free tokens gives back those tokens. |
| `Tokens.SplitWord` | src/main.rs:25 | A space-free text splits into exactly itself. |
| `Tokens.SplitCons` | src/main.rs:25 | A space-free word followed by a space splits off as the first token, and the rest splits on its own. |
| `Tokens.SplitOnSpaces` | src/main.rs:25 | The loop that closes a token at each space returns `Split` of the text: space-free tokens that join back to the text. |
| `Tokens.LowerIsYp` | src/main.rs:26-28 | A token lowercases to `yp` if and only if it is `yp`, `yP`, `Yp` or `YP`. |
| `Tokens.Lower` | src/main.rs:26 | Lowercasing keeps the length and maps each character on its own: `A`-`Z` to `a`-`z`, everything else unchanged. |
| `YearProgress.YearStartStep` | src/main.rs:58-63 | From 1 January of one year to 1 January of the next there are 366 days in a Gregorian leap year and 365 otherwise. |
| `YearProgress.HoursBetween` | src/main.rs:58-63 | Within one year, the hours between two dates at 00:00 are 24 times the difference of their days of the year. From a date in January or February to the same date a year later, they are 24 times the length of the first year. |
| `YearProgress.TotalHoursInYear` | src/main.rs:58-63 | The hours between the two 1 Januaries are the days of the year times 24: 8784 in a leap year, 8760 otherwise. |
| `YearProgress.DaysBeforeMonthStep` | src/main.rs:62 | The table of days before each month advances by that month's length, starts at 0 and ends at the year's length. |
| `YearProgress.DayOfYear` | src/main.rs:62 | The ordinal of a valid date lies between 1 and the length of its year. |
| `YearProgress.HoursElapsed` | src/main.rs:61-66 | The whole hours from 1 January to the start of the day, plus the hour, equal (day of year - 1) * 24 + hour. They are non-negative and less than the hours in the year. |
| `YearProgress.Percentage` | src/main.rs:66 | The truncated percentage `p` satisfies `p * total <= elapsed * 100 < (p + 1) * total`. |
| `YearProgress.PercentageBelowHundred` | src/main.rs:66 | An elapsed count short of the total gives at most 99 percent. |
| `YearProgress.PercentageMonotonic` | src/main.rs:66 | A larger elapsed count never gives a smaller percentage. |
| `YearProgress.YearPercentage` | src/main.rs:54-66 | The percentage of the year shown at any valid clock reading is at most 99. |
| `YearProgress.HoursElapsedMonotonic` | src/main.rs:62-66 | Within one year, a later (month, day, hour) has strictly more elapsed hours. |
| `YearProgress.YearPercentageMonotonic` | src/main.rs:62-66 | Within one year, the percentage never decreases as the clock advances. |
| `YearProgress.YearBoundaries` | src/main.rs:58-66 | 1 January 00:00 shows 0% and 31 December 23:00 shows 99%, in every year. |
| `YearProgress.FillLength` | src/main.rs:69-70 | The filled-cell count is the whole part of `p * 15 / 100`, and below 15 when `p < 100`. |
| `YearProgress.PadRight` | src/main.rs:73 | Padding keeps the text as its prefix, fills up to the width with the pad character, and never truncates. |
| `YearProgress.ProgressBar` | src/main.rs:69-73 | The bar has `fill` leading `▓` cells, then `░` cells, for `max(fill, 15)` cells in all. |
| `YearProgress.BuildBar` | src/main.rs:71-73 | The loop that pushes one `▓` per filled cell, followed by the padding, builds `ProgressBar(fill)`. For `fill < 15` the result has exactly 15 cells, `fill` of them `▓`. |
| `YearProgress.BarCount` | src/main.rs:69-73 | For fewer than 15 filled cells, the bar holds exactly `fill` `▓` and `15 - fill` `░` among its 15 cells. |
| `YearProgress.ProgressLine` | src/main.rs:69-74 | The line starts with `[` and ends with `%`. For a percentage N up to 99 it has 19 characters plus the digits of N. It reads back as the filled-cell count and N, and the reader only accepts a bar whose `▓` cells all come before its `░` cells, so the read-back also fixes the left alignment. |
| `YearProgress.YearProgressText` | src/main.rs:54-74 | The line `year_progress(None)` returns at a valid clock reading has 20 or 21 characters and starts with `[`. It reads back as `YearPercentage` of the reading and the matching filled-cell count. |
| `YearProgress.ReadBarExact` | src/main.rs:71-74 | A line the reader accepts holds, between `[` and `]`, exactly `ProgressBar` of the fill it reads back: the filled cells first, then the padding. Together with `ProgressLine`, the bar in the line is the left-aligned one. |
| `YearProgress.RightAlignedRejected` | src/main.rs:73 | The 50% line with its padding on the left, `[░░░░░░░░▓▓▓▓▓▓▓] 50%`, is not read as a progress line. |
| `YearProgress.Example2024` | src/main.rs:54-74 | 2 July 2024 at 12:00 is hour 4404 of 8784, which gives 50% and the line `[▓▓▓▓▓▓▓░░░░░░░░] 50%`. |
| `Decimal.NatToDecimal` | src/main.rs:74 | The rendering of a natural number is a non-empty string of digits with no leading zero. It has one digit below 10 and two from 10 to 99. |
| `Decimal.DecimalRoundTrip` | src/main.rs:74 | Reading back the digits of `n` gives `n`. |
| `Decimal.NatToDecimalInjective` | src/main.rs:74 | Different numbers render differently. |
| `Decimal.IntToDecimal` | src/main.rs:35-36 | The rendering of a signed latency is non-empty, and it starts with `-` exactly when the latency is negative. `IntDecimalRoundTrip` shows it reads back. |
| `Decimal.IntDecimalRoundTrip` | src/main.rs:35-36 | A signed latency renders as an optional minus sign followed by digits, and reads back as the same integer. |
| `Decimal.IntToDecimalInjective` | src/main.rs:35-36 | Different latencies render differently. |

## Left out

- The chat client is not modelled. This covers `EventHandler`, `ready`, `channel_id.say`, async/await, and the logging of send errors. It is network I/O through a library that is not shown (src/main.rs:3, 10-14, 30-48).
- `Utc::now()` and `msg.timestamp` are not modelled. The current date and hour, and the latency in milliseconds, are parameters (src/main.rs:35, 55). Minutes and seconds are not part of the clock reading, because the source drops them.
- The direct-message branch of `year_progress` is not modelled (src/main.rs:76-86). It reads an environment variable, calls the chat client and unwraps. Its only caller is commented out.
- `main`, `dotenv`, loading the bot token and printing client errors are not modelled (src/main.rs:89-108).
- Floating point is not modelled. The source computes the percentage and the fill in `f64` and then truncates. The model uses integer floor division instead: `(h * 100) / total` and `(p * 15) / 100`.
- `Tokens.Lower`: covers only ASCII letters. Rust's `to_lowercase` applies full Unicode case mapping. The result is only ever compared with `yp`, and the model does not treat any non-ASCII character as lowercasing to `y` or `p`.
- Strings are sequences of characters. The source slices UTF-8 bytes at `PREFIX.len()`, which is one byte. For the one-character ASCII prefix `!`, that is the same as dropping the first character.
- Machine integer widths are not modelled. The latency (`i64`), the percentage (`i64`) and the fill (`i32`) are unbounded integers, since none of them comes near its bound. Years outside chrono's supported range, where `Utc.ymd` panics, are not excluded.
