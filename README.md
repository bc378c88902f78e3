# open-rust-claw: a verified model of the message pipeline and the executor

open-rust-claw is a Telegram bot that turns a chat message into shell
commands. It sends the message text to a language model and pulls a JSON
list of `{command, description}` out of the model's reply. It then runs the
commands one after another with `sh -c` and posts a report back to the chat.

The Dafny model has four modules:

- `Wrappers` (wrappers.dfy): `Option`, `Result`, and `Outcome`. An `Outcome`
  is a value or a panic, used for members that model code as written.
- `Str` (str.dfy): the parts of Rust's `str` the bot relies on.
  - `find` and `rfind`.
  - `trim`, using the characters with the Unicode White_Space property.
  - `len` in UTF-8 bytes, and the char boundary that `&s[..n]` needs.
  - `join`, and `split` as its inverse. The bot never splits; `split` only
    serves to state that, for a non-empty command list whose descriptions
    and commands hold no newline, the plan has one line per command.
  - Decimal rendering of integers.
- `Executor` (executor.dfy): the task and result records and the executor.
  - `TaskCommand(command, description)` is the Rust `TaskCommand`
    (src/executor.rs:9-16). The `#[serde(default)]` on `description` belongs
    to the JSON decoder, which is a parameter of the model.
  - `CommandResult(command, success, exitCode, stdout, stderr)` is the Rust
    `CommandResult` (src/executor.rs:18-25). `exit_code: Option<i32>` is
    `Option<Int32>`, with `Int32` the integers in the `i32` range; `String`
    fields are `string`.
  - The operating system is a `Host` object. It records every process it is
    asked to start. The outcome of each start is a fixed function of the
    start history.
  - `Executor.RunCommand` builds one result from the outcome of `sh -c`.
  - `Executor.RunCommands` is the fail-stop loop. It is proved equal to the
    specification function `FailStop`, whose properties are proved as lemmas.
- `Bot` (bot.dfy): the rest of the pipeline.
  - The three-tier extraction of the JSON array: a fenced block, else the
    brackets, else the trimmed text.
  - Decoding the command list.
  - Byte-based truncation.
  - The execution report. `FormatResults` is a loop of `push_str`-style
    appends, proved equal to the specification function `Report`.
  - The numbered plan.
  - The decision chain of `handle_message`, as the trace of events one
    message causes.

## Model

| member | source | states |
|---|---|---|
| Str.Find | src/bot.rs:22-26 | `find` of a string pattern gives the first position where the pattern occurs, and None only when it occurs nowhere |
| Str.OccursAt | src/bot.rs:22 | defines where a pattern occurs: the slice of its length at that position equals it |
| Str.FindFrom | src/bot.rs:22 | the first occurrence at or after a start position, and None only when there is none from there on |
| Str.FindChar | src/bot.rs:24 | `find` of a char gives its first position, and None only when the char is absent |
| Str.RFindChar | src/bot.rs:31 | `rfind` gives the last position of the char, and None only when it is absent |
| Str.IsWhitespace | src/bot.rs:27 | defines whitespace as the chars with the Unicode White_Space property, as Rust's `char::is_whitespace` |
| Str.TrimStart | src/bot.rs:27 | the result is a suffix of the text, what it drops is all whitespace, and it does not start with whitespace |
| Str.TrimEnd | src/bot.rs:27 | the result is a prefix of the text, what it drops is all whitespace, and it does not end with whitespace |
| Str.Trim | src/bot.rs:27 | the trimmed text is the slice starting at the trim offset, only whitespace surrounds it, and it neither starts nor ends with whitespace |
| Str.TrimIsPiece | src/bot.rs:35 | the trimmed text is a contiguous piece of the original |
| Str.TrimIdempotent | src/bot.rs:27 | trimming a second time changes nothing |
| Str.TrimOfUnpadded | src/bot.rs:27 | a text with no whitespace at either end is its own trim |
| Str.TrimOfLine | src/bot.rs:27 | a line break after a text with no whitespace at either end is trimmed away |
| Str.Utf8Width | src/bot.rs:62 | a char takes one to four bytes in UTF-8, and one exactly when it is ASCII |
| Str.ByteLen | src/bot.rs:62 | `len()` counts UTF-8 bytes, between one and four per char |
| Str.ByteLenAppend | src/bot.rs:62 | the byte length of a concatenation is the sum of the byte lengths |
| Str.ByteLenAscii | src/bot.rs:62 | ASCII text has exactly one byte per char |
| Str.ByteLenOfWidth3 | src/bot.rs:62 | text made only of three-byte chars has three bytes per char |
| Str.CharsWithin | src/bot.rs:65 | the longest char prefix that fits in `max` bytes: it fits, and one more char would not |
| Str.IsCharBoundary | src/bot.rs:65 | defines a char boundary: some char prefix of the text is exactly that many bytes long |
| Str.CharBoundaryIsCharsWithin | src/bot.rs:65 | byte offset `n` is a char boundary exactly when the longest prefix within `n` bytes is `n` bytes long |
| Str.Join | src/bot.rs:143 | defines `join` with a one-char separator: the lines with the separator between each two. Its property is stated by `Str.SplitJoin` |
| Str.Split | src/bot.rs:143 | the inverse of `join`, used only to state the plan's line structure (the bot never splits): splitting always gives at least one piece |
| Str.SplitJoin | src/bot.rs:143 | joining lines that lack the separator and splitting the result gives back the lines |
| Str.NatToString | src/bot.rs:141 | `{}` of an unsigned integer gives decimal digits with no leading zero |
| Str.DecimalRoundTrip | src/bot.rs:141 | reading back the digits of `n` gives `n` |
| Str.NatToStringInjective | src/bot.rs:141 | different numbers render differently |
| Executor.ExitStatus.Success | src/executor.rs:60 | defines `status.success()`: exited with code 0 |
| Executor.ExitStatus.Code | src/executor.rs:61 | defines `status.code()`: the exit code, absent when a signal ended the process |
| Executor.SuccessIffExitZero | src/executor.rs:60-61 | a process succeeded exactly when its exit code is `Some(0)` |
| Executor.ShellInvocation | src/executor.rs:40-52 | each command is run as program `sh` with arguments `-c` and the command line. It runs in the configured directory, or "." when none is set, under the configured time limit |
| Executor.Invocations | src/executor.rs:78-80 | the invocations of a list of commands, one per command, in order |
| Executor.InvocationsCons | src/executor.rs:78-80 | helper for `Executor.FailStopAt`: the invocations begin with that of the first command |
| Executor.InvocationsStep | src/executor.rs:78-80 | helper for `Executor.Executor.RunCommands`: one more command adds its invocation at the end |
| Executor.TimeoutMessage | src/executor.rs:55 | defines the error text of a timeout, "命令超时 (N 秒): cmd", the outermost context of the error |
| Executor.StartFailureMessage | src/executor.rs:56 | defines the error text of a failed start, "命令执行失败: cmd", the outermost context of the error |
| Executor.Consistent | src/executor.rs:60-61 | defines agreement of a result's success flag with its exit code |
| Executor.CommandOutcome | src/executor.rs:37-73 | a finished process gives `Ok`. Its result carries the command and the output text. Its exit code is the process's exit code and its success flag is the process's success, so a non-zero exit is a failure; the two agree, and no exit code means no success. A timeout gives the timeout error text and a failed start gives the start-failure error text |
| Executor.RunnerErrorResult | src/executor.rs:91-97 | defines the synthetic result for a runner error: the command, no success, no exit code, empty stdout, the error text as stderr |
| Executor.Settle | src/executor.rs:80-99 | defines the result recorded for a runner outcome: the runner's result, or the synthetic one for an error |
| Executor.FailStop | src/executor.rs:76-103 | defines the fail-stop run: settle each command in order after the ones before it, and stop after the first failed result. Its properties are the lemmas below |
| Executor.FailStopLength | src/executor.rs:76-103 | there are never more results than commands, and there are no results exactly when there are no commands |
| Executor.FailStopAt | src/executor.rs:78-100 | result `i` is the runner's outcome for command `i`, settled. Command `i` was started right after commands `0..i-1`, each started once, in order |
| Executor.FailStopUnfold | src/executor.rs:80-99 | one step: settle the first command, and continue only when it succeeded |
| Executor.FailStopStep | src/executor.rs:80-99 | the same step for each kind of runner outcome: success and continue, failure and stop, or runner error and stop |
| Executor.FailStopStopsAtNonZeroExit | src/executor.rs:78-87 | three commands whose first two exit with 0 and 1 give two results, a success and then a failure with exit code 1; the third never runs |
| Executor.SettleOutcome | src/executor.rs:58-64 | a recorded result names its command and agrees with its exit code, and it succeeds only for a finished process |
| Executor.FailStopAligned | src/executor.rs:59 | `results[i].command == commands[i].command` for every result |
| Executor.FailStopPrefixOfSuccesses | src/executor.rs:81-87 | every result except the last succeeded, so nothing ran after a failure |
| Executor.FailStopAllSucceeded | src/executor.rs:82-86 | if every result succeeded, every command ran |
| Executor.FailStopShortIffFailure | src/executor.rs:84-98 | the run stops short exactly when a command before the last one failed, and then the last result is a failure |
| Executor.FailStopConsistent | src/executor.rs:58-64 | every result's success flag agrees with its exit code |
| Executor.FailStopRunnerError | src/executor.rs:89-98 | a runner error on command `i` records a result with no success, no exit code, empty stdout and the error text as stderr, and the run stops there |
| Executor.Host.Spawn | src/executor.rs:46-56 | starting a process appends it to the host's history, and the outcome is the host's answer for that history |
| Executor.Executor.RunCommand | src/executor.rs:37-73 | starts exactly one `sh -c` process and returns `CommandOutcome` of its outcome |
| Executor.Executor.RunCommands | src/executor.rs:76-103 | the results are the fail-stop run, there are no more results than commands, and the host started exactly the attempted commands, in order |
| Bot.ContentStart | src/bot.rs:24 | the content starts after the first newline following the opening fence, or right after the fence when there is no newline |
| Bot.FencedContent | src/bot.rs:22-26 | defines the untrimmed content of the first code block: from the line after the first fence (or right after it when no newline follows) up to the next fence |
| Bot.FencedBlock | src/bot.rs:22-28 | a block exists exactly when there is an opening fence and a closing fence after the first newline that follows it (or anywhere after it when no newline follows), and its value is the content between them, trimmed |
| Bot.ExtractJsonArrayAsWritten | src/bot.rs:21-36 | defines `extract_json_array` as written, including the panic of the inclusive slice when the last `]` is more than one char before the first `[` |
| Bot.ExtractJsonArray | src/bot.rs:21-36 | wherever the code as written returns, this agrees with it |
| Bot.FencedContentIsPiece | src/bot.rs:23-27 | the content of the code block is a contiguous piece of the reply |
| Bot.ExtractedIsPiece | src/bot.rs:21-36 | whatever is extracted is a contiguous piece of the reply |
| Bot.FenceFree | src/bot.rs:22 | defines prose in which no fence begins, even one run on into the fence that follows it; it may hold backticks |
| Bot.BacktickFreeIsFenceFree | src/bot.rs:22 | text without backticks is fence-free |
| Bot.InlineCodeIsFenceFree | src/bot.rs:22 | prose with an inline-code span and at least one char after it is fence-free, so a code block after it still wins |
| Bot.FindFirstFence | src/bot.rs:22 | a fence with no fence beginning before it is the one `find` returns |
| Bot.FencedContentOf | src/bot.rs:22-27 | for fence-free prose, then a fence, then an info line without newline, then a fence-free body, then a fence, then anything, the content is the body |
| Bot.FencedBlockWins | src/bot.rs:22-28 | such a reply yields the body trimmed, whatever follows the closing fence and whatever the info line holds |
| Bot.FencedContentOnOneLine | src/bot.rs:24 | with fence-free prose and body and no newline after the opening fence, the content starts right after the fence |
| Bot.FencedBlockOnOneLine | src/bot.rs:22-28 | a code block on one line yields its body trimmed |
| Bot.NoFence | src/bot.rs:22 | a reply with no fence gives no code block |
| Bot.UnclosedFence | src/bot.rs:26-30 | after fence-free prose and an opening fence, there is no code block exactly when no fence occurs from the start of the content on (the rest of the fence's line may hold one), so then the bracket scan decides |
| Bot.FindBrackets | src/bot.rs:30-31 | the first `[` and the last `]` are what `find` and `rfind` return |
| Bot.BracketScan | src/bot.rs:30-33 | with no code block, and the last `]` at or after the first `[`, the result is exactly the untrimmed text from that `[` through that `]` |
| Bot.NeitherFound | src/bot.rs:35 | with no code block and no `[` or no `]`, the result is the trimmed text |
| Bot.AdjacentReversedBrackets | src/bot.rs:30-32 | with no code block and the last `]` right before the first `[`, the inclusive slice is empty and both versions give the empty text |
| Bot.AdjacentBracketsExample | src/bot.rs:30-32 | the reply "][" gives the empty text in both versions |
| Bot.ReversedBrackets | src/bot.rs:30-32 | with no code block and the last `]` more than one char before the first `[`: the code as written panics, and the corrected version gives the trimmed text |
| Bot.ReversedBracketsPanic | src/bot.rs:32 | the reply "] [" makes the code as written panic |
| Bot.ParseCommands | src/bot.rs:10-19 | a decoded list is returned as it is, and a decode error gives exactly the empty list; a non-empty list always comes from a successful decode |
| Bot.ParseFencedCommands | src/bot.rs:10-28 | a command list in a code block after fence-free prose is decoded from the block alone, trimmed, whatever follows it |
| Bot.TruncateAsWritten | src/bot.rs:61-67 | defines `truncate` as written: keep text within `max` bytes, else cut at byte `max` and add the marker, panicking when byte `max` is inside a char |
| Bot.LongestWithin | src/bot.rs:65 | defines the longest char prefix within `max` bytes |
| Bot.Truncate | src/bot.rs:61-67 | text within `max` bytes is unchanged, and the result never exceeds `max` bytes plus the marker |
| Bot.TruncateLong | src/bot.rs:64-65 | longer text becomes a proper prefix, the longest that fits in `max` bytes, followed by "...(截断)" |
| Bot.TruncateAsWrittenPanics | src/bot.rs:65 | the code as written panics exactly when the text is longer than `max` bytes and byte `max` is not a char boundary |
| Bot.TruncateAgrees | src/bot.rs:61-67 | wherever the code as written returns, the corrected version returns the same text |
| Bot.TruncateAscii | src/bot.rs:61-67 | ASCII text longer than `max` keeps exactly its first `max` chars, in both versions |
| Bot.TruncatePanicsOnCjkOutput | src/bot.rs:65 | 167 three-byte chars cut at 500 bytes make the code as written panic |
| Bot.Describe | src/bot.rs:41-44 | the description is that of command `i`, or "未知" when there is no command `i` |
| Bot.StatusIcon | src/bot.rs:45 | defines the status icon: ✅ for a success, ❌ for a failure |
| Bot.StatusLine | src/bot.rs:41-46 | defines the first line of a block: icon, space, description, newline |
| Bot.CommandLine | src/bot.rs:47 | defines the second line of a block: "  命令: ", the command, newline |
| Bot.Section | src/bot.rs:48-55 | a section is present exactly when its output is non-empty. It is the heading, then the output truncated to the limit, then a newline |
| Bot.Block | src/bot.rs:41-56 | defines the block of one result: status line, command line, the output and error sections, a blank line |
| Bot.Report | src/bot.rs:38-59 | defines the report: the header, then the block of each result in order. `Bot.FormatResults` is proved to build it |
| Bot.PushBlock | src/bot.rs:41-56 | one iteration of the loop appends exactly the block for result `i` to the message |
| Bot.FormatResults | src/bot.rs:38-59 | the message built by the loop is the report: the header, then one block per result, in order |
| Bot.ReportStep | src/bot.rs:40-57 | each result appends its block after the report of the results before it |
| Bot.ReportPrefix | src/bot.rs:39-57 | the report starts with the header, and the report of the first `k` results is a prefix of the full report |
| Bot.ReportFromHeader | src/bot.rs:39 | every report starts with "📋 任务执行报告" and a blank line |
| Bot.ReportBlockAt | src/bot.rs:40-57 | block `i` appears in the report right after the blocks of the results before it: one block per result, in order |
| Bot.BlockOpening | src/bot.rs:45-47 | a block starts with the status line and then the command line, and its first char is ✅ exactly for a success |
| Bot.PlanLine | src/bot.rs:141 | defines plan line `n`: "n. description → `command`" |
| Bot.PlanLines | src/bot.rs:138-142 | defines the plan lines, numbered from 1 in command order |
| Bot.Plan | src/bot.rs:138-143 | defines the plan: its lines joined with newlines |
| Bot.PlanLineNumber | src/bot.rs:141 | plan line `n` starts with the decimal digits of `n`, which read back as `n`, followed by ". " |
| Bot.PlanLineOnOneLine | src/bot.rs:141 | a plan line contains a newline only where its description or command contains one |
| Bot.PlanNumbered | src/bot.rs:138-143 | for a non-empty command list whose descriptions and commands hold no newline, splitting the plan at its newlines gives the lines of the commands in order, numbered from 1. A command with a newline (a here-document, say) goes into the plan unchanged and spans several lines |
| Bot.Admits | src/bot.rs:98 | defines admission: an empty allow-list admits every chat, otherwise only listed chats |
| Bot.Planned | src/bot.rs:120-129 | defines the commands the model's reply asks for, none when the model call failed |
| Bot.ModelFailureNotice | src/bot.rs:124 | defines the notice for a failed model call: "❌ LLM 调用失败: " and the error |
| Bot.Run | src/bot.rs:138-153 | the events are: send the plan, run the commands, then send the report of their results only when echoing is on. Everything goes to the sender's chat |
| Bot.Reply | src/bot.rs:120-153 | a model error gives exactly its failure notice, and an empty command list gives exactly the nothing-to-run notice. Commands run exactly when the list is non-empty, and the model is not asked again |
| Bot.HandleMessage | src/bot.rs:98-153 | nothing happens exactly when the chat is not admitted (the allow-list is non-empty and lacks it) or the message has no text. Otherwise the handler sends the analyzing notice, asks the model with the text, and replies |
| Bot.SendsOnlyToAppend | src/bot.rs:116-152 | helper for `Bot.HandleRepliesToSender`, a generic fact about event sequences: two traces that send only to one chat still do so when joined |
| Bot.ExecutesAfter | src/bot.rs:116-148 | helper for `Bot.HandleExecutesIff`, a generic fact about event sequences: events that start no commands do not change whether a trace starts commands |
| Bot.AsksOnlyIn | src/bot.rs:120 | helper for `Bot.HandleAsksOnce`, a generic fact about event sequences: when the tail asks the model nothing, every question in the trace is in the head |
| Bot.HandleRepliesToSender | src/bot.rs:116-152 | every message the handler sends goes to the chat the update came from |
| Bot.HandleAsksOnce | src/bot.rs:98-120 | the model is asked at most once, as the second event, with the message's own text, and only for an admitted text message |
| Bot.HandleExecutesIff | src/bot.rs:98-148 | commands run exactly when an admitted text message gets a non-empty command list from the model |

## Left out

- `src/llm_client.rs`, the model's HTTP endpoint, is a `gateway` parameter that gives a reply or an error. It is network I/O.
- JSON decoding of the command list (serde_json) is a `decode` parameter, an arbitrary partial function. It is a foreign library. The `#[serde(default)]` on `description` is part of that decoder.
- Loading `config.toml` (`src/config.rs`) is left out; it is file I/O and TOML parsing. The executor defaults are `Executor.DefaultConfig`: no working directory, 120 seconds, results echoed. `max_tokens` belongs to the left-out model client.
- `bot::run` is left out: the dispatcher, the webhook deletion request, polling, and sharing state across tasks. This is transport and concurrency.
- Starting processes through tokio and the wall-clock timeout are the `Host` oracle. On a timeout the source only stops waiting: the `output()` future is dropped without `kill_on_drop`, so the child process is not killed and keeps running. The model records the timeout as an outcome and does not model what the abandoned process goes on doing. Outputs reach the model already decoded to text, so `from_utf8_lossy` is not modelled.
- All `println!` and `tracing` logging is left out, because it has no effect on results or messages.
- Sends are best-effort (`.ok()`): a failed send is ignored, and the model just records the send as an event. Nothing in the source reacts to a send failing.
- `handle_message` does not consume the results when `echo_result` is off. The model's `Run` mentions `execute` only in the report event. Which commands run is the `Execute` event either way.
- Chat ids (`i64`) are modelled as unbounded integers; they are only compared for equality.
- `timeout_secs` (`u64`) is modelled as an unbounded natural; it is only formatted and passed to the host.
- The limits 500 and 300 in the report are UTF-8 bytes, as `len()` counts them, not chars.
- The report (`Bot.Report`, `Bot.FormatResults`), `Bot.ParseCommands` and the handler (`Bot.Run`, `Bot.Reply`, `Bot.HandleMessage`) use the corrected `Bot.Truncate` and `Bot.ExtractJsonArray`. So the handler's trace never shows the panics listed under Findings. On such an input the Rust handler stops after the analyzing notice and the model call (a panicking extraction) or after running the commands (a panicking report), and sends nothing more.
- Bot.BracketScan: its contract does not separately state that the result starts with `[` and ends with `]`. That follows from the result being exactly `text[i..j+1]` with `text[i] == '['` and `text[j] == ']'`.

## Findings

| source | as written | input that shows it | evidently intended | confidence | as-written member | corrected member |
|---|---|---|---|---|---|---|
| src/bot.rs:65 | `&s[..max]` cuts at byte `max`, which panics when that byte is inside a multi-byte char | a stdout of 167 copies of '中' (501 bytes) with the limit 500 | cut at the last char boundary at or before `max` bytes, then add "...(截断)" | not executed | Bot.TruncatePanicsOnCjkOutput | Bot.TruncateLong |
| src/bot.rs:30-32 | `text[start..=end]` with the first `[` at `start` and the last `]` at `end` panics when `end + 1 < start` (when `end + 1 == start` the slice is empty and valid) | the reply "] [" | no bracket pair, so fall through to the whole text, trimmed | not executed | Bot.ReversedBracketsPanic | Bot.ReversedBrackets |
