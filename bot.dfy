/**
 * The chat bot's message pipeline: pull a JSON command list out of the
 * language model's reply, run it, and report back.
 *
 * Decoding JSON (`serde_json`), the model endpoint and the executor are
 * parameters: `decode` is a partial decoder of a command list, `gateway`
 * the model call, `execute` the fail-stop executor.
 */
module Bot {
  import opened Wrappers
  import opened Str
  import opened Executor

  // ---------------------------------------------------------------------------
  // Extracting the JSON array from the model's reply
  // ---------------------------------------------------------------------------

  /** The fence of a markdown code block. */
  const Fence := "```"

  /**
   * Where the content of a code block begins, counted from the end of the
   * opening fence: after the first newline, or right away when there is none.
   */
  function ContentStart(after: string): (k: nat)
    ensures k <= |after|
    ensures FindChar(after, '\n').Some? ==> k == FindChar(after, '\n').value + 1
    ensures FindChar(after, '\n').None? ==> k == 0
  {
    match FindChar(after, '\n') case Some(i) => i + 1 case None => 0
  }

  /**
   * The untrimmed content of the first code block: from the line after the
   * first fence up to the next fence. None when there is no fence or no
   * closing fence.
   */
  function FencedContent(text: string): Option<string> {
    match Find(text, Fence)
    case None => None
    case Some(start) =>
      var after := text[start + 3..];
      var content := after[ContentStart(after)..];
      match Find(content, Fence)
      case None => None
      case Some(end) => Some(content[..end])
  }

  /** First tier: the content of the first code block, trimmed. */
  function FencedBlock(text: string): (r: Option<string>)
    ensures r.Some? <==> FencedContent(text).Some?
    ensures r.Some? ==> r.value == Trim(FencedContent(text).value)
  {
    match FencedContent(text)
    case None => None
    case Some(content) => Some(Trim(content))
  }

  /**
   * `extract_json_array` as written: a fenced block, else the span from the
   * first '[' through the last ']', else the trimmed text. The inclusive
   * slice from the first '[' through a last ']' is empty when that ']' comes
   * right before the '[', and panics when it comes earlier still.
   */
  function ExtractJsonArrayAsWritten(text: string): Outcome<string> {
    match FencedBlock(text)
    case Some(block) => Returns(block)
    case None =>
      match FindChar(text, '[')
      case Some(start) =>
        (match RFindChar(text, ']')
         case Some(end) => if start <= end + 1 then Returns(text[start..end + 1]) else Panics
         case None => Returns(Trim(text)))
      case None => Returns(Trim(text))
  }

  /**
   * `extract_json_array` with a slice that would panic (a last ']' more than
   * one char before the first '[') treated as no bracket pair at all, so
   * that such text falls through to the whole text, trimmed.
   */
  function ExtractJsonArray(text: string): (r: string)
    ensures ExtractJsonArrayAsWritten(text).Returns? ==> r == ExtractJsonArrayAsWritten(text).value
  {
    match FencedBlock(text)
    case Some(block) => block
    case None =>
      match FindChar(text, '[')
      case Some(start) =>
        (match RFindChar(text, ']')
         case Some(end) => if start <= end + 1 then text[start..end + 1] else Trim(text)
         case None => Trim(text))
      case None => Trim(text)
  }

  /** The content of a code block is a piece of the text. */
  lemma FencedContentIsPiece(text: string)
    requires FencedContent(text).Some?
    ensures exists a :: SliceAt(text, FencedContent(text).value, a)
  {
    var start := Find(text, Fence).value;
    var after := text[start + 3..];
    var cs := ContentStart(after);
    var content := after[cs..];
    var end := Find(content, Fence).value;
    assert SliceAt(text, content[..end], start + 3 + cs);
  }

  /** What is extracted is always a piece of the reply. */
  lemma ExtractedIsPiece(text: string)
    ensures exists a :: SliceAt(text, ExtractJsonArray(text), a)
  {
    var r := ExtractJsonArray(text);
    match FencedContent(text)
    case Some(content) =>
      FencedContentIsPiece(text);
      var a :| SliceAt(text, content, a);
      TrimIsPiece(content);
      SliceAtSlice(text, content, r, a, TrimOffset(content));
    case None =>
      var start := FindChar(text, '[');
      var end := RFindChar(text, ']');
      if start.Some? && end.Some? && start.value <= end.value + 1 {
        assert r == text[start.value..end.value + 1];
        assert SliceAt(text, r, start.value);
      } else {
        assert r == Trim(text);
        TrimIsPiece(text);
      }
  }

  // ---------------------------------------------------------------------------
  // The three tiers, stated on the shape of the text
  // ---------------------------------------------------------------------------

  /**
   * No fence begins inside `s` when `s` is followed by a fence: `s` may hold
   * backticks, but never three in a row, and none at its end that would run
   * on into the fence that follows.
   */
  predicate FenceFree(s: string) {
    forall j :: 0 <= j < |s| ==> !OccursAt(s + Fence, Fence, j)
  }

  /** Text without backticks is fence-free. */
  lemma BacktickFreeIsFenceFree(s: string)
    requires Lacks(s, '`')
    ensures FenceFree(s)
  {
    forall j | 0 <= j < |s| ensures !OccursAt(s + Fence, Fence, j) {
      assert (s + Fence)[j] == s[j];
    }
  }

  /** A fence with no fence beginning before it is what `find` returns. */
  lemma FindFirstFence(s: string, k: int)
    requires 0 <= k && k + 3 <= |s| && s[k..k + 3] == Fence && FenceFree(s[..k])
    ensures Find(s, Fence) == Some(k)
  {
    assert s[..k] + Fence == s[..k + 3];
    forall j | 0 <= j < k ensures !OccursAt(s, Fence, j) {
      assert !OccursAt(s[..k] + Fence, Fence, j);
      assert (s[..k] + Fence)[j..j + 3] == s[..k + 3][j..j + 3] == s[j..j + 3];
    }
    assert OccursAt(s, Fence, k);
  }

  /**
   * A reply made of prose in which no fence begins, a fence, the rest of the
   * fence's line (anything but a newline), a body in which no fence begins,
   * a closing fence and anything at all after it has the body as its code
   * block. Prose and body may hold inline code and backtick substitutions.
   */
  lemma FencedContentOf(pre: string, info: string, body: string, post: string)
    requires FenceFree(pre) && Lacks(info, '\n') && FenceFree(body)
    ensures FencedContent(pre + Fence + info + "\n" + body + Fence + post) == Some(body)
  {
    var text := pre + Fence + info + "\n" + body + Fence + post;
    assert text[..|pre|] == pre;
    assert text[|pre|..|pre| + 3] == Fence;
    FindFirstFence(text, |pre|);
    var after := text[|pre| + 3..];
    assert after == info + "\n" + body + Fence + post;
    assert after[|info|] == '\n';
    assert forall j :: 0 <= j < |info| ==> after[j] == info[j];
    assert FindChar(after, '\n') == Some(|info|);
    var content := after[|info| + 1..];
    assert content == body + Fence + post;
    assert content[..|body|] == body;
    assert content[|body|..|body| + 3] == Fence;
    FindFirstFence(content, |body|);
  }

  /** Fenced block wins: such a reply yields its body, trimmed, whatever follows the block. */
  lemma FencedBlockWins(pre: string, info: string, body: string, post: string)
    requires FenceFree(pre) && Lacks(info, '\n') && FenceFree(body)
    ensures var text := pre + Fence + info + "\n" + body + Fence + post;
            ExtractJsonArray(text) == Trim(body) && ExtractJsonArrayAsWritten(text) == Returns(Trim(body))
  {
    FencedContentOf(pre, info, body, post);
  }

  /**
   * When nothing after the opening fence holds a newline, the content
   * begins right after the fence.
   */
  lemma FencedContentOnOneLine(pre: string, body: string, post: string)
    requires FenceFree(pre) && FenceFree(body) && Lacks(body, '\n') && Lacks(post, '\n')
    ensures FencedContent(pre + Fence + body + Fence + post) == Some(body)
  {
    var text := pre + Fence + body + Fence + post;
    assert text[..|pre|] == pre;
    assert text[|pre|..|pre| + 3] == Fence;
    FindFirstFence(text, |pre|);
    var after := text[|pre| + 3..];
    assert after == body + Fence + post;
    forall j | 0 <= j < |after| ensures after[j] != '\n' {
      if j < |body| { assert after[j] == body[j]; }
      else if j >= |body| + 3 { assert after[j] == post[j - |body| - 3]; }
    }
    assert FindChar(after, '\n') == None;
    assert after[..|body|] == body;
    assert after[|body|..|body| + 3] == Fence;
    FindFirstFence(after, |body|);
  }

  /** The same for a code block on one line: the body, trimmed. */
  lemma FencedBlockOnOneLine(pre: string, body: string, post: string)
    requires FenceFree(pre) && FenceFree(body) && Lacks(body, '\n') && Lacks(post, '\n')
    ensures var text := pre + Fence + body + Fence + post;
            ExtractJsonArray(text) == Trim(body) && ExtractJsonArrayAsWritten(text) == Returns(Trim(body))
  {
    FencedContentOnOneLine(pre, body, post);
  }

  /**
   * Inline code in the prose: prose holding one backtick-quoted span, with
   * at least one more char after it, is fence-free, so a code block after
   * it still wins.
   */
  lemma InlineCodeIsFenceFree(a: string, code: string, b: string)
    requires Lacks(a, '`') && Lacks(code, '`') && Lacks(b, '`') && b != []
    ensures FenceFree(a + "`" + code + "`" + b)
  {
    var pre := a + "`" + code + "`" + b;
    var t := pre + Fence;
    var q := |a| + 1 + |code|;
    forall k | 0 <= k < |pre| && k != |a| && k != q ensures t[k] != '`' {
      assert t[k] == pre[k];
      if k < |a| { assert pre[k] == a[k]; }
      else if k < q { assert pre[k] == code[k - |a| - 1]; }
      else { assert pre[k] == b[k - q - 1]; }
    }
    forall j | 0 <= j < |pre| ensures !OccursAt(t, Fence, j) {
      // Some char among the three at `j` is not a backtick.
      var m := if j != |a| && j != q then j else if j == |a| && |code| > 0 then j + 1 else q + 1;
      assert j <= m < j + 3 && m < |pre| && m != |a| && m != q;
      assert t[m] != '`';
      if j + 3 <= |t| {
        assert t[j..j + 3][m - j] == t[m];
        assert Fence[m - j] == '`';
      }
    }
  }

  /** No fence in the text at all: the first tier finds nothing. */
  lemma NoFence(text: string)
    requires forall j :: !OccursAt(text, Fence, j)
    ensures FencedContent(text) == None
  {
  }

  /**
   * Unclosed fence falls through: after an opening fence that is the first
   * one, the first tier finds nothing exactly when no fence occurs from the
   * start of the content on (the rest of the fence's line may hold one),
   * and then the later tiers decide.
   */
  lemma UnclosedFence(pre: string, rest: string)
    requires FenceFree(pre)
    ensures FencedContent(pre + Fence + rest) == None
            <==> forall j :: !OccursAt(rest[ContentStart(rest)..], Fence, j)
  {
    var text := pre + Fence + rest;
    assert text[..|pre|] == pre;
    assert text[|pre|..|pre| + 3] == Fence;
    FindFirstFence(text, |pre|);
    assert text[|pre| + 3..] == rest;
  }

  /** The first '[' and the last ']' are what `find` and `rfind` return. */
  lemma FindBrackets(text: string, i: nat, j: nat)
    requires i < |text| && j < |text| && text[i] == '[' && text[j] == ']'
    requires Lacks(text[..i], '[') && Lacks(text[j + 1..], ']')
    ensures FindChar(text, '[') == Some(i) && RFindChar(text, ']') == Some(j)
  {
    assert forall k :: 0 <= k < i ==> text[k] == text[..i][k];
    assert forall k :: j < k < |text| ==> text[k] == text[j + 1..][k - j - 1];
  }

  /**
   * Bracket scan: with no usable fence, when the first '[' is at `i` and
   * the last ']' at `j >= i`, the result is exactly `text[i..=j]`, from
   * that '[' through that ']', not trimmed.
   */
  lemma BracketScan(text: string, i: nat, j: nat)
    requires FencedContent(text) == None
    requires i <= j < |text| && text[i] == '[' && text[j] == ']'
    requires Lacks(text[..i], '[') && Lacks(text[j + 1..], ']')
    ensures ExtractJsonArrayAsWritten(text) == Returns(text[i..j + 1])
    ensures ExtractJsonArray(text) == text[i..j + 1]
  {
    FindBrackets(text, i, j);
    assert ExtractJsonArrayAsWritten(text) == Returns(text[i..j + 1]);
  }

  /** Neither found: with no usable fence and no '[' or no ']', the result is the text, trimmed. */
  lemma NeitherFound(text: string)
    requires FencedContent(text) == None
    requires Lacks(text, '[') || Lacks(text, ']')
    ensures ExtractJsonArray(text) == Trim(text)
    ensures ExtractJsonArrayAsWritten(text) == Returns(Trim(text))
  {
  }

  /**
   * A last ']' more than one char before the first '[': the code as
   * written panics; the model falls through to the trimmed text.
   */
  lemma ReversedBrackets(text: string, i: nat, j: nat)
    requires FencedContent(text) == None
    requires j + 1 < i < |text| && text[i] == '[' && text[j] == ']'
    requires Lacks(text[..i], '[') && Lacks(text[j + 1..], ']')
    ensures ExtractJsonArrayAsWritten(text) == Panics
    ensures ExtractJsonArray(text) == Trim(text)
  {
    FindBrackets(text, i, j);
  }

  /**
   * A last ']' right before the first '[': the inclusive slice is empty,
   * and both versions give the empty text.
   */
  lemma AdjacentReversedBrackets(text: string, i: nat)
    requires FencedContent(text) == None
    requires 0 < i < |text| && text[i] == '[' && text[i - 1] == ']'
    requires Lacks(text[..i], '[') && Lacks(text[i..], ']')
    ensures ExtractJsonArrayAsWritten(text) == Returns("")
    ensures ExtractJsonArray(text) == ""
  {
    FindBrackets(text, i, i - 1);
    assert text[i..i - 1 + 1] == "";
  }

  /** The reply "][" gives the empty text, in both versions. */
  lemma AdjacentBracketsExample()
    ensures ExtractJsonArrayAsWritten("][") == Returns("")
    ensures ExtractJsonArray("][") == ""
  {
    var text := "][";
    assert forall j :: !OccursAt(text, Fence, j);
    NoFence(text);
    AdjacentReversedBrackets(text, 1);
  }

  /** The reply "] [" makes the code as written panic. */
  lemma ReversedBracketsPanic()
    ensures ExtractJsonArrayAsWritten("] [") == Panics
  {
    var text := "] [";
    assert text[0..3][0] == ']';
    assert forall j :: !OccursAt(text, Fence, j);
    NoFence(text);
    assert text[..2] == "] ";
    assert text[1..] == " [";
    ReversedBrackets(text, 2, 0);
  }

  // ---------------------------------------------------------------------------
  // Parsing the command list
  // ---------------------------------------------------------------------------

  /**
   * `parse_commands`: decode the extracted text as a command list; a decode
   * error gives no commands and is never passed on.
   */
  function ParseCommands(response: string, decode: string -> Option<seq<TaskCommand>>): (commands: seq<TaskCommand>)
    ensures decode(ExtractJsonArray(response)).Some? ==> commands == decode(ExtractJsonArray(response)).value
    ensures decode(ExtractJsonArray(response)).None? ==> commands == []
    ensures commands != [] ==> decode(ExtractJsonArray(response)) == Some(commands)
  {
    match decode(ExtractJsonArray(response))
    case Some(commands) => commands
    case None => []
  }

  /**
   * A command list in a fenced block after fence-free prose is decoded
   * from the block alone, trimmed, whatever follows the block.
   */
  lemma ParseFencedCommands(pre: string, info: string, body: string, post: string,
                            decode: string -> Option<seq<TaskCommand>>)
    requires FenceFree(pre) && Lacks(info, '\n') && FenceFree(body)
    ensures ParseCommands(pre + Fence + info + "\n" + body + Fence + post, decode) == decode(Trim(body)).GetOr([])
  {
    FencedBlockWins(pre, info, body, post);
  }

  // ---------------------------------------------------------------------------
  // Truncating output
  // ---------------------------------------------------------------------------

  /** What replaces the cut-off end of a long output. */
  const TruncationMarker := "...(截断)"

  /**
   * `truncate` as written: text of at most `max` bytes is kept, longer text
   * is cut to its first `max` bytes with the marker added. Cutting at a
   * byte that is not a char boundary panics.
   */
  function TruncateAsWritten(s: string, max: nat): Outcome<string> {
    if ByteLen(s) <= max then Returns(s)
    else
      var k := CharsWithin(s, max);
      if ByteLen(s[..k]) == max then Returns(s[..k] + TruncationMarker) else Panics
  }

  /** `s[..k]` is the longest char prefix of `s` that fits in `max` bytes. */
  predicate LongestWithin(s: string, max: nat, k: nat) {
    k <= |s| && ByteLen(s[..k]) <= max && (k < |s| ==> max < ByteLen(s[..k + 1]))
  }

  /**
   * `truncate`, cutting at the last char boundary at or before `max` bytes:
   * short text is kept as it is; long text becomes its longest prefix
   * within `max` bytes followed by the marker.
   */
  function Truncate(s: string, max: nat): (r: string)
    ensures ByteLen(s) <= max ==> r == s
    ensures ByteLen(r) <= max + ByteLen(TruncationMarker)
  {
    if ByteLen(s) <= max then s
    else
      var k := CharsWithin(s, max);
      ByteLenAppend(s[..k], TruncationMarker);
      s[..k] + TruncationMarker
  }

  /**
   * Text longer than `max` bytes becomes a proper prefix, the longest that
   * fits in `max` bytes, followed by the marker.
   */
  lemma TruncateLong(s: string, max: nat)
    requires ByteLen(s) > max
    ensures LongestWithin(s, max, CharsWithin(s, max)) && CharsWithin(s, max) < |s|
    ensures Truncate(s, max) == s[..CharsWithin(s, max)] + TruncationMarker
  {
    assert s[..|s|] == s;
  }

  /** The code as written panics exactly when the text is long and `max` is not a char boundary. */
  lemma TruncateAsWrittenPanics(s: string, max: nat)
    ensures TruncateAsWritten(s, max) == Panics <==> ByteLen(s) > max && !IsCharBoundary(s, max)
  {
    CharBoundaryIsCharsWithin(s, max);
  }

  /** Where the code as written does not panic, it agrees with the model. */
  lemma TruncateAgrees(s: string, max: nat)
    requires TruncateAsWritten(s, max).Returns?
    ensures TruncateAsWritten(s, max).value == Truncate(s, max)
  {
  }

  /** An ASCII text longer than `max` keeps exactly its first `max` chars. */
  lemma TruncateAscii(s: string, max: nat)
    requires forall i :: 0 <= i < |s| ==> s[i] < '\U{0080}'
    requires |s| > max
    ensures Truncate(s, max) == s[..max] + TruncationMarker
    ensures TruncateAsWritten(s, max) == Returns(s[..max] + TruncationMarker)
  {
    ByteLenAscii(s);
    ByteLenAscii(s[..max]);
    ByteLenAscii(s[..max + 1]);
    var k := CharsWithin(s, max);
    ByteLenAscii(s[..k]);
    if k + 1 <= |s| { ByteLenAscii(s[..k + 1]); }
    assert k == max;
  }

  /** 167 three-byte chars (501 bytes) cut at 500 bytes: the code as written panics. */
  lemma TruncatePanicsOnCjkOutput(s: string)
    requires |s| == 167 && forall i :: 0 <= i < |s| ==> s[i] == '中'
    ensures TruncateAsWritten(s, 500) == Panics
  {
    ByteLenOfWidth3(s);
    forall k | 0 <= k <= |s| ensures ByteLen(s[..k]) != 500 {
      ByteLenOfWidth3(s[..k]);
    }
    TruncateAsWrittenPanics(s, 500);
  }

  // ---------------------------------------------------------------------------
  // The execution report
  // ---------------------------------------------------------------------------

  const ReportHeader := "📋 任务执行报告\n\n"

  /** The description of command `i`, or "未知" (unknown) when there is no such command. */
  function Describe(commands: seq<TaskCommand>, i: nat): (d: string)
    ensures i < |commands| ==> d == commands[i].description
    ensures i >= |commands| ==> d == "未知"
  {
    if i < |commands| then commands[i].description else "未知"
  }

  /** ✅ for a success, ❌ for a failure. */
  function StatusIcon(success: bool): string {
    if success then "✅" else "❌"
  }

  /** A labelled output section, present only for non-empty output, cut at `limit` bytes. */
  function Section(heading: string, output: string, limit: nat): (r: string)
    ensures r == "" <==> output == ""
    ensures output != "" ==> r == heading + Truncate(output, limit) + "\n"
  {
    if output == "" then "" else heading + Truncate(output, limit) + "\n"
  }

  /** The first line of a block: the status icon and the description. */
  function StatusLine(commands: seq<TaskCommand>, i: nat, result: CommandResult): string {
    StatusIcon(result.success) + " " + Describe(commands, i) + "\n"
  }

  /** The second line of a block: the command. */
  function CommandLine(result: CommandResult): string {
    "  命令: " + result.command + "\n"
  }

  /** The report block of result `i`. */
  function Block(commands: seq<TaskCommand>, i: nat, result: CommandResult): string {
    StatusLine(commands, i, result) + CommandLine(result)
    + Section("  输出:\n", result.stdout, 500) + Section("  错误:\n", result.stderr, 300) + "\n"
  }

  /** The report `format_results` builds: the header, then one block per result, in order. */
  function Report(commands: seq<TaskCommand>, results: seq<CommandResult>): string
    decreases |results|
  {
    if results == [] then ReportHeader
    else Report(commands, results[..|results| - 1]) + Block(commands, |results| - 1, results[|results| - 1])
  }

  /**
   * One pass of `format_results`'s loop: push the status line, the command
   * line, the output and error sections when there is output, and a blank line.
   */
  method PushBlock(msg: string, commands: seq<TaskCommand>, i: nat, result: CommandResult) returns (pushed: string)
    ensures pushed == msg + Block(commands, i, result)
  {
    var desc := if i < |commands| then commands[i].description else "未知";
    var status := if result.success then "✅" else "❌";
    pushed := msg + (status + " " + desc + "\n");
    pushed := pushed + ("  命令: " + result.command + "\n");
    var lines := StatusLine(commands, i, result) + CommandLine(result);
    AppendAssoc(msg, StatusLine(commands, i, result), CommandLine(result));
    assert pushed == msg + lines;
    var out := Section("  输出:\n", result.stdout, 500);
    if result.stdout != "" {
      var stdout := Truncate(result.stdout, 500);
      pushed := pushed + ("  输出:\n" + stdout + "\n");
    } else {
      AppendEmpty(pushed);
    }
    assert pushed == msg + lines + out;
    AppendAssoc(msg, lines, out);
    var err := Section("  错误:\n", result.stderr, 300);
    if result.stderr != "" {
      var stderr := Truncate(result.stderr, 300);
      pushed := pushed + ("  错误:\n" + stderr + "\n");
    } else {
      AppendEmpty(pushed);
    }
    assert pushed == msg + (lines + out) + err;
    AppendAssoc(msg, lines + out, err);
    pushed := pushed + "\n";
    AppendAssoc(msg, lines + out + err, "\n");
  }

  /** `format_results`: the header, then the block of each result pushed in order. */
  method FormatResults(commands: seq<TaskCommand>, results: seq<CommandResult>) returns (msg: string)
    ensures msg == Report(commands, results)
  {
    msg := ReportHeader;
    for i := 0 to |results|
      invariant msg == Report(commands, results[..i])
    {
      msg := PushBlock(msg, commands, i, results[i]);
      ReportStep(commands, results, i);
    }
    assert results[..|results|] == results;
  }

  /** Each result adds its block at the end of the report of the results before it. */
  lemma ReportStep(commands: seq<TaskCommand>, results: seq<CommandResult>, k: nat)
    requires k < |results|
    ensures Report(commands, results[..k + 1]) == Report(commands, results[..k]) + Block(commands, k, results[k])
  {
    assert results[..k + 1][..k] == results[..k];
  }

  /** The report of the first `k` results begins the report of all of them; all begin with the header. */
  lemma {:induction false} ReportPrefix(commands: seq<TaskCommand>, results: seq<CommandResult>, k: nat)
    requires k <= |results|
    ensures ReportHeader <= Report(commands, results[..k]) <= Report(commands, results)
    decreases |results| - k
  {
    if k < |results| {
      ReportStep(commands, results, k);
      ReportPrefix(commands, results, k + 1);
      var block := Block(commands, k, results[k]);
      PrefixOfAppend(Report(commands, results[..k]), block);
      PrefixTrans(Report(commands, results[..k]), Report(commands, results[..k + 1]), Report(commands, results));
      PrefixTrans(ReportHeader, Report(commands, results[..k]), Report(commands, results));
    } else {
      assert results[..k] == results;
      ReportFromHeader(commands, results);
    }
  }

  /** The report begins with the header. */
  lemma {:induction false} ReportFromHeader(commands: seq<TaskCommand>, results: seq<CommandResult>)
    ensures ReportHeader <= Report(commands, results)
    decreases |results|
  {
    if results != [] {
      ReportFromHeader(commands, results[..|results| - 1]);
    }
  }

  /**
   * One block per result, in order: block `i` stands in the report right
   * after the blocks of the results before it.
   */
  lemma ReportBlockAt(commands: seq<TaskCommand>, results: seq<CommandResult>, i: nat)
    requires i < |results|
    ensures SliceAt(Report(commands, results), Block(commands, i, results[i]), |Report(commands, results[..i])|)
  {
    ReportStep(commands, results, i);
    ReportPrefix(commands, results, i + 1);
    PieceOfPrefix(Report(commands, results), Report(commands, results[..i + 1]),
                  Report(commands, results[..i]), Block(commands, i, results[i]));
  }

  /**
   * A block opens with its status line, whose first char is ✅ exactly for
   * a success, followed by the line of the command.
   */
  lemma BlockOpening(commands: seq<TaskCommand>, i: nat, result: CommandResult)
    ensures var b := Block(commands, i, result);
            && StatusLine(commands, i, result) + CommandLine(result) <= b
            && (b[0] == '✅' <==> result.success)
  {
    var b := Block(commands, i, result);
    var lines := StatusLine(commands, i, result) + CommandLine(result);
    var rest := Section("  输出:\n", result.stdout, 500) + Section("  错误:\n", result.stderr, 300) + "\n";
    AppendAssoc(lines, Section("  输出:\n", result.stdout, 500), Section("  错误:\n", result.stderr, 300));
    AppendAssoc(lines, Section("  输出:\n", result.stdout, 500) + Section("  错误:\n", result.stderr, 300), "\n");
    assert b == lines + rest;
    assert b[0] == lines[0] == StatusIcon(result.success)[0];
  }

  // ---------------------------------------------------------------------------
  // The plan message
  // ---------------------------------------------------------------------------

  const PlanHeader := "📝 执行计划:\n"

  /** Plan line number `n`: "n. description → `command`". */
  function PlanLine(n: nat, c: TaskCommand): string {
    NatToString(n) + ". " + c.description + " → `" + c.command + "`"
  }

  /** The plan lines, numbered from 1 in command order. */
  function PlanLines(commands: seq<TaskCommand>): seq<string> {
    seq(|commands|, i requires 0 <= i < |commands| => PlanLine(i + 1, commands[i]))
  }

  /** The plan: its lines joined with newlines. */
  function Plan(commands: seq<TaskCommand>): string {
    Join(PlanLines(commands), '\n')
  }

  /** Plan line `n` begins with the number `n` in decimal, then ". ". */
  lemma PlanLineNumber(n: nat, c: TaskCommand)
    ensures var d := NatToString(n);
            var line := PlanLine(n, c);
            |d| + 2 <= |line| && line[..|d|] == d && line[|d|..|d| + 2] == ". " && DecimalValue(line[..|d|]) == n
  {
    var d := NatToString(n);
    var line := PlanLine(n, c);
    assert line[..|d|] == d;
    assert line[|d|..|d| + 2] == ". ";
    DecimalRoundTrip(n);
  }

  /** A plan line holds a newline only where its description or its command does. */
  lemma PlanLineOnOneLine(n: nat, c: TaskCommand)
    requires Lacks(c.description, '\n') && Lacks(c.command, '\n')
    ensures Lacks(PlanLine(n, c), '\n')
  {
    var d := NatToString(n);
    var line := PlanLine(n, c);
    forall j | 0 <= j < |line| ensures line[j] != '\n' {
      if j < |d| {
        assert line[j] == d[j];
      } else if j < |d| + 2 {
      } else if j < |d| + 2 + |c.description| {
        assert line[j] == c.description[j - |d| - 2];
      } else if j < |d| + 6 + |c.description| {
      } else if j < |d| + 6 + |c.description| + |c.command| {
        assert line[j] == c.command[j - |d| - 6 - |c.description|];
      }
    }
  }

  /**
   * The plan is numbered from 1 in command order: when no description or
   * command holds a newline, line `i` of the plan is the line of command
   * `i`, numbered `i + 1`.
   */
  lemma PlanNumbered(commands: seq<TaskCommand>)
    requires commands != []
    requires forall i :: 0 <= i < |commands| ==> Lacks(commands[i].description, '\n') && Lacks(commands[i].command, '\n')
    ensures Split(Plan(commands), '\n') == PlanLines(commands)
  {
    var lines := PlanLines(commands);
    forall i | 0 <= i < |lines| ensures Lacks(lines[i], '\n') {
      PlanLineOnOneLine(i + 1, commands[i]);
    }
    SplitJoin(lines, '\n');
  }

  // ---------------------------------------------------------------------------
  // Handling one message
  // ---------------------------------------------------------------------------

  /** What the handler does that can be observed: a message sent, the model asked, the commands run. */
  datatype Event =
    | Send(chat: int, body: string)
    | AskModel(prompt: string)
    | Execute(commands: seq<TaskCommand>)

  const AnalyzingNotice := "🔄 正在分析任务..."
  const NothingToRunNotice := "\U{2139}\U{FE0F} 该消息不需要执行任何命令"

  function ModelFailureNotice(e: string): string {
    "❌ LLM 调用失败: " + e
  }

  /** An empty allow-list admits every chat; otherwise only the listed ones. */
  predicate Admits(allowed: seq<int>, chat: int) {
    |allowed| == 0 || chat in allowed
  }

  /** The commands the model's reply to `prompt` asks for: none when the model call failed. */
  function Planned(prompt: string, gateway: string -> Result<string, string>,
                   decode: string -> Option<seq<TaskCommand>>): seq<TaskCommand> {
    match gateway(prompt)
    case Success(reply) => ParseCommands(reply, decode)
    case Failure(_) => []
  }

  /** Every message of the trace goes to `chat`. */
  predicate SendsOnlyTo(trace: seq<Event>, chat: int) {
    forall i :: 0 <= i < |trace| && trace[i].Send? ==> trace[i].chat == chat
  }

  /** The trace runs commands. */
  predicate Executes(trace: seq<Event>) {
    exists i :: 0 <= i < |trace| && trace[i].Execute?
  }

  /** The trace asks the model nothing. */
  predicate AsksNothing(trace: seq<Event>) {
    forall i :: 0 <= i < |trace| ==> !trace[i].AskModel?
  }

  /**
   * Running a non-empty command list: the plan is sent, the commands run,
   * and the report of their results is sent when results are echoed.
   */
  function Run(chat: int, commands: seq<TaskCommand>, echoResult: bool,
               execute: seq<TaskCommand> -> seq<CommandResult>): (events: seq<Event>)
    ensures SendsOnlyTo(events, chat) && AsksNothing(events) && Executes(events)
    ensures |events| == (if echoResult then 3 else 2)
    ensures events[0] == Send(chat, PlanHeader + Plan(commands)) && events[1] == Execute(commands)
    ensures echoResult ==> events[2] == Send(chat, Report(commands, execute(commands)))
  {
    var run := [Send(chat, PlanHeader + Plan(commands)), Execute(commands)];
    var events := if echoResult then run + [Send(chat, Report(commands, execute(commands)))] else run;
    assert events[1].Execute?;
    events
  }

  /**
   * What the handler does once the model has been asked about `text`: a
   * failure notice, a nothing-to-run notice, or the run of the commands.
   * All of it goes to `chat`, and the model is not asked again.
   */
  function Reply(chat: int, text: string, echoResult: bool,
                 gateway: string -> Result<string, string>,
                 decode: string -> Option<seq<TaskCommand>>,
                 execute: seq<TaskCommand> -> seq<CommandResult>): (events: seq<Event>)
    ensures SendsOnlyTo(events, chat) && AsksNothing(events)
    ensures gateway(text).Failure? ==> events == [Send(chat, ModelFailureNotice(gateway(text).error))]
    ensures gateway(text).Success? && Planned(text, gateway, decode) == [] ==> events == [Send(chat, NothingToRunNotice)]
    ensures Executes(events) <==> Planned(text, gateway, decode) != []
    ensures Planned(text, gateway, decode) != [] ==> events == Run(chat, Planned(text, gateway, decode), echoResult, execute)
  {
    match gateway(text)
    case Failure(e) => [Send(chat, ModelFailureNotice(e))]
    case Success(reply) =>
      var commands := ParseCommands(reply, decode);
      if commands == [] then [Send(chat, NothingToRunNotice)]
      else Run(chat, commands, echoResult, execute)
  }

  /**
   * `handle_message`: the events one inbound message causes, in order.
   * An unadmitted chat or a message without text causes nothing. Otherwise
   * the handler acknowledges, asks the model with the text itself, and
   * then replies.
   */
  function HandleMessage(allowed: seq<int>, chat: int, text: Option<string>, echoResult: bool,
                         gateway: string -> Result<string, string>,
                         decode: string -> Option<seq<TaskCommand>>,
                         execute: seq<TaskCommand> -> seq<CommandResult>): (trace: seq<Event>)
    ensures trace == [] <==> !Admits(allowed, chat) || text.None?
    ensures trace != [] ==>
              trace == [Send(chat, AnalyzingNotice), AskModel(text.value)]
                       + Reply(chat, text.value, echoResult, gateway, decode, execute)
  {
    if |allowed| != 0 && chat !in allowed then []
    else
      match text
      case None => []
      case Some(t) => [Send(chat, AnalyzingNotice), AskModel(t)] + Reply(chat, t, echoResult, gateway, decode, execute)
  }

  /** Two traces that send only to `chat`, one after the other. */
  lemma SendsOnlyToAppend(a: seq<Event>, b: seq<Event>, chat: int)
    requires SendsOnlyTo(a, chat) && SendsOnlyTo(b, chat)
    ensures SendsOnlyTo(a + b, chat)
  {
    forall i | 0 <= i < |a + b| && (a + b)[i].Send? ensures (a + b)[i].chat == chat {
      if i >= |a| { assert (a + b)[i] == b[i - |a|]; }
    }
  }

  /** After events that run nothing, a trace runs commands exactly when what follows does. */
  lemma ExecutesAfter(a: seq<Event>, b: seq<Event>)
    requires forall i :: 0 <= i < |a| ==> !a[i].Execute?
    ensures Executes(a + b) <==> Executes(b)
  {
    if Executes(a + b) {
      var i :| 0 <= i < |a + b| && (a + b)[i].Execute?;
      assert b[i - |a|] == (a + b)[i];
    }
    if Executes(b) {
      var i :| 0 <= i < |b| && b[i].Execute?;
      assert (a + b)[i + |a|] == b[i];
    }
  }

  /** When what follows asks nothing, every question of the trace is in its first part. */
  lemma AsksOnlyIn(a: seq<Event>, b: seq<Event>)
    requires AsksNothing(b)
    ensures forall i :: 0 <= i < |a + b| && (a + b)[i].AskModel? ==> i < |a| && (a + b)[i] == a[i]
  {
    assert forall i :: 0 <= i < |a + b| && (a + b)[i].AskModel? ==> i < |a| && (a + b)[i] == a[i];
  }

  /** Every message the handler sends goes to the chat the message came from. */
  lemma HandleRepliesToSender(allowed: seq<int>, chat: int, text: Option<string>, echoResult: bool,
                              gateway: string -> Result<string, string>,
                              decode: string -> Option<seq<TaskCommand>>,
                              execute: seq<TaskCommand> -> seq<CommandResult>)
    ensures SendsOnlyTo(HandleMessage(allowed, chat, text, echoResult, gateway, decode, execute), chat)
  {
    if Admits(allowed, chat) && text.Some? {
      SendsOnlyToAppend([Send(chat, AnalyzingNotice), AskModel(text.value)],
                        Reply(chat, text.value, echoResult, gateway, decode, execute), chat);
    }
  }

  /** The model is asked at most once, second, with the message text, and only for an admitted text message. */
  lemma HandleAsksOnce(allowed: seq<int>, chat: int, text: Option<string>, echoResult: bool,
                       gateway: string -> Result<string, string>,
                       decode: string -> Option<seq<TaskCommand>>,
                       execute: seq<TaskCommand> -> seq<CommandResult>)
    ensures forall i :: 0 <= i < |HandleMessage(allowed, chat, text, echoResult, gateway, decode, execute)|
                        && HandleMessage(allowed, chat, text, echoResult, gateway, decode, execute)[i].AskModel? ==>
              && i == 1 && Admits(allowed, chat)
              && text == Some(HandleMessage(allowed, chat, text, echoResult, gateway, decode, execute)[i].prompt)
  {
    if Admits(allowed, chat) && text.Some? {
      AsksOnlyIn([Send(chat, AnalyzingNotice), AskModel(text.value)],
                 Reply(chat, text.value, echoResult, gateway, decode, execute));
    }
  }

  /** Commands run exactly when an admitted text message gets a non-empty command list from the model. */
  lemma HandleExecutesIff(allowed: seq<int>, chat: int, text: Option<string>, echoResult: bool,
                          gateway: string -> Result<string, string>,
                          decode: string -> Option<seq<TaskCommand>>,
                          execute: seq<TaskCommand> -> seq<CommandResult>)
    ensures Executes(HandleMessage(allowed, chat, text, echoResult, gateway, decode, execute))
            <==> Admits(allowed, chat) && text.Some? && Planned(text.value, gateway, decode) != []
  {
    if Admits(allowed, chat) && text.Some? {
      ExecutesAfter([Send(chat, AnalyzingNotice), AskModel(text.value)],
                    Reply(chat, text.value, echoResult, gateway, decode, execute));
    }
  }
}
