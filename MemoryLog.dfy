/** The append-only memory file. The file is either absent or holds some
    text; initialisation writes a fixed header when it is absent, an append
    validates the rule and adds one timestamped entry at the end, a read
    returns what is on disk, and the stats report size and line count.
    Timestamps are the ISO-8601 strings the clock produced, given as inputs;
    an operating-system failure is given as its error text. */
module MemoryLog {
  import opened Wrappers
  import opened Text

  const NotFoundMessage := "Error: Memory file not found."
  const EmptyRuleMessage := "Error: Rule cannot be empty."
  const SuccessMessage := "Successfully added new rule."

  function SizeLimitMessage(maxRuleSize: int): string {
    "Error: Rule exceeds maximum size (" + IntToString(maxRuleSize) + " bytes)."
  }

  function WriteErrorMessage(reason: string): string {
    "Error writing to file: " + reason
  }

  function ReadErrorMessage(reason: string): string {
    "Error reading file: " + reason
  }

  /** The text of an absent file is taken as empty (append mode creates it). */
  function Contents(file: Option<string>): string {
    file.GetOr("")
  }

  /** What `init_memory_file` writes into a new file. */
  function InitialContent(ts: string): string {
    Heading("# Agent Memory", "- System initialized on ", ts)
  }

  /** A title line, an empty line, then `prefix` and `ts` on a line. */
  function Heading(title: string, prefix: string, ts: string): string {
    title + "\n\n" + prefix + ts + "\n"
  }

  /** `init_memory_file`: an existing file is left alone; an absent one is
      created with the header and the initialisation line. */
  function InitFile(file: Option<string>, ts: string): (r: Option<string>)
    ensures r.Some?
    ensures file.Some? ==> r == file
  {
    if file.Some? then file else Some(InitialContent(ts))
  }

  /** Initialising twice, at any two times, is initialising once. */
  lemma InitIdempotent(file: Option<string>, ts1: string, ts2: string)
    ensures InitFile(InitFile(file, ts1), ts2) == InitFile(file, ts1)
  {
  }

  /** Outcome of the two validation steps of an append. */
  datatype RuleCheck = Accepted(body: string) | EmptyRule | TooLarge

  /** The checks of `append_to_memory_file`, in their order: a rule that is
      empty after stripping is refused first, whatever its length; then a
      rule of more than `maxRuleSize` characters (counted before stripping)
      is refused; otherwise the stripped rule is the entry's body. */
  function CheckRule(rule: string, maxRuleSize: int): (r: RuleCheck)
    ensures r.EmptyRule? <==> AllSpace(rule)
    ensures r.TooLarge? <==> !AllSpace(rule) && |rule| > maxRuleSize
    ensures r.Accepted? <==> !AllSpace(rule) && |rule| <= maxRuleSize
    ensures r.Accepted? ==> r.body == Strip(rule) && r.body != []
                            && !IsSpace(r.body[0]) && !IsSpace(r.body[|r.body| - 1])
  {
    if rule == [] || Strip(rule) == [] then EmptyRule
    else if |rule| > maxRuleSize then TooLarge
    else Accepted(Strip(rule))
  }

  /** The text one accepted rule adds to the file: a new line holding a
      Markdown list item stamped with `ts`. */
  function RenderEntry(ts: string, body: string): (r: string)
    ensures r != [] && r[0] == '\n'
    ensures EndsWith(r, body) && |body| < |r|
  {
    var prefix := "\n- [" + ts + "] ";
    assert (prefix + body)[|prefix|..] == body;
    prefix + body
  }

  datatype AppendStatus = Appended | RejectedEmpty | RejectedSize | WriteFailed(reason: string)

  datatype AppendResult = AppendResult(status: AppendStatus, file: Option<string>)

  /** `append_to_memory_file` with the clock reading `ts` and `writeError`
      the failure, if any, of opening or writing the file. */
  function AppendFile(file: Option<string>, rule: string, ts: string, maxRuleSize: int,
                      writeError: Option<string>): AppendResult
  {
    match CheckRule(rule, maxRuleSize)
    case EmptyRule => AppendResult(RejectedEmpty, file)
    case TooLarge => AppendResult(RejectedSize, file)
    case Accepted(body) =>
      if writeError.Some? then AppendResult(WriteFailed(writeError.value), file)
      else AppendResult(Appended, Some(Contents(file) + RenderEntry(ts, body)))
  }

  /** What an append does to the file. The outcome follows the validation
      order; every refusal and failure leaves the file as it was; a success
      creates the file if it was absent and adds the entry after the old
      text, which stays a prefix of the new. */
  lemma AppendOutcome(file: Option<string>, rule: string, ts: string, maxRuleSize: int,
                      writeError: Option<string>)
    ensures var r := AppendFile(file, rule, ts, maxRuleSize, writeError);
            && (r.status.RejectedEmpty? <==> AllSpace(rule))
            && (r.status.RejectedSize? <==> !AllSpace(rule) && |rule| > maxRuleSize)
            && (r.status.WriteFailed? <==> !AllSpace(rule) && |rule| <= maxRuleSize && writeError.Some?)
            && (r.status.Appended? <==> !AllSpace(rule) && |rule| <= maxRuleSize && writeError.None?)
            && (!r.status.Appended? ==> r.file == file)
            && (r.status.Appended? ==> r.file == Some(Contents(file) + RenderEntry(ts, Strip(rule))))
            && Contents(file) <= Contents(r.file)
  {
  }

  /** The string `append_to_memory_file` returns for each outcome. */
  function AppendMessage(status: AppendStatus, maxRuleSize: int): string {
    match status
    case Appended => SuccessMessage
    case RejectedEmpty => EmptyRuleMessage
    case RejectedSize => SizeLimitMessage(maxRuleSize)
    case WriteFailed(reason) => WriteErrorMessage(reason)
  }

  /** Three characters of each message that tell the outcomes apart. */
  lemma MessageMarks(status: AppendStatus, maxRuleSize: int)
    ensures var m := AppendMessage(status, maxRuleSize);
            && |m| > 12
            && (m[0] == 'S' <==> status.Appended?)
            && (m[5] == ' ' <==> status.WriteFailed?)
            && (m[12] == 'e' <==> status.RejectedSize?)
  {
    match status
    case Appended =>
    case RejectedEmpty =>
    case RejectedSize =>
      SizeMessageMarks(maxRuleSize);
    case WriteFailed(reason) =>
      WriteMessageMarks(reason);
  }

  lemma SizeMessageMarks(maxRuleSize: int)
    ensures var m := SizeLimitMessage(maxRuleSize);
            |m| > 12 && m[0] == 'E' && m[5] == ':' && m[12] == 'e'
  {
    var head := "Error: Rule exceeds maximum size (";
    var digits := IntToString(maxRuleSize);
    KeepsPrefix(head, digits);
    KeepsPrefix(head + digits, " bytes).");
  }

  lemma WriteMessageMarks(reason: string)
    ensures var m := WriteErrorMessage(reason);
            |m| > 12 && m[0] == 'E' && m[5] == ' ' && m[12] == 'g'
  {
    KeepsPrefix("Error writing to file: ", reason);
  }

  /** A caller can tell every outcome apart from the returned string alone:
      success from each error, the empty-rule error from the size error, and
      one write failure from another. */
  lemma MessagesDistinct(s1: AppendStatus, s2: AppendStatus, maxRuleSize: int)
    requires AppendMessage(s1, maxRuleSize) == AppendMessage(s2, maxRuleSize)
    ensures s1 == s2
  {
    MessageMarks(s1, maxRuleSize);
    MessageMarks(s2, maxRuleSize);
    if s1.WriteFailed? && s2.WriteFailed? {
      var m := AppendMessage(s1, maxRuleSize);
      assert s1.reason == m[23..] == s2.reason;
    }
  }

  /** `read_memory_file`: the text on disk as text mode reads it, the
      not-found message for an absent file, or the error of any other
      failure `readError`. A successful read holds no carriage return and is
      no longer than the text on disk. */
  function ReadFile(file: Option<string>, readError: Option<string>): (r: string)
    ensures file.Some? && readError.None? ==> NoCarriageReturn(r) && |r| <= |file.value|
  {
    if file.None? then NotFoundMessage
    else if readError.Some? then ReadErrorMessage(readError.value)
    else Translate(file.value)
  }

  /** A file without carriage returns reads back exactly as stored. */
  lemma ReadVerbatim(content: string)
    requires NoCarriageReturn(content)
    ensures ReadFile(Some(content), None) == content
  {
    TranslateVerbatim(content);
  }

  /** The statistics `get_file_stats` returns; `Failed` is the record that
      carries only an error. The modification time is not modelled. */
  datatype FileStats = FileStats(fileExists: bool, sizeBytes: nat, lineCount: nat) | Failed(error: string)

  /** `get_file_stats` with `statError` the failure, if any, of anything but
      a missing file. */
  function StatsOf(file: Option<string>, statError: Option<string>): (r: FileStats)
    ensures file.None? ==> r == FileStats(false, 0, 0)
    ensures file.Some? && statError.None? ==> r.FileStats? && r.fileExists && r.sizeBytes >= |file.value|
  {
    if file.None? then FileStats(false, 0, 0)
    else if statError.Some? then Failed(statError.value)
    else FileStats(true, Utf8Length(file.value), LineCount(file.value))
  }

  /** A heading whose title, prefix and timestamp hold no line break has
      exactly three line breaks, the last at its end, and no carriage
      return. */
  lemma HeadingLines(title: string, prefix: string, ts: string)
    requires NoLineBreak(title) && NoLineBreak(prefix) && NoLineBreak(ts)
    ensures var c := Heading(title, prefix, ts);
            NoCarriageReturn(c) && NewlineCount(c) == 3 && c[|c| - 1] == '\n'
  {
    var tail := prefix + ts;
    var c := title + ("\n\n" + (tail + "\n"));
    assert Heading(title, prefix, ts) == c;
    NoCarriageReturnConcat(prefix, ts);
    NoCarriageReturnConcat(tail, "\n");
    NoCarriageReturnConcat("\n\n", tail + "\n");
    NoCarriageReturnConcat(title, "\n\n" + (tail + "\n"));
    NewlineCountNone(title);
    NewlineCountNone(prefix);
    NewlineCountNone(ts);
    NewlineCountConcat(prefix, ts);
    NewlineCountConcat(tail, "\n");
    NewlineCountConcat("\n\n", tail + "\n");
    NewlineCountConcat(title, "\n\n" + (tail + "\n"));
  }

  /** The size of a heading with an ASCII title and prefix. */
  lemma HeadingSize(title: string, prefix: string, ts: string)
    requires IsAscii(title) && IsAscii(prefix)
    ensures Utf8Length(Heading(title, prefix, ts)) == |title| + |prefix| + 3 + Utf8Length(ts)
  {
    var tail := prefix + ts;
    assert Heading(title, prefix, ts) == title + ("\n\n" + (tail + "\n"));
    Utf8LengthAscii(title);
    Utf8LengthAscii(prefix);
    Utf8LengthAscii("\n");
    Utf8LengthAscii("\n\n");
    Utf8LengthConcat(prefix, ts);
    Utf8LengthConcat(tail, "\n");
    Utf8LengthConcat("\n\n", tail + "\n");
    Utf8LengthConcat(title, "\n\n" + (tail + "\n"));
  }

  /** A heading whose title, prefix and timestamp hold no line break is
      three lines long, and its size is that of its parts. */
  lemma HeadingStats(title: string, prefix: string, ts: string)
    requires NoLineBreak(title) && NoLineBreak(prefix) && NoLineBreak(ts)
    requires IsAscii(title) && IsAscii(prefix)
    ensures StatsOf(Some(Heading(title, prefix, ts)), None)
         == FileStats(true, |title| + |prefix| + 3 + Utf8Length(ts), 3)
  {
    var c := Heading(title, prefix, ts);
    HeadingLines(title, prefix, ts);
    HeadingSize(title, prefix, ts);
    TranslateVerbatim(c);
    SplitLinesCount(c);
  }

  /** The two fixed parts of a new file are plain one-line ASCII. */
  lemma HeaderTextPlain()
    ensures NoLineBreak("# Agent Memory") && IsAscii("# Agent Memory")
    ensures NoLineBreak("- System initialized on ") && IsAscii("- System initialized on ")
  {
  }

  /** A freshly initialised file, stamped with a timestamp without line
      breaks such as an ISO-8601 one, has three lines and 41 bytes beyond
      the timestamp's own. */
  lemma InitialStats(ts: string)
    requires NoLineBreak(ts)
    ensures StatsOf(Some(InitialContent(ts)), None) == FileStats(true, 41 + Utf8Length(ts), 3)
  {
    HeaderTextPlain();
    HeadingStats("# Agent Memory", "- System initialized on ", ts);
  }

  /** An entry whose timestamp and body have no carriage return has none. */
  lemma EntryNoCarriageReturn(ts: string, body: string)
    requires NoCarriageReturn(ts) && NoCarriageReturn(body)
    ensures NoCarriageReturn(RenderEntry(ts, body))
  {
    NoCarriageReturnConcat("\n- [", ts);
    NoCarriageReturnConcat("\n- [" + ts, "] ");
    NoCarriageReturnConcat("\n- [" + ts + "] ", body);
  }

  /** Reading a text that ends with an entry gives the translated earlier
      text followed by the entry verbatim, or by the entry without its
      leading "\n" when the earlier text ends with "\r" (the two then read as
      one line break). Either way the entry's body is the read's last
      characters. */
  lemma ReadEndsWithEntry(c: string, ts: string, body: string)
    requires NoCarriageReturn(ts) && NoCarriageReturn(body)
    ensures !EndsWithCarriageReturn(c) ==>
              ReadFile(Some(c + RenderEntry(ts, body)), None) == Translate(c) + RenderEntry(ts, body)
    ensures EndsWithCarriageReturn(c) ==>
              ReadFile(Some(c + RenderEntry(ts, body)), None) == Translate(c) + RenderEntry(ts, body)[1..]
    ensures EndsWith(ReadFile(Some(c + RenderEntry(ts, body)), None), body)
  {
    var entry := RenderEntry(ts, body);
    EntryNoCarriageReturn(ts, body);
    if EndsWithCarriageReturn(c) {
      TranslateAppendAfterCr(c, entry);
      EndsWithAfterCr(c, entry, body);
    } else {
      TranslateAppendPlain(c, entry);
      ConcatEnds(Translate(c), entry, |body|);
    }
  }

  /** A successful append shows in the next read: the read is the old read
      followed by the rendered entry (its leading "\n" merged into a final
      "\r" of the old text), and so ends with the stripped rule. */
  lemma ReadAfterAppend(file: Option<string>, rule: string, ts: string, maxRuleSize: int)
    requires AppendFile(file, rule, ts, maxRuleSize, None).status.Appended?
    requires NoCarriageReturn(ts) && NoCarriageReturn(Strip(rule))
    ensures !EndsWithCarriageReturn(Contents(file)) ==>
              ReadFile(AppendFile(file, rule, ts, maxRuleSize, None).file, None)
              == Translate(Contents(file)) + RenderEntry(ts, Strip(rule))
    ensures EndsWithCarriageReturn(Contents(file)) ==>
              ReadFile(AppendFile(file, rule, ts, maxRuleSize, None).file, None)
              == Translate(Contents(file)) + RenderEntry(ts, Strip(rule))[1..]
    ensures EndsWith(ReadFile(AppendFile(file, rule, ts, maxRuleSize, None).file, None), Strip(rule))
  {
    AppendOutcome(file, rule, ts, maxRuleSize, None);
    ReadEndsWithEntry(Contents(file), ts, Strip(rule));
  }

  /** Whatever the rule, the clock reading and the earlier text, a
      successful append shows in the next read: it ends with the stripped
      rule as text mode reads it. */
  lemma ReadEndsWithRule(file: Option<string>, rule: string, ts: string, maxRuleSize: int)
    requires AppendFile(file, rule, ts, maxRuleSize, None).status.Appended?
    ensures EndsWith(ReadFile(AppendFile(file, rule, ts, maxRuleSize, None).file, None),
                     Translate(Strip(rule)))
  {
    AppendOutcome(file, rule, ts, maxRuleSize, None);
    var pre := Contents(file) + "\n- [" + ts + "] ";
    var body := Strip(rule);
    assert Contents(file) + RenderEntry(ts, body) == pre + body;
    TranslateConcat(pre, body);
    ConcatEnds(Translate(pre), Translate(body), |Translate(body)|);
  }

  /** Whatever the rule, the clock reading and the outcome, an existing file
      still exists after an append, and what a read returned before is a
      prefix of what it returns after. */
  lemma ReadKeepsPrefix(file: Option<string>, rule: string, ts: string, maxRuleSize: int,
                        writeError: Option<string>)
    requires file.Some?
    ensures var after := AppendFile(file, rule, ts, maxRuleSize, writeError).file;
            after.Some? && ReadFile(file, None) <= ReadFile(after, None)
  {
    AppendOutcome(file, rule, ts, maxRuleSize, writeError);
    var c := Contents(file);
    var after := Contents(AppendFile(file, rule, ts, maxRuleSize, writeError).file);
    assert after == c + after[|c|..];
    TranslatePrefix(c, after[|c|..]);
  }

  /** An entry whose timestamp and body have no line breaks holds exactly
      one, the one it starts with. */
  lemma EntryNewlines(ts: string, body: string)
    requires NoLineBreak(ts) && NoLineBreak(body)
    ensures NewlineCount(RenderEntry(ts, body)) == 1
  {
    NewlineCountNone(ts);
    NewlineCountNone(body);
    NewlineCountConcat("\n- [", ts);
    NewlineCountConcat("\n- [" + ts, "] ");
    NewlineCountConcat("\n- [" + ts + "] ", body);
  }

  /** The line count of a text that ends with an entry: two more than the
      text before it when that text is empty or ends with "\n", one more
      otherwise (a final "\r" merges with the entry's "\n"). */
  lemma LineCountWithEntry(c: string, ts: string, body: string)
    requires NoLineBreak(ts) && NoLineBreak(body) && body != []
    ensures LineCount(c + RenderEntry(ts, body))
            == LineCount(c) + (if c == [] || c[|c| - 1] == '\n' then 2 else 1)
  {
    var entry := RenderEntry(ts, body);
    EntryNewlines(ts, body);
    EntryNoCarriageReturn(ts, body);
    assert entry[|entry| - 1] == body[|body| - 1];
    LineCountAppendLine(c, entry);
  }

  /** The stats of a text that ends with an entry: the entry's bytes are
      added to the size and one or two lines to the count. */
  lemma StatsWithEntry(c: string, ts: string, body: string)
    requires NoLineBreak(ts) && NoLineBreak(body) && body != []
    ensures StatsOf(Some(c + RenderEntry(ts, body)), None)
            == FileStats(true, Utf8Length(c) + Utf8Length(RenderEntry(ts, body)),
                         LineCount(c) + (if c == [] || c[|c| - 1] == '\n' then 2 else 1))
  {
    Utf8LengthConcat(c, RenderEntry(ts, body));
    LineCountWithEntry(c, ts, body);
  }

  /** A successful append adds the entry's bytes to the size, whatever the
      rule and the earlier text. */
  lemma SizeAfterAppend(file: Option<string>, rule: string, ts: string, maxRuleSize: int)
    requires AppendFile(file, rule, ts, maxRuleSize, None).status.Appended?
    ensures var stats := StatsOf(AppendFile(file, rule, ts, maxRuleSize, None).file, None);
            && stats.FileStats? && stats.fileExists
            && stats.sizeBytes == Utf8Length(Contents(file)) + Utf8Length(RenderEntry(ts, Strip(rule)))
  {
    AppendOutcome(file, rule, ts, maxRuleSize, None);
    Utf8LengthConcat(Contents(file), RenderEntry(ts, Strip(rule)));
  }

  /** A successful append adds the entry's bytes to the size, and one line
      to the count, or two when the file was empty or ended with "\n" (the
      entry begins with its own line break). */
  lemma StatsAfterAppend(file: Option<string>, rule: string, ts: string, maxRuleSize: int)
    requires AppendFile(file, rule, ts, maxRuleSize, None).status.Appended?
    requires NoLineBreak(ts) && NoLineBreak(Strip(rule))
    ensures var before := Contents(file);
            StatsOf(AppendFile(file, rule, ts, maxRuleSize, None).file, None)
            == FileStats(true,
                         Utf8Length(before) + Utf8Length(RenderEntry(ts, Strip(rule))),
                         LineCount(before) + (if before == [] || before[|before| - 1] == '\n' then 2 else 1))
  {
    AppendOutcome(file, rule, ts, maxRuleSize, None);
    StatsWithEntry(Contents(file), ts, Strip(rule));
  }

  /** One append request: the rule, the clock reading at its write and the
      failure, if any, of opening or writing the file. */
  datatype Request = Request(rule: string, ts: string, writeError: Option<string>)

  /** The file after the requests are handled one after another. */
  function AppendAll(file: Option<string>, requests: seq<Request>, maxRuleSize: int): Option<string>
    decreases |requests|
  {
    if requests == [] then file
    else
      var last := requests[|requests| - 1];
      AppendFile(AppendAll(file, requests[..|requests| - 1], maxRuleSize), last.rule, last.ts,
                 maxRuleSize, last.writeError).file
  }

  /** The rendered entries of the requests that pass validation and whose
      write does not fail, in order. */
  function AcceptedEntries(requests: seq<Request>, maxRuleSize: int): seq<string>
    decreases |requests|
  {
    if requests == [] then []
    else
      var last := requests[|requests| - 1];
      var earlier := AcceptedEntries(requests[..|requests| - 1], maxRuleSize);
      if CheckRule(last.rule, maxRuleSize).Accepted? && last.writeError.None?
      then earlier + [RenderEntry(last.ts, Strip(last.rule))]
      else earlier
  }

  /** The file is append-only: after any run of appends, whichever of them
      are refused or fail to write, it holds exactly its earlier text
      followed by the entries of the successful appends in their order. */
  lemma {:induction false} AppendAllConcat(file: Option<string>, requests: seq<Request>, maxRuleSize: int)
    ensures Contents(AppendAll(file, requests, maxRuleSize))
         == Contents(file) + Concat(AcceptedEntries(requests, maxRuleSize))
    decreases |requests|
  {
    if requests == [] {
      assert Concat([]) == "";
    } else {
      var earlierRequests, last := requests[..|requests| - 1], requests[|requests| - 1];
      AppendAllConcat(file, earlierRequests, maxRuleSize);
      var before := AppendAll(file, earlierRequests, maxRuleSize);
      var earlier := AcceptedEntries(earlierRequests, maxRuleSize);
      assert AppendAll(file, requests, maxRuleSize)
          == AppendFile(before, last.rule, last.ts, maxRuleSize, last.writeError).file;
      if CheckRule(last.rule, maxRuleSize).Accepted? && last.writeError.None? {
        var entry := RenderEntry(last.ts, Strip(last.rule));
        assert AcceptedEntries(requests, maxRuleSize) == earlier + [entry];
        assert AppendFile(before, last.rule, last.ts, maxRuleSize, last.writeError).file
            == Some(Contents(before) + entry);
        ConcatSnoc(earlier, entry);
        AppendAssoc(Contents(file), Concat(earlier), entry);
      } else {
        assert AcceptedEntries(requests, maxRuleSize) == earlier;
        assert AppendFile(before, last.rule, last.ts, maxRuleSize, last.writeError).file == before;
      }
    }
  }

  /** The memory file at `FILE_PATH`: its state and the four operations on
      it. `initial` is the text the file started with (or the header once
      initialisation created it) and `entries` the rendered entries appended
      since; the invariant is that the file is always their concatenation. */
  class MemoryFile {
    var file: Option<string>
    const maxRuleSize: int
    ghost var initial: string
    ghost var entries: seq<string>

    ghost predicate Valid()
      reads this
    {
      Contents(file) == initial + Concat(entries) && (file.None? ==> initial == [] && entries == [])
    }

    constructor (existing: Option<string>, maxRuleSize: int)
      ensures Valid()
      ensures file == existing && this.maxRuleSize == maxRuleSize && entries == []
    {
      file := existing;
      this.maxRuleSize := maxRuleSize;
      initial := Contents(existing);
      entries := [];
    }

    /** `init_memory_file`, at clock reading `ts`. */
    method InitMemoryFile(ts: string)
      requires Valid()
      modifies this
      ensures Valid()
      ensures file == InitFile(old(file), ts) && entries == old(entries)
      ensures old(file).Some? ==> initial == old(initial)
    {
      if file.None? {
        file := Some(InitialContent(ts));
        initial := InitialContent(ts);
      }
    }

    /** `read_memory_file`. */
    method ReadMemoryFile(readError: Option<string>) returns (content: string)
      ensures content == ReadFile(file, readError)
    {
      content := ReadFile(file, readError);
    }

    /** `append_to_memory_file`, at clock reading `ts`, with `writeError`
        the failure, if any, of opening or writing the file. */
    method AppendToMemoryFile(rule: string, ts: string, writeError: Option<string>) returns (message: string)
      requires Valid()
      modifies this
      ensures Valid()
      ensures var r := AppendFile(old(file), rule, ts, maxRuleSize, writeError);
              && file == r.file && message == AppendMessage(r.status, maxRuleSize)
              && entries == if r.status.Appended?
                            then old(entries) + [RenderEntry(ts, Strip(rule))]
                            else old(entries)
      ensures initial == old(initial)
    {
      var check := CheckRule(rule, maxRuleSize);
      if check.EmptyRule? {
        return EmptyRuleMessage;
      }
      if check.TooLarge? {
        return SizeLimitMessage(maxRuleSize);
      }
      if writeError.Some? {
        return WriteErrorMessage(writeError.value);
      }
      var formatted := RenderEntry(ts, check.body);
      file := Some(Contents(file) + formatted);
      ConcatSnoc(entries, formatted);
      AppendAssoc(initial, Concat(entries), formatted);
      entries := entries + [formatted];
      assert Contents(file) == initial + Concat(entries);
      message := SuccessMessage;
    }

    /** `get_file_stats`, with `statError` the failure, if any, of anything
        but a missing file. */
    method GetFileStats(statError: Option<string>) returns (stats: FileStats)
      ensures stats == StatsOf(file, statError)
      ensures file.None? ==> stats == FileStats(false, 0, 0)
    {
      stats := StatsOf(file, statError);
    }
  }
}
