/**
 * The `/task` command handler's parser (bot.py, `add_task`): a multi-line
 * message becomes one task per non-blank line, each with an optional
 * `status:<word>` token, and only tasks whose text is non-empty are recorded
 * and reported back.
 */
module Tasks {
  import opened Strings
  import opened Seqs

  const Command := "/task"
  const StatusMarker := "status:"
  const DefaultStatus := "todo"
  const NoTasksReply := "No tasks recognized."

  /** One row of the handler's `tasks` list: `(chat_id, task_text, project, status)`. */
  datatype Task = Task(chatId: int, text: string, project: string, status: string)

  /** The task text and status that one line yields. */
  datatype Parsed = Parsed(text: string, status: string)

  /**
   * A line the loop keeps: it holds a character other than whitespace, so
   * something is left after `strip()` (see `Strings.StripEmptyIff`).
   */
  predicate NotBlank(line: string) {
    exists i :: 0 <= i < |line| && !IsSpace(line[i])
  }

  /** The message with its first `/task` removed, stripped and split on newlines. */
  function MessageLines(messageText: string): (lines: seq<string>)
    ensures |lines| >= 1
    ensures forall k :: 0 <= k < |lines| ==> '\n' !in lines[k]
  {
    Split(Strip(ReplaceFirst(messageText, Command, "")), '\n')
  }

  /** A string without `' '` does not contain the one-space string. */
  lemma NoSpaceChar(s: string)
    requires !Contains(s, " ")
    ensures ' ' !in s
  {
    forall k | 0 <= k < |s| ensures s[k] != ' ' {
      assert !OccursAt(s, " ", k);
      assert s[k..k + 1] == [s[k]];
    }
  }

  /**
   * The body of the loop over lines: strip the line, and if it contains
   * `status:`, split at the first occurrence; the first space-delimited word
   * of the stripped remainder is the status and the rest rejoins the text.
   */
  function ParseLine(line: string): (p: Parsed)
    ensures IsStripped(p.text) && IsStripped(p.status)
    ensures ' ' !in p.status
    ensures !Contains(Strip(line), StatusMarker) ==> p == Parsed(Strip(line), DefaultStatus)
  {
    var s := Strip(line);
    if !Contains(s, StatusMarker) then Parsed(s, DefaultStatus)
    else
      var (before, tail) := SplitOnce(s, StatusMarker);
      var after := Strip(tail);
      if Contains(after, " ") then
        var (stat, rest) := SplitOnce(after, " ");
        NoSpaceWordBeforeSpace(after, stat);
        StripKeeps(stat, ' ');
        Parsed(Strip(before + rest), Strip(stat))
      else
        NoSpaceChar(after);
        StripKeeps(after, ' ');
        Parsed(Strip(before), Strip(after))
  }

  /** Every character of the parsed text and status comes from the line (or from `todo`). */
  lemma ParseLineKeeps(line: string, c: char)
    ensures c in ParseLine(line).text ==> c in line
    ensures c in ParseLine(line).status ==> c in line || c in DefaultStatus
  {
    var s := Strip(line);
    StripKeeps(line, c);
    if Contains(s, StatusMarker) {
      var (before, tail) := SplitOnce(s, StatusMarker);
      var after := Strip(tail);
      StripKeeps(tail, c);
      if Contains(after, " ") {
        var (stat, rest) := SplitOnce(after, " ");
        StripKeeps(before + rest, c);
        StripKeeps(stat, c);
      } else {
        StripKeeps(before, c);
        StripKeeps(after, c);
      }
    }
  }

  /** The part before the first space contains no space. */
  lemma NoSpaceWordBeforeSpace(after: string, stat: string)
    requires stat <= after
    requires forall j :: 0 <= j < |stat| ==> !OccursAt(after, " ", j)
    ensures ' ' !in stat
  {
    forall k | 0 <= k < |stat| ensures stat[k] != ' ' {
      assert !OccursAt(after, " ", k);
      assert after[k..k + 1] == [stat[k]];
    }
  }

  /** The task a non-blank line of the message becomes. */
  function ToTask(chatId: int, project: string, line: string): Task {
    var p := ParseLine(line);
    Task(chatId, p.text, project, p.status)
  }

  /** The `tasks` list the loop builds from `lines`: one task per non-blank line, in order. */
  function LineTasks(chatId: int, project: string, lines: seq<string>): seq<Task> {
    Map(Filter(lines, NotBlank), TaskOf(chatId, project))
  }

  /** The task one kept line becomes, as a function of the line. */
  function TaskOf(chatId: int, project: string): string -> Task {
    line => ToTask(chatId, project, line)
  }

  /** Records only the tasks whose text is non-empty. */
  predicate HasText(t: Task) {
    t.text != []
  }

  /** The confirmation line of one recorded task: `[project / status] text`. */
  function Render(t: Task): string {
    "[" + t.project + " / " + t.status + "] " + t.text
  }

  function ReplyHeader(count: nat): string {
    Decimal(count) + " task(s) added:"
  }

  function Bullets(added: seq<string>): seq<string> {
    seq(|added|, k requires 0 <= k < |added| => "- " + added[k])
  }

  /** The reply sent after the inserts. */
  function Reply(added: seq<string>): string {
    if added == [] then NoTasksReply
    else ReplyHeader(|added|) + "\n" + Join(Bullets(added), "\n")
  }

  /** The loop over the message's lines (bot.py `for line in lines`), appending to `tasks`. */
  method ParseTasks(chatId: int, project: string, lines: seq<string>) returns (tasks: seq<Task>)
    ensures tasks == LineTasks(chatId, project, lines)
  {
    tasks := [];
    ghost var f := TaskOf(chatId, project);
    for i := 0 to |lines|
      invariant tasks == Map(Filter(lines[..i], NotBlank), f)
    {
      FilterStep(lines, i, NotBlank);
      MapAppend(Filter(lines[..i], NotBlank), [lines[i]], f);
      ghost var one := Map([lines[i]], f);
      assert one == [ToTask(chatId, project, lines[i])];
      var line := Strip(lines[i]);
      StripEmptyIff(lines[i]);
      if line != [] {
        tasks := tasks + [ToTask(chatId, project, lines[i])];
      }
    }
    assert lines[..|lines|] == lines;
  }

  /**
   * The insert loop (bot.py `for t in tasks: if t[1]: ...`): each task with
   * non-empty text is inserted and its confirmation line appended to `added`.
   */
  method RecordTasks(tasks: seq<Task>) returns (inserted: seq<Task>, added: seq<string>)
    ensures inserted == Filter(tasks, HasText)
    ensures |added| == |inserted|
    ensures forall k :: 0 <= k < |added| ==> added[k] == Render(inserted[k])
  {
    inserted, added := [], [];
    for i := 0 to |tasks|
      invariant inserted == Filter(tasks[..i], HasText)
      invariant |added| == |inserted|
      invariant forall k :: 0 <= k < |added| ==> added[k] == Render(inserted[k])
    {
      FilterStep(tasks, i, HasText);
      var t := tasks[i];
      if t.text != [] {
        inserted := inserted + [t];
        added := added + [Render(t)];
      }
    }
    assert tasks[..|tasks|] == tasks;
  }

  /** The whole handler, with the database replaced by the list of inserted rows. */
  method AddTask(chatId: int, project: string, messageText: string) returns (inserted: seq<Task>, reply: string)
    ensures inserted == Filter(LineTasks(chatId, project, MessageLines(messageText)), HasText)
    ensures forall t :: t in inserted ==> WellFormed(t, chatId, project)
    ensures inserted == [] <==> reply == NoTasksReply
    ensures inserted != [] && '\n' !in project ==>
              Split(reply, '\n') == [ReplyHeader(|inserted|)] + Map(inserted, ConfirmationLine)
  {
    var lines := MessageLines(messageText);
    var tasks := ParseTasks(chatId, project, lines);
    var added;
    inserted, added := RecordTasks(tasks);
    reply := Reply(added);
    InsertedWellFormed(chatId, project, lines);
    if inserted != [] {
      assert reply[0] != 'N';
      if '\n' !in project {
        forall k | 0 <= k < |added| ensures '\n' !in added[k] {
          assert inserted[k] in inserted;
          RenderFree(inserted[k]);
        }
        ReplyLines(added);
        assert Bullets(added) == Map(inserted, ConfirmationLine);
      }
    }
  }

  /** The bullet line of the reply that confirms one task. */
  function ConfirmationLine(t: Task): string {
    "- " + Render(t)
  }

  /** What every recorded task satisfies: it belongs to the chat and project, its text is non-empty, both fields are stripped single-line strings, and the status contains no space character. */
  predicate WellFormed(t: Task, chatId: int, project: string) {
    && t.chatId == chatId && t.project == project
    && t.text != [] && IsStripped(t.text) && '\n' !in t.text
    && IsStripped(t.status) && ' ' !in t.status && '\n' !in t.status
  }

  lemma DefaultStatusOneLine()
    ensures '\n' !in DefaultStatus
  {
    assert DefaultStatus == ['t', 'o', 'd', 'o'];
  }

  lemma RenderFree(t: Task)
    requires '\n' !in t.project && '\n' !in t.status && '\n' !in t.text
    ensures '\n' !in Render(t)
  {
  }

  /** Every recorded task is well formed when no line of the message holds a newline. */
  lemma InsertedWellFormed(chatId: int, project: string, lines: seq<string>)
    requires forall k :: 0 <= k < |lines| ==> '\n' !in lines[k]
    ensures forall t :: t in Filter(LineTasks(chatId, project, lines), HasText) ==> WellFormed(t, chatId, project)
  {
    var tasks := LineTasks(chatId, project, lines);
    var kept := Filter(lines, NotBlank);
    DefaultStatusOneLine();
    forall t | t in Filter(tasks, HasText) ensures WellFormed(t, chatId, project) {
      FilterMember(tasks, HasText, t);
      var k :| 0 <= k < |tasks| && tasks[k] == t;
      var line := kept[k];
      FilterMember(lines, NotBlank, line);
      assert '\n' !in line;
      assert t == ToTask(chatId, project, line);
      ParseLineKeeps(line, '\n');
    }
  }

  // ---------------------------------------------------------------- properties

  /**
   * The reply lists one bullet per recorded task: split on newlines it is the
   * count header followed by `- <line>` for each confirmation line in order.
   */
  lemma ReplyLines(added: seq<string>)
    requires forall k :: 0 <= k < |added| ==> '\n' !in added[k]
    ensures added == [] ==> Reply(added) == NoTasksReply
    ensures added != [] ==> Split(Reply(added), '\n') == [ReplyHeader(|added|)] + Bullets(added)
  {
    if added != [] {
      var parts := [ReplyHeader(|added|)] + Bullets(added);
      assert parts[1..] == Bullets(added);
      assert Reply(added) == Join(parts, "\n");
      forall k | 0 <= k < |parts| ensures '\n' !in parts[k] {
        if k > 0 {
          assert parts[k] == "- " + added[k - 1];
        }
      }
      SplitJoin(parts, '\n');
    }
  }

  /**
   * Blank lines give no task; every other line gives exactly one, and the
   * tasks keep the order of the lines.
   */
  lemma LineTasksInOrder(chatId: int, project: string, a: seq<string>, line: string, b: seq<string>)
    ensures LineTasks(chatId, project, a + [line] + b)
         == LineTasks(chatId, project, a)
          + (if NotBlank(line) then [ToTask(chatId, project, line)] else [])
          + LineTasks(chatId, project, b)
  {
    var f := TaskOf(chatId, project);
    var fa, fl, fb := Filter(a, NotBlank), Filter([line], NotBlank), Filter(b, NotBlank);
    FilterAppend(a + [line], b, NotBlank);
    FilterAppend(a, [line], NotBlank);
    assert [line][1..] == [];
    assert Filter(a + [line] + b, NotBlank) == fa + fl + fb;
    assert Map(fl, f) == (if NotBlank(line) then [ToTask(chatId, project, line)] else []);
    MapAppend(fa + fl, fb, f);
    MapAppend(fa, fl, f);
  }

  /**
   * With `status:` first occurring at index `i` of the stripped line and a
   * space at index `k` of the stripped remainder (its first space), the
   * status is the word before that space and the text is what precedes the
   * marker joined with what follows the word. Later occurrences of `status:`
   * stay in the text.
   */
  lemma FirstMarkerThenWord(line: string, i: nat, k: nat)
    requires OccursAt(Strip(line), StatusMarker, i)
    requires forall j :: 0 <= j < i ==> !OccursAt(Strip(line), StatusMarker, j)
    requires var after := Strip(Strip(line)[i + |StatusMarker|..]);
             k < |after| && after[k] == ' ' && forall m :: 0 <= m < k ==> after[m] != ' '
    ensures var s := Strip(line);
            var after := Strip(s[i + |StatusMarker|..]);
            ParseLine(line) == Parsed(Strip(s[..i] + after[k + 1..]), Strip(after[..k]))
  {
    var s := Strip(line);
    FindFirst(s, StatusMarker, i);
    var after := Strip(s[i + |StatusMarker|..]);
    OccursAtChar(after, ' ', k);
    forall m | 0 <= m < k ensures !OccursAt(after, " ", m) {
      OccursAtChar(after, ' ', m);
    }
    FindFirst(after, " ", k);
    assert SplitOnce(s, StatusMarker) == (s[..i], s[i + |StatusMarker|..]);
    assert SplitOnce(after, " ") == (after[..k], after[k + 1..]);
  }

  /**
   * With `status:` first occurring at index `i` of the stripped line and no
   * space in the stripped remainder, the whole remainder is the status and
   * the text is what precedes the marker.
   */
  lemma FirstMarkerNoSpace(line: string, i: nat)
    requires OccursAt(Strip(line), StatusMarker, i)
    requires forall j :: 0 <= j < i ==> !OccursAt(Strip(line), StatusMarker, j)
    requires ' ' !in Strip(Strip(line)[i + |StatusMarker|..])
    ensures var s := Strip(line);
            ParseLine(line) == Parsed(Strip(s[..i]), Strip(s[i + |StatusMarker|..]))
  {
    var s := Strip(line);
    FindFirst(s, StatusMarker, i);
    var after := Strip(s[i + |StatusMarker|..]);
    forall m | 0 <= m < |after| ensures !OccursAt(after, " ", m) {
      OccursAtChar(after, ' ', m);
    }
    StrippedFixpoint(after);
  }

  /**
   * What is recorded and reported: exactly the parsed tasks with non-empty
   * text, in order; each confirmation line is the rendered task, and the
   * count in the reply header is their number.
   */
  lemma RecordedAreTheTasksWithText(tasks: seq<Task>, t: Task)
    ensures (t in Filter(tasks, HasText)) <==> (t in tasks && t.text != [])
    ensures multiset(Filter(tasks, HasText))[t] == if t.text != [] then multiset(tasks)[t] else 0
  {
    FilterCount(tasks, HasText, t);
  }
}
