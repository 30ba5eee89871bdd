/**
 * Launching one command segment (`dispatch_command`): the segment is split
 * into words at spaces, tabs and newlines; the first word names the command
 * and is its first argument; "<", ">" and ">>" each take the following word
 * as a file name (the last one of each kind wins); every other word is an
 * argument. Intrinsics run in the shell; other commands are forked, and the
 * shell records a background job, or a foreground job that stopped, in its
 * job table. `execute_cmd` hands lines with a '|' to the pipeline code.
 *
 * `strtok` is modelled as the list of words it returns, `fork` and
 * `waitpid` by the child's pid and whether it stopped, both given by the
 * caller; the intrinsics themselves and the redirections are not run here.
 */
module ShellCmdExec {
  import opened Common
  import ShellJobs
  import ShellText
  import ShellExecution

  /** The delimiters " \t\n" given to `strtok`. */
  predicate IsDelim(c: char) {
    c == ' ' || c == '\t' || c == '\n'
  }

  // ---------------------------------------------------------------------------
  // strtok
  // ---------------------------------------------------------------------------

  /** The length of the run of non-delimiters at the start of `s`. */
  function WordLen(s: string): (n: nat)
    ensures n <= |s|
    ensures forall k | 0 <= k < n :: !IsDelim(s[k])
    ensures n == |s| || IsDelim(s[n])
  {
    if |s| == 0 || IsDelim(s[0]) then 0 else 1 + WordLen(s[1..])
  }

  /** The tokens successive `strtok(…, " \t\n")` calls return: the maximal runs of non-delimiters. */
  function Words(s: string): seq<string>
    decreases |s|
  {
    if |s| == 0 then []
    else if IsDelim(s[0]) then Words(s[1..])
    else
      var n := WordLen(s);
      [s[..n]] + Words(s[n..])
  }

  /** A word as `strtok` returns it: non-empty and free of delimiters. */
  predicate IsWord(w: string) {
    |w| > 0 && forall k | 0 <= k < |w| :: !IsDelim(w[k])
  }

  /** The words separated by single spaces. */
  function Unwords(ws: seq<string>): string {
    if |ws| == 0 then [] else ws[0] + " " + Unwords(ws[1..])
  }

  // ---------------------------------------------------------------------------
  // Scanning the words
  // ---------------------------------------------------------------------------

  predicate IsRedirect(w: string) {
    w == "<" || w == ">" || w == ">>"
  }

  /** A word after the command name: an argument, or an operator with the word after it (none at the end). */
  datatype Item = Plain(word: string) | Redir(op: string, target: Option<string>)

  /** How the scan loop groups the words after the command name. */
  function Items(ws: seq<string>): (items: seq<Item>)
    ensures forall k | 0 <= k < |items| :: items[k].Plain? ==> !IsRedirect(items[k].word)
    ensures forall k | 0 <= k < |items| :: items[k].Redir? ==> IsRedirect(items[k].op)
    decreases |ws|
  {
    if |ws| == 0 then []
    else if IsRedirect(ws[0]) then
      if |ws| == 1 then [Redir(ws[0], None)] else [Redir(ws[0], Some(ws[1]))] + Items(ws[2..])
    else [Plain(ws[0])] + Items(ws[1..])
  }

  /** The words an item was made from. */
  function ItemWords(it: Item): seq<string> {
    match it
    case Plain(w) => [w]
    case Redir(op, None) => [op]
    case Redir(op, Some(t)) => [op, t]
  }

  function Flatten(items: seq<Item>): seq<string> {
    if |items| == 0 then [] else ItemWords(items[0]) + Flatten(items[1..])
  }

  /** The arguments after the command name: the plain words, in order. */
  function PlainWords(items: seq<Item>): seq<string> {
    if |items| == 0 then []
    else
      var last := items[|items| - 1];
      PlainWords(items[..|items| - 1]) + (if last.Plain? then [last.word] else [])
  }

  /** `input_file`: the word after the last "<", NULL when that "<" ended the segment or there is none. */
  function InputFile(items: seq<Item>): Option<string> {
    if |items| == 0 then None
    else
      var last := items[|items| - 1];
      if last.Redir? && last.op == "<" then last.target else InputFile(items[..|items| - 1])
  }

  /** The last ">" or ">>" item, which decides `output_file` and `append_mode`. */
  function LastOutput(items: seq<Item>): Option<Item> {
    if |items| == 0 then None
    else
      var last := items[|items| - 1];
      if last.Redir? && last.op != "<" then Some(last) else LastOutput(items[..|items| - 1])
  }

  function OutputFile(items: seq<Item>): Option<string> {
    var o := LastOutput(items);
    if o.Some? && o.value.Redir? then o.value.target else None
  }

  function AppendMode(items: seq<Item>): bool {
    var o := LastOutput(items);
    o.Some? && o.value.Redir? && o.value.op == ">>"
  }

  /** What `dispatch_command` extracts: `cmd`, `args` (with `cmd` as `args[0]`), the files and the append mode. */
  datatype Command = Command(name: string, args: seq<string>, input: Option<string>, output: Option<string>, append: bool)

  function CommandOf(ws: seq<string>): Option<Command> {
    if |ws| == 0 then None
    else
      var items := Items(ws[1..]);
      Some(Command(ws[0], [ws[0]] + PlainWords(items), InputFile(items), OutputFile(items), AppendMode(items)))
  }

  /** The strtok loop of `dispatch_command` (lines 34-57). */
  method ExtractCommand(segment: string) returns (c: Option<Command>)
    ensures c == CommandOf(Words(segment))
  {
    var ws := Words(segment);
    if |ws| == 0 {
      return None;
    }
    var cmd := ws[0];
    var args := [cmd];
    var input: Option<string> := None;
    var output: Option<string> := None;
    var append := false;
    ghost var done: seq<Item> := [];
    var i := 1;
    while i < |ws|
      invariant 1 <= i <= |ws|
      invariant done + Items(ws[i..]) == Items(ws[1..])
      invariant args == [cmd] + PlainWords(done)
      invariant input == InputFile(done) && output == OutputFile(done) && append == AppendMode(done)
      decreases |ws| - i
    {
      var item, next := NextItem(ws, i);
      StepItems(done, item, Items(ws[next..]), Items(ws[i..]), Items(ws[1..]));
      assert (done + [item])[..|done|] == done;
      if item.Plain? {
        args := args + [item.word];
      } else if item.op == "<" {
        input := item.target;
      } else {
        output := item.target;
        append := item.op == ">>";
      }
      done := done + [item];
      i := next;
    }
    assert ws[i..] == [];
    assert done == Items(ws[1..]);
    c := Some(Command(cmd, args, input, output, append));
  }

  /** One round of the loop: the item starting at word `i` and the index of the word after it. */
  method NextItem(ws: seq<string>, i: nat) returns (item: Item, next: nat)
    requires i < |ws|
    ensures i < next <= |ws|
    ensures Items(ws[i..]) == [item] + Items(ws[next..])
  {
    var rest := ws[i..];
    if IsRedirect(ws[i]) {
      if i + 1 < |ws| {
        item := Redir(ws[i], Some(ws[i + 1]));
        next := i + 2;
        assert rest[2..] == ws[next..];
      } else {
        item := Redir(ws[i], None);
        next := |ws|;
        assert ws[next..] == [];
      }
    } else {
      item := Plain(ws[i]);
      next := i + 1;
      assert rest[1..] == ws[next..];
    }
  }

  lemma StepItems(done: seq<Item>, item: Item, after: seq<Item>, rest: seq<Item>, whole: seq<Item>)
    requires done + rest == whole && rest == [item] + after
    ensures (done + [item]) + after == whole
  {
  }

  // ---------------------------------------------------------------------------
  // Routing
  // ---------------------------------------------------------------------------

  predicate IsIntrinsic(name: string) {
    name == "hop" || name == "reveal" || name == "log" || name == "activities" || name == "ping" || name == "fg" || name == "bg"
  }

  /** Where `dispatch_command(segment, background)` sends the segment. */
  datatype Route = NoCommand | RunIntrinsic(cmd: Command) | RunExternal(cmd: Command, background: bool)

  function DispatchRoute(segment: string, background: bool): (r: Route)
    ensures r.NoCommand? <==> |Words(segment)| == 0
    ensures r.RunIntrinsic? <==> |Words(segment)| > 0 && IsIntrinsic(Words(segment)[0])
  {
    match CommandOf(Words(segment))
    case None => NoCommand
    case Some(c) => if IsIntrinsic(c.name) then RunIntrinsic(c) else RunExternal(c, background)
  }

  /**
   * The job the shell records for a forked command: a background one as
   * the whole segment followed by " &", running; a foreground one only when
   * it stopped, under the segment itself.
   */
  function JobFor(segment: string, background: bool, stopped: bool): Option<(string, ShellJobs.JobStatus)> {
    if background then Some((segment + " &", ShellJobs.Running))
    else if stopped then Some((segment, ShellJobs.Stopped))
    else None
  }

  /**
   * `dispatch_command(segment, background)`: the route taken and, for an
   * external command, the job recorded in `table`. `pid` is what `fork`
   * returned: a job is recorded only in the parent of a created child
   * (`pid > 0`); a failed `fork` (`pid < 0`) only reports the error, and
   * the child (`pid == 0`) goes on to `execvp`.
   */
  method DispatchCommand(segment: string, background: bool, table: ShellJobs.JobTable, pid: int, stopped: bool)
      returns (route: Route, notice: Option<ShellJobs.Notice>)
    requires table.Valid()
    modifies table, table.slots
    ensures route == DispatchRoute(segment, background) && table.Valid() && table.slots == old(table.slots)
    ensures route.RunExternal? && pid > 0 && JobFor(segment, background, stopped).Some? ==>
              var (command, status) := JobFor(segment, background, stopped).value;
              notice.Some? && (table.Jobs(), table.nextJobId, notice.value) == ShellJobs.AddStep(old(table.Jobs()), old(table.nextJobId), pid, command, status)
    ensures !(route.RunExternal? && pid > 0 && JobFor(segment, background, stopped).Some?) ==>
              notice.None? && table.Jobs() == old(table.Jobs()) && table.nextJobId == old(table.nextJobId)
  {
    var c := ExtractCommand(segment);
    notice := None;
    if c.None? {
      return NoCommand, None;
    }
    if IsIntrinsic(c.value.name) {
      return RunIntrinsic(c.value), None;
    }
    route := RunExternal(c.value, background);
    if pid <= 0 {
      return;
    }
    if background {
      var n := table.AddJob(pid, segment + " &", ShellJobs.Running);
      notice := Some(n);
    } else if stopped {
      var n := table.AddJob(pid, segment, ShellJobs.Stopped);
      notice := Some(n);
    }
  }

  /** `execute_cmd(line, background)`: a line with a '|' goes to the pipeline code, any other to `dispatch_command`. */
  datatype Execution = Pipeline(line: string, background: bool) | Single(route: Route)

  function ExecuteCmd(line: string, background: bool): (e: Execution)
    ensures e.Pipeline? <==> exists k | 0 <= k < |line| :: line[k] == '|'
    ensures e.Single? ==> e.route == DispatchRoute(line, background)
  {
    if '|' in line then Pipeline(line, background) else Single(DispatchRoute(line, background))
  }

  // ---------------------------------------------------------------------------
  // Properties
  // ---------------------------------------------------------------------------

  /** Every token strtok returns is a word. */
  lemma {:induction false} WordsAreWords(s: string)
    ensures forall k | 0 <= k < |Words(s)| :: IsWord(Words(s)[k])
    decreases |s|
  {
    if |s| > 0 {
      if IsDelim(s[0]) {
        WordsAreWords(s[1..]);
      } else {
        var n := WordLen(s);
        WordsAreWords(s[n..]);
        assert IsWord(s[..n]);
      }
    }
  }

  /** A segment of delimiters only holds no token, so `dispatch_command` returns without dispatching. */
  lemma {:induction false} BlankHasNoWords(s: string)
    requires forall k | 0 <= k < |s| :: IsDelim(s[k])
    ensures |Words(s)| == 0 && DispatchRoute(s, false).NoCommand? && DispatchRoute(s, true).NoCommand?
    decreases |s|
  {
    if |s| > 0 {
      BlankHasNoWords(s[1..]);
    }
  }

  /** Splitting inverts joining with single spaces. */
  lemma {:induction false} WordsUnwords(ws: seq<string>)
    requires forall k | 0 <= k < |ws| :: IsWord(ws[k])
    ensures Words(Unwords(ws)) == ws
  {
    if |ws| > 0 {
      var w := ws[0];
      var rest := Unwords(ws[1..]);
      var s := w + " " + rest;
      assert Unwords(ws) == s;
      assert WordLen(s) == |w| by {
        WordLenIs(s, |w|);
      }
      assert s[..|w|] == w;
      assert s[|w|..] == [' '] + rest;
      assert ([' '] + rest)[1..] == rest;
      WordsUnwords(ws[1..]);
    }
  }

  lemma {:induction false} WordLenIs(s: string, n: nat)
    requires n < |s| && IsDelim(s[n]) && forall k | 0 <= k < n :: !IsDelim(s[k])
    ensures WordLen(s) == n
  {
    if n > 0 {
      WordLenIs(s[1..], n - 1);
    }
  }

  /** The scan loses no word: the items are the words after the command name, in order. */
  lemma {:induction false} ItemsFlatten(ws: seq<string>)
    ensures Flatten(Items(ws)) == ws
    decreases |ws|
  {
    if |ws| > 0 {
      if IsRedirect(ws[0]) && |ws| > 1 {
        ItemsFlatten(ws[2..]);
        assert ws == [ws[0], ws[1]] + ws[2..];
      } else if !IsRedirect(ws[0]) {
        ItemsFlatten(ws[1..]);
        assert ws == [ws[0]] + ws[1..];
      }
    }
  }

  /** Each argument after the command name is a word that is not a redirection operator. */
  lemma {:induction false} PlainWordsAreArguments(items: seq<Item>)
    requires forall k | 0 <= k < |items| :: items[k].Plain? ==> !IsRedirect(items[k].word)
    ensures forall k | 0 <= k < |PlainWords(items)| :: !IsRedirect(PlainWords(items)[k])
  {
    if |items| > 0 {
      PlainWordsAreArguments(items[..|items| - 1]);
    }
  }

  /** A later "<" decides the input file and changes nothing else. */
  lemma LaterInputWins(items: seq<Item>, target: Option<string>)
    ensures var more := items + [Redir("<", target)];
      && InputFile(more) == target
      && PlainWords(more) == PlainWords(items)
      && OutputFile(more) == OutputFile(items) && AppendMode(more) == AppendMode(items)
  {
    assert (items + [Redir("<", target)])[..|items|] == items;
  }

  /** A later ">" or ">>" decides both the output file and the append mode and changes nothing else. */
  lemma LaterOutputWins(items: seq<Item>, op: string, target: Option<string>)
    requires op == ">" || op == ">>"
    ensures var more := items + [Redir(op, target)];
      && OutputFile(more) == target && (AppendMode(more) <==> op == ">>")
      && PlainWords(more) == PlainWords(items) && InputFile(more) == InputFile(items)
  {
    assert (items + [Redir(op, target)])[..|items|] == items;
  }

  /** A plain word is appended to the arguments and changes no redirection. */
  lemma PlainAppends(items: seq<Item>, w: string)
    ensures var more := items + [Plain(w)];
      && PlainWords(more) == PlainWords(items) + [w]
      && InputFile(more) == InputFile(items) && OutputFile(more) == OutputFile(items) && AppendMode(more) == AppendMode(items)
  {
    assert (items + [Plain(w)])[..|items|] == items;
  }

  /** A segment without redirections passes all its words as the arguments. */
  lemma {:induction false} NoRedirectAllArguments(ws: seq<string>)
    requires forall k | 0 <= k < |ws| :: !IsRedirect(ws[k])
    ensures PlainWords(Items(ws)) == ws && InputFile(Items(ws)).None? && OutputFile(Items(ws)).None? && !AppendMode(Items(ws))
    ensures forall k | 0 <= k < |Items(ws)| :: Items(ws)[k].Plain?
    decreases |ws|
  {
    if |ws| > 0 {
      var items := Items(ws);
      NoRedirectAllArguments(ws[1..]);
      assert items == [Plain(ws[0])] + Items(ws[1..]);
      PlainsPrepend(ws[0], Items(ws[1..]));
      assert ws == [ws[0]] + ws[1..];
    }
  }

  /** Prepending a plain word, for a tail without redirections. */
  lemma {:induction false} PlainsPrepend(w: string, items: seq<Item>)
    requires forall k | 0 <= k < |items| :: items[k].Plain?
    ensures PlainWords([Plain(w)] + items) == [w] + PlainWords(items)
    ensures InputFile([Plain(w)] + items).None? && LastOutput([Plain(w)] + items).None?
  {
    var more := [Plain(w)] + items;
    if |items| == 0 {
      assert more[..0] == [];
    } else {
      assert more[..|more| - 1] == [Plain(w)] + items[..|items| - 1];
      PlainsPrepend(w, items[..|items| - 1]);
    }
  }

  /** A background job is recorded under the segment followed by " &"; a foreground one only when it stopped. */
  lemma JobCommand(segment: string, background: bool, stopped: bool)
    ensures background ==> JobFor(segment, background, stopped) == Some((segment + " &", ShellJobs.Running))
    ensures !background ==> (JobFor(segment, background, stopped).Some? <==> stopped)
    ensures !background && stopped ==> JobFor(segment, background, stopped).value.0 == segment
  {
  }

  // ---------------------------------------------------------------------------
  // From the execution flow to execute_cmd
  // ---------------------------------------------------------------------------

  /** A string that starts with a character other than a delimiter holds a word, and that word leads `Words`. */
  lemma WordsOfText(s: string)
    requires |s| > 0 && !IsDelim(s[0])
    ensures |Words(s)| > 0 && Words(s)[0] == s[..WordLen(s)]
  {
  }

  /** Every piece `handle_execution_flow` hands over holds at least one word. */
  lemma {:induction false} FlowPiecesHaveWords(s: string)
    ensures forall k | 0 <= k < |ShellExecution.Flow(s)| :: |Words(ShellExecution.Flow(s)[k].command)| > 0
    decreases |s|
  {
    if |s| > 0 {
      var i := ShellExecution.SepIndex(s);
      var piece := ShellText.Trim(if i == |s| then s else s[..i]);
      ShellText.TrimStartsWithText(if i == |s| then s else s[..i]);
      if |piece| > 0 {
        WordsOfText(piece);
      }
      if i < |s| {
        FlowPiecesHaveWords(s[i + 1..]);
      }
    }
  }

  /**
   * Every call `execute_cmd(piece, background)` that `handle_execution_flow`
   * makes for a line either goes to the pipeline code, for a piece with a
   * '|', or reaches a command: an intrinsic, or an external command run in
   * the background exactly when '&' ended the piece. No piece is blank.
   */
  lemma FlowReachesCommands(line: string)
    ensures forall k | 0 <= k < |ShellExecution.Flow(line)| ::
      var d := ShellExecution.Flow(line)[k];
      var e := ExecuteCmd(d.command, d.background);
      && (e.Pipeline? <==> '|' in d.command)
      && (e.Pipeline? ==> e == Pipeline(d.command, d.background))
      && (e.Single? ==> !e.route.NoCommand? && (e.route.RunExternal? ==> e.route.background == d.background))
  {
    FlowPiecesHaveWords(line);
  }
}
