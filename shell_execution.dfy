/**
 * `handle_execution_flow`: a command line is cut at every ';' and '&', each
 * piece is trimmed of surrounding whitespace, and every non-empty piece is
 * handed to `execute_cmd`, in the background when '&' ended it. The calls to
 * `execute_cmd` are modelled as the list of dispatches they receive.
 */
module ShellExecution {
  import opened ShellText

  /** One call `execute_cmd(command, is_background)`. */
  datatype Dispatch = Dispatch(command: string, background: bool)

  predicate IsSeparator(c: char) {
    c == ';' || c == '&'
  }

  /** The offset `strpbrk(s, ";&")` points at, or |s| when there is no separator. */
  function SepIndex(s: string): (i: nat)
    ensures i <= |s|
    ensures forall k | 0 <= k < i :: !IsSeparator(s[k])
    ensures i < |s| ==> IsSeparator(s[i])
  {
    if |s| == 0 || IsSeparator(s[0]) then 0 else 1 + SepIndex(s[1..])
  }

  /** A dispatch for a trimmed piece, or none for a blank one. */
  function Emit(piece: string, background: bool): seq<Dispatch> {
    if |piece| == 0 then [] else [Dispatch(piece, background)]
  }

  /** What a command reaching `execute_cmd` looks like: non-empty, trimmed, and free of separators. */
  predicate Clean(d: Dispatch) {
    && |d.command| > 0
    && !IsSpace(d.command[0]) && !IsSpace(d.command[|d.command| - 1])
    && forall k | 0 <= k < |d.command| :: !IsSeparator(d.command[k])
  }

  /** The dispatches for the rest `s` of the line, left to right. */
  function Flow(s: string): seq<Dispatch>
    decreases |s|
  {
    if |s| == 0 then []
    else
      var i := SepIndex(s);
      if i == |s| then Emit(Trim(s), false)
      else Emit(Trim(s[..i]), s[i] == '&') + Flow(s[i + 1..])
  }

  // ---------------------------------------------------------------------------
  // The splitting loop
  // ---------------------------------------------------------------------------

  /** `handle_execution_flow(line)`. */
  method HandleExecutionFlow(line: string) returns (out: seq<Dispatch>)
    ensures out == Flow(line)
  {
    out := [];
    if |line| == 0 {
      return;
    }
    var current := 0;
    var more := true;
    while more && current < |line|
      invariant current <= |line|
      invariant more ==> out + Flow(line[current..]) == Flow(line)
      invariant !more ==> out == Flow(line)
      decreases |line| - current, more
    {
      var piece, next, found := NextPiece(line, current);
      StepJoins(out, piece, if found then Flow(line[next..]) else [], Flow(line[current..]), Flow(line));
      out := out + piece;
      if found {
        current := next;
      } else {
        more := false;
      }
    }
  }

  /**
   * One round of the loop: the dispatch for the piece starting at `current`
   * (none when it is blank), and whether a separator ended it and where the
   * next piece starts.
   */
  method NextPiece(line: string, current: nat) returns (piece: seq<Dispatch>, next: nat, found: bool)
    requires current < |line|
    ensures current < next <= |line|
    ensures found ==> Flow(line[current..]) == piece + Flow(line[next..])
    ensures !found ==> Flow(line[current..]) == piece
  {
    var sep := FindSeparator(line, current);
    var background := false;
    if sep < |line| {
      background := line[sep] == '&';
    } else if line[|line| - 1] == '&' {
      // strpbrk already looked at the whole rest of the line
      assert false;
    }
    var start, end := TrimSpan(line, current, sep);
    piece := Emit(line[start..end], background);
    found := sep < |line|;
    next := if found then sep + 1 else |line|;
    if found {
      assert Flow(line[current..]) == piece + Flow(line[next..]) by {
        FlowAt(line, current, sep);
      }
    } else {
      assert Flow(line[current..]) == piece by {
        FlowAt(line, current, sep);
        assert line[current..sep] == line[current..];
      }
    }
  }

  lemma StepJoins(done: seq<Dispatch>, piece: seq<Dispatch>, after: seq<Dispatch>, rest: seq<Dispatch>, whole: seq<Dispatch>)
    requires done + rest == whole && rest == piece + after
    ensures (done + piece) + after == whole
    ensures |after| == 0 ==> done + piece == whole
  {
  }

  /** One piece of the line: the rest from `p` is the piece up to the separator at `sep`, then the rest after it. */
  lemma FlowAt(line: string, p: nat, sep: nat)
    requires p < |line| && sep == p + SepIndex(line[p..])
    ensures sep < |line| ==> Flow(line[p..]) == Emit(Trim(line[p..sep]), line[sep] == '&') + Flow(line[sep + 1..])
    ensures sep == |line| ==> Flow(line[p..]) == Emit(Trim(line[p..]), false)
  {
    var s := line[p..];
    var i := sep - p;
    if sep < |line| {
      assert s[..i] == line[p..sep];
      assert s[i + 1..] == line[sep + 1..];
    }
  }

  /** `strpbrk(line + from, ";&")`, as an offset into `line`. */
  method FindSeparator(line: string, from: nat) returns (i: nat)
    requires from <= |line|
    ensures i == from + SepIndex(line[from..])
  {
    i := from;
    while i < |line| && !IsSeparator(line[i])
      invariant from <= i <= |line|
      invariant SepIndex(line[from..]) == i - from + SepIndex(line[i..])
    {
      assert line[i..][1..] == line[i + 1..];
      i := i + 1;
    }
  }

  /** The two trimming loops: the bounds of `line[a..b]` without its surrounding whitespace. */
  method TrimSpan(line: string, a: nat, b: nat) returns (start: nat, end: nat)
    requires a <= b <= |line|
    ensures a <= start <= end <= b
    ensures line[start..end] == Trim(line[a..b])
  {
    start := a;
    while start < b && IsSpace(line[start])
      invariant a <= start <= b
      invariant LeadingSpace(line[a..b]) == start - a + LeadingSpace(line[start..b])
    {
      LeadingSpaceStep(line, start, b);
      start := start + 1;
    }
    if start < b {
      LeadingSpaceStep(line, start, b);
    }
    end := b;
    while end > start && IsSpace(line[end - 1])
      invariant start <= end <= b
      invariant TrailingSpace(line[start..b]) == b - end + TrailingSpace(line[start..end])
    {
      TrailingSpaceStep(line, start, end);
      end := end - 1;
    }
    if start < end {
      TrailingSpaceStep(line, start, end);
    }
    TrimBetween(line, a, start, end, b);
  }

  // ---------------------------------------------------------------------------
  // Properties
  // ---------------------------------------------------------------------------

  /** The line that dispatches `ds`: each command followed by '&' when it is a background one and by ';' otherwise. */
  function Join(ds: seq<Dispatch>): string {
    if |ds| == 0 then [] else ds[0].command + [if ds[0].background then '&' else ';'] + Join(ds[1..])
  }

  /** A piece without separators, ended by a separator, is dispatched by itself and the rest follows. */
  lemma PieceThenRest(piece: string, sep: char, rest: string)
    requires forall k | 0 <= k < |piece| :: !IsSeparator(piece[k])
    requires IsSeparator(sep)
    ensures Flow(piece + [sep] + rest) == Emit(Trim(piece), sep == '&') + Flow(rest)
  {
    var s := piece + [sep] + rest;
    SepIndexIs(s, |piece|);
    assert s[..|piece|] == piece;
    assert s[|piece| + 1..] == rest;
  }

  lemma {:induction false} SepIndexIs(s: string, i: nat)
    requires i < |s| && IsSeparator(s[i])
    requires forall k | 0 <= k < i :: !IsSeparator(s[k])
    ensures SepIndex(s) == i
  {
    if i > 0 {
      SepIndexIs(s[1..], i - 1);
    }
  }

  /**
   * Splitting inverts joining: a line built from clean commands, each ended
   * by its separator, dispatches exactly those commands with exactly those
   * background flags, in order.
   */
  lemma {:induction false} FlowJoin(ds: seq<Dispatch>)
    requires forall k | 0 <= k < |ds| :: Clean(ds[k])
    ensures Flow(Join(ds)) == ds
  {
    if |ds| > 0 {
      assert ds == [ds[0]] + ds[1..];
      JoinHead(ds[0], ds[1..]);
      FlowJoin(ds[1..]);
    }
  }

  /** The first command of a joined line is dispatched first. */
  lemma JoinHead(d: Dispatch, rest: seq<Dispatch>)
    requires Clean(d)
    ensures Flow(Join([d] + rest)) == [d] + Flow(Join(rest))
  {
    var sep := if d.background then '&' else ';';
    JoinFirst(d, rest);
    CleanTrimmed(d);
    PieceThenRest(d.command, sep, Join(rest));
  }

  lemma JoinFirst(d: Dispatch, rest: seq<Dispatch>)
    ensures Join([d] + rest) == d.command + [if d.background then '&' else ';'] + Join(rest)
  {
    assert ([d] + rest)[1..] == rest;
  }

  lemma CleanTrimmed(d: Dispatch)
    requires Clean(d)
    ensures Trim(d.command) == d.command
    ensures Emit(Trim(d.command), d.background) == [d]
  {
    TrimUntouched(d.command);
  }

  /** A piece that is blank after trimming, such as the space in "a ; ; b", dispatches nothing. */
  lemma BlankPieceSkipped(blank: string, sep: char, rest: string)
    requires forall k | 0 <= k < |blank| :: IsSpace(blank[k])
    requires IsSeparator(sep)
    ensures Flow(blank + [sep] + rest) == Flow(rest)
  {
    PieceThenRest(blank, sep, rest);
    TrimBlank(blank);
  }

  /** The last piece of a line, with no separator after it, runs in the foreground. */
  lemma LastPieceForeground(s: string)
    requires forall k | 0 <= k < |s| :: !IsSeparator(s[k])
    ensures Flow(s) == Emit(Trim(s), false)
  {
    if |s| > 0 {
      assert SepIndex(s) == |s|;
    }
  }
}
