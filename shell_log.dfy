/**
 * The shell's command history: a table of at most 15 commands, oldest
 * first, the `log` intrinsic that lists, purges or re-runs entries, and the
 * rewrite of "log execute <n>" inside a line before it is parsed.
 *
 * The C library's `strtol` (base 10) and `atoi` are modelled for a 64-bit
 * `long` and glibc's conversion of a `long` to `int` (reduction modulo 2^32).
 */
module ShellLog {
  import opened Common
  import opened ShellText

  const MAX_HISTORY_SIZE: nat := 15

  /** The text `replace_log_execute` looks for. */
  const PATTERN: string := "log execute "

  // ---------------------------------------------------------------------------
  // Decimal numbers: strtol and atoi
  // ---------------------------------------------------------------------------

  const LONG_MAX: int := 0x7FFF_FFFF_FFFF_FFFF
  const LONG_MIN: int := -0x8000_0000_0000_0000

  /** The number of decimal digits at the start of `s`. */
  function DigitRun(s: string): (n: nat)
    ensures n <= |s|
    ensures forall k | 0 <= k < n :: IsDigit(s[k])
    ensures n == |s| || !IsDigit(s[n])
  {
    if |s| == 0 || !IsDigit(s[0]) then 0 else 1 + DigitRun(s[1..])
  }

  function DigitValue(c: char): (d: nat)
    requires IsDigit(c)
    ensures d <= 9
  {
    c as int - '0' as int
  }

  /** The value of a string of decimal digits. */
  function DigitsValue(ds: string): (v: nat)
    requires forall k | 0 <= k < |ds| :: IsDigit(ds[k])
  {
    if |ds| == 0 then 0 else 10 * DigitsValue(ds[..|ds| - 1]) + DigitValue(ds[|ds| - 1])
  }

  /** What `strtol(s, &end, 10)` returns: the value and the offset of `end` (0 when no digits were found). */
  function StrToL(s: string): (r: (int, nat))
    ensures LONG_MIN <= r.0 <= LONG_MAX && r.1 <= |s|
    ensures r.1 == 0 ==> r.0 == 0
  {
    var i := LeadingSpace(s);
    var j := if i < |s| && (s[i] == '+' || s[i] == '-') then i + 1 else i;
    var d := DigitRun(s[j..]);
    if d == 0 then (0, 0)
    else
      var v: int := DigitsValue(s[j..j + d]);
      var signed: int := if j > i && s[i] == '-' then -v else v;
      (if signed > LONG_MAX then LONG_MAX else if signed < LONG_MIN then LONG_MIN else signed, j + d)
  }

  /** `atoi`: `strtol` narrowed to a 32-bit `int`. */
  function Atoi(s: string): (r: int)
    ensures -0x8000_0000 <= r < 0x8000_0000
  {
    (StrToL(s).0 + 0x8000_0000) % TWO_32 - 0x8000_0000
  }

  /** The decimal digits of `n`, without leading zeros. */
  function Decimal(n: nat): (ds: string)
    ensures |ds| > 0 && forall k | 0 <= k < |ds| :: IsDigit(ds[k])
  {
    if n < 10 then [('0' as int + n) as char] else Decimal(n / 10) + [('0' as int + n % 10) as char]
  }

  lemma {:induction false} DecimalValue(n: nat)
    ensures DigitsValue(Decimal(n)) == n
  {
    if n >= 10 {
      var ds := Decimal(n);
      assert ds[..|ds| - 1] == Decimal(n / 10);
      DecimalValue(n / 10);
    }
  }

  /** `strtol` reads back the decimal digits of a number and stops after them. */
  lemma StrToLDecimal(n: nat, rest: string)
    requires n <= LONG_MAX
    requires |rest| == 0 || !IsDigit(rest[0])
    ensures StrToL(Decimal(n) + rest) == (n, |Decimal(n)|)
  {
    var ds := Decimal(n);
    var s := ds + rest;
    LeadingSpaceIs(s, 0);
    DigitRunIs(s, |ds|);
    assert s[0..][..|ds|] == ds;
    DecimalValue(n);
  }

  lemma {:induction false} DigitRunIs(s: string, n: nat)
    requires n <= |s|
    requires forall k | 0 <= k < n :: IsDigit(s[k])
    requires n == |s| || !IsDigit(s[n])
    ensures DigitRun(s) == n
  {
    if n > 0 {
      DigitRunIs(s[1..], n - 1);
    }
  }

  /** `atoi` reads back the decimal digits of any non-negative `int`. */
  lemma AtoiDecimal(n: nat)
    requires n < 0x8000_0000
    ensures Atoi(Decimal(n)) == n
  {
    assert StrToL(Decimal(n)).0 == n by {
      StrToLDecimal(n, []);
      assert Decimal(n) + [] == Decimal(n);
    }
    SmallMod(n + 0x8000_0000);
  }

  lemma SmallMod(x: int)
    requires 0 <= x < TWO_32
    ensures x % TWO_32 == x
  {
  }

  // ---------------------------------------------------------------------------
  // add_to_log
  // ---------------------------------------------------------------------------

  /** "log" itself or anything starting with "log ": the history never records these. */
  predicate IsLogCommand(c: string) {
    c == "log" || (|c| >= 4 && c[..4] == "log ")
  }

  /** Whether `add_to_log` leaves the history alone. */
  predicate Ignored(h: seq<string>, c: string) {
    IsLogCommand(c) || c == "" || (|h| > 0 && c == h[|h| - 1])
  }

  /** The history after `add_to_log(c)`. */
  function Added(h: seq<string>, c: string): (r: seq<string>)
    requires |h| <= MAX_HISTORY_SIZE
    ensures |r| <= MAX_HISTORY_SIZE
  {
    if Ignored(h, c) then h
    else if |h| == MAX_HISTORY_SIZE then h[1..] + [c]
    else h + [c]
  }

  /**
   * A recorded command becomes the newest entry and the history holds the
   * newest min(n + 1, 15) commands in their order: the oldest is dropped
   * only from a full history.
   */
  lemma AddedKeepsNewest(h: seq<string>, c: string)
    requires |h| <= MAX_HISTORY_SIZE && !Ignored(h, c)
    ensures var r := Added(h, c);
      && |r| == Min(|h| + 1, MAX_HISTORY_SIZE)
      && r == (h + [c])[|h| + 1 - |r|..]
      && r[|r| - 1] == c
  {
  }

  /** A log command, an empty command or a repeat of the newest entry changes nothing. */
  lemma AddedIgnores(h: seq<string>, c: string)
    requires |h| <= MAX_HISTORY_SIZE
    requires IsLogCommand(c) || c == "" || (|h| > 0 && c == h[|h| - 1])
    ensures Added(h, c) == h
  {
  }

  /** The history's invariant: no log command, no empty entry and no entry repeating the one before it. */
  predicate HistoryInv(h: seq<string>) {
    && |h| <= MAX_HISTORY_SIZE
    && (forall k | 0 <= k < |h| :: !IsLogCommand(h[k]) && h[k] != "")
    && (forall k | 0 < k < |h| :: h[k] != h[k - 1])
  }

  lemma AddedKeepsInv(h: seq<string>, c: string)
    requires HistoryInv(h)
    ensures HistoryInv(Added(h, c))
  {
    if !Ignored(h, c) && |h| == MAX_HISTORY_SIZE {
      var r := Added(h, c);
      assert forall k | 0 <= k < |r| - 1 :: r[k] == h[k + 1];
    }
  }

  // ---------------------------------------------------------------------------
  // log_command
  // ---------------------------------------------------------------------------

  /** What `log_command` reports: its return value, the lines it prints, and the command it hands to `execute_cmd`. */
  datatype LogOutcome = LogOutcome(status: int, printed: seq<string>, run: Option<string>)

  /** `log_command(argc, argv)`: the new history and the outcome. */
  function LogStep(h: seq<string>, argv: seq<string>): (r: (seq<string>, LogOutcome))
    requires |argv| >= 1
  {
    if |argv| == 1 then (h, LogOutcome(0, h, None))
    else if |argv| == 2 && argv[1] == "purge" then ([], LogOutcome(0, [], None))
    else if |argv| == 3 && argv[1] == "execute" then
      var index := Atoi(argv[2]);
      if index < 1 || index > |h| then (h, LogOutcome(1, ["Invalid index!"], None))
      else (h, LogOutcome(0, [], Some(h[|h| - index])))
    else (h, LogOutcome(1, ["Invalid log command."], None))
  }

  /** `log` lists the history oldest first and changes nothing. */
  lemma LogLists(h: seq<string>)
    ensures LogStep(h, ["log"]) == (h, LogOutcome(0, h, None))
  {
  }

  /** `log purge` empties the history. */
  lemma LogPurges(h: seq<string>)
    ensures |LogStep(h, ["log", "purge"]).0| == 0 && LogStep(h, ["log", "purge"]).1.status == 0
  {
  }

  /**
   * `log execute i` runs an entry exactly when 1 <= i <= count, and then
   * the i-th newest (1 is the most recent); otherwise it fails with status 1.
   * The history is unchanged either way.
   */
  lemma LogExecuteSelects(h: seq<string>, i: nat)
    requires i < 0x8000_0000
    ensures var (h', out) := LogStep(h, ["log", "execute", Decimal(i)]);
      && h' == h
      && (out.run.Some? <==> 1 <= i <= |h|)
      && (out.run.Some? ==> out.run.value == h[|h| - i] && out.status == 0)
      && (out.run.None? ==> out.status == 1)
  {
    AtoiDecimal(i);
  }

  // ---------------------------------------------------------------------------
  // replace_log_execute and process_log_execute
  // ---------------------------------------------------------------------------

  predicate OccursAt(s: string, j: nat) {
    j + |PATTERN| <= |s| && s[j..j + |PATTERN|] == PATTERN
  }

  /** `strstr(s, "log execute ")`: the first position where the pattern occurs. */
  function FindPattern(s: string, from: nat): (r: Option<nat>)
    requires from <= |s|
    requires forall j | 0 <= j < from :: !OccursAt(s, j)
    ensures r.Some? ==> OccursAt(s, r.value) && forall j | 0 <= j < r.value :: !OccursAt(s, j)
    ensures r.None? ==> forall j | 0 <= j <= |s| :: !OccursAt(s, j)
    decreases |s| - from
  {
    if from + |PATTERN| > |s| then None
    else if OccursAt(s, from) then Some(from)
    else FindPattern(s, from + 1)
  }

  lemma {:induction false} FindFirst(s: string, from: nat, i: nat)
    requires from <= i && OccursAt(s, i)
    requires forall j | 0 <= j < i :: !OccursAt(s, j)
    ensures FindPattern(s, from) == Some(i)
    decreases i - from
  {
    if from < i {
      FindFirst(s, from + 1, i);
    }
  }

  /**
   * `replace_log_execute`: the first "log execute <n>" is replaced by the
   * n-th newest history entry, the whitespace after the number dropped.
   * Nothing is returned when the pattern is absent, no digits follow it,
   * or n is not between 1 and the number of entries.
   */
  function Replace(s: string, h: seq<string>): (r: Option<string>)
    ensures (forall j | 0 <= j <= |s| :: !OccursAt(s, j)) ==> r.None?
  {
    var occ := FindPattern(s, 0);
    if occ.None? then None
    else
      var rest := s[occ.value + |PATTERN|..];
      Substitute(s[..occ.value], rest, StrToL(rest), h)
  }

  /**
   * `prefix` ++ the entry numbered by `number`, the value `strtol` read at
   * the start of `rest` and where it stopped, ++ what follows the number
   * without leading whitespace.
   */
  function Substitute(prefix: string, rest: string, number: (int, nat), h: seq<string>): Option<string>
    requires number.1 <= |rest|
  {
    if number.1 == 0 || number.0 < 1 || number.0 > |h| then None
    else Some(prefix + h[|h| - number.0] + TrimLeft(rest[number.1..]))
  }

  /** The pattern first found after `prefix` is the one replaced. */
  lemma FoundAfter(prefix: string, tail: string, h: seq<string>)
    requires forall j | 0 <= j < |prefix| :: !OccursAt(prefix + PATTERN + tail, j)
    ensures Replace(prefix + PATTERN + tail, h) == Substitute(prefix, tail, StrToL(tail), h)
  {
    var s := prefix + PATTERN + tail;
    assert s[|prefix|..|prefix| + |PATTERN|] == PATTERN;
    FindFirst(s, 0, |prefix|);
    assert s[..|prefix|] == prefix;
    assert s[|prefix| + |PATTERN|..] == tail;
  }

  /** A number in decimal selects its entry, or nothing when it is not between 1 and the number of entries. */
  lemma SubstituteNumber(prefix: string, n: nat, rest: string, h: seq<string>)
    ensures Substitute(prefix, Decimal(n) + rest, (n, |Decimal(n)|), h) == if 1 <= n <= |h| then Some(prefix + h[|h| - n] + TrimLeft(rest)) else None
  {
    assert (Decimal(n) + rest)[|Decimal(n)|..] == rest;
  }

  /**
   * The replacement, in full: for a prefix without the pattern, a valid
   * index written in decimal, and any text not starting with a digit, the
   * line becomes prefix ++ entry ++ the text without leading whitespace.
   */
  lemma ReplaceSubstitutes(prefix: string, n: nat, rest: string, h: seq<string>)
    requires forall j | 0 <= j < |prefix| :: !OccursAt(prefix + PATTERN + Decimal(n) + rest, j)
    requires 1 <= n <= |h| <= MAX_HISTORY_SIZE
    requires |rest| == 0 || !IsDigit(rest[0])
    ensures Replace(prefix + PATTERN + Decimal(n) + rest, h) == Some(prefix + h[|h| - n] + TrimLeft(rest))
  {
    assert prefix + PATTERN + Decimal(n) + rest == prefix + PATTERN + (Decimal(n) + rest);
    FoundAfter(prefix, Decimal(n) + rest, h);
    StrToLDecimal(n, rest);
    SubstituteNumber(prefix, n, rest, h);
  }

  /** An index outside 1..count stops the replacement. */
  lemma ReplaceRejectsIndex(prefix: string, n: nat, rest: string, h: seq<string>)
    requires forall j | 0 <= j < |prefix| :: !OccursAt(prefix + PATTERN + Decimal(n) + rest, j)
    requires n == 0 || |h| < n <= LONG_MAX
    requires |rest| == 0 || !IsDigit(rest[0])
    ensures Replace(prefix + PATTERN + Decimal(n) + rest, h) == None
  {
    assert prefix + PATTERN + Decimal(n) + rest == prefix + PATTERN + (Decimal(n) + rest);
    FoundAfter(prefix, Decimal(n) + rest, h);
    StrToLDecimal(n, rest);
    SubstituteNumber(prefix, n, rest, h);
  }

  /** The line after `k` successive replacements, if each of them applied. */
  function Rewritten(s: string, h: seq<string>, k: nat): Option<string> {
    if k == 0 then Some(s)
    else
      var prev := Rewritten(s, h, k - 1);
      if prev.None? then None else Replace(prev.value, h)
  }

  /** Once a replacement fails, every later count of replacements fails too. */
  lemma {:induction false} RewrittenStops(s: string, h: seq<string>, k: nat, m: nat)
    requires k <= m && Rewritten(s, h, k).None?
    ensures Rewritten(s, h, m).None?
    decreases m - k
  {
    if k < m {
      RewrittenStops(s, h, k + 1, m);
    }
  }

  lemma RewrittenNext(s: string, h: seq<string>, k: nat, current: string)
    requires Rewritten(s, h, k) == Some(current)
    ensures Rewritten(s, h, k + 1) == Replace(current, h)
  {
  }

  const MAX_REPLACEMENTS: nat := 10

  /** The first `n` replacements all apply. */
  ghost predicate AllApply(s: string, h: seq<string>, n: nat) {
    forall k | 0 <= k <= n :: Rewritten(s, h, k).Some?
  }

  lemma AllApplyExtend(s: string, h: seq<string>, n: nat)
    requires AllApply(s, h, n) && Rewritten(s, h, n + 1).Some?
    ensures AllApply(s, h, n + 1)
  {
  }

  lemma AllApplyFails(s: string, h: seq<string>, k: nat, n: nat)
    requires k <= n && Rewritten(s, h, k).None?
    ensures !AllApply(s, h, n)
  {
  }

  /** The replacement loop of `process_log_execute` over the history `h`, stopping after `limit` replacements have applied. */
  method RewriteAll(command: string, h: seq<string>, limit: nat) returns (r: Option<string>)
    ensures r.None? <==> AllApply(command, h, limit + 1)
    ensures r.Some? ==> Replace(r.value, h).None?
    ensures r.Some? ==> exists k | 0 <= k <= limit :: Rewritten(command, h, k) == r
  {
    var current := command;
    var replacements := 0;
    while true
      invariant 0 <= replacements <= limit
      invariant Rewritten(command, h, replacements) == Some(current)
      invariant AllApply(command, h, replacements)
      decreases limit - replacements
    {
      var next := Replace(current, h);
      RewrittenNext(command, h, replacements, current);
      if next.None? {
        AllApplyFails(command, h, replacements + 1, limit + 1);
        return Some(current);
      }
      AllApplyExtend(command, h, replacements);
      current := next.value;
      replacements := replacements + 1;
      if replacements > limit {
        return None;
      }
    }
  }

  // ---------------------------------------------------------------------------
  // The history table
  // ---------------------------------------------------------------------------

  /** The static `command_history` array and `history_count`. */
  class History {
    const entries: array<string>
    var count: nat

    ghost predicate Valid()
      reads this
    {
      entries.Length == MAX_HISTORY_SIZE && count <= MAX_HISTORY_SIZE
    }

    /** The recorded commands, oldest first. */
    function Contents(): (r: seq<string>)
      reads this, entries
      requires Valid()
      ensures |r| == count
    {
      entries[..count]
    }

    /** An empty history. */
    constructor ()
      ensures Valid() && |Contents()| == 0 && fresh(entries)
    {
      entries := new string[MAX_HISTORY_SIZE](_ => "");
      count := 0;
    }

    /** `add_to_log`. */
    method AddToLog(command: string)
      requires Valid()
      modifies this, entries
      ensures Valid() && Contents() == Added(old(Contents()), command)
    {
      if IsLogCommand(command) {
        return;
      }
      if command == "" || (count > 0 && command == entries[count - 1]) {
        return;
      }
      if count == MAX_HISTORY_SIZE {
        ghost var before := entries[..];
        for i := 0 to MAX_HISTORY_SIZE - 1
          modifies entries
          invariant forall k | 0 <= k < i :: entries[k] == before[k + 1]
          invariant forall k | i <= k < MAX_HISTORY_SIZE :: entries[k] == before[k]
        {
          entries[i] := entries[i + 1];
        }
        assert entries[..MAX_HISTORY_SIZE - 1] == before[1..];
        count := count - 1;
      }
      entries[count] := command;
      count := count + 1;
    }

    /**
     * `log_command`; `execute_cmd` is not called here but the command it
     * would run is returned, and what `log` prints is returned as lines.
     */
    method LogCommand(argv: seq<string>) returns (out: LogOutcome)
      requires Valid() && |argv| >= 1
      modifies this
      ensures Valid() && (Contents(), out) == LogStep(old(Contents()), argv)
    {
      if |argv| == 1 {
        return LogOutcome(0, entries[..count], None);
      }
      if |argv| == 2 && argv[1] == "purge" {
        count := 0;
        return LogOutcome(0, [], None);
      }
      if |argv| == 3 && argv[1] == "execute" {
        var index := Atoi(argv[2]);
        if index < 1 || index > count {
          return LogOutcome(1, ["Invalid index!"], None);
        }
        return LogOutcome(0, [], Some(entries[count - index]));
      }
      return LogOutcome(1, ["Invalid log command."], None);
    }

    /**
     * `process_log_execute`: apply the replacement until it no longer
     * applies and return the last line; nothing is returned once more than
     * ten replacements have applied.
     */
    method ProcessLogExecute(command: string) returns (r: Option<string>)
      requires Valid()
      ensures r.None? <==> AllApply(command, Contents(), MAX_REPLACEMENTS + 1)
      ensures r.Some? ==> Replace(r.value, Contents()).None?
      ensures r.Some? ==> exists k | 0 <= k <= MAX_REPLACEMENTS :: Rewritten(command, Contents(), k) == r
    {
      r := RewriteAll(command, entries[..count], MAX_REPLACEMENTS);
    }
  }
}
