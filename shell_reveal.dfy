/**
 * The `reveal` intrinsic: its arguments choose the flags -a (show names
 * starting with '.') and -l (one name per line) and at most one directory;
 * the directory's names are filtered, sorted by `strcmp` and printed.
 *
 * The file system is a map from directory path to the names `readdir`
 * returns there (a path missing from the map is one `opendir` cannot open);
 * the home directory and the previous directory of `hop` are parameters.
 * Everything `reveal` prints is returned as one string.
 */
module ShellReveal {
  import opened Common

  // ---------------------------------------------------------------------------
  // Argument parsing
  // ---------------------------------------------------------------------------

  /** `seen_path`, `show_all`, `long_list` and `target_dir` (`None` for NULL) while the arguments are read. */
  datatype ArgState = ArgState(seenPath: bool, showAll: bool, longList: bool, target: Option<string>)

  /** The state after some arguments, or the message that ended the command. */
  datatype Parsed = Parsed(st: ArgState) | InvalidFlag(flag: char) | NoPrevDir | InvalidSyntax

  const START := ArgState(false, false, false, None)

  /** The flag letters `cs` (the argument without its '-') applied in order; the first letter other than 'a' or 'l' stops. */
  function Flags(st: ArgState, cs: string): Parsed {
    if |cs| == 0 then Parsed(st)
    else
      var p := Flags(st, cs[..|cs| - 1]);
      var c := cs[|cs| - 1];
      if !p.Parsed? then p
      else if c == 'a' then Parsed(p.st.(showAll := true))
      else if c == 'l' then Parsed(p.st.(longList := true))
      else InvalidFlag(c)
  }

  /** One round of the argument loop. */
  function ArgStep(st: ArgState, arg: string, home: string, prev: Option<string>): Parsed {
    if !st.seenPath && arg == "-" then
      if prev.None? then NoPrevDir else Parsed(st.(seenPath := true, target := prev))
    else if !st.seenPath && |arg| >= 2 && arg[0] == '-' then Flags(st, arg[1..])
    else if !st.seenPath then Parsed(st.(seenPath := true, target := Some(if arg == "~" then home else arg)))
    else InvalidSyntax
  }

  /** The arguments `argv[1..]` read in order; a message stops the loop. */
  function ParseArgs(args: seq<string>, home: string, prev: Option<string>): Parsed {
    if |args| == 0 then Parsed(START)
    else
      var p := ParseArgs(args[..|args| - 1], home, prev);
      if p.Parsed? then ArgStep(p.st, args[|args| - 1], home, prev) else p
  }

  /** The directory that is listed: the path given, or "." without one. */
  function TargetDir(st: ArgState): string {
    if st.target.Some? then st.target.value else "."
  }

  /** The argument loop of `reveal_command` (lines 24-72). */
  method ParseRevealArgs(argv: seq<string>, home: string, prev: Option<string>) returns (p: Parsed)
    requires |argv| >= 1
    ensures p == ParseArgs(argv[1..], home, prev)
  {
    p := Parsed(START);
    var i := 1;
    while i < |argv|
      invariant 1 <= i <= |argv|
      invariant p == ParseArgs(argv[1..i], home, prev) && p.Parsed?
      decreases |argv| - i
    {
      assert argv[1..i + 1][..i - 1] == argv[1..i];
      p := ArgRound(p.st, argv[i], home, prev);
      if !p.Parsed? {
        AfterStop(argv, i + 1, home, prev);
        return;
      }
      i := i + 1;
    }
    assert argv[1..i] == argv[1..];
  }

  /** The body of the argument loop for the argument `arg`. */
  method ArgRound(st: ArgState, arg: string, home: string, prev: Option<string>) returns (p: Parsed)
    ensures p == ArgStep(st, arg, home, prev)
  {
    if !st.seenPath && arg == "-" {
      if prev.None? {
        return NoPrevDir;
      }
      p := Parsed(st.(seenPath := true, target := prev));
    } else if !st.seenPath && |arg| >= 2 && arg[0] == '-' {
      p := ScanFlags(st, arg);
    } else if !st.seenPath {
      var dir := if arg == "~" then home else arg;
      p := Parsed(st.(seenPath := true, target := Some(dir)));
    } else {
      p := InvalidSyntax;
    }
  }

  /** A message stops the argument loop: later arguments are not read. */
  lemma AfterStop(argv: seq<string>, i: nat, home: string, prev: Option<string>)
    requires 1 <= i <= |argv| && !ParseArgs(argv[1..i], home, prev).Parsed?
    ensures ParseArgs(argv[1..], home, prev) == ParseArgs(argv[1..i], home, prev)
  {
    assert argv[1..] == argv[1..i] + argv[i..];
    StopSticks(argv[1..i], argv[i..], home, prev);
  }

  /** The flag loop `for (j = 1; arg[j] != '\0'; j++)` (lines 42-49). */
  method ScanFlags(st: ArgState, arg: string) returns (p: Parsed)
    requires |arg| >= 1
    ensures p == Flags(st, arg[1..])
  {
    var cur := st;
    var j := 1;
    while j < |arg|
      invariant 1 <= j <= |arg|
      invariant Flags(st, arg[1..j]) == Parsed(cur)
      decreases |arg| - j
    {
      var c := arg[j];
      FlagsStep(st, arg[1..j], c);
      assert arg[1..j + 1] == arg[1..j] + [c];
      if c == 'a' {
        cur := cur.(showAll := true);
      } else if c == 'l' {
        cur := cur.(longList := true);
      } else {
        assert Flags(st, arg[1..j + 1]) == InvalidFlag(c);
        FlagStopArg(st, arg, j);
        return InvalidFlag(c);
      }
      j := j + 1;
    }
    assert arg[1..j] == arg[1..];
    p := Parsed(cur);
  }

  // ---------------------------------------------------------------------------
  // Listing
  // ---------------------------------------------------------------------------

  /** A name that `-a` must be given to show (`d_name[0] == '.'`). */
  predicate Hidden(name: string) {
    |name| > 0 && name[0] == '.'
  }

  /** The names kept from the directory, in `readdir` order. */
  function Visible(names: seq<string>, showAll: bool): seq<string> {
    if |names| == 0 then []
    else
      var last := names[|names| - 1];
      Visible(names[..|names| - 1], showAll) + (if showAll || !Hidden(last) then [last] else [])
  }

  /** The `readdir` loop (lines 92-104): the entries collected in order. */
  method CollectEntries(names: seq<string>, showAll: bool) returns (entries: seq<string>)
    ensures entries == Visible(names, showAll)
  {
    entries := [];
    for k := 0 to |names|
      invariant entries == Visible(names[..k], showAll)
    {
      assert names[..k + 1][..k] == names[..k];
      if !showAll && Hidden(names[k]) {
        continue;
      }
      entries := entries + [names[k]];
    }
    assert names[..|names|] == names;
  }

  /** The sign of `strcmp(a, b)`: the first differing character decides, and a proper prefix is smaller. */
  function Strcmp(a: string, b: string): (r: int)
    ensures -1 <= r <= 1
  {
    if |a| == 0 && |b| == 0 then 0
    else if |a| == 0 then -1
    else if |b| == 0 then 1
    else if a[0] < b[0] then -1
    else if a[0] > b[0] then 1
    else Strcmp(a[1..], b[1..])
  }

  /** `cmpstr(a, b) <= 0`: the order `qsort` sorts by. */
  predicate Le(a: string, b: string) {
    Strcmp(a, b) <= 0
  }

  predicate Sorted(s: seq<string>) {
    forall i, j | 0 <= i < j < |s| :: Le(s[i], s[j])
  }

  function Insert(x: string, s: seq<string>): seq<string> {
    if |s| == 0 then [x]
    else if Le(x, s[0]) then [x] + s
    else [s[0]] + Insert(x, s[1..])
  }

  /** The entries in ascending `strcmp` order; for a total order this is the one result `qsort` can give. */
  function Sort(s: seq<string>): seq<string> {
    if |s| == 0 then [] else Insert(s[0], Sort(s[1..]))
  }

  /** The names separated by `sep`. */
  function Joined(names: seq<string>, sep: char): string {
    if |names| == 0 then []
    else if |names| == 1 then names[0]
    else names[0] + [sep] + Joined(names[1..], sep)
  }

  /** Each name followed by a newline. */
  function Lines(names: seq<string>): string {
    if |names| == 0 then [] else names[0] + "\n" + Lines(names[1..])
  }

  /** What the print loop writes: one name per line with -l, otherwise the names on one line ended by a newline when there are any. */
  function Format(names: seq<string>, longList: bool): string {
    if longList then Lines(names)
    else if |names| == 0 then []
    else Joined(names, ' ') + "\n"
  }

  /** The print loop (lines 111-120). */
  method FormatListing(names: seq<string>, longList: bool) returns (out: string)
    ensures out == Format(names, longList)
  {
    out := [];
    var count := |names|;
    for i := 0 to count
      invariant longList ==> out == Lines(names[..i])
      invariant !longList && 0 < i < count ==> out == Joined(names[..i], ' ') + " "
      invariant !longList && (i == 0 || i == count) ==> out == Joined(names[..i], ' ')
    {
      assert names[..i + 1] == names[..i] + [names[i]];
      out := out + names[i];
      if longList {
        LinesSnoc(names[..i], names[i]);
        out := out + "\n";
      } else {
        if i > 0 {
          JoinedSnoc(names[..i], names[i], ' ');
        }
        if i < count - 1 {
          out := out + " ";
        }
      }
    }
    assert names[..count] == names;
    if !longList && count > 0 {
      out := out + "\n";
    }
  }

  /** Everything `reveal_command(argc, argv)` prints. */
  function Reveal(argv: seq<string>, home: string, prev: Option<string>, dirs: map<string, seq<string>>): string
    requires |argv| >= 1
  {
    match ParseArgs(argv[1..], home, prev)
    case InvalidFlag(c) => "reveal: Invalid flag -" + [c] + "\n"
    case NoPrevDir => "No such directory!\n"
    case InvalidSyntax => "reveal: Invalid Syntax!\n"
    case Parsed(st) =>
      var dir := TargetDir(st);
      if dir !in dirs then "No such directory!\n"
      else Format(Sort(Visible(dirs[dir], st.showAll)), st.longList)
  }

  /** `reveal_command`, with `qsort` replaced by the sort it must agree with. */
  method RevealCommand(argv: seq<string>, home: string, prev: Option<string>, dirs: map<string, seq<string>>)
      returns (out: string)
    requires |argv| >= 1
    ensures out == Reveal(argv, home, prev, dirs)
  {
    var p := ParseRevealArgs(argv, home, prev);
    if p.InvalidFlag? {
      return "reveal: Invalid flag -" + [p.flag] + "\n";
    } else if p.NoPrevDir? {
      return "No such directory!\n";
    } else if p.InvalidSyntax? {
      return "reveal: Invalid Syntax!\n";
    }
    var dir := TargetDir(p.st);
    if dir !in dirs {
      return "No such directory!\n";
    }
    var entries := CollectEntries(dirs[dir], p.st.showAll);
    entries := Sort(entries);
    out := FormatListing(entries, p.st.longList);
  }

  // ---------------------------------------------------------------------------
  // Properties of the arguments
  // ---------------------------------------------------------------------------

  /** Reading more arguments after a message changes nothing. */
  lemma {:induction false} StopSticks(pre: seq<string>, post: seq<string>, home: string, prev: Option<string>)
    requires !ParseArgs(pre, home, prev).Parsed?
    ensures ParseArgs(pre + post, home, prev) == ParseArgs(pre, home, prev)
    decreases |post|
  {
    if |post| > 0 {
      var all := pre + post;
      assert all[..|all| - 1] == pre + post[..|post| - 1];
      StopSticks(pre, post[..|post| - 1], home, prev);
    } else {
      assert pre + post == pre;
    }
  }

  /** Any argument after the directory, a flag included, is "reveal: Invalid Syntax!". */
  lemma {:induction false} AfterPathInvalid(pre: seq<string>, post: seq<string>, home: string, prev: Option<string>)
    requires ParseArgs(pre, home, prev).Parsed? && ParseArgs(pre, home, prev).st.seenPath
    requires |post| > 0
    ensures ParseArgs(pre + post, home, prev) == InvalidSyntax
    decreases |post|
  {
    var all := pre + post;
    assert all[..|all| - 1] == pre + post[..|post| - 1];
    if |post| > 1 {
      AfterPathInvalid(pre, post[..|post| - 1], home, prev);
    } else {
      assert pre + post[..0] == pre;
    }
  }

  /** One round of the flag loop. */
  lemma FlagsStep(st: ArgState, cs: string, c: char)
    requires Flags(st, cs).Parsed?
    ensures c == 'a' ==> Flags(st, cs + [c]) == Parsed(Flags(st, cs).st.(showAll := true))
    ensures c == 'l' ==> Flags(st, cs + [c]) == Parsed(Flags(st, cs).st.(longList := true))
    ensures !IsFlagLetter(c) ==> Flags(st, cs + [c]) == InvalidFlag(c)
  {
    assert (cs + [c])[..|cs|] == cs;
  }

  lemma FlagStopArg(st: ArgState, arg: string, j: nat)
    requires 1 <= j < |arg| && !Flags(st, arg[1..j + 1]).Parsed?
    ensures Flags(st, arg[1..]) == Flags(st, arg[1..j + 1])
  {
    assert arg[1..][..j] == arg[1..j + 1];
    FlagStopSticks(st, arg[1..], j);
  }

  /** A message inside a flag argument stops the flag loop. */
  lemma {:induction false} FlagStopSticks(st: ArgState, cs: string, j: nat)
    requires 1 <= j <= |cs| && !Flags(st, cs[..j]).Parsed?
    ensures Flags(st, cs) == Flags(st, cs[..j])
    decreases |cs| - j
  {
    if j < |cs| {
      assert cs[..j + 1][..j] == cs[..j];
      FlagStopSticks(st, cs, j + 1);
    } else {
      assert cs[..j] == cs;
    }
  }

  predicate IsFlagLetter(c: char) {
    c == 'a' || c == 'l'
  }

  /** A run of 'a' and 'l' turns on -a exactly when it holds an 'a' and -l exactly when it holds an 'l', in any combination. */
  lemma {:induction false} FlagsValid(st: ArgState, cs: string)
    requires forall k | 0 <= k < |cs| :: IsFlagLetter(cs[k])
    ensures Flags(st, cs) == Parsed(st.(showAll := st.showAll || 'a' in cs, longList := st.longList || 'l' in cs))
  {
    if |cs| > 0 {
      var init := cs[..|cs| - 1];
      FlagsValid(st, init);
      assert cs == init + [cs[|cs| - 1]];
      assert 'a' in cs <==> 'a' in init || cs[|cs| - 1] == 'a';
      assert 'l' in cs <==> 'l' in init || cs[|cs| - 1] == 'l';
    }
  }

  /** The first letter other than 'a' or 'l' is the one reported. */
  lemma {:induction false} FlagsInvalid(st: ArgState, cs: string, k: nat)
    requires k < |cs| && !IsFlagLetter(cs[k])
    requires forall i | 0 <= i < k :: IsFlagLetter(cs[i])
    ensures Flags(st, cs) == InvalidFlag(cs[k])
  {
    assert cs[..k + 1][..k] == cs[..k];
    FlagsValid(st, cs[..k]);
    FlagStopSticks(st, cs, k + 1);
  }

  /** No argument lists ".". */
  lemma NoArgumentsListCurrent(home: string, prev: Option<string>)
    ensures ParseArgs([], home, prev) == Parsed(START) && TargetDir(START) == "."
  {
  }

  /** "~" lists the home directory, and a standalone "-" the previous one, or reports that there is none. */
  lemma PathArguments(home: string, prev: Option<string>, name: string)
    requires name != "-" && name != "~" && (|name| < 2 || name[0] != '-')
    ensures ParseArgs(["~"], home, prev) == Parsed(ArgState(true, false, false, Some(home)))
    ensures prev.None? ==> ParseArgs(["-"], home, prev) == NoPrevDir
    ensures prev.Some? ==> ParseArgs(["-"], home, prev) == Parsed(ArgState(true, false, false, prev))
    ensures ParseArgs([name], home, prev) == Parsed(ArgState(true, false, false, Some(name)))
  {
    assert ["~"][..0] == [];
    assert ["-"][..0] == [];
    assert [name][..0] == [];
  }

  // ---------------------------------------------------------------------------
  // Properties of the listing
  // ---------------------------------------------------------------------------

  /** With -a every name is kept. */
  lemma {:induction false} VisibleAll(names: seq<string>)
    ensures Visible(names, true) == names
  {
    if |names| > 0 {
      VisibleAll(names[..|names| - 1]);
      assert names == names[..|names| - 1] + [names[|names| - 1]];
    }
  }

  /** Without -a no name starting with '.' is kept. */
  lemma {:induction false} VisibleHidesDotted(names: seq<string>)
    ensures forall k | 0 <= k < |Visible(names, false)| :: !Hidden(Visible(names, false)[k])
  {
    if |names| > 0 {
      VisibleHidesDotted(names[..|names| - 1]);
    }
  }

  /** Without -a every other name is kept, as often as it occurs. */
  lemma {:induction false} VisibleKeepsShown(names: seq<string>, x: string)
    requires !Hidden(x)
    ensures multiset(Visible(names, false))[x] == multiset(names)[x]
  {
    if |names| > 0 {
      var init := names[..|names| - 1];
      VisibleKeepsShown(init, x);
      assert names == init + [names[|names| - 1]];
    }
  }

  lemma {:induction false} StrcmpSame(a: string, b: string)
    ensures Strcmp(a, b) == 0 <==> a == b
  {
    if |a| > 0 && |b| > 0 && a[0] == b[0] {
      StrcmpSame(a[1..], b[1..]);
      assert a == [a[0]] + a[1..] && b == [b[0]] + b[1..];
    }
  }

  lemma {:induction false} StrcmpFlip(a: string, b: string)
    ensures Strcmp(a, b) == -Strcmp(b, a)
  {
    if |a| > 0 && |b| > 0 && a[0] == b[0] {
      StrcmpFlip(a[1..], b[1..]);
    }
  }

  lemma {:induction false} StrcmpTrans(a: string, b: string, c: string)
    requires Le(a, b) && Le(b, c)
    ensures Le(a, c)
  {
    if |a| > 0 && |b| > 0 && |c| > 0 && a[0] == b[0] == c[0] {
      StrcmpTrans(a[1..], b[1..], c[1..]);
    }
  }

  /** `cmpstr` is a total order: any two names compare, and only equal names compare equal. */
  lemma StrcmpOrder(a: string, b: string)
    ensures Le(a, b) || Le(b, a)
    ensures Le(a, b) && Le(b, a) ==> a == b
    ensures Le(a, a)
  {
    StrcmpFlip(a, b);
    StrcmpSame(a, b);
    StrcmpSame(a, a);
  }

  lemma {:induction false} InsertCount(x: string, s: seq<string>)
    ensures multiset(Insert(x, s)) == multiset(s) + multiset{x}
  {
    if |s| > 0 && !Le(x, s[0]) {
      InsertCount(x, s[1..]);
      assert s == [s[0]] + s[1..];
    }
  }

  lemma {:induction false} InsertSorted(x: string, s: seq<string>)
    requires Sorted(s)
    ensures Sorted(Insert(x, s))
  {
    if |s| == 0 {
    } else if Le(x, s[0]) {
      forall j | 0 < j < |s|
        ensures Le(x, s[j])
      {
        StrcmpTrans(x, s[0], s[j]);
      }
    } else {
      StrcmpOrder(x, s[0]);
      var t := Insert(x, s[1..]);
      InsertSorted(x, s[1..]);
      InsertCount(x, s[1..]);
      forall k | 0 <= k < |t|
        ensures Le(s[0], t[k])
      {
        assert t[k] in multiset(t);
        if t[k] != x {
          assert t[k] in multiset(s[1..]);
          var j :| 0 <= j < |s[1..]| && s[1..][j] == t[k];
          assert s[j + 1] == t[k];
        }
      }
    }
  }

  /** The sorted entries are in ascending `strcmp` order. */
  lemma {:induction false} SortSorted(s: seq<string>)
    ensures Sorted(Sort(s))
  {
    if |s| > 0 {
      SortSorted(s[1..]);
      InsertSorted(s[0], Sort(s[1..]));
    }
  }

  /** Sorting keeps every entry, as often as it occurs. */
  lemma {:induction false} SortPermutes(s: seq<string>)
    ensures multiset(Sort(s)) == multiset(s)
  {
    if |s| > 0 {
      SortPermutes(s[1..]);
      InsertCount(s[0], Sort(s[1..]));
      assert s == [s[0]] + s[1..];
    }
  }

  /** Two sorted orderings of the same entries are equal, so any correct sort lists the names as `Sort` does. */
  lemma {:induction false} SortedUnique(a: seq<string>, b: seq<string>)
    requires Sorted(a) && Sorted(b) && multiset(a) == multiset(b)
    ensures a == b
    decreases |a|
  {
    assert |a| == |multiset(a)| && |b| == |multiset(b)|;
    if |a| > 0 {
      SortedHeads(a, b);
      assert multiset(a[1..]) == multiset(b[1..]) by {
        assert a == [a[0]] + a[1..] && b == [b[0]] + b[1..];
        assert multiset(a[1..]) == multiset(a) - multiset{a[0]};
        assert multiset(b[1..]) == multiset(b) - multiset{b[0]};
      }
      SortedTail(a);
      SortedTail(b);
      SortedUnique(a[1..], b[1..]);
      assert a == [a[0]] + a[1..] && b == [b[0]] + b[1..];
    }
  }

  lemma SortedTail(s: seq<string>)
    requires Sorted(s) && |s| > 0
    ensures Sorted(s[1..])
  {
  }

  /** Two sorted orderings of the same entries start with the same name. */
  lemma SortedHeads(a: seq<string>, b: seq<string>)
    requires Sorted(a) && Sorted(b) && multiset(a) == multiset(b) && |a| > 0
    ensures |b| > 0 && a[0] == b[0]
  {
    assert a[0] in multiset(b);
    SortedFirstLeast(a, b[0]);
    SortedFirstLeast(b, a[0]);
    StrcmpOrder(a[0], b[0]);
  }

  /** The first name of a sorted list is not above any of its names. */
  lemma SortedFirstLeast(s: seq<string>, x: string)
    requires Sorted(s) && x in multiset(s)
    ensures |s| > 0 && Le(s[0], x)
  {
    var j :| 0 <= j < |s| && s[j] == x;
    if j == 0 {
      StrcmpOrder(x, x);
    }
  }

  lemma {:induction false} JoinedSnoc(names: seq<string>, x: string, sep: char)
    requires |names| > 0
    ensures Joined(names + [x], sep) == Joined(names, sep) + [sep] + x
  {
    if |names| > 1 {
      assert (names + [x])[1..] == names[1..] + [x];
      JoinedSnoc(names[1..], x, sep);
    } else {
      assert (names + [x])[1..] == [x];
    }
  }

  lemma {:induction false} LinesSnoc(names: seq<string>, x: string)
    ensures Lines(names + [x]) == Lines(names) + x + "\n"
  {
    if |names| > 0 {
      assert (names + [x])[1..] == names[1..] + [x];
      LinesSnoc(names[1..], x);
    } else {
      assert (names + [x])[1..] == [];
    }
  }

  /** With -l the output is the names joined by newlines and ended by one. */
  lemma {:induction false} LinesJoined(names: seq<string>)
    requires |names| > 0
    ensures Lines(names) == Joined(names, '\n') + "\n"
  {
    if |names| > 1 {
      LinesJoined(names[1..]);
    }
  }

  /** The offset of the first `c` in `s`, or |s|. */
  function IndexOf(s: string, c: char): (i: nat)
    ensures i <= |s|
  {
    if |s| == 0 || s[0] == c then 0 else 1 + IndexOf(s[1..], c)
  }

  /** `s` cut at every `c`. */
  function Split(s: string, c: char): seq<string>
    decreases |s|
  {
    var i := IndexOf(s, c);
    if i == |s| then [s] else [s[..i]] + Split(s[i + 1..], c)
  }

  predicate Without(w: string, c: char) {
    forall k | 0 <= k < |w| :: w[k] != c
  }

  lemma {:induction false} IndexOfIs(s: string, c: char, i: nat)
    requires i <= |s| && (i == |s| || s[i] == c) && Without(s[..i], c)
    ensures IndexOf(s, c) == i
  {
    if i > 0 {
      assert s[1..][..i - 1] == s[..i][1..];
      IndexOfIs(s[1..], c, i - 1);
    }
  }

  /** Cutting the printed line at the separator gives back the names, when no name holds the separator. */
  lemma {:induction false} SplitJoined(names: seq<string>, c: char)
    requires |names| > 0 && forall k | 0 <= k < |names| :: Without(names[k], c)
    ensures Split(Joined(names, c), c) == names
  {
    var w := names[0];
    if |names| == 1 {
      assert w[..|w|] == w;
      IndexOfIs(w, c, |w|);
    } else {
      var rest := Joined(names[1..], c);
      var s := w + [c] + rest;
      assert s[..|w|] == w;
      IndexOfIs(s, c, |w|);
      assert s[|w| + 1..] == rest;
      SplitJoined(names[1..], c);
    }
  }

  /**
   * What a listing prints: the visible names in ascending order, each one
   * once per occurrence, separated by spaces or one per line.
   */
  lemma ListingOrder(names: seq<string>, showAll: bool)
    ensures Sorted(Sort(Visible(names, showAll)))
    ensures multiset(Sort(Visible(names, showAll))) == multiset(Visible(names, showAll))
  {
    SortSorted(Visible(names, showAll));
    SortPermutes(Visible(names, showAll));
  }
}
