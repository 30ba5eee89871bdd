/**
 * The prompt `show_prompt` prints: "<user@host:path> ", where the path is
 * the working directory with the home directory abbreviated to "~". The
 * user name, host name, working directory and home directory are inputs:
 * `None` stands for a lookup that failed (or, for the home directory, for
 * `get_home_dir()` returning NULL).
 */
module ShellPrompt {
  import opened Common

  /** `PATH_MAX`, the size of `path_buf`. */
  const PATH_MAX: nat := 4096

  /** What `snprintf` keeps of `s` in a buffer of `PATH_MAX` bytes: at most `PATH_MAX - 1` characters. */
  function Fit(s: string): (r: string)
    ensures |r| == Min(|s|, PATH_MAX - 1) && r == s[..|r|]
  {
    if |s| < PATH_MAX then s else s[..PATH_MAX - 1]
  }

  /** The test on line 35: `cwd` starts with `home`, and the match ends at a '/' or at the end of `cwd`. */
  predicate UnderHome(cwd: string, home: string) {
    |home| <= |cwd| && cwd[..|home|] == home && (|cwd| == |home| || cwd[|home|] == '/')
  }

  /** The path shown: "~" followed by the rest of `cwd` below the home directory, or `cwd` itself. */
  function DisplayPath(cwd: string, home: Option<string>): (r: string)
    ensures home.Some? && UnderHome(cwd, home.value) ==> |r| > 0 && r[0] == '~'
    ensures !(home.Some? && UnderHome(cwd, home.value)) ==> r == cwd
  {
    if home.Some? && UnderHome(cwd, home.value) then Fit("~" + cwd[|home.value|..]) else cwd
  }

  /** The value of a lookup, or its fallback when it failed. */
  function OrElse(v: Option<string>, fallback: string): string {
    if v.Some? then v.value else fallback
  }

  /** The text `show_prompt` prints. */
  function Prompt(user: Option<string>, host: Option<string>, cwd: Option<string>, home: Option<string>): string {
    "<" + OrElse(user, "unknown") + "@" + OrElse(host, "unknown") + ":" + DisplayPath(OrElse(cwd, "?"), home) + "> "
  }

  /** Reading "~" back as the home directory. */
  function Expand(path: string, home: string): string {
    if |path| > 0 && path[0] == '~' then home + path[1..] else path
  }

  // ---------------------------------------------------------------------------
  // Properties
  // ---------------------------------------------------------------------------

  /** In the home directory itself the path is "~". */
  lemma AtHome(home: string)
    ensures DisplayPath(home, Some(home)) == "~"
  {
    assert home[..|home|] == home;
    assert home[|home|..] == [];
  }

  /** Below the home directory the path is "~/" and the rest. */
  lemma BelowHome(home: string, rest: string)
    requires |home| > 0 && |home| + 1 + |rest| < PATH_MAX
    ensures DisplayPath(home + "/" + rest, Some(home)) == "~/" + rest
  {
    var cwd := home + "/" + rest;
    assert cwd[..|home|] == home;
    assert cwd[|home|..] == "/" + rest;
  }

  /** A directory whose name merely starts with the home directory's name is shown in full. */
  lemma PartialNameShown(cwd: string, home: string)
    requires |home| < |cwd| && cwd[..|home|] == home && cwd[|home|] != '/'
    ensures DisplayPath(cwd, Some(home)) == cwd
  {
  }

  /** A directory outside the home directory, or any directory when there is no home directory, is shown as it is. */
  lemma OutsideShown(cwd: string, home: Option<string>)
    requires home.None? || |home.value| > |cwd| || cwd[..|home.value|] != home.value
    ensures DisplayPath(cwd, home) == cwd
  {
  }

  /** Expanding "~" gives back the working directory whenever it was abbreviated and fits. */
  lemma ExpandDisplay(cwd: string, home: string)
    requires UnderHome(cwd, home) && |cwd| - |home| < PATH_MAX - 1
    ensures Expand(DisplayPath(cwd, Some(home)), home) == cwd
  {
    var d := "~" + cwd[|home|..];
    assert DisplayPath(cwd, Some(home)) == d;
    assert d[1..] == cwd[|home|..];
    assert cwd == cwd[..|home|] + cwd[|home|..];
  }

  /** With every lookup failed the prompt is "<unknown@unknown:?> ", unless the home directory is itself "?". */
  lemma AllLookupsFailed(home: Option<string>)
    requires home != Some("?")
    ensures Prompt(None, None, None, home) == "<unknown@unknown:?> "
  {
    QuestionShown(home);
  }

  lemma QuestionShown(home: Option<string>)
    requires home != Some("?")
    ensures DisplayPath("?", home) == "?"
  {
    if home.Some? && |home.value| == 1 {
      assert "?"[..1] == "?";
    }
  }

  /** The prompt holds the user, host and path between "<", "@", ":" and "> ", so its parts read back. */
  lemma PromptParts(user: string, host: string, cwd: string, home: Option<string>)
    ensures var p := Prompt(Some(user), Some(host), Some(cwd), home);
      && p[..1] == "<"
      && p[1..1 + |user|] == user
      && p[1 + |user|] == '@'
      && p[2 + |user|..2 + |user| + |host|] == host
      && p[2 + |user| + |host|] == ':'
      && p[3 + |user| + |host|..|p| - 2] == DisplayPath(cwd, home)
      && p[|p| - 2..] == "> "
  {
  }
}
