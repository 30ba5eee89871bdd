/**
 * The shell's syntax check: a tokenizer and a recursive-descent validator
 * over the token stream.
 *
 * The grammar the validator follows is
 *   shell_cmd -> cmd_group ((';' | '&') cmd_group)* [';' | '&']
 *   cmd_group -> atomic ('|' atomic)*
 *   atomic    -> name (name | input | output)*
 * where a redirection operator whose file name is missing is still
 * consumed. The validator is proved to accept exactly the token streams
 * described by `Accepted`, a condition on neighbouring tokens.
 */
module ShellParser {
  import opened Common
  import opened ShellText

  datatype Kind = NAME | PIPE | SEMICOLON | AMPERSAND | INPUT | OUTPUT | APPEND | END

  /** A token; operators and END carry the empty value (a null pointer in C). */
  datatype Token = Token(kind: Kind, value: string)

  const END_TOKEN := Token(END, "")

  /** The result of a parse function: whether it matched, and where the cursor is afterwards. */
  datatype Step = Step(ok: bool, pos: nat)

  // ---------------------------------------------------------------------------
  // Tokenizer
  // ---------------------------------------------------------------------------

  predicate IsOperatorChar(c: char) {
    c == '|' || c == ';' || c == '&' || c == '<' || c == '>'
  }

  /** A character that may occur in a NAME token. */
  predicate IsNameChar(c: char) {
    !IsSpace(c) && !IsOperatorChar(c)
  }

  /** The length of the NAME at the start of `s`: the maximal run of name characters. */
  function NameLen(s: string): (n: nat)
    ensures n <= |s|
    ensures forall k | 0 <= k < n :: IsNameChar(s[k])
    ensures n == |s| || !IsNameChar(s[n])
  {
    if |s| == 0 || !IsNameChar(s[0]) then 0 else 1 + NameLen(s[1..])
  }

  /** The token at the start of a text that does not start with whitespace, and how many characters it takes. */
  function FirstToken(s: string): (r: (Token, nat))
    requires |s| > 0 && !IsSpace(s[0])
    ensures 0 < r.1 <= |s|
  {
    if s[0] == '|' then (Token(PIPE, ""), 1)
    else if s[0] == ';' then (Token(SEMICOLON, ""), 1)
    else if s[0] == '&' then (Token(AMPERSAND, ""), 1)
    else if s[0] == '<' then (Token(INPUT, ""), 1)
    else if s[0] == '>' then
      if |s| > 1 && s[1] == '>' then (Token(APPEND, ""), 2) else (Token(OUTPUT, ""), 1)
    else
      var n := NameLen(s);
      (Token(NAME, s[..n]), n)
  }

  /** The tokens of a line, without the END marker. */
  function Lex(s: string): seq<Token>
    decreases |s|
  {
    if |s| == 0 then []
    else if IsSpace(s[0]) then Lex(s[1..])
    else
      var (t, n) := FirstToken(s);
      [t] + Lex(s[n..])
  }

  /** A NAME token holds a non-empty run of name characters; every other token holds nothing. */
  predicate TokenShape(t: Token) {
    t.kind != END
    && (t.kind == NAME ==> |t.value| > 0 && forall k | 0 <= k < |t.value| :: IsNameChar(t.value[k]))
    && (t.kind != NAME ==> t.value == "")
  }

  lemma {:induction false} LexShape(s: string)
    ensures forall i | 0 <= i < |Lex(s)| :: TokenShape(Lex(s)[i])
    decreases |s|
  {
    if |s| == 0 {
    } else if IsSpace(s[0]) {
      LexShape(s[1..]);
    } else {
      LexShape(s[FirstToken(s).1..]);
    }
  }

  lemma {:induction false} NameLenIs(s: string, n: nat)
    requires n <= |s|
    requires forall k | 0 <= k < n :: IsNameChar(s[k])
    requires n == |s| || !IsNameChar(s[n])
    ensures NameLen(s) == n
  {
    if n > 0 {
      NameLenIs(s[1..], n - 1);
    }
  }

  /** A character that ends every token before it: whitespace or a single-character operator other than '>'. */
  predicate Breaks(c: char) {
    IsSpace(c) || c == '|' || c == ';' || c == '&' || c == '<'
  }

  /** The first token does not depend on text after a breaking character. */
  lemma FirstTokenSplit(a: string, t: string)
    requires |a| > 0 && !IsSpace(a[0]) && |t| > 0 && Breaks(t[0])
    ensures FirstToken(a + t) == FirstToken(a)
  {
    var s := a + t;
    if IsNameChar(a[0]) {
      var n := NameLen(a);
      NameLenIs(s, n);
      assert s[..n] == a[..n];
    }
  }

  /** Text that starts with a breaking character is tokenized independently of what precedes it. */
  lemma {:induction false} LexSplit(a: string, t: string)
    requires |t| > 0 && Breaks(t[0])
    ensures Lex(a + t) == Lex(a) + Lex(t)
    decreases |a|
  {
    var s := a + t;
    if |a| == 0 {
      assert s == t;
    } else if IsSpace(a[0]) {
      assert s[1..] == a[1..] + t;
      LexSplit(a[1..], t);
    } else {
      FirstTokenSplit(a, t);
      var n := FirstToken(a).1;
      assert s[n..] == a[n..] + t;
      LexSplit(a[n..], t);
    }
  }

  /** Whitespace separates tokens: a whitespace character splits the token list in two. */
  lemma WhitespaceSeparates(a: string, c: char, b: string)
    requires IsSpace(c)
    ensures Lex(a + [c] + b) == Lex(a) + Lex(b)
  {
    assert a + [c] + b == a + ([c] + b);
    LexSplit(a, [c] + b);
    assert ([c] + b)[1..] == b;
  }

  /** `tokenize`: the tokens of the line followed by one END marker. */
  method Tokenize(line: string) returns (tokens: seq<Token>)
    ensures tokens == Lex(line) + [END_TOKEN]
  {
    tokens := [];
    var p := 0;
    while p < |line|
      invariant 0 <= p <= |line|
      invariant tokens + Lex(line[p..]) == Lex(line)
    {
      p := SkipSpace(line, p);
      if p == |line| {
        break;
      }
      var tok, q := NextToken(line, p);
      LexSkips(line, p, q);
      tokens := tokens + [tok];
      p := q;
    }
    tokens := tokens + [END_TOKEN];
  }

  /** How `Lex` walks over the text from position `p` to position `q`. */
  lemma LexSkips(line: string, p: nat, q: nat)
    requires p < q <= |line|
    requires IsSpace(line[p]) ==> q == p + 1
    requires !IsSpace(line[p]) ==> q - p == FirstToken(line[p..]).1
    ensures IsSpace(line[p]) ==> Lex(line[p..]) == Lex(line[q..])
    ensures !IsSpace(line[p]) ==> Lex(line[p..]) == [FirstToken(line[p..]).0] + Lex(line[q..])
  {
    assert line[p..][q - p..] == line[q..];
  }

  /** The tokenizer's whitespace skip: blanks do not change the tokens that follow. */
  method SkipSpace(line: string, p: nat) returns (q: nat)
    requires p <= |line|
    ensures p <= q <= |line| && (q == |line| || !IsSpace(line[q]))
    ensures Lex(line[p..]) == Lex(line[q..])
  {
    q := p;
    while q < |line| && IsSpace(line[q])
      invariant p <= q <= |line|
      invariant Lex(line[p..]) == Lex(line[q..])
    {
      LexSkips(line, q, q + 1);
      q := q + 1;
    }
  }

  /** One pass of the tokenizer's loop from a non-blank character: the token there and the position after it. */
  method NextToken(line: string, p: nat) returns (tok: Token, q: nat)
    requires p < |line| && !IsSpace(line[p])
    ensures p < q <= |line|
    ensures (tok, q - p) == FirstToken(line[p..])
  {
    if line[p] == '|' {
      tok, q := Token(PIPE, ""), p + 1;
    } else if line[p] == ';' {
      tok, q := Token(SEMICOLON, ""), p + 1;
    } else if line[p] == '&' {
      tok, q := Token(AMPERSAND, ""), p + 1;
    } else if line[p] == '<' {
      tok, q := Token(INPUT, ""), p + 1;
    } else if line[p] == '>' {
      if p + 1 < |line| && line[p + 1] == '>' {
        tok, q := Token(APPEND, ""), p + 2;
      } else {
        tok, q := Token(OUTPUT, ""), p + 1;
      }
    } else {
      q := p;
      while q < |line| && IsNameChar(line[q])
        invariant p <= q <= |line|
        invariant forall k | p <= k < q :: IsNameChar(line[k])
      {
        q := q + 1;
      }
      NameLenIs(line[p..], q - p);
      assert line[p..][..q - p] == line[p..q];
      tok := Token(NAME, line[p..q]);
    }
  }

  lemma {:induction false} LexHasNoEnd(s: string)
    ensures forall i | 0 <= i < |Lex(s)| :: Lex(s)[i].kind != END
  {
    LexShape(s);
  }

  // ---------------------------------------------------------------------------
  // The token stream and its cursor
  // ---------------------------------------------------------------------------

  /** What `tokenize` hands the validator: END exactly once, as the last token. */
  predicate WellFormed(toks: seq<Token>) {
    |toks| > 0 && toks[|toks| - 1].kind == END && forall i | 0 <= i < |toks| - 1 :: toks[i].kind != END
  }

  /** The tokenizer's output ends with exactly one END, and END occurs nowhere else. */
  lemma TokenizedWellFormed(line: string)
    ensures WellFormed(Lex(line) + [END_TOKEN])
  {
    LexHasNoEnd(line);
  }

  /** `peek`: the token under the cursor, or nothing past the end. */
  function Peek(toks: seq<Token>, pos: nat): (r: Option<Token>)
    ensures r.Some? <==> pos < |toks|
    ensures r.Some? ==> r.value == toks[pos]
  {
    if pos < |toks| then Some(toks[pos]) else None
  }

  /**
   * `consume`: advance past a token of kind `k` if it is under the cursor.
   * The cursor never moves past END.
   */
  function Consume(toks: seq<Token>, pos: nat, k: Kind): (r: Step)
    ensures r.ok <==> pos < |toks| && toks[pos].kind == k
    ensures r.pos == if r.ok then pos + 1 else pos
    ensures WellFormed(toks) && pos < |toks| && k != END ==> r.pos < |toks|
  {
    var t := Peek(toks, pos);
    if t.Some? && t.value.kind == k then Step(true, pos + 1) else Step(false, pos)
  }

  /** `parse_name`. */
  function ParseName(toks: seq<Token>, pos: nat): (r: Step)
    requires WellFormed(toks) && pos < |toks|
    ensures r.pos < |toks|
    ensures r.ok <==> toks[pos].kind == NAME
    ensures r.pos == if r.ok then pos + 1 else pos
  {
    Consume(toks, pos, NAME)
  }

  /** `parse_input`: '<' and a NAME; the '<' is consumed even when the NAME is missing. */
  function ParseInput(toks: seq<Token>, pos: nat): (r: Step)
    requires WellFormed(toks) && pos < |toks|
    ensures r.pos < |toks|
    ensures r.ok <==> toks[pos].kind == INPUT && toks[pos + 1].kind == NAME
    ensures toks[pos].kind == INPUT ==> r.pos == if r.ok then pos + 2 else pos + 1
    ensures toks[pos].kind != INPUT ==> r.pos == pos
  {
    var t := Peek(toks, pos);
    if t.Some? && t.value.kind == INPUT then ParseName(toks, pos + 1) else Step(false, pos)
  }

  predicate IsOut(k: Kind) {
    k == OUTPUT || k == APPEND
  }

  /** `parse_output`: '>' or '>>' and a NAME; the operator is consumed even when the NAME is missing. */
  function ParseOutput(toks: seq<Token>, pos: nat): (r: Step)
    requires WellFormed(toks) && pos < |toks|
    ensures r.pos < |toks|
    ensures r.ok <==> IsOut(toks[pos].kind) && toks[pos + 1].kind == NAME
    ensures IsOut(toks[pos].kind) ==> r.pos == if r.ok then pos + 2 else pos + 1
    ensures !IsOut(toks[pos].kind) ==> r.pos == pos
  {
    var t := Peek(toks, pos);
    if t.Some? && IsOut(t.value.kind) then ParseName(toks, pos + 1) else Step(false, pos)
  }

  // ---------------------------------------------------------------------------
  // What the validator accepts
  // ---------------------------------------------------------------------------

  predicate IsRedirect(k: Kind) {
    k == INPUT || IsOut(k)
  }

  predicate IsSeparator(k: Kind) {
    k == SEMICOLON || k == AMPERSAND
  }

  /**
   * The condition on a token `x` and the token `y` after it:
   * '|' needs a NAME after it; ';' and '&' need a NAME or the end; a
   * redirection may lack its NAME, but may not be followed by '<', and an
   * output redirection may not be followed by another one.
   */
  predicate PairOk(x: Kind, y: Kind) {
    && (x == PIPE ==> y == NAME)
    && (IsSeparator(x) ==> y == NAME || y == END)
    && (IsRedirect(x) ==> y != INPUT && !(IsOut(x) && IsOut(y)))
  }

  /** Every neighbouring pair starting in [a, b) satisfies `PairOk`. */
  predicate PairsOk(toks: seq<Token>, a: nat, b: nat)
    requires b < |toks|
  {
    forall i | a <= i < b :: PairOk(toks[i].kind, toks[i + 1].kind)
  }

  /** The token streams the validator accepts: a NAME first, and every neighbouring pair allowed. */
  predicate Accepted(toks: seq<Token>)
    requires WellFormed(toks)
  {
    toks[0].kind == NAME && PairsOk(toks, 0, |toks| - 1)
  }

  /**
   * How a successful parse of a construct starting at `pos` leaves the
   * cursor at `p`: the token at `p` is not a NAME, the pairs inside are
   * allowed, and the pair ending at `p` is allowed unless the token at `p`
   * is a redirection (the parse stopped because of a forbidden pair).
   */
  predicate StopsAt(toks: seq<Token>, pos: nat, p: nat)
    requires p < |toks|
  {
    && pos < p && toks[pos].kind == NAME && toks[p].kind != NAME
    && PairsOk(toks, pos, p - 1)
    && (PairOk(toks[p - 1].kind, toks[p].kind) <==> !IsRedirect(toks[p].kind))
  }

  // ---------------------------------------------------------------------------
  // The validator
  // ---------------------------------------------------------------------------

  /** Allowed pairs in [a, b) and in [b, c) make allowed pairs in [a, c). */
  lemma PairsJoin(toks: seq<Token>, a: nat, b: nat, c: nat)
    requires a <= b <= c < |toks| && PairsOk(toks, a, b) && PairsOk(toks, b, c)
    ensures PairsOk(toks, a, c)
  {
  }

  /** `parse_atomic`: a NAME and then names and redirections. */
  method ParseAtomic(toks: seq<Token>, pos: nat) returns (r: Step)
    requires WellFormed(toks) && pos < |toks|
    ensures r.pos < |toks|
    ensures r.ok <==> toks[pos].kind == NAME
    ensures !r.ok ==> r.pos == pos
    ensures r.ok ==> StopsAt(toks, pos, r.pos)
  {
    var s := ParseName(toks, pos);
    if !s.ok {
      return s;
    }
    var p := s.pos;
    while true
      invariant pos < p < |toks| && toks[pos].kind == NAME && toks[p - 1].kind == NAME
      invariant PairsOk(toks, pos, p - 1)
      decreases |toks| - p
    {
      var more, q := AtomicItem(toks, p);
      PairsJoin(toks, pos, p - 1, q - 1);
      p := q;
      if !more {
        break;
      }
    }
    return Step(true, p);
  }

  /**
   * One pass of `parse_atomic`'s loop after a NAME at `p - 1`: a NAME, an
   * input redirection, or an output redirection (tried after a failed
   * input redirection, from where that one left the cursor).
   */
  method AtomicItem(toks: seq<Token>, p: nat) returns (more: bool, q: nat)
    requires WellFormed(toks) && 0 < p < |toks| && toks[p - 1].kind == NAME
    ensures p <= q < |toks| && PairsOk(toks, p - 1, q - 1)
    ensures more ==> p < q && toks[q - 1].kind == NAME
    ensures !more ==> toks[q].kind != NAME && (PairOk(toks[q - 1].kind, toks[q].kind) <==> !IsRedirect(toks[q].kind))
  {
    if Peek(toks, p).value.kind == NAME {
      return true, p + 1;
    }
    var i := ParseInput(toks, p);
    if i.ok {
      return true, i.pos;
    }
    var o := ParseOutput(toks, i.pos);
    return o.ok, o.pos;
  }

  /** `parse_cmd_group`: atomic commands joined by '|'. */
  method ParseCmdGroup(toks: seq<Token>, pos: nat) returns (r: Step)
    requires WellFormed(toks) && pos < |toks|
    ensures r.pos < |toks|
    ensures !r.ok ==> !(toks[pos].kind == NAME && PairsOk(toks, pos, |toks| - 1))
    ensures r.ok ==> StopsAt(toks, pos, r.pos) && toks[r.pos].kind != PIPE
  {
    var a := ParseAtomic(toks, pos);
    if !a.ok {
      return a;
    }
    var p := a.pos;
    while true
      invariant p < |toks| && StopsAt(toks, pos, p)
      decreases |toks| - p
    {
      var c := Consume(toks, p, PIPE);
      if !c.ok {
        break;
      }
      var more, q := PipedAtomic(toks, pos, p);
      if !more {
        return Step(false, p + 1);
      }
      p := q;
    }
    return Step(true, p);
  }

  /** One pass of `parse_cmd_group`'s loop: the atomic command after the '|' at `p`. */
  method PipedAtomic(toks: seq<Token>, pos: nat, p: nat) returns (ok: bool, q: nat)
    requires WellFormed(toks) && p < |toks| && StopsAt(toks, pos, p) && toks[p].kind == PIPE
    ensures !ok ==> !PairsOk(toks, pos, |toks| - 1)
    ensures ok ==> p < q < |toks| && StopsAt(toks, pos, q)
  {
    var b := ParseAtomic(toks, p + 1);
    if !b.ok {
      assert !PairOk(toks[p].kind, toks[p + 1].kind);
      return false, p + 1;
    }
    assert PairsOk(toks, p - 1, p + 1);
    PairsJoin(toks, pos, p - 1, p + 1);
    PairsJoin(toks, pos, p + 1, b.pos - 1);
    return true, b.pos;
  }

  /** `parse_shell_cmd`: command groups separated by ';' or '&', one trailing separator allowed, then END. */
  method ParseShellCmd(toks: seq<Token>) returns (ok: bool)
    requires WellFormed(toks)
    ensures ok == Accepted(toks)
  {
    var g := ParseCmdGroup(toks, 0);
    if !g.ok {
      return false;
    }
    var p := g.pos;
    while IsSeparator(Peek(toks, p).value.kind)
      invariant p < |toks| && StopsAt(toks, 0, p) && toks[p].kind != PIPE
      decreases |toks| - p
    {
      if p + 1 < |toks| && toks[p + 1].kind == END {
        break;
      }
      var more, q := SeparatedGroup(toks, p);
      if !more {
        return false;
      }
      p := q;
    }
    ok := FinishShellCmd(toks, p);
  }

  /** One pass of `parse_shell_cmd`'s loop: consume the separator at `p` and parse the command group after it. */
  method SeparatedGroup(toks: seq<Token>, p: nat) returns (ok: bool, q: nat)
    requires WellFormed(toks) && p < |toks| && StopsAt(toks, 0, p) && toks[p].kind != PIPE
    requires IsSeparator(toks[p].kind) && toks[p + 1].kind != END
    ensures !ok ==> !Accepted(toks)
    ensures ok ==> p < q < |toks| && StopsAt(toks, 0, q) && toks[q].kind != PIPE
  {
    var h := ParseCmdGroup(toks, p + 1);
    if !h.ok {
      assert toks[p + 1].kind != NAME ==> !PairOk(toks[p].kind, toks[p + 1].kind);
      return false, p + 1;
    }
    assert PairsOk(toks, p - 1, p + 1);
    PairsJoin(toks, 0, p - 1, p + 1);
    PairsJoin(toks, 0, p + 1, h.pos - 1);
    return true, h.pos;
  }

  /**
   * The end of `parse_shell_cmd`: after the last command group, consume a
   * '&' and then a ';' if present, and accept only at END.
   */
  method FinishShellCmd(toks: seq<Token>, p: nat) returns (ok: bool)
    requires WellFormed(toks) && p < |toks| && StopsAt(toks, 0, p) && toks[p].kind != PIPE
    requires IsSeparator(toks[p].kind) ==> toks[p + 1].kind == END
    ensures ok == Accepted(toks)
  {
    var q := Consume(toks, p, AMPERSAND).pos;
    q := Consume(toks, q, SEMICOLON).pos;
    ok := Peek(toks, q).value.kind == END;
    if IsSeparator(toks[p].kind) {
      assert q == p + 1 == |toks| - 1;
      assert PairsOk(toks, p - 1, p + 1);
      PairsJoin(toks, 0, p - 1, p + 1);
    } else {
      assert q == p;
    }
  }

  /** `parse_command`: tokenize the line and validate the tokens. */
  method ParseCommand(line: string) returns (ok: bool)
    ensures ok == ValidLine(line)
  {
    var toks := Tokenize(line);
    TokenizedWellFormed(line);
    ok := ParseShellCmd(toks);
  }

  /** The lines the shell accepts. */
  predicate ValidLine(line: string) {
    TokenizedWellFormed(line);
    Accepted(Lex(line) + [END_TOKEN])
  }

  // ---------------------------------------------------------------------------
  // Properties of the accepted language
  // ---------------------------------------------------------------------------

  lemma {:induction false} LexBlank(s: string)
    requires forall k | 0 <= k < |s| :: IsSpace(s[k])
    ensures |Lex(s)| == 0
    decreases |s|
  {
    if |s| > 0 {
      LexBlank(s[1..]);
    }
  }

  /** An empty or whitespace-only line is rejected. */
  lemma BlankRejected(line: string)
    requires forall k | 0 <= k < |line| :: IsSpace(line[k])
    ensures !ValidLine(line)
  {
    LexBlank(line);
  }

  /** A stream that starts with anything but a NAME is rejected. */
  lemma MustStartWithName(toks: seq<Token>)
    requires WellFormed(toks) && Accepted(toks)
    ensures toks[0].kind == NAME && |toks| >= 2
  {
  }

  /** A '|' at the end of the command is rejected. */
  lemma DanglingPipeRejected(u: seq<Token>)
    requires WellFormed(u + [Token(PIPE, ""), END_TOKEN])
    ensures !Accepted(u + [Token(PIPE, ""), END_TOKEN])
  {
    var toks := u + [Token(PIPE, ""), END_TOKEN];
    assert !PairOk(toks[|u|].kind, toks[|u| + 1].kind);
  }

  /** Two separators in a row are rejected, wherever they occur. */
  lemma DoubleSeparatorRejected(u: seq<Token>, s1: Token, s2: Token, v: seq<Token>)
    requires IsSeparator(s1.kind) && IsSeparator(s2.kind)
    requires WellFormed(u + [s1, s2] + v)
    ensures !Accepted(u + [s1, s2] + v)
  {
    var toks := u + [s1, s2] + v;
    assert toks[|u|] == s1 && toks[|u| + 1] == s2;
    assert !PairOk(toks[|u|].kind, toks[|u| + 1].kind);
  }

  /**
   * One trailing separator is accepted: adding it to an accepted stream
   * keeps it accepted exactly when the stream does not already end with one.
   */
  lemma TrailingSeparator(u: seq<Token>, s: Token)
    requires IsSeparator(s.kind) && |u| > 0
    requires WellFormed(u + [END_TOKEN]) && WellFormed(u + [s, END_TOKEN])
    ensures Accepted(u + [s, END_TOKEN]) <==> Accepted(u + [END_TOKEN]) && !IsSeparator(u[|u| - 1].kind)
  {
    var a := u + [END_TOKEN];
    var b := u + [s, END_TOKEN];
    assert forall i | 0 <= i < |u| :: a[i] == b[i];
    assert b[|u| - 1] == a[|u| - 1] && b[|u|] == s && b[|u| + 1] == END_TOKEN && a[|u|] == END_TOKEN;
    if Accepted(b) {
      assert PairOk(b[|u| - 1].kind, b[|u|].kind);
      assert PairOk(a[|u| - 1].kind, a[|u|].kind);
    }
    if Accepted(a) && !IsSeparator(u[|u| - 1].kind) {
      assert PairOk(a[|u| - 1].kind, a[|u|].kind);
      assert PairOk(b[|u| - 1].kind, b[|u|].kind);
      assert PairOk(b[|u|].kind, b[|u| + 1].kind);
    }
  }

  /** A redirection operator without a file name is still accepted after a NAME. */
  lemma DanglingRedirectAccepted(u: seq<Token>, r: Token)
    requires IsRedirect(r.kind) && |u| > 0 && u[|u| - 1].kind == NAME
    requires WellFormed(u + [END_TOKEN]) && WellFormed(u + [r, END_TOKEN])
    requires Accepted(u + [END_TOKEN])
    ensures Accepted(u + [r, END_TOKEN])
  {
    var a := u + [END_TOKEN];
    var b := u + [r, END_TOKEN];
    assert forall i | 0 <= i < |u| :: a[i] == b[i];
    assert b[|u| - 1] == a[|u| - 1] && b[|u|] == r && b[|u| + 1] == END_TOKEN;
  }
}
