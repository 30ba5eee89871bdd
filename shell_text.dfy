/**
 * Character classes and whitespace trimming shared by the shell's parsers.
 * A C string is modelled as the characters before its terminating NUL.
 */
module ShellText {

  /** `isspace` in the "C" locale: space, tab, newline, vertical tab, form feed, carriage return. */
  predicate IsSpace(c: char) {
    c == ' ' || c == '\t' || c == '\n' || c == '\U{000B}' || c == '\U{000C}' || c == '\r'
  }

  predicate IsDigit(c: char) {
    '0' <= c <= '9'
  }

  /** The number of leading whitespace characters of `s`. */
  function LeadingSpace(s: string): (n: nat)
    ensures n <= |s|
  {
    if |s| == 0 || !IsSpace(s[0]) then 0 else 1 + LeadingSpace(s[1..])
  }

  /** `s` without its leading whitespace. */
  function TrimLeft(s: string): (r: string)
    ensures |r| <= |s| && r == s[|s| - |r|..]
  {
    s[LeadingSpace(s)..]
  }

  /** The number of trailing whitespace characters of `s`. */
  function TrailingSpace(s: string): (n: nat)
    ensures n <= |s|
  {
    if |s| == 0 || !IsSpace(s[|s| - 1]) then 0 else 1 + TrailingSpace(s[..|s| - 1])
  }

  /** `s` without its leading and trailing whitespace. */
  function Trim(s: string): (r: string)
    ensures |r| <= |s|
  {
    var t := TrimLeft(s);
    t[..|t| - TrailingSpace(t)]
  }

  /** Whitespace around a string without outer whitespace is removed exactly. */
  lemma {:induction false} TrimPadded(pre: string, s: string, post: string)
    requires forall k | 0 <= k < |pre| :: IsSpace(pre[k])
    requires forall k | 0 <= k < |post| :: IsSpace(post[k])
    requires |s| == 0 || (!IsSpace(s[0]) && !IsSpace(s[|s| - 1]))
    ensures Trim(pre + s + post) == s
  {
    var w := pre + s + post;
    LeadingSpaceIs(w, if |s| == 0 then |pre| + |post| else |pre|);
    var t := TrimLeft(w);
    if |s| == 0 {
      assert |t| == 0;
    } else {
      assert t == s + post;
      TrailingSpaceIs(t, |post|);
      assert t[..|t| - |post|] == s;
    }
  }

  /** A string without outer whitespace is its own trim. */
  lemma TrimUntouched(s: string)
    requires |s| == 0 || (!IsSpace(s[0]) && !IsSpace(s[|s| - 1]))
    ensures Trim(s) == s
  {
    assert TrimLeft(s) == s by {
      LeadingSpaceIs(s, 0);
    }
    TrailingSpaceIs(s, 0);
  }

  /** A blank string trims to nothing. */
  lemma TrimBlank(s: string)
    requires forall k | 0 <= k < |s| :: IsSpace(s[k])
    ensures |Trim(s)| == 0
  {
    LeadingSpaceIs(s, |s|);
  }

  /** Trimming keeps exactly the span between the leading and the trailing whitespace. */
  lemma TrimIs(s: string, i: nat, j: nat)
    requires i <= j <= |s|
    requires forall k | 0 <= k < i :: IsSpace(s[k])
    requires i == |s| || !IsSpace(s[i])
    requires forall k | j <= k < |s| :: IsSpace(s[k])
    requires i == j || !IsSpace(s[j - 1])
    ensures Trim(s) == s[i..j]
  {
    var t := s[i..];
    assert TrimLeft(s) == t by {
      LeadingSpaceIs(s, i);
    }
    assert TrailingSpace(t) == |s| - j by {
      TrailingSpaceIs(t, |s| - j);
    }
    assert t[..j - i] == s[i..j];
  }

  /**
   * Trimming the piece `line[a..b]` of a longer line keeps `line[i..j]` when
   * the piece has `i - a` leading and `b - j` trailing whitespace characters.
   */
  lemma TrimBetween(line: string, a: nat, i: nat, j: nat, b: nat)
    requires a <= i <= j <= b <= |line|
    requires LeadingSpace(line[a..b]) == i - a
    requires TrailingSpace(line[i..b]) == b - j
    ensures Trim(line[a..b]) == line[i..j]
  {
    TrimLeftPiece(line, a, i, b);
    assert line[i..b][..j - i] == line[i..j];
  }

  lemma TrimLeftPiece(line: string, a: nat, i: nat, b: nat)
    requires a <= i <= b <= |line|
    requires LeadingSpace(line[a..b]) == i - a
    ensures TrimLeft(line[a..b]) == line[i..b]
  {
    assert line[a..b][i - a..] == line[i..b];
  }

  /** One step of counting the leading whitespace of the piece `line[i..b]`. */
  lemma LeadingSpaceStep(line: string, i: nat, b: nat)
    requires i < b <= |line|
    ensures IsSpace(line[i]) ==> LeadingSpace(line[i..b]) == 1 + LeadingSpace(line[i + 1..b])
    ensures !IsSpace(line[i]) ==> LeadingSpace(line[i..b]) == 0
  {
    assert line[i..b][1..] == line[i + 1..b];
  }

  /** One step of counting the trailing whitespace of the piece `line[a..j]`. */
  lemma TrailingSpaceStep(line: string, a: nat, j: nat)
    requires a < j <= |line|
    ensures IsSpace(line[j - 1]) ==> TrailingSpace(line[a..j]) == 1 + TrailingSpace(line[a..j - 1])
    ensures !IsSpace(line[j - 1]) ==> TrailingSpace(line[a..j]) == 0
  {
    assert line[a..j][..j - 1 - a] == line[a..j - 1];
  }

  lemma {:induction false} LeadingSpaceIs(s: string, n: nat)
    requires n <= |s|
    requires forall k | 0 <= k < n :: IsSpace(s[k])
    requires n == |s| || !IsSpace(s[n])
    ensures LeadingSpace(s) == n
  {
    if n > 0 {
      LeadingSpaceIs(s[1..], n - 1);
    }
  }

  lemma {:induction false} TrailingSpaceIs(s: string, n: nat)
    requires n <= |s|
    requires forall k | |s| - n <= k < |s| :: IsSpace(s[k])
    requires n == |s| || !IsSpace(s[|s| - n - 1])
    ensures TrailingSpace(s) == n
  {
    if n > 0 {
      TrailingSpaceIs(s[..|s| - 1], n - 1);
    }
  }

  /** The leading whitespace count stops at a character that is not whitespace. */
  lemma {:induction false} LeadingSpaceStops(s: string)
    ensures LeadingSpace(s) < |s| ==> !IsSpace(s[LeadingSpace(s)])
    decreases |s|
  {
    if |s| > 0 && IsSpace(s[0]) {
      LeadingSpaceStops(s[1..]);
    }
  }

  /** A non-empty trimmed string starts with a character that is not whitespace. */
  lemma TrimStartsWithText(s: string)
    ensures |Trim(s)| > 0 ==> !IsSpace(Trim(s)[0])
  {
    LeadingSpaceStops(s);
  }
}
