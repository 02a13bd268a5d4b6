/**
 * String helpers with the meaning Rust's `str` gives them: `find`, `trim`,
 * joining lines with '\n' and splitting on '\n'. Strings are sequences of
 * Unicode scalar values, as Rust's `char`s are.
 */
module Text {
  import opened Wrappers

  /** Rust's `char::is_whitespace`: the Unicode White_Space property. */
  predicate IsWhitespace(c: char) {
    ('\U{0009}' <= c <= '\U{000D}') || c == ' ' || c == '\U{0085}' || c == '\U{00A0}'
    || c == '\U{1680}' || ('\U{2000}' <= c <= '\U{200A}') || c == '\U{2028}' || c == '\U{2029}'
    || c == '\U{202F}' || c == '\U{205F}' || c == '\U{3000}'
  }

  predicate IsBlank(s: string) {
    forall k :: 0 <= k < |s| ==> IsWhitespace(s[k])
  }

  // ---------------------------------------------------------------------------
  // trim

  /** Number of whitespace characters at the front of `s`. */
  function LeadingWhitespace(s: string): (n: nat)
    ensures n <= |s|
    ensures forall k :: 0 <= k < n ==> IsWhitespace(s[k])
    ensures n < |s| ==> !IsWhitespace(s[n])
  {
    if s == [] || !IsWhitespace(s[0]) then 0 else 1 + LeadingWhitespace(s[1..])
  }

  /** Number of whitespace characters at the back of `s`. */
  function TrailingWhitespace(s: string): (n: nat)
    ensures n <= |s|
    ensures forall k :: |s| - n <= k < |s| ==> IsWhitespace(s[k])
    ensures n < |s| ==> !IsWhitespace(s[|s| - 1 - n])
  {
    if s == [] || !IsWhitespace(s[|s| - 1]) then 0 else 1 + TrailingWhitespace(s[..|s| - 1])
  }

  /**
   * Rust's `str::trim`: the infix of `s` left once the leading and trailing
   * whitespace is removed; everything removed is whitespace and the result
   * neither starts nor ends with whitespace.
   */
  function Trim(s: string): (r: string)
    ensures |r| <= |s|
  {
    var rest := s[LeadingWhitespace(s)..];
    rest[..|rest| - TrailingWhitespace(rest)]
  }

  /**
   * What `Trim` keeps and removes: the result is the infix of `s` starting
   * after the leading whitespace, everything cut off at either end is
   * whitespace, and the result neither starts nor ends with whitespace.
   */
  lemma TrimSpec(s: string)
    ensures LeadingWhitespace(s) + |Trim(s)| <= |s|
    ensures Trim(s) == s[LeadingWhitespace(s)..LeadingWhitespace(s) + |Trim(s)|]
    ensures Trim(s) == [] || (!IsWhitespace(Trim(s)[0]) && !IsWhitespace(Trim(s)[|Trim(s)| - 1]))
    ensures forall k :: 0 <= k < LeadingWhitespace(s) ==> IsWhitespace(s[k])
    ensures forall k :: LeadingWhitespace(s) + |Trim(s)| <= k < |s| ==> IsWhitespace(s[k])
  {
  }

  /** `s.trim().is_empty()` holds exactly when every character of `s` is whitespace. */
  lemma TrimEmptyIffBlank(s: string)
    ensures Trim(s) == [] <==> IsBlank(s)
  {
    TrimSpec(s);
    if Trim(s) != [] {
      var r := Trim(s);
      var i := LeadingWhitespace(s);
      assert s[i] == r[0];
      assert !IsWhitespace(s[i]);
    }
  }

  // ---------------------------------------------------------------------------
  // find

  /** `pat` occurs in `s` starting at index `i`. */
  predicate OccursAt(s: string, pat: string, i: int) {
    0 <= i && i + |pat| <= |s| && s[i..i + |pat|] == pat
  }

  /** First occurrence of `pat` in `s` at an index of at least `from`. */
  function FindFrom(s: string, pat: string, from: nat): (r: Option<nat>)
    requires from <= |s|
    ensures r.Some? ==> from <= r.value && OccursAt(s, pat, r.value)
    ensures r.Some? ==> forall j :: from <= j < r.value ==> !OccursAt(s, pat, j)
    ensures r.None? ==> forall j :: from <= j ==> !OccursAt(s, pat, j)
    decreases |s| - from
  {
    if from + |pat| > |s| then None
    else if s[from..from + |pat|] == pat then Some(from)
    else FindFrom(s, pat, from + 1)
  }

  /** Rust's `str::find`: the index of the first occurrence of `pat` in `s`. */
  function Find(s: string, pat: string): (r: Option<nat>)
    ensures r.Some? ==> OccursAt(s, pat, r.value)
    ensures r.Some? ==> forall j :: 0 <= j < r.value ==> !OccursAt(s, pat, j)
    ensures r.None? ==> forall j :: !OccursAt(s, pat, j)
  {
    FindFrom(s, pat, 0)
  }

  /** `p` is the index of the first occurrence of `pat` in `s`. */
  predicate FirstAt(s: string, pat: string, p: nat) {
    OccursAt(s, pat, p) && forall j :: 0 <= j < p ==> !OccursAt(s, pat, j)
  }

  /** A known first occurrence is what `Find` returns. */
  lemma FindFirst(s: string, pat: string, i: nat)
    requires FirstAt(s, pat, i)
    ensures Find(s, pat) == Some(i)
  {
    var r := Find(s, pat);
    assert r.Some?;
    assert !(r.value < i) && !(i < r.value);
  }

  // ---------------------------------------------------------------------------
  // lines

  /** The lines of `ls`, each followed by '\n' (the text `push_str(line); push_str("\n")` builds). */
  function Terminated(ls: seq<string>): string {
    if ls == [] then [] else Terminated(ls[..|ls| - 1]) + ls[|ls| - 1] + "\n"
  }

  /** The lines of `ls` separated by single '\n' characters, with no trailing '\n'. */
  function JoinLines(ls: seq<string>): (r: string)
    requires ls != []
    ensures |r| >= |ls| - 1 + |ls[0]|
  {
    if |ls| == 1 then ls[0] else ls[0] + "\n" + JoinLines(ls[1..])
  }

  /** Rust's `s.split('\n')`: the pieces between the newlines, in order. */
  function SplitLines(s: string): (ls: seq<string>)
    ensures ls != []
    decreases |s|
  {
    match Find(s, "\n")
    case None => [s]
    case Some(i) => [s[..i]] + SplitLines(s[i + 1..])
  }

  predicate HasNoNewline(s: string) {
    forall k :: 0 <= k < |s| ==> s[k] != '\n'
  }

  /** Joined lines start with the first line. */
  lemma JoinLinesStartsWithFirst(ls: seq<string>)
    requires ls != []
    ensures |ls[0]| <= |JoinLines(ls)| && JoinLines(ls)[..|ls[0]|] == ls[0]
  {
    if |ls| > 1 {
      assert JoinLines(ls) == ls[0] + ("\n" + JoinLines(ls[1..]));
    }
  }

  lemma {:induction false} JoinLinesSnoc(ls: seq<string>, l: string)
    requires ls != []
    ensures JoinLines(ls + [l]) == JoinLines(ls) + "\n" + l
  {
    if |ls| == 1 {
      assert ls + [l] == [ls[0], l];
    } else {
      assert (ls + [l])[1..] == ls[1..] + [l];
      JoinLinesSnoc(ls[1..], l);
    }
  }

  lemma TerminatedSnoc(ls: seq<string>, l: string)
    ensures Terminated(ls + [l]) == Terminated(ls) + l + "\n"
  {
    assert (ls + [l])[..|ls|] == ls;
  }

  lemma {:induction false} TerminatedAppend(a: seq<string>, b: seq<string>)
    ensures Terminated(a + b) == Terminated(a) + Terminated(b)
    decreases |b|
  {
    if b == [] {
      assert a + b == a;
    } else {
      var b' := b[..|b| - 1];
      assert (a + b)[..|a + b| - 1] == a + b';
      TerminatedAppend(a, b');
    }
  }

  /** Terminating every line then removing the last '\n' is joining the lines. */
  lemma {:induction false} TerminatedIsJoinedPlusNewline(ls: seq<string>)
    requires ls != []
    ensures Terminated(ls) == JoinLines(ls) + "\n"
  {
    if |ls| == 1 {
      assert ls[..0] == [];
    } else {
      var init := ls[..|ls| - 1];
      TerminatedIsJoinedPlusNewline(init);
      JoinLinesSnoc(init, ls[|ls| - 1]);
      assert init + [ls[|ls| - 1]] == ls;
    }
  }

  /** Splitting joined lines on '\n' gives the lines back when none holds a '\n'. */
  lemma {:induction false} SplitJoinLines(ls: seq<string>)
    requires ls != []
    requires forall i :: 0 <= i < |ls| ==> HasNoNewline(ls[i])
    ensures SplitLines(JoinLines(ls)) == ls
  {
    var s := JoinLines(ls);
    if |ls| == 1 {
      forall j | 0 <= j < |s| ensures !OccursAt(s, "\n", j) {
        assert s[j..j + 1] == [s[j]];
      }
      assert Find(s, "\n").None?;
    } else {
      var n := |ls[0]|;
      assert s == ls[0] + "\n" + JoinLines(ls[1..]);
      assert OccursAt(s, "\n", n) by { assert s[n..n + 1] == "\n"; }
      forall j | 0 <= j < n ensures !OccursAt(s, "\n", j) {
        assert s[j] == ls[0][j];
        assert s[j..j + 1] == [s[j]];
      }
      FindFirst(s, "\n", n);
      assert s[..n] == ls[0];
      assert s[n + 1..] == JoinLines(ls[1..]);
      SplitJoinLines(ls[1..]);
    }
  }
}
