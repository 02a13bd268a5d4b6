/**
 * The primary endpoint's extractor, `parse_bing_response`, after the regex
 * engine has matched: the capture groups are inputs, and the model assembles
 * the snippet from them — an optional phonetic line `· [<phonetic>]`, then one
 * `· <pos> <trs>` line per explanation match, joined by '\n'.
 */
module Snippet {
  import opened Wrappers
  import opened Text

  /**
   * The capture groups of one regex match, group 0 (the whole match) first;
   * `None` for a group that did not take part in the match.
   */
  type Groups = seq<Option<string>>

  /**
   * What the regex engine reports for one page: the first match of the
   * phonetic pattern, if any, and every match of the explanation pattern in
   * the order the engine finds them.
   */
  datatype Captures = Captures(phonetic: Option<Groups>, explains: seq<Groups>)

  /** The texts of the groups that took part, in order. */
  function Participating(gs: Groups): (r: seq<string>)
    ensures |r| <= |gs|
  {
    if gs == [] then []
    else (if gs[0].Some? then [gs[0].value] else []) + Participating(gs[1..])
  }

  /** `caps.iter().skip(1).filter_map(..).collect()`: the participating groups after group 0. */
  function CapturedTexts(caps: Groups): (r: seq<string>)
    ensures caps != [] ==> |r| < |caps|
  {
    if caps == [] then [] else Participating(caps[1..])
  }

  /** `regex_search`: the captured texts of the first match, if there is one. */
  function RegexSearch(m: Option<Groups>): (r: Option<seq<string>>)
    ensures r.Some? <==> m.Some?
  {
    match m
    case None => None
    case Some(caps) => Some(CapturedTexts(caps))
  }

  /** The captured texts of every match that captured anything, in match order. */
  function KeptGroups(ms: seq<Groups>): (r: seq<seq<string>>)
    ensures |r| <= |ms|
    ensures forall k :: 0 <= k < |r| ==> r[k] != []
  {
    if ms == [] then []
    else
      var groups := CapturedTexts(ms[|ms| - 1]);
      KeptGroups(ms[..|ms| - 1]) + (if groups != [] then [groups] else [])
  }

  /** What `regex_search_all` returns: `None` when no match captured anything. */
  function SearchAllResult(ms: seq<Groups>): (r: Option<seq<seq<string>>>)
    ensures r.None? <==> NothingCaptured(ms)
    ensures r.Some? ==> r.value != [] && |r.value| <= |ms|
  {
    KeptGroupsEmptyIff(ms);
    var kept := KeptGroups(ms);
    if kept == [] then None else Some(kept)
  }

  /** `regex_search_all` after matching: collect the captured texts of each match, dropping empty ones. */
  method RegexSearchAll(matches: seq<Groups>) returns (r: Option<seq<seq<string>>>)
    ensures r == SearchAllResult(matches)
  {
    var results: seq<seq<string>> := [];
    for i := 0 to |matches|
      invariant results == KeptGroups(matches[..i])
    {
      var groups := CapturedTexts(matches[i]);
      if groups != [] {
        results := results + [groups];
      }
      assert matches[..i + 1][..i] == matches[..i];
    }
    assert matches[..|matches|] == matches;
    if results == [] {
      r := None;
    } else {
      r := Some(results);
    }
  }

  /** No match captured anything. */
  predicate NothingCaptured(ms: seq<Groups>) {
    forall k :: 0 <= k < |ms| ==> CapturedTexts(ms[k]) == []
  }

  /** Nothing is kept exactly when no match captured anything. */
  lemma {:induction false} KeptGroupsEmptyIff(ms: seq<Groups>)
    ensures KeptGroups(ms) == [] <==> NothingCaptured(ms)
  {
    if ms != [] {
      var init := ms[..|ms| - 1];
      var m := ms[|ms| - 1];
      KeptGroupsEmptyIff(init);
      NothingCapturedLast(ms);
      var tail := if CapturedTexts(m) != [] then [CapturedTexts(m)] else [];
      assert KeptGroups(ms) == KeptGroups(init) + tail;
      assert KeptGroups(ms) == [] <==> KeptGroups(init) == [] && tail == [];
    }
  }

  /** Nothing was captured exactly when nothing was before the last match and the last match captured nothing either. */
  lemma NothingCapturedLast(ms: seq<Groups>)
    requires ms != []
    ensures NothingCaptured(ms) <==>
      NothingCaptured(ms[..|ms| - 1]) && CapturedTexts(ms[|ms| - 1]) == []
  {
    var init := ms[..|ms| - 1];
    if NothingCaptured(init) && CapturedTexts(ms[|ms| - 1]) == [] {
      forall k | 0 <= k < |ms| ensures CapturedTexts(ms[k]) == [] {
        if k < |init| { assert ms[k] == init[k]; }
      }
    }
    if NothingCaptured(ms) {
      forall k | 0 <= k < |init| ensures CapturedTexts(init[k]) == [] {
        assert ms[k] == init[k];
      }
    }
  }

  /** `filter_map` keeps the order of the groups: filtering a concatenation concatenates. */
  lemma {:induction false} ParticipatingAppend(a: Groups, b: Groups)
    ensures Participating(a + b) == Participating(a) + Participating(b)
  {
    if a != [] {
      assert (a + b)[1..] == a[1..] + b;
      ParticipatingAppend(a[1..], b);
    } else {
      assert a + b == b;
    }
  }

  /** A group that took part contributes its text; one that did not contributes nothing. */
  lemma ParticipatingSingle(g: Option<string>)
    ensures Participating([g]) == if g.Some? then [g.value] else []
  {
    assert [g][1..] == [];
  }

  /** When every group took part, every text is kept, in order. */
  lemma {:induction false} AllParticipate(gs: Groups)
    requires forall i :: 0 <= i < |gs| ==> gs[i].Some?
    ensures |Participating(gs)| == |gs|
    ensures forall i :: 0 <= i < |gs| ==> Participating(gs)[i] == gs[i].value
  {
    if gs != [] {
      AllParticipate(gs[1..]);
    }
  }

  /** Keeping matches preserves their order: the kept groups of a concatenation are concatenated. */
  lemma {:induction false} KeptGroupsAppend(a: seq<Groups>, b: seq<Groups>)
    ensures KeptGroups(a + b) == KeptGroups(a) + KeptGroups(b)
    decreases |b|
  {
    if b == [] {
      assert a + b == a;
    } else {
      var b' := b[..|b| - 1];
      assert (a + b)[..|a + b| - 1] == a + b';
      KeptGroupsAppend(a, b');
    }
  }

  /** A match that captured nothing is dropped and changes nothing else. */
  lemma CapturelessMatchDropped(a: seq<Groups>, m: Groups, b: seq<Groups>)
    requires CapturedTexts(m) == []
    ensures KeptGroups(a + [m] + b) == KeptGroups(a + b)
  {
    assert KeptGroups([m]) == [] by {
      assert [m][..0] == [];
    }
    KeptGroupsAppend(a, [m]);
    assert KeptGroups(a + [m]) == KeptGroups(a);
    KeptGroupsAppend(a + [m], b);
    KeptGroupsAppend(a, b);
  }

  // ---------------------------------------------------------------------------
  // the lines of the snippet

  const Bullet: string := "\U{00B7} "

  /** The phonetic line: `· [` + trimmed phonetic + `]`. */
  function PhoneticLine(phonetic: string): (r: string)
    ensures |r| == |Bullet| + |Trim(phonetic)| + 2
    ensures r[..|Bullet|] == Bullet && r[|Bullet|] == '[' && r[|r| - 1] == ']'
  {
    Bullet + "[" + Trim(phonetic) + "]"
  }

  /** One explanation line: `· ` + part of speech + ` ` + translation. */
  function PairLine(pos: string, trs: string): (r: string)
    ensures |r| == |Bullet| + |pos| + 1 + |trs|
    ensures r[..|Bullet|] == Bullet && r[|Bullet| + |pos|] == ' '
  {
    Bullet + pos + " " + trs
  }

  /** The phonetic pattern matched and captured a text. */
  predicate HasPhonetic(phonetic: Option<seq<string>>) {
    phonetic.Some? && phonetic.value != []
  }

  /** The phonetic line, when the phonetic pattern matched and captured something. */
  function PhoneticLines(phonetic: Option<seq<string>>): (r: seq<string>)
    ensures |r| <= 1
    ensures r != [] <==> HasPhonetic(phonetic)
  {
    if HasPhonetic(phonetic) then [PhoneticLine(phonetic.value[0])] else []
  }

  /** One explanation line per match with at least two captured texts, in match order. */
  function PairLines(ms: seq<seq<string>>): (r: seq<string>)
    ensures |r| <= |ms|
  {
    if ms == [] then []
    else
      var m := ms[|ms| - 1];
      PairLines(ms[..|ms| - 1]) + (if |m| >= 2 then [PairLine(m[0], m[1])] else [])
  }

  /** Every line of the snippet, phonetic line first. */
  function SnippetLines(phonetic: Option<seq<string>>, explains: Option<seq<seq<string>>>): (r: seq<string>)
    ensures r == [] <==> !HasPhonetic(phonetic) && PairLines(if explains.Some? then explains.value else []) == []
  {
    PhoneticLines(phonetic) + PairLines(if explains.Some? then explains.value else [])
  }

  /** The snippet: its lines joined by '\n', or `None` when there is no line at all. */
  function Format(phonetic: Option<seq<string>>, explains: Option<seq<seq<string>>>): (r: Option<string>)
    ensures r.None? <==> !HasPhonetic(phonetic) && PairLines(if explains.Some? then explains.value else []) == []
  {
    var ls := SnippetLines(phonetic, explains);
    if ls == [] then None else Some(JoinLines(ls))
  }

  /** What `parse_bing_response` returns for the given regex results. */
  function BingSnippet(c: Captures): (r: Option<string>)
    ensures HasPhonetic(RegexSearch(c.phonetic)) ==> r.Some?
  {
    Format(RegexSearch(c.phonetic), SearchAllResult(c.explains))
  }

  /** The first loop of `parse_bing_response`: one line per match with at least two captured texts. */
  method ExplanationLines(matches: seq<seq<string>>) returns (explains: seq<string>)
    ensures explains == PairLines(matches)
  {
    explains := [];
    for i := 0 to |matches|
      invariant explains == PairLines(matches[..i])
    {
      var groups := matches[i];
      if |groups| >= 2 {
        explains := explains + [Bullet + groups[0] + " " + groups[1]];
      }
      assert matches[..i + 1][..i] == matches[..i];
    }
    assert matches[..|matches|] == matches;
  }

  /** The second loop of `parse_bing_response`: push each line and a '\n' onto `result`. */
  method PushLines(result: string, lines: seq<string>) returns (r: string)
    ensures r == result + Terminated(lines)
  {
    r := result;
    for j := 0 to |lines|
      invariant r == result + Terminated(lines[..j])
    {
      r := r + lines[j];
      r := r + "\n";
      assert lines[..j + 1] == lines[..j] + [lines[j]];
      TerminatedSnoc(lines[..j], lines[j]);
    }
    assert lines[..|lines|] == lines;
  }

  /** `parse_bing_response` after matching, building the text line by line and dropping the last '\n'. */
  method ParseBingResponse(c: Captures) returns (r: Option<string>)
    ensures r == BingSnippet(c)
  {
    var result: string := "";
    var caps := RegexSearch(c.phonetic);
    if HasPhonetic(caps) {
      var line := Bullet + "[" + Trim(caps.value[0]) + "]\n";
      assert result + line == line;
      result := result + line;
    }
    var explains: seq<string> := [];
    var found := RegexSearchAll(c.explains);
    if found.Some? {
      explains := ExplanationLines(found.value);
    }
    HeaderIsTerminatedPhonetic(caps, result);
    if explains == [] && result == [] {
      return None;
    }
    result := PushLines(result, explains);
    SnippetFromTerminated(caps, found, explains);
    ghost var snippet := Format(caps, found).value;
    assert result == snippet + "\n";
    if |result| > 0 && result[|result| - 1] == '\n' {
      result := result[..|result| - 1];
    }
    assert result == snippet;
    r := Some(result);
  }

  /** The header `parse_bing_response` builds is the phonetic line terminated by '\n', if any. */
  lemma HeaderIsTerminatedPhonetic(caps: Option<seq<string>>, header: string)
    requires header == if HasPhonetic(caps) then Bullet + "[" + Trim(caps.value[0]) + "]\n" else ""
    ensures header == Terminated(PhoneticLines(caps))
    ensures header == [] <==> PhoneticLines(caps) == []
  {
    if HasPhonetic(caps) {
      var line := PhoneticLine(caps.value[0]);
      assert [line][..0] == [];
      assert Terminated([line]) == line + "\n";
    }
  }

  /** Terminating the phonetic line and every pair line, then dropping the final '\n', is the snippet. */
  lemma SnippetFromTerminated(caps: Option<seq<string>>, found: Option<seq<seq<string>>>, explains: seq<string>)
    requires explains == PairLines(if found.Some? then found.value else [])
    requires SnippetLines(caps, found) != []
    ensures Format(caps, found).Some?
    ensures Terminated(PhoneticLines(caps)) + Terminated(explains) == Format(caps, found).value + "\n"
  {
    TerminatedAppend(PhoneticLines(caps), explains);
    TerminatedIsJoinedPlusNewline(SnippetLines(caps, found));
  }

  // ---------------------------------------------------------------------------
  // properties of the snippet

  lemma {:induction false} PairLinesAppend(a: seq<seq<string>>, b: seq<seq<string>>)
    ensures PairLines(a + b) == PairLines(a) + PairLines(b)
    decreases |b|
  {
    if b == [] {
      assert a + b == a;
    } else {
      var b' := b[..|b| - 1];
      assert (a + b)[..|a + b| - 1] == a + b';
      PairLinesAppend(a, b');
    }
  }

  /** A match with fewer than two captured texts contributes no line. */
  lemma ShortMatchIgnored(a: seq<seq<string>>, m: seq<string>, b: seq<seq<string>>)
    requires |m| < 2
    ensures PairLines(a + [m] + b) == PairLines(a + b)
  {
    assert PairLines([m]) == [] by {
      assert [m][..0] == [];
    }
    PairLinesAppend(a, [m]);
    assert PairLines(a + [m]) == PairLines(a);
    PairLinesAppend(a + [m], b);
    PairLinesAppend(a, b);
  }

  /** There is no explanation line exactly when no match has two captured texts. */
  lemma {:induction false} PairLinesEmptyIff(ms: seq<seq<string>>)
    ensures PairLines(ms) == [] <==> forall k :: 0 <= k < |ms| ==> |ms[k]| < 2
  {
    if ms != [] {
      var init := ms[..|ms| - 1];
      PairLinesEmptyIff(init);
      assert forall k :: 0 <= k < |init| ==> init[k] == ms[k];
    }
  }

  /** The snippet is `None` exactly when there is neither a phonetic text nor a (pos, trs) pair. */
  lemma FormatNoneIff(phonetic: Option<seq<string>>, explains: Option<seq<seq<string>>>)
    ensures Format(phonetic, explains).None? <==>
      (!HasPhonetic(phonetic) &&
       (explains.None? || forall k :: 0 <= k < |explains.value| ==> |explains.value[k]| < 2))
  {
    PairLinesEmptyIff(if explains.Some? then explains.value else []);
  }

  /**
   * A snippet is never the empty string: it starts with the bullet of its
   * first line, so for the primary endpoint the "No valid data" check of
   * `fetch_from_bing` never fires.
   */
  lemma SnippetStartsWithBullet(phonetic: Option<seq<string>>, explains: Option<seq<seq<string>>>)
    requires Format(phonetic, explains).Some?
    ensures var t := Format(phonetic, explains).value; |Bullet| <= |t| && t[..|Bullet|] == Bullet
  {
    var ls := SnippetLines(phonetic, explains);
    JoinLinesStartsWithFirst(ls);
    if !HasPhonetic(phonetic) {
      var ms := if explains.Some? then explains.value else [];
      PairLinesStartWithBullet(ms);
      assert ls[0] == PairLines(ms)[0];
    }
  }

  /** Every pair line starts with the bullet. */
  lemma {:induction false} PairLinesStartWithBullet(ms: seq<seq<string>>)
    ensures forall j :: 0 <= j < |PairLines(ms)| ==>
      |Bullet| <= |PairLines(ms)[j]| && PairLines(ms)[j][..|Bullet|] == Bullet
  {
    if ms != [] {
      PairLinesStartWithBullet(ms[..|ms| - 1]);
    }
  }

  /** No captured text of the regex results holds a '\n'. */
  predicate NoNewlines(phonetic: Option<seq<string>>, explains: Option<seq<seq<string>>>) {
    (phonetic.Some? ==> forall i :: 0 <= i < |phonetic.value| ==> HasNoNewline(phonetic.value[i])) &&
    (explains.Some? ==> forall k, i :: 0 <= k < |explains.value| && 0 <= i < |explains.value[k]| ==>
       HasNoNewline(explains.value[k][i]))
  }

  lemma {:induction false} PairLinesHaveNoNewline(ms: seq<seq<string>>)
    requires forall k, i :: 0 <= k < |ms| && 0 <= i < |ms[k]| ==> HasNoNewline(ms[k][i])
    ensures forall j :: 0 <= j < |PairLines(ms)| ==> HasNoNewline(PairLines(ms)[j])
  {
    if ms != [] {
      var init := ms[..|ms| - 1];
      assert forall k :: 0 <= k < |init| ==> init[k] == ms[k];
      PairLinesHaveNoNewline(init);
      var m := ms[|ms| - 1];
      if |m| >= 2 {
        assert HasNoNewline(m[0]) && HasNoNewline(m[1]);
        var line := PairLine(m[0], m[1]);
        assert line == Bullet + m[0] + " " + m[1];
        forall t | 0 <= t < |line| ensures line[t] != '\n' {
          if t >= |Bullet| + |m[0]| + 1 { assert line[t] == m[1][t - |Bullet| - |m[0]| - 1]; }
          else if t >= |Bullet| + |m[0]| { assert line[t] == ' '; }
          else if t >= |Bullet| { assert line[t] == m[0][t - |Bullet|]; }
        }
      }
    }
  }

  lemma PhoneticLineHasNoNewline(p: string)
    requires HasNoNewline(p)
    ensures HasNoNewline(PhoneticLine(p))
  {
    var t := Trim(p);
    var i := LeadingWhitespace(p);
    TrimSpec(p);
    forall k | 0 <= k < |t| ensures t[k] != '\n' {
      assert t[k] == p[i + k];
    }
    var line := PhoneticLine(p);
    assert line == Bullet + "[" + t + "]";
    forall u | 0 <= u < |line| ensures line[u] != '\n' {
      if |Bullet| + 1 <= u < |Bullet| + 1 + |t| { assert line[u] == t[u - |Bullet| - 1]; }
    }
  }

  /**
   * When no captured text holds a '\n' (the regex's `.` never matches one),
   * splitting the snippet on '\n' gives back exactly its lines: the phonetic
   * line first if present, then one line per pair in match order.
   */
  lemma FormatLines(phonetic: Option<seq<string>>, explains: Option<seq<seq<string>>>)
    requires NoNewlines(phonetic, explains)
    requires Format(phonetic, explains).Some?
    ensures SplitLines(Format(phonetic, explains).value) == SnippetLines(phonetic, explains)
  {
    var ms := if explains.Some? then explains.value else [];
    PairLinesHaveNoNewline(ms);
    if HasPhonetic(phonetic) {
      PhoneticLineHasNoNewline(phonetic.value[0]);
    }
    SplitJoinLines(SnippetLines(phonetic, explains));
  }

  /** The phonetic capture of the page for "hello". */
  const HelloPhonetic: string := "h \U{0259} \U{02C8} l o\U{028A}"

  lemma HelloPhoneticLine()
    ensures PhoneticLine(HelloPhonetic) == "\U{00B7} [h \U{0259} \U{02C8} l o\U{028A}]"
  {
    assert LeadingWhitespace(HelloPhonetic) == 0;
    assert TrailingWhitespace(HelloPhonetic) == 0;
    assert Trim(HelloPhonetic) == HelloPhonetic;
  }

  lemma HelloPairLines()
    ensures PairLines([["int.", "hello"]]) == ["\U{00B7} int. hello"]
  {
    var ms := [["int.", "hello"]];
    assert ms[..0] == [];
    assert PairLine("int.", "hello") == "\U{00B7} int. hello";
  }

  /** Example: a phonetic capture and one (pos, trs) pair give two lines. */
  lemma TwoLineExample()
    ensures Format(Some([HelloPhonetic]), Some([["int.", "hello"]]))
         == Some("\U{00B7} [h \U{0259} \U{02C8} l o\U{028A}]\n\U{00B7} int. hello")
  {
    HelloPhoneticLine();
    HelloPairLines();
    var lines := SnippetLines(Some([HelloPhonetic]), Some([["int.", "hello"]]));
    var p := "\U{00B7} [h \U{0259} \U{02C8} l o\U{028A}]";
    assert lines == [p, "\U{00B7} int. hello"];
    assert JoinLines(lines) == p + "\n" + "\U{00B7} int. hello";
    assert Format(Some([HelloPhonetic]), Some([["int.", "hello"]])) == Some(JoinLines(lines));
    assert p + "\n" + "\U{00B7} int. hello" == "\U{00B7} [h \U{0259} \U{02C8} l o\U{028A}]\n\U{00B7} int. hello";
  }
}
