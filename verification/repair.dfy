/** Salvaging a JSON object from the language model's free-text reply
    (`extract_json_from_gemini_response`, identical in the three copies of
    the service apart from the served copy's extra error wrapping).

    The reply is narrowed to a candidate (the body of a ```json fence, or the
    whole reply), the candidate is rewritten by pass 1 and decoded; only if
    that decode fails is the ORIGINAL candidate rewritten by pass 2 and
    decoded again. Both rewrites are modelled as the string operations the
    source performs (`str.replace` twice; one `re.sub`) and are proved equal
    to a position-by-position description of what they do to each
    backslash. */
module Repair {
  import opened Base
  import opened JsonValues

  // ---------------------------------------------------------------------
  // Candidate selection: re.search(r"```json\s*(\{.*\})\s*```", reply, re.DOTALL)
  // ---------------------------------------------------------------------

  const FenceOpen: string := "```json"
  const Fence: string := "```"

  /** First index at or after `p` that does not hold whitespace (`\s*` is
      greedy and the next pattern element is never whitespace, so this is
      the only place the regex can continue). */
  function SkipSpaces(s: string, p: nat): (q: nat)
    requires p <= |s|
    ensures p <= q <= |s|
    ensures forall t | p <= t < q :: IsSpace(s[t])
    ensures q < |s| ==> !IsSpace(s[q])
    decreases |s| - p
  {
    if p < |s| && IsSpace(s[p]) then SkipSpaces(s, p + 1) else p
  }

  /** The pattern can start at `i`: the opening fence, optional whitespace, `{`. */
  predicate OpensAt(s: string, i: nat) {
    && OccursAt(s, FenceOpen, i)
    && SkipSpaces(s, i + |FenceOpen|) < |s|
    && s[SkipSpaces(s, i + |FenceOpen|)] == '{'
  }

  /** Index of the `{` that begins the captured group of a match at `i`. */
  function BodyStart(s: string, i: nat): nat
    requires OpensAt(s, i)
  {
    SkipSpaces(s, i + |FenceOpen|)
  }

  /** The pattern can end with the `}` at `k`: `}`, optional whitespace, the closing fence. */
  predicate ClosesAt(s: string, k: nat) {
    k < |s| && s[k] == '}' && OccursAt(s, Fence, SkipSpaces(s, k + 1))
  }

  /** The pattern matches from index `i` with its group ending at the `}` at `k`. */
  predicate MatchSpan(s: string, i: nat, k: nat) {
    OpensAt(s, i) && BodyStart(s, i) < k && ClosesAt(s, k)
  }

  predicate HasFence(s: string) {
    exists i: nat, k: nat | i < |s| && k < |s| :: MatchSpan(s, i, k)
  }

  /** Where the regex matched: the index of the opening fence and of the
      group's closing `}`. */
  datatype Fenced = Fenced(open: nat, close: nat)

  /** The greedy `.*`: the LAST `}` before index `k` (and after `j`) that can
      close the pattern. */
  function LastClose(s: string, j: nat, k: nat): (r: Option<nat>)
    requires k <= |s|
    ensures r.Some? ==> j < r.value < k && ClosesAt(s, r.value)
    ensures r.Some? ==> forall k' | r.value < k' < k :: !ClosesAt(s, k')
    ensures r.None? ==> forall k' | j < k' < k :: !ClosesAt(s, k')
    decreases k
  {
    if k <= j + 1 then None
    else if ClosesAt(s, k - 1) then Some(k - 1)
    else LastClose(s, j, k - 1)
  }

  /** `re.search` from index `i`: the leftmost start at which the pattern
      matches, and for it the longest group. */
  function SearchFence(s: string, i: nat): (r: Option<Fenced>)
    requires i <= |s|
    ensures r.Some? ==> i <= r.value.open && MatchSpan(s, r.value.open, r.value.close)
    ensures r.Some? ==> forall i', k | i <= i' < r.value.open :: !MatchSpan(s, i', k)
    ensures r.Some? ==> forall k | r.value.close < k :: !MatchSpan(s, r.value.open, k)
    ensures r.None? ==> forall i', k | i <= i' :: !MatchSpan(s, i', k)
    decreases |s| - i
  {
    if i + |FenceOpen| > |s| then None
    else if OpensAt(s, i) then
      match LastClose(s, BodyStart(s, i), |s|)
      case Some(k) => Some(Fenced(i, k))
      case None => SearchFence(s, i + 1)
    else SearchFence(s, i + 1)
  }

  /** The text that gets repaired and decoded: `match.group(1)` when the
      fence pattern matches, else the whole reply. */
  function Candidate(reply: string): (c: string)
    ensures !HasFence(reply) ==> c == reply
    ensures HasFence(reply) ==> 2 <= |c| && c[0] == '{' && c[|c| - 1] == '}'
  {
    match SearchFence(reply, 0)
    case Some(m) =>
      var c := Group(reply, m);
      assert c[0] == reply[BodyStart(reply, m.open)] && c[|c| - 1] == reply[m.close];
      assert HasFence(reply) by {
        assert m.open < |reply| && m.close < |reply| && MatchSpan(reply, m.open, m.close);
      }
      c
    case None => reply
  }

  /** `match.group(1)`: from the `{` to the closing `}`. */
  function Group(s: string, m: Fenced): string
    requires MatchSpan(s, m.open, m.close)
  {
    s[BodyStart(s, m.open)..m.close + 1]
  }

  /** The regex's choice: a match from `i` ending at the `}` at `k`, with no
      match starting further left and no longer group from `i`. */
  predicate LeftmostLongest(s: string, i: nat, k: nat) {
    && MatchSpan(s, i, k)
    && (forall i': nat, k': nat | i' < i && k' < |s| :: !MatchSpan(s, i', k'))
    && (forall k': nat | k < k' < |s| :: !MatchSpan(s, i, k'))
  }

  /** The candidate of a fenced reply is the group of the leftmost match,
      taken as long as the pattern allows. */
  lemma CandidateIsLeftmostLongestGroup(reply: string)
    requires HasFence(reply)
    ensures exists i: nat, k: nat | i < |reply| && k < |reply| ::
              LeftmostLongest(reply, i, k) && Candidate(reply) == reply[BodyStart(reply, i)..k + 1]
  {
    SearchFenceFinds(reply);
    var m := SearchFence(reply, 0).value;
    CandidateOfSearch(reply, m);
    assert LeftmostLongest(reply, m.open, m.close);
  }

  lemma SearchFenceFinds(reply: string)
    requires HasFence(reply)
    ensures SearchFence(reply, 0).Some?
  {
    var i: nat, k: nat :| i < |reply| && k < |reply| && MatchSpan(reply, i, k);
  }

  lemma CandidateOfSearch(reply: string, m: Fenced)
    requires SearchFence(reply, 0) == Some(m)
    ensures m.open < |reply| && m.close < |reply| && MatchSpan(reply, m.open, m.close)
    ensures Candidate(reply) == Group(reply, m)
  {
  }

  // ---------------------------------------------------------------------
  // The two rewrites, as the source writes them
  // ---------------------------------------------------------------------

  /** `s.replace("\\", "\\\\")`: every backslash doubled. */
  function DoubleBackslashes(s: string): (r: string)
    ensures |r| == |s| + CountChar(s, '\\')
    ensures DropChar(r, '\\') == DropChar(s, '\\')
  {
    if |s| == 0 then ""
    else if s[0] == '\\' then
      assert DropChar("\\\\" + DoubleBackslashes(s[1..]), '\\') == DropChar(DoubleBackslashes(s[1..]), '\\') by {
        DropCharAppend("\\\\", DoubleBackslashes(s[1..]), '\\');
      }
      "\\\\" + DoubleBackslashes(s[1..])
    else
      assert DropChar([s[0]] + DoubleBackslashes(s[1..]), '\\') == [s[0]] + DropChar(DoubleBackslashes(s[1..]), '\\') by {
        DropCharAppend([s[0]], DoubleBackslashes(s[1..]), '\\');
      }
      [s[0]] + DoubleBackslashes(s[1..])
  }

  /** Python's `s.replace(pat, rep)` for a non-empty `pat`: occurrences are
      found left to right and do not overlap. */
  function ReplaceAll(s: string, pat: string, rep: string): (r: string)
    requires |pat| > 0
    ensures (forall i: nat :: !OccursAt(s, pat, i)) ==> r == s
    decreases |s|
  {
    if |s| == 0 then ""
    else if |pat| <= |s| && s[..|pat|] == pat then
      assert OccursAt(s, pat, 0);
      rep + ReplaceAll(s[|pat|..], pat, rep)
    else
      assert forall i: nat :: OccursAt(s[1..], pat, i) ==> OccursAt(s, pat, i + 1) by {
        forall i: nat | OccursAt(s[1..], pat, i)
          ensures OccursAt(s, pat, i + 1)
        {
          assert s[1..][i..i + |pat|] == s[i + 1..i + 1 + |pat|];
        }
      }
      [s[0]] + ReplaceAll(s[1..], pat, rep)
  }

  /** `\\"`: what a backslash before a quote has become after doubling. */
  const DoubledBeforeQuote: string := "\\\\\""
  /** `\"`: what pass 1 puts back in its place. */
  const EscapedQuote: string := "\\\""

  /** Pass 1: double every backslash, then turn each `\\"` back into `\"`. */
  function Pass1(candidate: string): string {
    ReplaceAll(DoubleBackslashes(candidate), DoubledBeforeQuote, EscapedQuote)
  }

  /** A character JSON allows after a backslash: the class `"\/bfnrtu`. */
  predicate JsonEscapable(c: char) {
    c in "\"\\/bfnrtu"
  }

  /** Pass 2: `re.sub(r'\\([^"\\/bfnrtu])', r'\\\\\1', candidate)`. The
      scan runs left to right; a match consumes the backslash and the
      character after it, a failed position moves on by one character. */
  function Pass2(s: string): string
    decreases |s|
  {
    if |s| == 0 then ""
    else if 2 <= |s| && s[0] == '\\' && !JsonEscapable(s[1]) then "\\\\" + [s[1]] + Pass2(s[2..])
    else [s[0]] + Pass2(s[1..])
  }

  // ---------------------------------------------------------------------
  // Position-by-position reference for both rewrites
  // ---------------------------------------------------------------------

  /** Which backslashes a rewrite doubles: `s.replace("\\", "\\\\")`
      every one; pass 1 every one except one right before `"`; pass 2 only
      a backslash followed by a character that cannot follow a backslash in
      JSON (so never a trailing one). */
  datatype Rule = Every | UnlessBeforeQuote | OnlyInvalidEscape

  predicate Doubles(rule: Rule, s: string, i: nat)
    requires i < |s|
  {
    && s[i] == '\\'
    && match rule
       case Every => true
       case UnlessBeforeQuote => !(i + 1 < |s| && s[i + 1] == '"')
       case OnlyInvalidEscape => i + 1 < |s| && !JsonEscapable(s[i + 1])
  }

  /** What position `i` of the input turns into. */
  function Emit(rule: Rule, s: string, i: nat): string
    requires i < |s|
  {
    if Doubles(rule, s, i) then "\\\\" else [s[i]]
  }

  /** The rewrite of `s[i..]`, one input position at a time. */
  function ExpandFrom(rule: Rule, s: string, i: nat): string
    requires i <= |s|
    decreases |s| - i
  {
    if i == |s| then "" else Emit(rule, s, i) + ExpandFrom(rule, s, i + 1)
  }

  function Expand(rule: Rule, s: string): string {
    ExpandFrom(rule, s, 0)
  }

  // ---------------------------------------------------------------------
  // The source's rewrites agree with the reference
  // ---------------------------------------------------------------------

  lemma DoubleUnfold(s: string)
    requires |s| > 0
    ensures s[0] == '\\' ==> DoubleBackslashes(s) == "\\\\" + DoubleBackslashes(s[1..])
    ensures s[0] != '\\' ==> DoubleBackslashes(s) == [s[0]] + DoubleBackslashes(s[1..])
  {
  }

  /** A string that does not start with the pattern keeps its first character. */
  lemma ReplaceSkipsFront(s: string, pat: string, rep: string)
    requires |pat| > 0 && |s| > 0
    requires |s| < |pat| || s[..|pat|] != pat
    ensures ReplaceAll(s, pat, rep) == [s[0]] + ReplaceAll(s[1..], pat, rep)
  {
  }

  /** Neither of the first two positions starts the pattern: both
      characters are copied. */
  lemma ReplaceSkipsTwo(s: string, pat: string, rep: string)
    requires |pat| > 0 && |s| >= 2
    requires |s| < |pat| || s[..|pat|] != pat
    requires |s| - 1 < |pat| || s[1..][..|pat|] != pat
    ensures ReplaceAll(s, pat, rep) == s[..2] + ReplaceAll(s[2..], pat, rep)
  {
    var t := s[1..];
    var r := ReplaceAll(s[2..], pat, rep);
    ReplaceSkipsFront(s, pat, rep);
    assert t[1..] == s[2..];
    ReplaceSkipsFront(t, pat, rep);
    assert ReplaceAll(t, pat, rep) == [s[1]] + r;
    assert forall k | 0 <= k < |r| + 2 :: ([s[0]] + ([s[1]] + r))[k] == (s[..2] + r)[k];
  }

  /** After doubling, a backslash that is not followed by `"` never lets the
      replacement of `\\"` reach across it. */
  lemma {:induction false} ReplaceSkipsDoubledBackslash(u: string)
    requires |u| == 0 || u[0] != '"'
    ensures ReplaceAll("\\\\" + DoubleBackslashes(u), DoubledBeforeQuote, EscapedQuote)
            == "\\\\" + ReplaceAll(DoubleBackslashes(u), DoubledBeforeQuote, EscapedQuote)
  {
    var du := DoubleBackslashes(u);
    var s := "\\\\" + du;
    assert s[..2] == "\\\\" && s[2..] == du;
    assert |s| < 3 || s[..3] != DoubledBeforeQuote by {
      if 3 <= |s| {
        DoubleUnfold(u);
        assert s[..3][2] == du[0] == u[0] != DoubledBeforeQuote[2];
      }
    }
    assert |s| - 1 < 3 || s[1..][..3] != DoubledBeforeQuote by {
      if 4 <= |s| {
        DoubleUnfold(u);
        if u[0] == '\\' {
          assert s[1..][..3][2] == du[1] == '\\' != DoubledBeforeQuote[2];
        } else {
          assert s[1..][..3][1] == du[0] == u[0] != DoubledBeforeQuote[1];
        }
      }
    }
    ReplaceSkipsTwo(s, DoubledBeforeQuote, EscapedQuote);
  }

  /** A character other than a backslash is copied by both steps of pass 1. */
  lemma Pass1Plain(c: string, i: nat)
    requires i < |c| && c[i] != '\\'
    requires ReplaceAll(DoubleBackslashes(c[i + 1..]), DoubledBeforeQuote, EscapedQuote)
             == ExpandFrom(UnlessBeforeQuote, c, i + 1)
    ensures ReplaceAll(DoubleBackslashes(c[i..]), DoubledBeforeQuote, EscapedQuote)
            == ExpandFrom(UnlessBeforeQuote, c, i)
  {
    var t := c[i..];
    assert t[0] == c[i] && t[1..] == c[i + 1..];
    DoubleUnfold(t);
    var d := DoubleBackslashes(t);
    assert d == [c[i]] + DoubleBackslashes(c[i + 1..]);
    assert d[0] == c[i] != DoubledBeforeQuote[0];
    assert !(|DoubledBeforeQuote| <= |d| && d[..|DoubledBeforeQuote|] == DoubledBeforeQuote) by {
      if |DoubledBeforeQuote| <= |d| {
        assert d[..|DoubledBeforeQuote|][0] != DoubledBeforeQuote[0];
      }
    }
    assert d[1..] == DoubleBackslashes(c[i + 1..]);
    assert ReplaceAll(d, DoubledBeforeQuote, EscapedQuote)
           == [c[i]] + ReplaceAll(DoubleBackslashes(c[i + 1..]), DoubledBeforeQuote, EscapedQuote);
    assert Emit(UnlessBeforeQuote, c, i) == [c[i]];
  }

  /** A string that starts with the pattern has its first occurrence there. */
  lemma ReplaceAtFront(pat: string, rep: string, rest: string)
    requires |pat| > 0
    ensures ReplaceAll(pat + rest, pat, rep) == rep + ReplaceAll(rest, pat, rep)
  {
    var s := pat + rest;
    assert s[..|pat|] == pat;
    assert s[|pat|..] == rest;
  }

  /** Doubling turns a backslash before `"` into `\\"`. */
  lemma DoubleBeforeQuote(c: string, i: nat)
    requires i + 1 < |c| && c[i] == '\\' && c[i + 1] == '"'
    ensures DoubleBackslashes(c[i..]) == DoubledBeforeQuote + DoubleBackslashes(c[i + 2..])
  {
    var t := c[i..];
    assert t[0] == c[i] && t[1] == c[i + 1] && t[2..] == c[i + 2..];
    DoubleQuotePair(t);
  }

  lemma DoubleQuotePair(t: string)
    requires 2 <= |t| && t[0] == '\\' && t[1] == '"'
    ensures DoubleBackslashes(t) == DoubledBeforeQuote + DoubleBackslashes(t[2..])
  {
    var u := t[1..];
    assert u[0] == '"' && u[1..] == t[2..];
    DoubleUnfold(t);
    DoubleUnfold(u);
    var rest := DoubleBackslashes(t[2..]);
    assert DoubleBackslashes(t) == "\\\\" + (['"'] + rest);
    PrefixQuotePair(rest);
  }

  lemma PrefixQuotePair(rest: string)
    ensures "\\\\" + (['"'] + rest) == DoubledBeforeQuote + rest
  {
    var d := "\\\\" + (['"'] + rest);
    assert d[..3] == DoubledBeforeQuote && d[3..] == rest;
    assert d == d[..3] + d[3..];
  }

  /** The reference keeps a backslash before `"` and the quote as they are. */
  lemma ExpandBeforeQuote(c: string, i: nat)
    requires i + 1 < |c| && c[i] == '\\' && c[i + 1] == '"'
    ensures ExpandFrom(UnlessBeforeQuote, c, i) == EscapedQuote + ExpandFrom(UnlessBeforeQuote, c, i + 2)
  {
    assert Emit(UnlessBeforeQuote, c, i) == "\\";
    assert Emit(UnlessBeforeQuote, c, i + 1) == "\"";
  }

  /** A backslash before `"` is doubled and then collapsed back. */
  lemma Pass1BeforeQuote(c: string, i: nat)
    requires i + 1 < |c| && c[i] == '\\' && c[i + 1] == '"'
    requires ReplaceAll(DoubleBackslashes(c[i + 2..]), DoubledBeforeQuote, EscapedQuote)
             == ExpandFrom(UnlessBeforeQuote, c, i + 2)
    ensures ReplaceAll(DoubleBackslashes(c[i..]), DoubledBeforeQuote, EscapedQuote)
            == ExpandFrom(UnlessBeforeQuote, c, i)
  {
    DoubleBeforeQuote(c, i);
    ReplaceAtFront(DoubledBeforeQuote, EscapedQuote, DoubleBackslashes(c[i + 2..]));
    ExpandBeforeQuote(c, i);
  }

  lemma {:induction false} Pass1From(c: string, i: nat)
    requires i <= |c|
    ensures ReplaceAll(DoubleBackslashes(c[i..]), DoubledBeforeQuote, EscapedQuote)
            == ExpandFrom(UnlessBeforeQuote, c, i)
    decreases |c| - i
  {
    if i < |c| {
      Pass1From(c, i + 1);
      if c[i] != '\\' {
        Pass1Plain(c, i);
      } else if i + 1 < |c| && c[i + 1] == '"' {
        Pass1From(c, i + 2);
        Pass1BeforeQuote(c, i);
      } else {
        var t := c[i..];
        assert t[0] == c[i] && t[1..] == c[i + 1..];
        DoubleUnfold(t);
        ReplaceSkipsDoubledBackslash(c[i + 1..]);
      }
    }
  }

  lemma {:induction false} DoubleBackslashesFrom(s: string, i: nat)
    requires i <= |s|
    ensures DoubleBackslashes(s[i..]) == ExpandFrom(Every, s, i)
    decreases |s| - i
  {
    if i < |s| {
      var t := s[i..];
      assert t[0] == s[i] && t[1..] == s[i + 1..];
      DoubleBackslashesFrom(s, i + 1);
    }
  }

  /** The first rewrite of pass 1 doubles each backslash, wherever it
      stands, and copies every other character. */
  lemma DoubleBackslashesDoublesEach(s: string)
    ensures DoubleBackslashes(s) == Expand(Every, s)
  {
    assert s[0..] == s;
    DoubleBackslashesFrom(s, 0);
  }

  /** Pass 1 doubles every backslash except one immediately before `"`,
      and changes nothing else. */
  lemma Pass1Doubles(candidate: string)
    ensures Pass1(candidate) == Expand(UnlessBeforeQuote, candidate)
  {
    assert candidate[0..] == candidate;
    Pass1From(candidate, 0);
  }

  lemma {:induction false} Pass2From(c: string, i: nat)
    requires i <= |c|
    ensures Pass2(c[i..]) == ExpandFrom(OnlyInvalidEscape, c, i)
    decreases |c| - i
  {
    if i < |c| {
      var t := c[i..];
      assert t[0] == c[i] && t[1..] == c[i + 1..];
      Pass2From(c, i + 1);
      if 2 <= |t| && t[0] == '\\' && !JsonEscapable(t[1]) {
        assert t[1] == c[i + 1] && t[2..] == c[i + 2..];
        Pass2From(c, i + 2);
        assert c[i + 1] != '\\';
        assert ExpandFrom(OnlyInvalidEscape, c, i + 1) == [c[i + 1]] + ExpandFrom(OnlyInvalidEscape, c, i + 2);
      }
    }
  }

  /** Pass 2 adds one backslash before each backslash whose next character is
      outside `"\/bfnrtu`; a trailing backslash and every other character
      are copied unchanged. */
  lemma Pass2Doubles(candidate: string)
    ensures Pass2(candidate) == Expand(OnlyInvalidEscape, candidate)
  {
    assert candidate[0..] == candidate;
    Pass2From(candidate, 0);
  }

  // ---------------------------------------------------------------------
  // What the reference says about both passes
  // ---------------------------------------------------------------------

  lemma {:induction false} ExpandFromKeepsOthers(rule: Rule, s: string, i: nat)
    requires i <= |s|
    ensures DropChar(ExpandFrom(rule, s, i), '\\') == DropChar(s[i..], '\\')
    decreases |s| - i
  {
    if i < |s| {
      ExpandFromKeepsOthers(rule, s, i + 1);
      DropCharAppend(Emit(rule, s, i), ExpandFrom(rule, s, i + 1), '\\');
      assert s[i..] == [s[i]] + s[i + 1..];
      DropCharAppend([s[i]], s[i + 1..], '\\');
      if Doubles(rule, s, i) {
        assert DropChar(Emit(rule, s, i), '\\') == "";
        assert DropChar([s[i]], '\\') == "";
      }
    }
  }

  lemma {:induction false} ExpandFromIdentity(rule: Rule, s: string, i: nat)
    requires i <= |s|
    requires '\\' !in s
    ensures ExpandFrom(rule, s, i) == s[i..]
    decreases |s| - i
  {
    if i < |s| {
      ExpandFromIdentity(rule, s, i + 1);
      assert s[i..] == [s[i]] + s[i + 1..];
    }
  }

  /** A stretch without backslashes is copied as it stands. */
  lemma {:induction false} ExpandFromPlainTail(rule: Rule, s: string, i: nat)
    requires i <= |s|
    requires forall k | i <= k < |s| :: s[k] != '\\'
    ensures ExpandFrom(rule, s, i) == s[i..]
    decreases |s| - i
  {
    if i < |s| {
      ExpandFromPlainTail(rule, s, i + 1);
      assert s[i..] == [s[i]] + s[i + 1..];
    }
  }

  /** Neither pass adds, removes or reorders anything but backslashes; in
      particular the number of `"` characters is unchanged. */
  lemma RepairOnlyTouchesBackslashes(candidate: string)
    ensures DropChar(Pass1(candidate), '\\') == DropChar(candidate, '\\')
    ensures DropChar(Pass2(candidate), '\\') == DropChar(candidate, '\\')
    ensures CountChar(Pass1(candidate), '"') == CountChar(candidate, '"')
    ensures CountChar(Pass2(candidate), '"') == CountChar(candidate, '"')
  {
    assert candidate[0..] == candidate;
    Pass1Doubles(candidate);
    Pass2Doubles(candidate);
    ExpandFromKeepsOthers(UnlessBeforeQuote, candidate, 0);
    ExpandFromKeepsOthers(OnlyInvalidEscape, candidate, 0);
    CountSurvivesDrop(Pass1(candidate), '\\', '"');
    CountSurvivesDrop(Pass2(candidate), '\\', '"');
    CountSurvivesDrop(candidate, '\\', '"');
  }

  /** A candidate without backslashes goes through both passes unchanged. */
  lemma RepairKeepsBackslashFree(candidate: string)
    requires '\\' !in candidate
    ensures Pass1(candidate) == candidate
    ensures Pass2(candidate) == candidate
  {
    assert candidate[0..] == candidate;
    Pass1Doubles(candidate);
    Pass2Doubles(candidate);
    ExpandFromIdentity(UnlessBeforeQuote, candidate, 0);
    ExpandFromIdentity(OnlyInvalidEscape, candidate, 0);
  }

  // ---------------------------------------------------------------------
  // extract_json_from_gemini_response
  // ---------------------------------------------------------------------

  /** The served copy (backend/main.py) wraps the whole body in a second
      `try` whose handler raises a new ValueError around any error; the
      other two copies let the inner ValueError through. */
  datatype Variant = Served | Standalone

  const DecodeFailure: string := "Error decoding JSON from Gemini response: "
  const AdditionalError: string := ". Additional error: "

  /** Where the pieces of a message `p + (q + (a + (sep + b)))` sit: `p` at
      the start, and `a` and `b` somewhere inside. */
  lemma MessageShape(p: string, q: string, a: string, sep: string, b: string)
    ensures OccursAt(p + (q + (a + (sep + b))), p, 0)
    ensures Contains(p + (q + (a + (sep + b))), a) && Contains(p + (q + (a + (sep + b))), b)
  {
    var m := p + (q + (a + (sep + b)));
    assert m[..|p|] == p;
    assert m[|p| + |q|..|p| + |q| + |a|] == a;
    assert OccursAt(m, a, |p| + |q|);
    assert m[|m| - |b|..|m|] == b;
    assert OccursAt(m, b, |m| - |b|);
  }

  /** The text of the ValueError raised when both decodes fail. */
  function BothFailedMessage(first: string, second: string, variant: Variant): (m: string)
    ensures OccursAt(m, DecodeFailure, 0)
    ensures Contains(m, first) && Contains(m, second)
  {
    var again := if variant == Served then DecodeFailure else "";
    MessageShape(DecodeFailure, again, first, AdditionalError, second);
    DecodeFailure + (again + (first + (AdditionalError + second)))
  }

  /** Decode the reply: pass 1 on the candidate; if and only if that decode
      fails, pass 2 on the original candidate; if that fails too, a
      ValueError that quotes both decode errors. */
  function ExtractJson(reply: string, decode: Decoder, variant: Variant): (r: Result<Json, string>)
    ensures decode(Pass1(Candidate(reply))).Ok? ==> r == decode(Pass1(Candidate(reply)))
    ensures decode(Pass1(Candidate(reply))).Err? ==> r.Ok? == decode(Pass2(Candidate(reply))).Ok?
    ensures decode(Pass1(Candidate(reply))).Err? && r.Ok? ==> r == decode(Pass2(Candidate(reply)))
    ensures r.Err? ==> OccursAt(r.error, DecodeFailure, 0)
    ensures r.Err? ==> Contains(r.error, decode(Pass1(Candidate(reply))).error)
    ensures r.Err? ==> Contains(r.error, decode(Pass2(Candidate(reply))).error)
  {
    var candidate := Candidate(reply);
    match decode(Pass1(candidate))
    case Ok(data) => Ok(data)
    case Err(first) =>
      match decode(Pass2(candidate))
      case Ok(data) => Ok(data)
      case Err(second) => Err(BothFailedMessage(first, second, variant))
  }

  /** The served copy's message carries the prefix twice, once from each
      `raise`; the other copies carry it once. */
  lemma ErrorPrefixPerVariant(reply: string, decode: Decoder)
    ensures ExtractJson(reply, decode, Served).Err? <==> ExtractJson(reply, decode, Standalone).Err?
    ensures ExtractJson(reply, decode, Served).Ok? ==>
              ExtractJson(reply, decode, Served) == ExtractJson(reply, decode, Standalone)
    ensures ExtractJson(reply, decode, Served).Err? ==>
              ExtractJson(reply, decode, Served).error == DecodeFailure + ExtractJson(reply, decode, Standalone).error
  {
    var candidate := Candidate(reply);
    if decode(Pass1(candidate)).Err? && decode(Pass2(candidate)).Err? {
      var first := decode(Pass1(candidate)).error;
      var second := decode(Pass2(candidate)).error;
      var tail := first + (AdditionalError + second);
      assert "" + tail == tail;
      assert ExtractJson(reply, decode, Standalone).error == DecodeFailure + tail;
      assert ExtractJson(reply, decode, Served).error == DecodeFailure + (DecodeFailure + tail);
    }
  }

  // ---------------------------------------------------------------------
  // Pass 1 and escapes that are already valid
  // ---------------------------------------------------------------------

  /** A JSON string literal holding a newline, written with the `\n`
      escape. */
  const NewlineLiteral: string := "\"\\n\""

  /** Pass 1 as written doubles the backslash of the valid escape `\n`, so
      the first decode sees a backslash followed by `n` instead of a
      newline. */
  lemma Pass1DoublesValidEscape()
    ensures EscapesValid(NewlineLiteral)
    ensures Pass1(NewlineLiteral) == "\"\\\\n\""
    ensures Pass1(NewlineLiteral) != NewlineLiteral
  {
    var c := NewlineLiteral;
    Pass1Doubles(c);
    assert ExpandFrom(UnlessBeforeQuote, c, 4) == "";
    assert ExpandFrom(UnlessBeforeQuote, c, 3) == "\"";
    assert ExpandFrom(UnlessBeforeQuote, c, 2) == "n\"";
    assert ExpandFrom(UnlessBeforeQuote, c, 1) == "\\\\n\"";
  }

  lemma {:induction false} ExpandFromNotShorter(rule: Rule, s: string, i: nat)
    requires i <= |s|
    ensures |ExpandFrom(rule, s, i)| >= |s| - i
    decreases |s| - i
  {
    if i < |s| {
      ExpandFromNotShorter(rule, s, i + 1);
    }
  }

  lemma {:induction false} ExpandFromGrows(rule: Rule, s: string, i: nat, j: nat)
    requires i <= j < |s| && Doubles(rule, s, j)
    ensures |ExpandFrom(rule, s, i)| > |s| - i
    decreases j - i
  {
    if i == j {
      ExpandFromNotShorter(rule, s, i + 1);
    } else {
      ExpandFromGrows(rule, s, i + 1, j);
    }
  }

  /** Any backslash that is not directly before `"` makes pass 1 lengthen
      the text, valid escapes such as `\n`, `\t` or `\\` included. */
  lemma Pass1AltersEscapesOtherThanQuote(c: string, j: nat)
    requires j < |c| && c[j] == '\\'
    requires !(j + 1 < |c| && c[j + 1] == '"')
    ensures |Pass1(c)| > |c|
  {
    Pass1Doubles(c);
    ExpandFromGrows(UnlessBeforeQuote, c, 0, j);
  }

  /** Backslashes used the way JSON allows: each one starts a two-character
      escape whose second character is in `"\/bfnrtu`. */
  predicate EscapesValid(s: string)
    decreases |s|
  {
    if |s| == 0 then true
    else if s[0] == '\\' then 2 <= |s| && JsonEscapable(s[1]) && EscapesValid(s[2..])
    else EscapesValid(s[1..])
  }

  /** A proposed first pass that treats escapes as pass 2 does: a backslash
      that starts a valid escape is kept together with the character after
      it; any other backslash is doubled. The comment on pass 1 asks for
      every backslash to be doubled, and only `\"` is exempted there, so
      this is a proposal and not what that comment states. */
  function EscapeStrayBackslashes(s: string): (r: string)
    ensures DropChar(r, '\\') == DropChar(s, '\\')
    decreases |s|
  {
    if |s| == 0 then ""
    else if s[0] == '\\' && 2 <= |s| && JsonEscapable(s[1]) then
      DropCharAppend(s[..2], EscapeStrayBackslashes(s[2..]), '\\');
      DropCharAppend(s[..2], s[2..], '\\');
      assert s == s[..2] + s[2..];
      s[..2] + EscapeStrayBackslashes(s[2..])
    else if s[0] == '\\' then
      DropCharAppend("\\\\", EscapeStrayBackslashes(s[1..]), '\\');
      DropCharAppend([s[0]], s[1..], '\\');
      assert s == [s[0]] + s[1..];
      "\\\\" + EscapeStrayBackslashes(s[1..])
    else
      DropCharAppend([s[0]], EscapeStrayBackslashes(s[1..]), '\\');
      DropCharAppend([s[0]], s[1..], '\\');
      assert s == [s[0]] + s[1..];
      [s[0]] + EscapeStrayBackslashes(s[1..])
  }

  /** Text whose escapes are all valid comes through unchanged. */
  lemma {:induction false} StrayEscapingKeepsValidText(s: string)
    requires EscapesValid(s)
    ensures EscapeStrayBackslashes(s) == s
    decreases |s|
  {
    if |s| == 0 {
    } else if s[0] == '\\' {
      StrayEscapingKeepsValidText(s[2..]);
      assert s == s[..2] + s[2..];
    } else {
      StrayEscapingKeepsValidText(s[1..]);
      assert s == [s[0]] + s[1..];
    }
  }

  /** Whatever the input, the output's escapes are all valid. */
  lemma {:induction false} StrayEscapingMakesValidText(s: string)
    ensures EscapesValid(EscapeStrayBackslashes(s))
    decreases |s|
  {
    if |s| == 0 {
    } else if s[0] == '\\' && 2 <= |s| && JsonEscapable(s[1]) {
      StrayEscapingMakesValidText(s[2..]);
      var r := EscapeStrayBackslashes(s);
      assert r[2..] == EscapeStrayBackslashes(s[2..]);
    } else if s[0] == '\\' {
      StrayEscapingMakesValidText(s[1..]);
      var r := EscapeStrayBackslashes(s);
      assert r[2..] == EscapeStrayBackslashes(s[1..]);
    } else {
      StrayEscapingMakesValidText(s[1..]);
      var r := EscapeStrayBackslashes(s);
      assert r[1..] == EscapeStrayBackslashes(s[1..]);
    }
  }

  /** `extract_json_from_gemini_response` with the proposed first pass
      `EscapeStrayBackslashes` in place of pass 1. */
  function ExtractJsonIntended(reply: string, decode: Decoder, variant: Variant): (r: Result<Json, string>)
    ensures EscapesValid(Candidate(reply)) && decode(Candidate(reply)).Ok? ==> r == decode(Candidate(reply))
    ensures decode(EscapeStrayBackslashes(Candidate(reply))).Err? ==> r.Ok? == decode(Pass2(Candidate(reply))).Ok?
    ensures r.Err? ==> OccursAt(r.error, DecodeFailure, 0)
  {
    var candidate := Candidate(reply);
    assert EscapesValid(candidate) ==> EscapeStrayBackslashes(candidate) == candidate by {
      if EscapesValid(candidate) {
        StrayEscapingKeepsValidText(candidate);
      }
    }
    match decode(EscapeStrayBackslashes(candidate))
    case Ok(data) => Ok(data)
    case Err(first) =>
      match decode(Pass2(candidate))
      case Ok(data) => Ok(data)
      case Err(second) => Err(BothFailedMessage(first, second, variant))
  }

  /** For the one-string reply above, the source decodes the altered text
      while the routine with the proposed pass decodes the reply itself. */
  lemma NewlineEscapeDecodedDifferently(decode: Decoder, variant: Variant)
    requires decode(Pass1(NewlineLiteral)).Ok? && decode(NewlineLiteral).Ok?
    ensures ExtractJson(NewlineLiteral, decode, variant) == decode("\"\\\\n\"")
    ensures ExtractJsonIntended(NewlineLiteral, decode, variant) == decode(NewlineLiteral)
  {
    Pass1DoublesValidEscape();
    assert !HasFence(NewlineLiteral);
  }

  /** Text without backslashes has only valid escapes. */
  lemma {:induction false} PlainEscapesValid(s: string)
    requires '\\' !in s
    ensures EscapesValid(s)
    decreases |s|
  {
    if |s| > 0 {
      assert s == [s[0]] + s[1..];
      PlainEscapesValid(s[1..]);
    }
  }

  /** The price of the proposal. A string literal whose one backslash
      starts a valid escape other than `\"`, such as the `\f` of LaTeX
      `\frac` written by a model that did not escape it: pass 1 as written
      doubles the backslash and so keeps the literal command, while the
      proposed pass keeps the escape, which for `\frac` decodes as a form
      feed followed by `rac`. */
  lemma {:induction false} ValidEscapeTradeOff(e: char, rest: string)
    requires JsonEscapable(e) && e != '"' && e != '\\'
    requires '\\' !in rest
    ensures Pass1("\"\\" + [e] + rest) == "\"\\\\" + [e] + rest
    ensures EscapesValid("\"\\" + [e] + rest)
    ensures EscapeStrayBackslashes("\"\\" + [e] + rest) == "\"\\" + [e] + rest
  {
    var c := "\"\\" + [e] + rest;
    Pass1Doubles(c);
    ExpandFromPlainTail(UnlessBeforeQuote, c, 2);
    assert Doubles(UnlessBeforeQuote, c, 1);
    assert c[2..] == [e] + rest;
    assert ExpandFrom(UnlessBeforeQuote, c, 1) == "\\\\" + c[2..];
    assert ExpandFrom(UnlessBeforeQuote, c, 0) == "\"" + ExpandFrom(UnlessBeforeQuote, c, 1);
    PlainEscapesValid(rest);
    assert c[1..][2..] == rest;
    assert c[1..][0] == '\\' && c[1..][1] == e;
    assert EscapesValid(c[1..]);
    StrayEscapingKeepsValidText(c);
  }

}
