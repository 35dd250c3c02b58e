/** Series.str.replace(pattern, "", regex=True) for the two type-tag patterns
    of the parent-id rewrite: every non-overlapping match, scanning left to
    right, is removed. Both patterns have the shape `t`, a fixed lead-in, one
    or more repeats of one character class, then `_`. */
module ParentIds {

  /** DigitTag is `t[0-9]+_` (strip a Reddit type tag such as t1_ or t3_).
      LiteralTag is what the raw string r"t\\d+_" denotes as a regular
      expression: `t`, a backslash, one or more `d`, then `_`. */
  datatype TagPattern = DigitTag | LiteralTag

  function LeadIn(p: TagPattern): string {
    match p
    case DigitTag => ""
    case LiteralTag => "\\"
  }

  predicate Repeats(p: TagPattern, c: char) {
    match p
    case DigitTag => '0' <= c <= '9'
    case LiteralTag => c == 'd'
  }

  /** Length of the longest run of repeat characters at the start of s. */
  function RunLength(p: TagPattern, s: string): (k: nat)
    ensures k <= |s|
    ensures forall i :: 0 <= i < k ==> Repeats(p, s[i])
    ensures k < |s| ==> !Repeats(p, s[k])
  {
    if s != [] && Repeats(p, s[0]) then 1 + RunLength(p, s[1..]) else 0
  }

  /** s[i..j] is a match of the pattern. */
  predicate MatchAt(p: TagPattern, s: string, i: int, j: int) {
    var lead := LeadIn(p);
    && 0 <= i && i + 2 + |lead| < j <= |s|
    && s[i] == 't'
    && s[i + 1..i + 1 + |lead|] == lead
    && (forall k :: i + 1 + |lead| <= k < j - 1 ==> Repeats(p, s[k]))
    && s[j - 1] == '_'
  }

  predicate HasMatch(p: TagPattern, s: string) {
    exists i, j | 0 <= i < j <= |s| :: MatchAt(p, s, i, j)
  }

  /** Length of the match at the start of s, or 0 when there is none. */
  function MatchLength(p: TagPattern, s: string): (m: nat)
    ensures m <= |s|
    ensures m > 0 <==> exists j :: MatchAt(p, s, 0, j)
    ensures m > 0 ==> MatchAt(p, s, 0, m)
  {
    MatchIsLongestRun(p, s);
    var lead := LeadIn(p);
    if |s| < 1 + |lead| || s[0] != 't' || s[1..1 + |lead|] != lead then
      0
    else
      var k := RunLength(p, s[1 + |lead|..]);
      var m := 1 + |lead| + k + 1;
      if k >= 1 && m <= |s| && s[m - 1] == '_' then
        assert MatchAt(p, s, 0, m);
        m
      else
        0
  }

  /** The repeat class never holds `_`, so a match at the start of s must end
      just after the longest run of repeats: the greedy run is the only candidate. */
  lemma MatchIsLongestRun(p: TagPattern, s: string)
    ensures forall j :: MatchAt(p, s, 0, j) ==>
      && 1 + |LeadIn(p)| <= |s|
      && s[1..1 + |LeadIn(p)|] == LeadIn(p)
      && j == 2 + |LeadIn(p)| + RunLength(p, s[1 + |LeadIn(p)|..])
  {
    var lead := LeadIn(p);
    forall j | MatchAt(p, s, 0, j)
      ensures 1 + |lead| <= |s| && s[1..1 + |lead|] == lead
      ensures j == 2 + |lead| + RunLength(p, s[1 + |lead|..])
    {
      RunCovers(p, s[1 + |lead|..], j - 2 - |lead|);
    }
  }

  /** A run of repeats ended by `_` is the longest run. */
  lemma {:induction false} RunCovers(p: TagPattern, s: string, k: nat)
    requires k < |s| && s[k] == '_'
    requires forall i :: 0 <= i < k ==> Repeats(p, s[i])
    ensures RunLength(p, s) == k
  {
    if k > 0 {
      RunCovers(p, s[1..], k - 1);
    }
  }

  /** Remove every non-overlapping match, leftmost first. */
  function StripMatches(p: TagPattern, s: string): (r: string)
    ensures |r| <= |s|
    decreases |s|
  {
    if s == [] then []
    else
      var m := MatchLength(p, s);
      if m > 0 then StripMatches(p, s[m..]) else [s[0]] + StripMatches(p, s[1..])
  }

  /** The rewrite the pipeline means to perform. */
  function StripTypeTags(s: string): (r: string)
    ensures |r| <= |s|
    ensures r == s <==> !HasMatch(DigitTag, s)
  {
    StripMatchesUnchangedIff(DigitTag, s);
    StripMatches(DigitTag, s)
  }

  /** The rewrite the pattern as written performs. */
  function StripLiteralTags(s: string): (r: string)
    ensures |r| <= |s|
    ensures r == s <==> !HasMatch(LiteralTag, s)
  {
    StripMatchesUnchangedIff(LiteralTag, s);
    StripMatches(LiteralTag, s)
  }

  /** The rewrite never lengthens a value, and shortens it by at least a whole
      match whenever it changes it. */
  lemma {:induction false} StripMatchesShortens(p: TagPattern, s: string)
    ensures |StripMatches(p, s)| <= |s|
    ensures StripMatches(p, s) == s || |StripMatches(p, s)| <= |s| - 3
    decreases |s|
  {
    if s != [] {
      var m := MatchLength(p, s);
      if m > 0 {
        StripMatchesShortens(p, s[m..]);
        assert StripMatches(p, s) == StripMatches(p, s[m..]);
        assert m >= 3;
      } else {
        var t := StripMatches(p, s[1..]);
        StripMatchesShortens(p, s[1..]);
        assert StripMatches(p, s) == [s[0]] + t;
        if t == s[1..] {
          assert [s[0]] + t == s;
        }
      }
    }
  }

  /** A value changes exactly when it holds a match somewhere. */
  lemma {:induction false} StripMatchesUnchangedIff(p: TagPattern, s: string)
    ensures StripMatches(p, s) == s <==> !HasMatch(p, s)
    decreases |s|
  {
    if s == [] {
      assert !HasMatch(p, s);
    } else {
      var m := MatchLength(p, s);
      if m > 0 {
        StripMatchesShortens(p, s[m..]);
        assert HasMatch(p, s) by { assert MatchAt(p, s, 0, m); }
      } else {
        StripMatchesUnchangedIff(p, s[1..]);
        assert (exists i, j :: MatchAt(p, s, i, j)) <==> (exists i, j :: MatchAt(p, s[1..], i, j)) by {
          forall i, j | MatchAt(p, s, i, j) ensures MatchAt(p, s[1..], i - 1, j - 1) {
            assert i != 0;
            ShiftMatch(p, s, i, j);
          }
          forall i, j | MatchAt(p, s[1..], i, j) ensures MatchAt(p, s, i + 1, j + 1) {
            ShiftMatch(p, s, i + 1, j + 1);
          }
        }
        if StripMatches(p, s) == s {
          assert StripMatches(p, s[1..]) == s[1..];
        }
      }
    }
  }

  /** A match away from the first character is a match of the tail, one place earlier. */
  lemma ShiftMatch(p: TagPattern, s: string, i: int, j: int)
    requires |s| > 0 && i >= 1
    ensures MatchAt(p, s, i, j) <==> MatchAt(p, s[1..], i - 1, j - 1)
  {
    var lead := LeadIn(p);
    if 1 <= i && i + 1 + |lead| < j <= |s| {
      assert s[i + 1..i + 1 + |lead|] == s[1..][i..i + |lead|];
      assert forall k :: i + 1 + |lead| <= k < j - 1 ==> s[k] == s[1..][k - 1];
    }
  }

  /** A leading tag is removed and the rewrite carries on after it. */
  lemma StripLeadingTag(digits: string, rest: string)
    requires |digits| >= 1 && forall i :: 0 <= i < |digits| ==> '0' <= digits[i] <= '9'
    ensures StripTypeTags("t" + digits + "_" + rest) == StripTypeTags(rest)
  {
    var s := "t" + digits + "_" + rest;
    assert MatchAt(DigitTag, s, 0, |digits| + 2);
    var m := MatchLength(DigitTag, s);
    MatchIsLongestRun(DigitTag, s);
    assert s[m..] == rest;
  }

  /** A value without an underscore holds no tag and is kept as it is. */
  lemma StripNoUnderscore(s: string)
    requires forall i :: 0 <= i < |s| ==> s[i] != '_'
    ensures StripTypeTags(s) == s
  {
    StripMatchesUnchangedIff(DigitTag, s);
  }

  /** A value made of one tag and an id without underscores becomes the id. */
  lemma StripSingleTag(digits: string, id: string)
    requires |digits| >= 1 && forall i :: 0 <= i < |digits| ==> '0' <= digits[i] <= '9'
    requires forall i :: 0 <= i < |id| ==> id[i] != '_'
    ensures StripTypeTags("t" + digits + "_" + id) == id
  {
    StripLeadingTag(digits, id);
    StripNoUnderscore(id);
  }

  /** The intended rewrite turns Reddit parent ids into bare ids. */
  lemma StripCommentTag()
    ensures StripTypeTags("t1_abc") == "abc"
  {
    var s := "t" + "1" + "_" + "abc";
    assert s == "t1_abc";
    StripSingleTag("1", "abc");
  }

  lemma StripSubmissionTag()
    ensures StripTypeTags("t3_xyz") == "xyz"
  {
    var s := "t" + "3" + "_" + "xyz";
    assert s == "t3_xyz";
    StripSingleTag("3", "xyz");
  }

  /** The pattern as written needs a backslash after the `t`; a value without
      one is left as it is. */
  lemma LiteralPatternNeedsBackslash(s: string)
    requires forall i :: 0 <= i < |s| ==> s[i] != '\\'
    ensures StripLiteralTags(s) == s
  {
    forall i, j | 0 <= i < j <= |s| ensures !MatchAt(LiteralTag, s, i, j) {
      if i + 1 < |s| {
        assert s[i + 1..i + 2] == [s[i + 1]];
      }
    }
    StripMatchesUnchangedIff(LiteralTag, s);
  }

  /** So the pattern as written leaves a Reddit parent id alone. */
  lemma LiteralPatternKeepsTypeTag()
    ensures StripLiteralTags("t3_abc") == "t3_abc"
  {
    LiteralPatternNeedsBackslash("t3_abc");
  }

  /** The same value under the intended pattern loses its tag. */
  lemma DigitPatternStripsTypeTag()
    ensures StripTypeTags("t3_abc") == "abc"
  {
    var s := "t" + "3" + "_" + "abc";
    assert s == "t3_abc";
    StripSingleTag("3", "abc");
  }

  /** What the pattern as written does remove: a `t`, a backslash, `d`s and `_`. */
  lemma LiteralPatternExample()
    ensures StripLiteralTags("t\\dd_abc") == "abc"
  {
    var s := "t\\dd_abc";
    assert MatchAt(LiteralTag, s, 0, 5);
    MatchIsLongestRun(LiteralTag, s);
    assert s[5..] == "abc";
    forall i, j | 0 <= i < j <= 3 ensures !MatchAt(LiteralTag, "abc", i, j) {
    }
    StripMatchesUnchangedIff(LiteralTag, "abc");
  }
}
