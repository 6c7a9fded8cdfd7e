/**
 * The directive pattern of index.js:44-47, `regexSafe(prefix) + keyword + regex`, with the
 * default capture `\([\s'"]*([a-z.]*)[\s'"]*\)` (index.js:37), matched by hand. The two
 * character classes of the capture are disjoint, so the greedy reading is the only one.
 */
module Matcher {
  import opened Wrappers
  import opened Escape
  import opened Options

  /**
   * The compiled pattern: the escaped prefix source, the literal text that source
   * stands for (what the matcher looks for), and the keyword fragment after it.
   */
  datatype Pattern = Pattern(escapedPrefix: string, prefix: string, keyword: Keyword)

  /** The prefix part of the pattern's source matches exactly the literal `prefix`. */
  predicate PrefixDenoted(pat: Pattern) {
    LiteralOf(pat.escapedPrefix) == Some(pat.prefix)
  }

  /** Pattern construction (index.js:44-47): the escaped prefix stands for the user's prefix. */
  function Compile(opts: Options): (pat: Pattern)
    ensures PrefixDenoted(pat) && pat.prefix == opts.prefix
    ensures pat.keyword == opts.keyword
  {
    RegexSafeRoundTrip(opts.prefix);
    Pattern(RegexSafe(opts.prefix), opts.prefix, opts.keyword)
  }

  /** ECMAScript `\s`: the WhiteSpace and LineTerminator characters. */
  predicate IsSpace(c: char) {
    || '\t' <= c <= '\r' || c == ' ' || c == '\U{00A0}' || c == '\U{1680}'
    || '\U{2000}' <= c <= '\U{200A}' || c == '\U{2028}' || c == '\U{2029}' || c == '\U{202F}'
    || c == '\U{205F}' || c == '\U{3000}' || c == '\U{FEFF}'
  }

  /** The two classes of the capture: `[\s'"]` around the token and `[a-z.]` inside it. */
  datatype CharClass = Gap | TokenChar

  predicate InClass(c: char, k: CharClass) {
    match k
    case Gap => IsSpace(c) || c == '\'' || c == '"'
    case TokenChar => 'a' <= c <= 'z' || c == '.'
  }

  /** Every character of `s` is of class `k`. */
  predicate AllIn(s: string, k: CharClass) {
    forall j {:trigger InClass(s[j], k)} :: 0 <= j < |s| ==> InClass(s[j], k)
  }

  /** The length of the longest run of class `k` starting at `i` (a greedy `[...]*`). */
  function Run(text: string, i: nat, k: CharClass): (n: nat)
    requires i <= |text|
    ensures i + n <= |text|
    decreases |text| - i
  {
    if i < |text| && InClass(text[i], k) then 1 + Run(text, i + 1, k) else 0
  }

  /** `text[a..b]` is all of class `k`, stated by positions. */
  predicate RangeIn(text: string, a: nat, b: nat, k: CharClass)
    requires a <= b <= |text|
  {
    forall j {:trigger InClass(text[j], k)} :: a <= j < b ==> InClass(text[j], k)
  }

  /** Everything a run covers is of its class. */
  lemma {:induction false} RunAllIn(text: string, i: nat, k: CharClass)
    requires i <= |text|
    ensures RangeIn(text, i, i + Run(text, i, k), k)
    decreases |text| - i
  {
    if i < |text| && InClass(text[i], k) {
      RunAllIn(text, i + 1, k);
    }
  }

  /** `s` occurs in `text` at position `i`. */
  predicate StartsAt(text: string, i: nat, s: string) {
    i + |s| <= |text| && forall j :: 0 <= j < |s| ==> text[i + j] == s[j]
  }

  /** What occurs at `i` is the slice of `text` that starts there. */
  lemma SliceAt(text: string, i: nat, s: string)
    requires StartsAt(text, i, s)
    ensures text[i..i + |s|] == s
  {
    var w := text[i..i + |s|];
    assert forall j | 0 <= j < |s| :: w[j] == text[i + j];
  }

  /** If `a` occurs at `i` and `b` right after it, `a + b` occurs at `i`. */
  lemma StartsAtJoin(text: string, i: nat, a: string, b: string)
    requires StartsAt(text, i, a) && StartsAt(text, i + |a|, b)
    ensures StartsAt(text, i, a + b)
  {
    forall j | 0 <= j < |a + b| ensures text[i + j] == (a + b)[j] {
      if j >= |a| {
        assert text[i + |a| + (j - |a|)] == b[j - |a|];
      }
    }
  }

  /** The first word of the keyword alternation that occurs at `j`. */
  function KeywordAt(text: string, j: nat, k: Keyword): (r: Option<string>)
    ensures r.Some? ==> r.value in Keywords(k) && j + |r.value| <= |text|
  {
    match k
    case IncludeOrReplace =>
      if StartsAt(text, j, "include") then Some("include")
      else if StartsAt(text, j, "replace") then Some("replace")
      else None
    case Word(w) => if StartsAt(text, j, w) then Some(w) else None
  }

  /** One directive: `full` is text[start..end], `token` the captured file name. */
  datatype Occurrence = Occurrence(start: nat, end: nat, token: string)

  /** What the capture part yields: the position after its `)`, and the token. */
  datatype Capture = Capture(end: nat, token: string)

  /** The capture `\([\s'"]*([a-z.]*)[\s'"]*\)` tried at `open`: each class read greedily. */
  function CaptureAt(text: string, open: nat): (r: Option<Capture>)
    requires open <= |text|
    ensures r.Some? ==> open < r.value.end <= |text|
  {
    if !(open < |text| && text[open] == '(') then None
    else
      var t := open + 1 + Run(text, open + 1, Gap);
      var b := t + Run(text, t, TokenChar);
      var close := b + Run(text, b, Gap);
      if close < |text| && text[close] == ')' then
        Some(Capture(close + 1, text[t..b]))
      else None
  }

  /** The directive that starts at position `i`, if any (one attempt of the regular expression). */
  function MatchAt(text: string, pat: Pattern, i: nat): (r: Option<Occurrence>)
    requires i <= |text|
    ensures r.Some? ==> r.value.start == i && i < r.value.end <= |text|
  {
    if !StartsAt(text, i, pat.prefix) then None
    else match KeywordAt(text, i + |pat.prefix|, pat.keyword)
      case None => None
      case Some(kw) =>
        match CaptureAt(text, i + |pat.prefix| + |kw|)
        case None => None
        case Some(c) => Some(Occurrence(i, c.end, c.token))
  }

  /** The parts of a directive of the pattern `pat` are well-formed. */
  predicate Parts(pat: Pattern, kw: string, lead: string, token: string, trail: string) {
    && kw in Keywords(pat.keyword)
    && AllIn(lead, Gap) && AllIn(token, TokenChar) && AllIn(trail, Gap)
  }

  /** `(`, the lead gap, the token, the trail gap and `)` follow each other from `open`. */
  predicate CaptureLaidOut(text: string, open: nat, lead: string, token: string, trail: string) {
    && open < |text| && text[open] == '('
    && StartsAt(text, open + 1, lead)
    && StartsAt(text, open + 1 + |lead|, token)
    && StartsAt(text, open + 1 + |lead| + |token|, trail)
    && open + 1 + |lead| + |token| + |trail| < |text|
    && text[open + 1 + |lead| + |token| + |trail|] == ')'
  }

  /** The prefix, the keyword `kw` and a capture follow each other from `i`. */
  predicate DirectiveLaidOut(text: string, pat: Pattern, i: nat, kw: string, lead: string, token: string, trail: string) {
    && StartsAt(text, i, pat.prefix)
    && StartsAt(text, i + |pat.prefix|, kw)
    && CaptureLaidOut(text, i + |pat.prefix| + |kw|, lead, token, trail)
  }

  /** The length of a capture, from its `(` to its `)`. */
  function CaptureLength(lead: string, token: string, trail: string): nat {
    1 + |lead| + |token| + |trail| + 1
  }

  /** The length of a directive, from the first character of the prefix to the `)`. */
  function DirectiveLength(pat: Pattern, kw: string, lead: string, token: string, trail: string): nat {
    |pat.prefix| + |kw| + CaptureLength(lead, token, trail)
  }

  /** text[i..end] is a whole directive of `pat` whose captured token is `token`. */
  ghost predicate IsDirective(text: string, pat: Pattern, i: nat, end: nat, token: string) {
    exists kw, lead, trail ::
      && Parts(pat, kw, lead, token, trail)
      && DirectiveLaidOut(text, pat, i, kw, lead, token, trail)
      && end == i + DirectiveLength(pat, kw, lead, token, trail)
  }

  /** A run of class `k` that covers `s` goes on from where `s` ends. */
  lemma {:induction false} RunOver(text: string, i: nat, s: string, k: CharClass)
    requires StartsAt(text, i, s) && AllIn(s, k)
    ensures Run(text, i, k) == |s| + Run(text, i + |s|, k)
    decreases |s|
  {
    if s != [] {
      var rest := s[1..];
      assert text[i + 0] == s[0] && InClass(s[0], k);
      assert StartsAt(text, i + 1, rest) by {
        forall j | 0 <= j < |rest| ensures text[i + 1 + j] == rest[j] {
          assert text[i + (j + 1)] == s[j + 1];
        }
      }
      assert AllIn(rest, k) by {
        forall j | 0 <= j < |rest| ensures InClass(rest[j], k) {
          assert rest[j] == s[j + 1];
        }
      }
      RunOver(text, i + 1, rest, k);
    }
  }

  /** A run of class `k` that covers `s` and meets a character outside `k` is exactly `s`. */
  lemma RunExact(text: string, i: nat, s: string, k: CharClass)
    requires StartsAt(text, i, s) && AllIn(s, k)
    requires i + |s| < |text| && !InClass(text[i + |s|], k)
    ensures Run(text, i, k) == |s|
  {
    RunOver(text, i, s, k);
  }

  /** The two classes share no character, and `)` is in neither. */
  lemma ClassesDisjoint(c: char)
    ensures InClass(c, TokenChar) ==> !InClass(c, Gap)
    ensures !InClass(')', Gap) && !InClass(')', TokenChar)
  {

  }

  /** CaptureAt with the three runs already measured. */
  lemma CaptureFrom(text: string, open: nat, t: nat, b: nat, close: nat)
    requires open < |text| && text[open] == '('
    requires open + 1 <= t <= b <= close < |text| && text[close] == ')'
    requires Run(text, open + 1, Gap) == t - open - 1
    requires Run(text, t, TokenChar) == b - t
    requires Run(text, b, Gap) == close - b
    ensures CaptureAt(text, open) == Some(Capture(close + 1, text[t..b]))
  {
  }

  /** An empty token: the first gap run swallows both gaps. */
  lemma CaptureCompleteEmpty(text: string, open: nat, lead: string, trail: string)
    requires AllIn(lead, Gap) && AllIn(trail, Gap)
    requires CaptureLaidOut(text, open, lead, [], trail)
    ensures CaptureAt(text, open) == Some(Capture(open + 2 + |lead| + |trail|, []))
  {
    var p6 := open + 1 + |lead| + |trail|;
    ClassesDisjoint(')');
    assert AllIn(lead + trail, Gap) by {
      forall j | 0 <= j < |lead + trail| ensures InClass((lead + trail)[j], Gap) {
        if j < |lead| { assert (lead + trail)[j] == lead[j]; } else { assert (lead + trail)[j] == trail[j - |lead|]; }
      }
    }
    StartsAtJoin(text, open + 1, lead, trail);
    RunExact(text, open + 1, lead + trail, Gap);
    CaptureFrom(text, open, p6, p6, p6);
    assert text[p6..p6] == [];
  }

  /** A non-empty token: each run stops where the next part begins. */
  lemma CaptureCompleteToken(text: string, open: nat, lead: string, token: string, trail: string)
    requires AllIn(lead, Gap) && AllIn(token, TokenChar) && AllIn(trail, Gap) && token != []
    requires CaptureLaidOut(text, open, lead, token, trail)
    ensures CaptureAt(text, open) == Some(Capture(open + 2 + |lead| + |token| + |trail|, token))
  {
    var p4 := open + 1 + |lead|;
    var p5 := p4 + |token|;
    var p6 := p5 + |trail|;
    ClassesDisjoint(')');
    ClassesDisjoint(text[p4]);
    assert text[p4 + 0] == token[0];
    RunExact(text, open + 1, lead, Gap);
    if trail != [] {
      assert text[p5 + 0] == trail[0];
      ClassesDisjoint(text[p5]);
    }
    RunExact(text, p4, token, TokenChar);
    RunExact(text, p5, trail, Gap);
    CaptureFrom(text, open, p4, p5, p6);
    SliceAt(text, p4, token);
  }

  /** Every capture of the default shape is read with exactly its token, whatever the gaps around it. */
  lemma CaptureComplete(text: string, open: nat, lead: string, token: string, trail: string, end: nat)
    requires AllIn(lead, Gap) && AllIn(token, TokenChar) && AllIn(trail, Gap)
    requires CaptureLaidOut(text, open, lead, token, trail)
    requires end == open + CaptureLength(lead, token, trail)
    ensures CaptureAt(text, open) == Some(Capture(end, token))
  {
    if token == [] {
      CaptureCompleteEmpty(text, open, lead, trail);
    } else {
      CaptureCompleteToken(text, open, lead, token, trail);
    }
  }

  /** The word the keyword alternation picks does occur at `j`. */
  lemma KeywordAtSound(text: string, j: nat, k: Keyword)
    requires KeywordAt(text, j, k).Some?
    ensures StartsAt(text, j, KeywordAt(text, j, k).value)
  {
  }

  /** The keyword alternation picks `kw`: include and replace differ in their first letter. */
  lemma KeywordAtPicks(text: string, j: nat, k: Keyword, kw: string)
    requires kw in Keywords(k) && StartsAt(text, j, kw)
    ensures KeywordAt(text, j, k) == Some(kw)
  {
    if k.IncludeOrReplace? && kw == "replace" {
      assert text[j + 0] == kw[0] == 'r' != "include"[0];
    }
  }

  /** MatchAt with its three stages already known. */
  lemma MatchFrom(text: string, pat: Pattern, i: nat, kw: string, end: nat, token: string)
    requires i <= |text| && StartsAt(text, i, pat.prefix)
    requires KeywordAt(text, i + |pat.prefix|, pat.keyword) == Some(kw)
    requires CaptureAt(text, i + |pat.prefix| + |kw|) == Some(Capture(end, token))
    ensures MatchAt(text, pat, i) == Some(Occurrence(i, end, token))
  {
  }

  /** The keyword and the capture of a directive laid out at `i` are read as such. */
  lemma DirectiveStages(text: string, pat: Pattern, i: nat, kw: string, lead: string, token: string, trail: string)
    requires Parts(pat, kw, lead, token, trail)
    requires DirectiveLaidOut(text, pat, i, kw, lead, token, trail)
    ensures KeywordAt(text, i + |pat.prefix|, pat.keyword) == Some(kw)
    ensures CaptureAt(text, i + |pat.prefix| + |kw|) == Some(Capture(i + DirectiveLength(pat, kw, lead, token, trail), token))
  {
    KeywordAtPicks(text, i + |pat.prefix|, pat.keyword, kw);
    CaptureComplete(text, i + |pat.prefix| + |kw|, lead, token, trail, i + DirectiveLength(pat, kw, lead, token, trail));
  }

  /** Every directive of the pattern's shape is found by the one attempt at its position, with its token. */
  lemma MatchAtComplete(text: string, pat: Pattern, i: nat, kw: string, lead: string, token: string, trail: string)
    requires Parts(pat, kw, lead, token, trail)
    requires DirectiveLaidOut(text, pat, i, kw, lead, token, trail)
    ensures MatchAt(text, pat, i) == Some(Occurrence(i, i + DirectiveLength(pat, kw, lead, token, trail), token))
  {
    DirectiveStages(text, pat, i, kw, lead, token, trail);
    MatchFrom(text, pat, i, kw, i + DirectiveLength(pat, kw, lead, token, trail), token);
  }

  /** CaptureAt's result, with the boundaries of its three runs named. */
  lemma CaptureParts(text: string, open: nat) returns (t: nat, b: nat, close: nat)
    requires open <= |text| && CaptureAt(text, open).Some?
    ensures t == open + 1 + Run(text, open + 1, Gap) && b == t + Run(text, t, TokenChar)
    ensures close == b + Run(text, b, Gap) && close + 1 == CaptureAt(text, open).value.end
    ensures text[open] == '(' && text[close] == ')'
    ensures CaptureAt(text, open).value.token == text[t..b]
  {
    t := open + 1 + Run(text, open + 1, Gap);
    b := t + Run(text, t, TokenChar);
    close := b + Run(text, b, Gap);
  }

  /** A slice whose positions are all of class `k` is all of class `k`, and occurs where it was cut. */
  lemma SliceIn(text: string, a: nat, b: nat, k: CharClass)
    requires a <= b <= |text| && RangeIn(text, a, b, k)
    ensures AllIn(text[a..b], k) && StartsAt(text, a, text[a..b])
  {
    var s := text[a..b];
    assert forall j | 0 <= j < |s| :: s[j] == text[a + j];
  }

  /** Brackets around a gap run, a token run and a gap run are a capture of the default shape. */
  lemma RunsLaidOut(text: string, open: nat, t: nat, b: nat, close: nat)
    requires open < t <= b <= close < |text| && text[open] == '(' && text[close] == ')'
    requires RangeIn(text, open + 1, t, Gap) && RangeIn(text, t, b, TokenChar) && RangeIn(text, b, close, Gap)
    ensures AllIn(text[open + 1..t], Gap) && AllIn(text[t..b], TokenChar) && AllIn(text[b..close], Gap)
    ensures CaptureLaidOut(text, open, text[open + 1..t], text[t..b], text[b..close])
  {
    SliceIn(text, open + 1, t, Gap);
    SliceIn(text, t, b, TokenChar);
    SliceIn(text, b, close, Gap);
  }

  /** Whatever the capture reads at `open` is a capture of the default shape, with the gaps `lead` and `trail`. */
  lemma CaptureSound(text: string, open: nat) returns (lead: string, trail: string)
    requires open <= |text| && CaptureAt(text, open).Some?
    ensures AllIn(lead, Gap) && AllIn(CaptureAt(text, open).value.token, TokenChar) && AllIn(trail, Gap)
    ensures CaptureLaidOut(text, open, lead, CaptureAt(text, open).value.token, trail)
    ensures CaptureAt(text, open).value.end == open + CaptureLength(lead, CaptureAt(text, open).value.token, trail)
  {
    var t, b, close := CaptureParts(text, open);
    RunAllIn(text, open + 1, Gap);
    RunAllIn(text, t, TokenChar);
    RunAllIn(text, b, Gap);
    RunsLaidOut(text, open, t, b, close);
    lead, trail := text[open + 1..t], text[b..close];
  }

  /** MatchAt's result, with the keyword it read named. */
  lemma MatchParts(text: string, pat: Pattern, i: nat) returns (kw: string)
    requires i <= |text| && MatchAt(text, pat, i).Some?
    ensures kw in Keywords(pat.keyword)
    ensures StartsAt(text, i, pat.prefix) && StartsAt(text, i + |pat.prefix|, kw)
    ensures CaptureAt(text, i + |pat.prefix| + |kw|) == Some(Capture(MatchAt(text, pat, i).value.end, MatchAt(text, pat, i).value.token))
  {
    kw := KeywordAt(text, i + |pat.prefix|, pat.keyword).value;
    KeywordAtSound(text, i + |pat.prefix|, pat.keyword);
  }

  /** Whatever the one attempt at `i` finds is a directive of the pattern's shape. */
  lemma MatchAtSound(text: string, pat: Pattern, i: nat)
    requires i <= |text| && MatchAt(text, pat, i).Some?
    ensures IsDirective(text, pat, i, MatchAt(text, pat, i).value.end, MatchAt(text, pat, i).value.token)
  {
    var o := MatchAt(text, pat, i).value;
    var kw := MatchParts(text, pat, i);
    var lead, trail := CaptureSound(text, i + |pat.prefix| + |kw|);
    assert Parts(pat, kw, lead, o.token, trail);
    assert DirectiveLaidOut(text, pat, i, kw, lead, o.token, trail);
  }
}
