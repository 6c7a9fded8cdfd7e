/**
 * A compiled directive pattern as the global regular expression of index.js:47
 * uses it: the attempt at every position of a text, and the leftmost success
 * from a given position on (how `String.prototype.match` and `replace` with the
 * `g` flag walk the text).
 */
module Scan {
  import opened Wrappers
  import opened Options
  import opened Matcher

  /** The attempts at positions 0..|text| of one text; each success lies within the text. */
  predicate Consistent(text: string, a: seq<Option<Occurrence>>) {
    && |a| == |text| + 1
    && forall j :: 0 <= j < |a| && a[j].Some? ==> a[j].value.start == j && j < a[j].value.end <= |text|
  }

  /** What a compiled pattern answers at every position of a text. */
  function AttemptsOf(text: string, pat: Pattern): (a: seq<Option<Occurrence>>)
    ensures Consistent(text, a)
  {
    seq(|text| + 1, j requires 0 <= j <= |text| => MatchAt(text, pat, j))
  }

  /** The attempts of a pattern, viewed as a function of the text. */
  type Scanner = string -> seq<Option<Occurrence>>

  /** A scanner whose every answer is consistent with the text it was given. */
  ghost predicate ScannerOk(scan: Scanner) {
    forall t :: Consistent(t, scan(t))
  }

  /** The regular expression built at index.js:47, as a scanner. */
  function Compiled(pat: Pattern): (scan: Scanner)
    ensures forall t :: scan(t) == AttemptsOf(t, pat)
  {
    t => AttemptsOf(t, pat)
  }

  /**
   * The compiled expression succeeds at `j` with end `e` and token `tok` exactly
   * when a directive of the pattern's shape lies there with that end and token.
   */
  lemma CompiledExact(pat: Pattern, t: string, j: nat, e: nat, tok: string)
    requires j <= |t|
    ensures Compiled(pat)(t)[j] == Some(Occurrence(j, e, tok)) <==> IsDirective(t, pat, j, e, tok)
  {
    assert Compiled(pat)(t)[j] == MatchAt(t, pat, j);
    if IsDirective(t, pat, j, e, tok) {
      var kw, lead, trail :| Parts(pat, kw, lead, tok, trail)
        && DirectiveLaidOut(t, pat, j, kw, lead, tok, trail)
        && e == j + DirectiveLength(pat, kw, lead, tok, trail);
      MatchAtComplete(t, pat, j, kw, lead, tok, trail);
    }
    if MatchAt(t, pat, j) == Some(Occurrence(j, e, tok)) {
      MatchAtSound(t, pat, j);
    }
  }

  /** Every compiled pattern gives consistent attempts. */
  lemma CompiledOk(pat: Pattern)
    ensures ScannerOk(Compiled(pat))
  {
    forall t ensures Consistent(t, Compiled(pat)(t)) {
      assert Compiled(pat)(t) == AttemptsOf(t, pat);
    }
  }

  /** The position of the leftmost successful attempt at `i` or later. */
  function FirstIndex(a: seq<Option<Occurrence>>, i: nat): (r: Option<nat>)
    requires i <= |a|
    ensures r.Some? ==> i <= r.value < |a| && a[r.value].Some?
    ensures forall j :: i <= j < |a| && (r.None? || j < r.value) ==> a[j].None?
    decreases |a| - i
  {
    if i == |a| then None
    else if a[i].Some? then Some(i)
    else FirstIndex(a, i + 1)
  }

  /** Attempts that fail on [i, j) do not change where the leftmost search from `i` lands. */
  lemma {:induction false} FirstIndexSkips(a: seq<Option<Occurrence>>, i: nat, j: nat)
    requires i <= j <= |a|
    requires forall k :: i <= k < j ==> a[k].None?
    ensures FirstIndex(a, i) == FirstIndex(a, j)
    decreases j - i
  {
    if i < j {
      FirstIndexSkips(a, i + 1, j);
    }
  }

  /** `text.match(regex)` with the `g` flag is non-null. */
  predicate HasDirective(scan: Scanner, text: string)
    requires Consistent(text, scan(text))
  {
    FirstIndex(scan(text), 0).Some?
  }

  /** A text holds a directive exactly when the pattern matches at some position. */
  lemma HasDirectiveIff(text: string, pat: Pattern)
    ensures HasDirective(Compiled(pat), text) <==> exists j :: 0 <= j <= |text| && MatchAt(text, pat, j).Some?
  {
    var a := AttemptsOf(text, pat);
    assert Compiled(pat)(text) == a;
    if j :| 0 <= j <= |text| && MatchAt(text, pat, j).Some? {
      assert a[j].Some?;
    }
    if FirstIndex(a, 0).Some? {
      var j := FirstIndex(a, 0).value;
      assert MatchAt(text, pat, j) == a[j];
    }
  }

  /** The token of a directive is made of lower-case letters and dots only. */
  lemma MatchAtToken(text: string, pat: Pattern, i: nat)
    requires i <= |text| && MatchAt(text, pat, i).Some?
    ensures AllIn(MatchAt(text, pat, i).value.token, TokenChar)
  {
    MatchAtSound(text, pat, i);
    var o := MatchAt(text, pat, i).value;
    var kw, lead, trail :| Parts(pat, kw, lead, o.token, trail)
      && DirectiveLaidOut(text, pat, i, kw, lead, o.token, trail)
      && o.end == i + DirectiveLength(pat, kw, lead, o.token, trail);
  }

  /** A directive holds a `(` after its start. */
  lemma MatchAtParen(text: string, pat: Pattern, i: nat)
    requires i <= |text| && MatchAt(text, pat, i).Some?
    ensures exists p :: i <= p < |text| && text[p] == '('
  {
    var kw := MatchParts(text, pat, i);
    var open := i + |pat.prefix| + |kw|;
    assert open < |text| && text[open] == '(';
  }

  /** A text without `(` holds no directive, whatever the prefix and keyword. */
  lemma NoParenNoDirective(text: string, pat: Pattern)
    requires forall p :: 0 <= p < |text| ==> text[p] != '('
    ensures !HasDirective(Compiled(pat), text)
  {
    var a := AttemptsOf(text, pat);
    assert Compiled(pat)(text) == a;
    if FirstIndex(a, 0).Some? {
      var j := FirstIndex(a, 0).value;
      assert MatchAt(text, pat, j) == a[j];
      MatchAtParen(text, pat, j);
    }
  }

  /** A directive written out: prefix, keyword, `(`, lead gap, token, trail gap, `)`. */
  function Render(prefix: string, kw: string, lead: string, token: string, trail: string): (s: string)
    ensures |s| == |prefix| + |kw| + |lead| + |token| + |trail| + 2
  {
    prefix + kw + "(" + lead + token + trail + ")"
  }

  /** A written-out directive is laid out as MatchAtComplete expects. */
  lemma RenderLaidOut(pat: Pattern, kw: string, lead: string, token: string, trail: string)
    ensures DirectiveLaidOut(Render(pat.prefix, kw, lead, token, trail), pat, 0, kw, lead, token, trail)
    ensures |Render(pat.prefix, kw, lead, token, trail)| == DirectiveLength(pat, kw, lead, token, trail)
  {
    var text := Render(pat.prefix, kw, lead, token, trail);
    var p := |pat.prefix|;
    var open := p + |kw|;
    assert forall j | 0 <= j < p :: text[j] == pat.prefix[j];
    assert forall j | 0 <= j < |kw| :: text[p + j] == kw[j];
    assert text[open] == '(';
    assert forall j | 0 <= j < |lead| :: text[open + 1 + j] == lead[j];
    assert forall j | 0 <= j < |token| :: text[open + 1 + |lead| + j] == token[j];
    assert forall j | 0 <= j < |trail| :: text[open + 1 + |lead| + |token| + j] == trail[j];
    assert text[open + 1 + |lead| + |token| + |trail|] == ')';
  }
}
