/**
 * The rewriting loop of index.js:70-100: one pass of `result.replace(include, …)`
 * replaces every directive found left to right, and passes repeat while
 * `result.match(include)` still finds one.
 */
module Rewrite {
  import opened Wrappers
  import opened Matcher
  import opened Scan
  import opened Files
  import opened Search

  /** The text after some rewriting, and the tokens reported "File not found" on the way, in order. */
  datatype PassResult = PassResult(text: string, missing: seq<string>)

  /** The tokens the replacement function reports for one directive: the token itself, when the search missed it. */
  function Reported(fs: FileSystem, ctx: Context, token: string): (r: seq<string>)
    ensures |r| <= 1
    ensures r == [] <==> Resolve(fs, ctx, token).found
    ensures forall t :: t in r ==> t == token
  {
    if Resolve(fs, ctx, token).found then [] else [token]
  }

  /**
   * The directives a global replace from `pos` replaces, left to right: each is
   * the leftmost success at or after the end of the one before it.
   */
  function Directives(text: string, a: seq<Option<Occurrence>>, pos: nat): (ds: seq<Occurrence>)
    requires Consistent(text, a) && pos <= |text|
    ensures ds == [] <==> FirstIndex(a, pos).None?
    ensures ds != [] ==> ds[0].start == FirstIndex(a, pos).value
    ensures forall k :: 0 <= k < |ds| ==> pos <= ds[k].start <= |text| && a[ds[k].start] == Some(ds[k])
    ensures forall k :: 0 <= k < |ds| - 1 ==> ds[k].end <= ds[k + 1].start
    decreases |text| - pos
  {
    match FirstIndex(a, pos)
    case None => []
    case Some(s) => [a[s].value] + Directives(text, a, a[s].value.end)
  }

  /**
   * The tokens reported for the directives `ds`, in their order: every token the
   * search misses is reported, and nothing else.
   */
  function MissingOf(fs: FileSystem, ctx: Context, ds: seq<Occurrence>): (m: seq<string>)
    ensures |m| <= |ds|
    ensures forall t :: t in m ==> !Resolve(fs, ctx, t).found
    ensures forall k :: 0 <= k < |ds| && !Resolve(fs, ctx, ds[k].token).found ==> ds[k].token in m
  {
    if ds == [] then [] else Reported(fs, ctx, ds[0].token) + MissingOf(fs, ctx, ds[1..])
  }

  /** Every reported token is the token of one of the directives. */
  lemma {:induction false} MissingOfTokens(fs: FileSystem, ctx: Context, ds: seq<Occurrence>, t: string)
    requires t in MissingOf(fs, ctx, ds)
    ensures exists k :: 0 <= k < |ds| && ds[k].token == t
  {
    if t in Reported(fs, ctx, ds[0].token) {
      assert ds[0].token == t;
    } else {
      MissingOfTokens(fs, ctx, ds[1..], t);
      var k :| 0 <= k < |ds[1..]| && ds[1..][k].token == t;
      assert ds[k + 1].token == t;
    }
  }

  /**
   * The rest of one global replace from position `pos`: the text up to the
   * leftmost directive, its replacement, then the rest after the directive.
   */
  function PassFrom(fs: FileSystem, ctx: Context, text: string, a: seq<Option<Occurrence>>, pos: nat): PassResult
    requires Consistent(text, a) && pos <= |text|
    decreases |text| - pos
  {
    match FirstIndex(a, pos)
    case None => PassResult(text[pos..], [])
    case Some(s) =>
      var o := a[s].value;
      var rest := PassFrom(fs, ctx, text, a, o.end);
      PassResult(text[pos..s] + Replacement(fs, ctx, o.token) + rest.text, Reported(fs, ctx, o.token) + rest.missing)
  }

  /** One `result.replace(include, …)` over the whole text. */
  function Pass(fs: FileSystem, ctx: Context, scan: Scanner, text: string): PassResult
    requires Consistent(text, scan(text))
  {
    PassFrom(fs, ctx, text, scan(text), 0)
  }

  /** The pass from `pos` when a directive lies ahead: text before it, its replacement, the pass after it. */
  lemma PassFromStep(fs: FileSystem, ctx: Context, text: string, a: seq<Option<Occurrence>>, pos: nat)
    requires Consistent(text, a) && pos <= |text| && FirstIndex(a, pos).Some?
    ensures var s := FirstIndex(a, pos).value;
      var o := a[s].value;
      PassFrom(fs, ctx, text, a, pos) == PassResult(
        text[pos..s] + Replacement(fs, ctx, o.token) + PassFrom(fs, ctx, text, a, o.end).text,
        Reported(fs, ctx, o.token) + PassFrom(fs, ctx, text, a, o.end).missing)
  {
  }

  /** A text without directive comes out of a pass unchanged, with nothing reported. */
  lemma PassUnchanged(fs: FileSystem, ctx: Context, scan: Scanner, text: string)
    requires Consistent(text, scan(text)) && !HasDirective(scan, text)
    ensures Pass(fs, ctx, scan, text) == PassResult(text, [])
  {
    assert text[0..] == text;
  }

  /**
   * When the pass finds exactly one directive, the text around it is kept and
   * the directive gives way to its replacement; inserted text is not scanned again.
   */
  lemma PassSingle(fs: FileSystem, ctx: Context, scan: Scanner, text: string, s: nat)
    requires Consistent(text, scan(text)) && s <= |text| && scan(text)[s].Some?
    requires forall j :: 0 <= j <= |text| && j != s ==> scan(text)[j].None?
    ensures Pass(fs, ctx, scan, text) == PassResult(
      text[..s] + Replacement(fs, ctx, scan(text)[s].value.token) + text[scan(text)[s].value.end..],
      Reported(fs, ctx, scan(text)[s].value.token))
  {
    var a := scan(text);
    var o := a[s].value;
    FirstIndexSkips(a, 0, s);
    assert FirstIndex(a, 0) == Some(s);
    assert FirstIndex(a, o.end) == None by {
      FirstIndexSkips(a, o.end, |a|);
    }
    assert text[0..s] == text[..s];
    assert PassFrom(fs, ctx, text, a, o.end) == PassResult(text[o.end..], []);
  }

  /**
   * A pass reports exactly the directives it replaces whose token the search
   * did not find, one report per such directive, in left-to-right order.
   */
  lemma {:induction false} PassFromMissing(fs: FileSystem, ctx: Context, text: string, a: seq<Option<Occurrence>>, pos: nat)
    requires Consistent(text, a) && pos <= |text|
    ensures PassFrom(fs, ctx, text, a, pos).missing == MissingOf(fs, ctx, Directives(text, a, pos))
    decreases |text| - pos
  {
    match FirstIndex(a, pos)
    case None =>
    case Some(s) =>
      var o := a[s].value;
      PassFromMissing(fs, ctx, text, a, o.end);
      assert Directives(text, a, pos)[1..] == Directives(text, a, o.end);
  }

  /** A token is reported by a pass exactly when some directive the pass replaces carries it and the search missed it. */
  lemma PassReportsMissing(fs: FileSystem, ctx: Context, scan: Scanner, text: string)
    requires Consistent(text, scan(text))
    ensures forall t :: t in Pass(fs, ctx, scan, text).missing <==>
      exists k :: 0 <= k < |Directives(text, scan(text), 0)| && Directives(text, scan(text), 0)[k].token == t && !Resolve(fs, ctx, t).found
  {
    var ds := Directives(text, scan(text), 0);
    PassFromMissing(fs, ctx, text, scan(text), 0);
    forall t | t in Pass(fs, ctx, scan, text).missing
      ensures exists k :: 0 <= k < |ds| && ds[k].token == t
    {
      MissingOfTokens(fs, ctx, ds, t);
    }
  }

  /**
   * Every token a pass reports is one the search could not find: the forward
   * half of PassReportsMissing, without its existential, so that the induction
   * of ExpandReportsMissing stays small enough for the solver.
   */
  lemma PassReportsNotFound(fs: FileSystem, ctx: Context, scan: Scanner, text: string)
    requires Consistent(text, scan(text))
    ensures forall t :: t in Pass(fs, ctx, scan, text).missing ==> !Resolve(fs, ctx, t).found
  {
    PassFromMissing(fs, ctx, text, scan(text), 0);
  }

  /**
   * One pass as the source runs it: search from the last position for the
   * leftmost directive, copy the text before it, append its replacement,
   * continue after it; at the end copy the rest.
   */
  method ReplaceAll(fs: FileSystem, ctx: Context, scan: Scanner, text: string) returns (r: PassResult)
    requires Consistent(text, scan(text))
    ensures r == Pass(fs, ctx, scan, text)
  {
    var a := scan(text);
    var out := "";
    var missing := [];
    var pos := 0;
    while FirstIndex(a, pos).Some?
      invariant pos <= |text|
      invariant Pass(fs, ctx, scan, text)
        == PassResult(out + PassFrom(fs, ctx, text, a, pos).text, missing + PassFrom(fs, ctx, text, a, pos).missing)
      decreases |text| - pos
    {
      var s := FirstIndex(a, pos).value;
      var o := a[s].value;
      var content, notFound := ReplaceDirective(fs, ctx, o.token);
      var reported: seq<string> := if notFound then [o.token] else [];
      ghost var before := (out, missing, pos);
      out := out + (text[pos..s] + content);
      missing := missing + reported;
      pos := o.end;
      PassStepKept(fs, ctx, text, a, before.0, before.1, before.2, out, missing, pos);
    }
    out := out + text[pos..];
    r := PassResult(out, missing);
  }

  /** What the loop of ReplaceAll has built plus the rest of the pass is the same before and after one replacement. */
  lemma PassStepKept(fs: FileSystem, ctx: Context, text: string, a: seq<Option<Occurrence>>,
                     out: string, missing: seq<string>, pos: nat, out': string, missing': seq<string>, pos': nat)
    requires Consistent(text, a) && pos <= |text| && FirstIndex(a, pos).Some?
    requires var s := FirstIndex(a, pos).value;
      var o := a[s].value;
      && out' == out + (text[pos..s] + Replacement(fs, ctx, o.token))
      && missing' == missing + Reported(fs, ctx, o.token)
      && pos' == o.end
    ensures pos' <= |text|
    ensures PassResult(out + PassFrom(fs, ctx, text, a, pos).text, missing + PassFrom(fs, ctx, text, a, pos).missing)
         == PassResult(out' + PassFrom(fs, ctx, text, a, pos').text, missing' + PassFrom(fs, ctx, text, a, pos').missing)
  {
    var s := FirstIndex(a, pos).value;
    var o := a[s].value;
    PassFromStep(fs, ctx, text, a, pos);
    var rest := PassFrom(fs, ctx, text, a, o.end);
    var piece := text[pos..s] + Replacement(fs, ctx, o.token);
    AppendAssoc(out, piece, rest.text);
    AppendAssoc(missing, Reported(fs, ctx, o.token), rest.missing);
  }

  lemma AppendAssoc<T>(a: seq<T>, b: seq<T>, c: seq<T>)
    ensures (a + b) + c == a + (b + c)
  {
  }

  /** A result not yet complete: `m` reported before it. */
  function Prepend(m: seq<string>, r: Option<PassResult>): Option<PassResult>
  {
    match r
    case None => None
    case Some(p) => Some(PassResult(p.text, m + p.missing))
  }

  /**
   * Passes repeated while a directive remains, at most `fuel` of them; None
   * when the fuel runs out first (the source would go on looping).
   */
  function Expand(fs: FileSystem, ctx: Context, scan: Scanner, text: string, fuel: nat): (r: Option<PassResult>)
    requires ScannerOk(scan)
    ensures r.Some? ==> !HasDirective(scan, r.value.text)
    decreases fuel
  {
    if !HasDirective(scan, text) then Some(PassResult(text, []))
    else if fuel == 0 then None
    else
      var p := Pass(fs, ctx, scan, text);
      Prepend(p.missing, Expand(fs, ctx, scan, p.text, fuel - 1))
  }

  /** Reporting nothing before a result leaves it as it is. */
  lemma PrependNothing(r: Option<PassResult>)
    ensures Prepend([], r) == r
  {
    if r.Some? {
      assert [] + r.value.missing == r.value.missing;
    }
  }

  /** With a directive left and fuel to spare, the expansion is one pass followed by the expansion of its result. */
  lemma ExpandStep(fs: FileSystem, ctx: Context, scan: Scanner, text: string, fuel: nat)
    requires ScannerOk(scan) && HasDirective(scan, text) && fuel > 0
    ensures Expand(fs, ctx, scan, text, fuel)
         == Prepend(Pass(fs, ctx, scan, text).missing, Expand(fs, ctx, scan, Pass(fs, ctx, scan, text).text, fuel - 1))
  {
  }

  /** With a directive left and no fuel, there is no expansion. */
  lemma ExpandOutOfFuel(fs: FileSystem, ctx: Context, scan: Scanner, text: string)
    requires ScannerOk(scan) && HasDirective(scan, text)
    ensures Expand(fs, ctx, scan, text, 0).None?
  {
  }

  /**
   * The `while (result.match(include))` loop of index.js:70-100, allowed at
   * most `fuel` passes: None when a directive is still left after them.
   */
  method RunPasses(fs: FileSystem, ctx: Context, scan: Scanner, text: string, fuel: nat) returns (r: Option<PassResult>)
    requires ScannerOk(scan)
    ensures r == Expand(fs, ctx, scan, text, fuel)
  {
    var result := text;
    var missing: seq<string> := [];
    var f := fuel;
    PrependNothing(Expand(fs, ctx, scan, text, fuel));
    while HasDirective(scan, result) && f > 0
      invariant Expand(fs, ctx, scan, text, fuel) == Prepend(missing, Expand(fs, ctx, scan, result, f))
      decreases f
    {
      var p := ReplaceAll(fs, ctx, scan, result);
      ExpandStep(fs, ctx, scan, result, f);
      ghost var before := (missing, result, f);
      result := p.text;
      missing := missing + p.missing;
      f := f - 1;
      PrependChain(Expand(fs, ctx, scan, text, fuel), Expand(fs, ctx, scan, before.1, before.2),
                   Expand(fs, ctx, scan, result, f), before.0, p.missing, missing);
    }
    if HasDirective(scan, result) {
      ExpandOutOfFuel(fs, ctx, scan, result);
      r := None;
    } else {
      ExpandUnchanged(fs, ctx, scan, result, f);
      assert missing + [] == missing;
      r := Some(PassResult(result, missing));
    }
  }

  /** Reports prepended in two steps are the reports of both steps prepended at once. */
  lemma PrependChain(e: Option<PassResult>, x: Option<PassResult>, y: Option<PassResult>,
                     m: seq<string>, n: seq<string>, mn: seq<string>)
    requires e == Prepend(m, x) && x == Prepend(n, y) && mn == m + n
    ensures e == Prepend(mn, y)
  {
    PrependTwice(m, n, y);
  }

  /** Reporting `m` then `n` before a result is reporting `m + n` before it. */
  lemma PrependTwice(m: seq<string>, n: seq<string>, r: Option<PassResult>)
    ensures Prepend(m, Prepend(n, r)) == Prepend(m + n, r)
  {
    if r.Some? {
      AppendAssoc(m, n, r.value.missing);
    }
  }

  /** A text without directive is its own expansion, whatever the fuel. */
  lemma ExpandUnchanged(fs: FileSystem, ctx: Context, scan: Scanner, text: string, fuel: nat)
    requires ScannerOk(scan) && !HasDirective(scan, text)
    ensures Expand(fs, ctx, scan, text, fuel) == Some(PassResult(text, []))
  {
  }

  /** Expanding an expansion again changes nothing. */
  lemma ExpandIdempotent(fs: FileSystem, ctx: Context, scan: Scanner, text: string, fuel: nat, fuel': nat)
    requires ScannerOk(scan) && Expand(fs, ctx, scan, text, fuel).Some?
    ensures Expand(fs, ctx, scan, Expand(fs, ctx, scan, text, fuel).value.text, fuel')
         == Some(PassResult(Expand(fs, ctx, scan, text, fuel).value.text, []))
  {
    ExpandUnchanged(fs, ctx, scan, Expand(fs, ctx, scan, text, fuel).value.text, fuel');
  }

  /** More fuel does not change an expansion that already finished. */
  lemma {:induction false} ExpandMoreFuel(fs: FileSystem, ctx: Context, scan: Scanner, text: string, fuel: nat, more: nat)
    requires ScannerOk(scan) && Expand(fs, ctx, scan, text, fuel).Some? && fuel <= more
    ensures Expand(fs, ctx, scan, text, more) == Expand(fs, ctx, scan, text, fuel)
    decreases fuel
  {
    if HasDirective(scan, text) {
      var p := Pass(fs, ctx, scan, text);
      ExpandMoreFuel(fs, ctx, scan, p.text, fuel - 1, more - 1);
    }
  }

  /** When one pass leaves no directive, the expansion is that pass (an include one level deep). */
  lemma ExpandOnePass(fs: FileSystem, ctx: Context, scan: Scanner, text: string, fuel: nat)
    requires ScannerOk(scan) && HasDirective(scan, text)
    requires !HasDirective(scan, Pass(fs, ctx, scan, text).text)
    ensures Expand(fs, ctx, scan, text, fuel + 1) == Some(Pass(fs, ctx, scan, text))
  {
    var p := Pass(fs, ctx, scan, text);
    assert p.missing + [] == p.missing;
  }

  /** Every token the expansion reports is one the search could not find. */
  lemma {:induction false} ExpandReportsMissing(fs: FileSystem, ctx: Context, scan: Scanner, text: string, fuel: nat)
    requires ScannerOk(scan) && Expand(fs, ctx, scan, text, fuel).Some?
    ensures forall t :: t in Expand(fs, ctx, scan, text, fuel).value.missing ==> !Resolve(fs, ctx, t).found
    decreases fuel
  {
    if HasDirective(scan, text) {
      var p := Pass(fs, ctx, scan, text);
      PassReportsNotFound(fs, ctx, scan, text);
      ExpandReportsMissing(fs, ctx, scan, p.text, fuel - 1);
    }
  }

  /**
   * The expansion reports first every directive of the first pass whose token
   * the search missed, in left-to-right order, then what the later passes report.
   */
  lemma ExpandReportsInOrder(fs: FileSystem, ctx: Context, scan: Scanner, text: string, fuel: nat)
    requires ScannerOk(scan) && HasDirective(scan, text) && Expand(fs, ctx, scan, text, fuel).Some?
    ensures fuel > 0 && Expand(fs, ctx, scan, Pass(fs, ctx, scan, text).text, fuel - 1).Some?
    ensures Expand(fs, ctx, scan, text, fuel).value.missing
         == MissingOf(fs, ctx, Directives(text, scan(text), 0)) + Expand(fs, ctx, scan, Pass(fs, ctx, scan, text).text, fuel - 1).value.missing
  {
    PassFromMissing(fs, ctx, text, scan(text), 0);
  }
}
