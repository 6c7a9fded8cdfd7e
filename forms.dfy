/**
 * The directive spellings that test/main.js exercises: what the matcher finds
 * in any file whose contents begin with them, and what the whole transform
 * makes of the test files against the fixture `include.js`.
 */
module Forms {
  import opened Wrappers
  import opened Options
  import opened Matcher
  import opened Scan
  import opened Files
  import opened Search
  import opened Rewrite

  /** The pattern compiled from the default options: prefix `//@`, keyword include or replace. */
  function DefaultPattern(): (pat: Pattern)
    ensures pat.prefix == "//@" && pat.keyword == IncludeOrReplace && PrefixDenoted(pat)
  {
    Compile(Defaults())
  }

  /** The pattern compiled when only the keyword is set by the user (test/main.js:132-145). */
  function KeywordPattern(w: string): (pat: Pattern)
    ensures pat.prefix == "//@" && pat.keyword == Word(w) && PrefixDenoted(pat)
  {
    Compile(Merge(UserOptions(None, None, Some(w), None)))
  }

  /** The pattern compiled when only the prefix is set by the user (test/main.js:117-130). */
  function PrefixPattern(p: string): (pat: Pattern)
    ensures pat.prefix == p && pat.keyword == IncludeOrReplace && PrefixDenoted(pat)
  {
    Compile(Merge(UserOptions(None, Some(p), None, None)))
  }

  /** A text that begins with `w` agrees with `w` wherever `w` holds `s`. */
  lemma StartsAtWithin(text: string, w: string, x: nat, s: string)
    requires StartsAt(text, 0, w) && StartsAt(w, x, s)
    ensures StartsAt(text, x, s)
  {
    forall j | 0 <= j < |s| ensures text[x + j] == s[j] {
      assert text[0 + (x + j)] == w[x + j];
    }
  }

  /** A text that begins with `w` holds every directive laid out in `w`. */
  lemma BeginsLaidOut(text: string, w: string, pat: Pattern, kw: string, lead: string, token: string, trail: string)
    requires StartsAt(text, 0, w)
    requires DirectiveLaidOut(w, pat, 0, kw, lead, token, trail)
    ensures DirectiveLaidOut(text, pat, 0, kw, lead, token, trail)
  {
    var open := |pat.prefix| + |kw|;
    var close := open + 1 + |lead| + |token| + |trail|;
    StartsAtWithin(text, w, 0, pat.prefix);
    StartsAtWithin(text, w, |pat.prefix|, kw);
    StartsAtWithin(text, w, open + 1, lead);
    StartsAtWithin(text, w, open + 1 + |lead|, token);
    StartsAtWithin(text, w, open + 1 + |lead| + |token|, trail);
    assert text[0 + open] == w[open];
    assert text[0 + close] == w[close];
  }

  /** A text that begins with a well-formed written-out directive matches it at 0. */
  lemma BeginsMatch(text: string, pat: Pattern, kw: string, lead: string, token: string, trail: string)
    requires Parts(pat, kw, lead, token, trail)
    requires StartsAt(text, 0, Render(pat.prefix, kw, lead, token, trail))
    ensures MatchAt(text, pat, 0) == Some(Occurrence(0, DirectiveLength(pat, kw, lead, token, trail), token))
  {
    RenderLaidOut(pat, kw, lead, token, trail);
    BeginsLaidOut(text, Render(pat.prefix, kw, lead, token, trail), pat, kw, lead, token, trail);
    MatchAtComplete(text, pat, 0, kw, lead, token, trail);
  }

  /** The gaps and the token of the spellings below are of their classes. */
  lemma SpellingParts()
    ensures AllIn("include.js", TokenChar)
    ensures AllIn("", Gap) && AllIn("\"", Gap) && AllIn("'", Gap) && AllIn("  ", Gap) && AllIn("\t", Gap)
  {
    var t := "include.js";
    assert forall j | 0 <= j < |t| :: t[j] in "include.js";
  }

  /** `//@include(include.js)` is the default prefix and keyword around no gap. */
  lemma PlainWritten()
    ensures Render("//@", "include", "", "include.js", "") == "//@include(include.js)"
  {
  }

  /** `//@include(include.js)` names include.js (test/main.js:43-55). */
  lemma PlainSpelling(text: string)
    requires StartsAt(text, 0, "//@include(include.js)")
    ensures MatchAt(text, DefaultPattern(), 0) == Some(Occurrence(0, 22, "include.js"))
  {
    PlainWritten();
    SpellingParts();
    BeginsMatch(text, DefaultPattern(), "include", "", "include.js", "");
  }

  /** `//@include(\"include.js\")` is the default prefix and keyword around the gap `\"` on both sides. */
  lemma DoubleQuotedWritten()
    ensures Render("//@", "include", "\"", "include.js", "\"") == "//@include(\"include.js\")"
  {
  }

  /** `//@include(\"include.js\")` names include.js (test/main.js:57-69). */
  lemma DoubleQuotedSpelling(text: string)
    requires StartsAt(text, 0, "//@include(\"include.js\")")
    ensures MatchAt(text, DefaultPattern(), 0) == Some(Occurrence(0, 24, "include.js"))
  {
    DoubleQuotedWritten();
    SpellingParts();
    BeginsMatch(text, DefaultPattern(), "include", "\"", "include.js", "\"");
  }

  /** `//@include('include.js')` is the default prefix and keyword around the gap `'` on both sides. */
  lemma SingleQuotedWritten()
    ensures Render("//@", "include", "'", "include.js", "'") == "//@include('include.js')"
  {
  }

  /** `//@include('include.js')` names include.js (test/main.js:71-83). */
  lemma SingleQuotedSpelling(text: string)
    requires StartsAt(text, 0, "//@include('include.js')")
    ensures MatchAt(text, DefaultPattern(), 0) == Some(Occurrence(0, 24, "include.js"))
  {
    SingleQuotedWritten();
    SpellingParts();
    BeginsMatch(text, DefaultPattern(), "include", "'", "include.js", "'");
  }

  /** `//@include(  include.js  )` is the default prefix and keyword around the gap `  ` on both sides. */
  lemma BlankWritten()
    ensures Render("//@", "include", "  ", "include.js", "  ") == "//@include(  include.js  )"
  {
  }

  /** `//@include(  include.js  )` names include.js (test/main.js:85-97). */
  lemma BlankSpelling(text: string)
    requires StartsAt(text, 0, "//@include(  include.js  )")
    ensures MatchAt(text, DefaultPattern(), 0) == Some(Occurrence(0, 26, "include.js"))
  {
    BlankWritten();
    SpellingParts();
    BeginsMatch(text, DefaultPattern(), "include", "  ", "include.js", "  ");
  }

  /** `//@include(\tinclude.js\t)` is the default prefix and keyword around the gap `\t` on both sides. */
  lemma TabWritten()
    ensures Render("//@", "include", "\t", "include.js", "\t") == "//@include(\tinclude.js\t)"
  {
  }

  /** `//@include(\tinclude.js\t)` names include.js (test/main.js:99-111). */
  lemma TabSpelling(text: string)
    requires StartsAt(text, 0, "//@include(\tinclude.js\t)")
    ensures MatchAt(text, DefaultPattern(), 0) == Some(Occurrence(0, 24, "include.js"))
  {
    TabWritten();
    SpellingParts();
    BeginsMatch(text, DefaultPattern(), "include", "\t", "include.js", "\t");
  }

  /** `//--include(include.js)` is the prefix `//--` and keyword include around no gap. */
  lemma CustomPrefixWritten()
    ensures Render("//--", "include", "", "include.js", "") == "//--include(include.js)"
  {
  }

  /** With the prefix `//--`, `//--include(include.js)` names include.js (test/main.js:117-130). */
  lemma CustomPrefixSpelling(text: string)
    requires StartsAt(text, 0, "//--include(include.js)")
    ensures MatchAt(text, PrefixPattern("//--"), 0) == Some(Occurrence(0, 23, "include.js"))
  {
    CustomPrefixWritten();
    SpellingParts();
    BeginsMatch(text, PrefixPattern("//--"), "include", "", "include.js", "");
  }

  /** `//@inject(include.js)` is the prefix `//@` and the keyword inject around no gap. */
  lemma CustomKeywordWritten()
    ensures Render("//@", "inject", "", "include.js", "") == "//@inject(include.js)"
  {
  }

  /** With the keyword `inject`, `//@inject(include.js)` names include.js (test/main.js:132-145). */
  lemma CustomKeywordSpelling(text: string)
    requires StartsAt(text, 0, "//@inject(include.js)")
    ensures MatchAt(text, KeywordPattern("inject"), 0) == Some(Occurrence(0, 21, "include.js"))
  {
    CustomKeywordWritten();
    SpellingParts();
    BeginsMatch(text, KeywordPattern("inject"), "inject", "", "include.js", "");
  }

  /**
   * A file that holds exactly one directive expands, in one pass, to that
   * directive's replacement, reporting the token when the search missed it,
   * provided the replacement itself holds no directive.
   */
  lemma DirectiveExpands(fs: FileSystem, ctx: Context, pat: Pattern, kw: string, lead: string, token: string, trail: string, fuel: nat)
    requires Parts(pat, kw, lead, token, trail)
    requires !HasDirective(Compiled(pat), Replacement(fs, ctx, token))
    ensures Expand(fs, ctx, Compiled(pat), Render(pat.prefix, kw, lead, token, trail), fuel + 1)
         == Some(PassResult(Replacement(fs, ctx, token), Reported(fs, ctx, token)))
  {
    var text := Render(pat.prefix, kw, lead, token, trail);
    var scan := Compiled(pat);
    CompiledOk(pat);
    var a := scan(text);
    assert a == AttemptsOf(text, pat);
    assert StartsAt(text, 0, text) by {
      assert forall j | 0 <= j < |text| :: text[0 + j] == text[j];
    }
    BeginsMatch(text, pat, kw, lead, token, trail);
    RenderLaidOut(pat, kw, lead, token, trail);
    assert a[0] == Some(Occurrence(0, |text|, token));
    assert FirstIndex(a, 0) == Some(0);
    assert FirstIndex(a, |text|) == None by {
      assert a[|text|].None?;
      assert FirstIndex(a, |text| + 1) == None;
    }
    assert PassFrom(fs, ctx, text, a, |text|) == PassResult([], []);
    assert Pass(fs, ctx, scan, text) == PassResult(Replacement(fs, ctx, token), Reported(fs, ctx, token));
    ExpandOnePass(fs, ctx, scan, text, fuel);
  }

  /**
   * The fixture of the tests: the search starts from `src`, the only include
   * directory `/test/fixtures` holds `include.js`, and its body holds no `(`.
   * Any well-formed directive naming `include.js` then expands to that body,
   * with nothing reported.
   */
  lemma FixtureExpands(src: string, cwd: string, pat: Pattern, kw: string, lead: string, trail: string, body: string, fuel: nat)
    requires Parts(pat, kw, lead, "include.js", trail)
    requires forall p :: 0 <= p < |body| ==> body[p] != '('
    ensures var ctx := Context(src, cwd, ["/test/fixtures"]);
      var fs := map[Candidate(ctx, "/test/fixtures", "include.js") := body];
      Expand(fs, ctx, Compiled(pat), Render(pat.prefix, kw, lead, "include.js", trail), fuel + 1) == Some(PassResult(body, []))
  {
    var ctx := Context(src, cwd, ["/test/fixtures"]);
    var fs := map[Candidate(ctx, "/test/fixtures", "include.js") := body];
    LastDirectoryWins(fs, ctx, "include.js", 0);
    StripQuotesKeeps("include.js");
    assert Join(src, "/test/fixtures") + "/" + "include.js" == Candidate(ctx, "/test/fixtures", "include.js");
    assert Replacement(fs, ctx, "include.js") == body;
    NoParenNoDirective(body, pat);
    DirectiveExpands(fs, ctx, pat, kw, lead, "include.js", trail, fuel);
  }

  /** The text every successful test expects: the body of the fixture `include.js`. */
  const Included := "// Successfully included"

  /** `Included` holds no `(`, so it is not rewritten again. */
  lemma IncludedHasNoParen()
    ensures forall p :: 0 <= p < |Included| ==> Included[p] != '('
  {
    assert forall p | 0 <= p < |Included| :: Included[p] in "// Successfully included";
  }

  /** The search context of the tests: `src` defaults to the file's cwd, and `/test/fixtures` is the one include directory. */
  function FixtureContext(cwd: string): Context {
    Context(cwd, cwd, ["/test/fixtures"])
  }

  /** The file system of the tests: the include directory holds `include.js`, whose body is `Included`. */
  function FixtureFiles(cwd: string): FileSystem {
    map[Candidate(FixtureContext(cwd), "/test/fixtures", "include.js") := Included]
  }

  /** The whole of test/main.js:43-55: `//@include(include.js)` becomes the fixture's body, nothing reported. */
  lemma PlainIncluded(cwd: string, fuel: nat)
    ensures Expand(FixtureFiles(cwd), FixtureContext(cwd), Compiled(DefaultPattern()), "//@include(include.js)", fuel + 1)
         == Some(PassResult(Included, []))
  {
    PlainWritten();
    SpellingParts();
    IncludedHasNoParen();
    FixtureExpands(cwd, cwd, DefaultPattern(), "include", "", "", Included, fuel);
  }

  /** The whole of test/main.js:57-69: `//@include(\"include.js\")` becomes the fixture's body. */
  lemma DoubleQuotedIncluded(cwd: string, fuel: nat)
    ensures Expand(FixtureFiles(cwd), FixtureContext(cwd), Compiled(DefaultPattern()), "//@include(\"include.js\")", fuel + 1)
         == Some(PassResult(Included, []))
  {
    DoubleQuotedWritten();
    SpellingParts();
    IncludedHasNoParen();
    FixtureExpands(cwd, cwd, DefaultPattern(), "include", "\"", "\"", Included, fuel);
  }

  /** The whole of test/main.js:71-83: `//@include('include.js')` becomes the fixture's body. */
  lemma SingleQuotedIncluded(cwd: string, fuel: nat)
    ensures Expand(FixtureFiles(cwd), FixtureContext(cwd), Compiled(DefaultPattern()), "//@include('include.js')", fuel + 1)
         == Some(PassResult(Included, []))
  {
    SingleQuotedWritten();
    SpellingParts();
    IncludedHasNoParen();
    FixtureExpands(cwd, cwd, DefaultPattern(), "include", "'", "'", Included, fuel);
  }

  /** The whole of test/main.js:85-97: `//@include(  include.js  )` becomes the fixture's body. */
  lemma BlankIncluded(cwd: string, fuel: nat)
    ensures Expand(FixtureFiles(cwd), FixtureContext(cwd), Compiled(DefaultPattern()), "//@include(  include.js  )", fuel + 1)
         == Some(PassResult(Included, []))
  {
    BlankWritten();
    SpellingParts();
    IncludedHasNoParen();
    FixtureExpands(cwd, cwd, DefaultPattern(), "include", "  ", "  ", Included, fuel);
  }

  /** The whole of test/main.js:99-111: `//@include(\tinclude.js\t)` becomes the fixture's body. */
  lemma TabIncluded(cwd: string, fuel: nat)
    ensures Expand(FixtureFiles(cwd), FixtureContext(cwd), Compiled(DefaultPattern()), "//@include(\tinclude.js\t)", fuel + 1)
         == Some(PassResult(Included, []))
  {
    TabWritten();
    SpellingParts();
    IncludedHasNoParen();
    FixtureExpands(cwd, cwd, DefaultPattern(), "include", "\t", "\t", Included, fuel);
  }

  /** The whole of test/main.js:117-130: with prefix `//--`, `//--include(include.js)` becomes the fixture's body. */
  lemma CustomPrefixIncluded(cwd: string, fuel: nat)
    ensures Expand(FixtureFiles(cwd), FixtureContext(cwd), Compiled(PrefixPattern("//--")), "//--include(include.js)", fuel + 1)
         == Some(PassResult(Included, []))
  {
    CustomPrefixWritten();
    SpellingParts();
    IncludedHasNoParen();
    FixtureExpands(cwd, cwd, PrefixPattern("//--"), "include", "", "", Included, fuel);
  }

  /** The whole of test/main.js:132-145: with keyword `inject`, `//@inject(include.js)` becomes the fixture's body. */
  lemma CustomKeywordIncluded(cwd: string, fuel: nat)
    ensures Expand(FixtureFiles(cwd), FixtureContext(cwd), Compiled(KeywordPattern("inject")), "//@inject(include.js)", fuel + 1)
         == Some(PassResult(Included, []))
  {
    CustomKeywordWritten();
    SpellingParts();
    IncludedHasNoParen();
    FixtureExpands(cwd, cwd, KeywordPattern("inject"), "inject", "", "", Included, fuel);
  }

  /** With the default keyword, `inject` after the prefix is not a keyword (test/main.js:166-178). */
  lemma DefaultRejectsInject(text: string)
    requires StartsAt(text, 0, "//@inject(include.js)")
    ensures MatchAt(text, DefaultPattern(), 0).None?
  {
    var w := "//@inject(include.js)";
    assert text[5] == w[5] == 'j' != "include"[2];
    assert text[3] == w[3] == 'i' != "replace"[0];
  }

  /**
   * The whole of test/main.js:166-178: with the default keyword, no position of
   * `//@inject(include.js)` starts a directive, so the file is left as it is and
   * nothing is reported, whatever the files and the search context.
   */
  lemma InjectUntouched(fs: FileSystem, ctx: Context, fuel: nat)
    ensures Expand(fs, ctx, Compiled(DefaultPattern()), "//@inject(include.js)", fuel)
         == Some(PassResult("//@inject(include.js)", []))
  {
    var text := "//@inject(include.js)";
    var pat := DefaultPattern();
    var a := Compiled(pat)(text);
    assert a == AttemptsOf(text, pat);
    CompiledOk(pat);
    DefaultRejectsInject(text);
    forall j | 0 < j <= |text| ensures MatchAt(text, pat, j).None? {
      PrefixOnlyAtStart(text, pat, j);
    }
    assert forall j | 0 <= j <= |text| :: a[j] == MatchAt(text, pat, j);
    assert !HasDirective(Compiled(pat), text);
    ExpandUnchanged(fs, ctx, Compiled(pat), text, fuel);
  }

  /** In `//@inject(include.js)` the only `@` is the third character, so the prefix `//@` occurs at 0 alone. */
  lemma PrefixOnlyAtStart(text: string, pat: Pattern, j: nat)
    requires text == "//@inject(include.js)" && pat.prefix == "//@" && 0 < j <= |text|
    ensures MatchAt(text, pat, j).None?
  {
    assert !StartsAt(text, j, pat.prefix) by {
      if j + 3 <= |text| {
        assert forall k | 0 <= k < |text| && k != 2 :: text[k] != '@';
        assert text[j + 2] != pat.prefix[2];
      }
    }
    if MatchAt(text, pat, j).Some? {
      var kw := MatchParts(text, pat, j);
      assert false;
    }
  }

  /** `//@include: include.js ` holds no `(`, so no directive at all (test/main.js:180-192). */
  lemma ColonSpellingRejected(text: string, pat: Pattern, fs: FileSystem, ctx: Context, fuel: nat)
    requires text == "//@include: include.js "
    ensures !HasDirective(Compiled(pat), text)
    ensures Expand(fs, ctx, Compiled(pat), text, fuel) == Some(PassResult(text, []))
  {
    NoParenNoDirective(text, pat);
    CompiledOk(pat);
    ExpandUnchanged(fs, ctx, Compiled(pat), text, fuel);
  }
}
