/**
 * The prefix escaping of index.js:24 (`regexSafe`): every character of a fixed
 * class gets a backslash in front of it, so that the prefix can be spliced into
 * a regular expression and still stand for itself.
 */
module Escape {
  import opened Wrappers

  /** The characters `regexSafe` escapes: - [ ] / { } ( ) * + ? . \ ^ $ | */
  predicate IsSpecial(c: char) {
    c in {'-', '[', ']', '/', '{', '}', '(', ')', '*', '+', '?', '.', '\\', '^', '$', '|'}
  }

  /** The number of characters of `s` that `regexSafe` escapes. */
  function SpecialCount(s: string): nat {
    if s == [] then 0 else (if IsSpecial(s[0]) then 1 else 0) + SpecialCount(s[1..])
  }

  /**
   * `regexSafe(s)`: a backslash before each special character, every other character
   * copied, so each special character costs exactly one extra backslash.
   */
  function RegexSafe(s: string): (r: string)
    ensures |r| == |s| + SpecialCount(s)
    ensures |s| > 0 ==> (IsSpecial(s[0]) <==> r[0] == '\\')
  {
    if s == [] then []
    else (if IsSpecial(s[0]) then ['\\', s[0]] else [s[0]]) + RegexSafe(s[1..])
  }

  function Cons(c: char, rest: Option<string>): Option<string> {
    match rest
    case None => None
    case Some(t) => Some([c] + t)
  }

  /**
   * The literal string a regular-expression source stands for, when it is made only of
   * escaped special characters (`\(` stands for `(`) and characters outside the special
   * class; None for any other source (an unescaped special character, or a backslash
   * before an ordinary character, which in a regular expression may mean a class).
   */
  function LiteralOf(p: string): (r: Option<string>)
    ensures r.Some? ==> |r.value| <= |p|
    ensures r.Some? ==> |r.value| + SpecialCount(r.value) == |p|
  {
    if p == [] then Some([])
    else if p[0] == '\\' then
      if |p| >= 2 && IsSpecial(p[1]) then Cons(p[1], LiteralOf(p[2..])) else None
    else if IsSpecial(p[0]) then None
    else Cons(p[0], LiteralOf(p[1..]))
  }

  /** The escaped prefix stands for exactly the literal prefix (index.js:24, index.js:44). */
  lemma {:induction false} RegexSafeRoundTrip(s: string)
    ensures LiteralOf(RegexSafe(s)) == Some(s)
  {
    if s != [] {
      RegexSafeRoundTrip(s[1..]);
      var rest := RegexSafe(s[1..]);
      if IsSpecial(s[0]) {
        assert RegexSafe(s) == ['\\', s[0]] + rest;
        assert (['\\', s[0]] + rest)[2..] == rest;
      } else {
        assert RegexSafe(s) == [s[0]] + rest;
        assert ([s[0]] + rest)[1..] == rest;
      }
      assert [s[0]] + s[1..] == s;
    }
  }

  /** Two different prefixes never escape to the same pattern source. */
  lemma RegexSafeInjective(s: string, t: string)
    requires RegexSafe(s) == RegexSafe(t)
    ensures s == t
  {
    RegexSafeRoundTrip(s);
    RegexSafeRoundTrip(t);
  }

  /** A prefix is copied unchanged exactly when it holds no special character. */
  lemma {:induction false} RegexSafeUnchanged(s: string)
    ensures RegexSafe(s) == s <==> SpecialCount(s) == 0
  {
    if SpecialCount(s) == 0 {
      NoSpecialCopied(s);
    }
  }

  lemma {:induction false} NoSpecialCopied(s: string)
    requires SpecialCount(s) == 0
    ensures RegexSafe(s) == s
  {
    if s != [] {
      NoSpecialCopied(s[1..]);
      assert [s[0]] + s[1..] == s;
    }
  }
}
