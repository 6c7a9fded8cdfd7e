/**
 * What one directive is replaced by (the replacement function of
 * index.js:71-99): the include-directory search, the fallback to the file's
 * own directory, the "File not found" report, and the glob-and-concatenate
 * substitution.
 */
module Search {
  import opened Wrappers
  import opened Files

  /** What the search reads: `options.src`, `file.cwd` and `options.includes`. */
  datatype Context = Context(src: string, cwd: string, includes: seq<string>)

  /** `path.join(options.src, dir, token)`, the path checked for an include directory (index.js:80). */
  function Candidate(ctx: Context, dir: string, token: string): string {
    Join(Join(ctx.src, dir), token)
  }

  /** The last of the first `n` include directories that holds `token`. */
  function LastIncludeBelow(fs: FileSystem, ctx: Context, token: string, n: nat): (r: Option<nat>)
    requires n <= |ctx.includes|
    ensures r.Some? ==> r.value < n && Candidate(ctx, ctx.includes[r.value], token) in fs
    ensures forall j :: 0 <= j < n && (r.None? || r.value < j) ==> Candidate(ctx, ctx.includes[j], token) !in fs
  {
    if n == 0 then None
    else if Candidate(ctx, ctx.includes[n - 1], token) in fs then Some(n - 1)
    else LastIncludeBelow(fs, ctx, token, n - 1)
  }

  /** The last include directory that holds `token`: the `forEach` keeps overwriting its choice (index.js:79-84). */
  function LastInclude(fs: FileSystem, ctx: Context, token: string): (r: Option<nat>)
    ensures r.Some? <==> InSomeInclude(fs, ctx, token)
    ensures r.Some? ==> r.value < |ctx.includes| && Candidate(ctx, ctx.includes[r.value], token) in fs
    ensures r.Some? ==> forall j :: r.value < j < |ctx.includes| ==> Candidate(ctx, ctx.includes[j], token) !in fs
  {
    LastIncludeBelow(fs, ctx, token, |ctx.includes|)
  }

  /** Where the token is looked up (`includePath`) and whether it was `found` (index.js:73-90). */
  datatype Resolution = Resolution(root: string, found: bool)

  /** Some include directory holds `token`. */
  predicate InSomeInclude(fs: FileSystem, ctx: Context, token: string) {
    exists j :: 0 <= j < |ctx.includes| && Candidate(ctx, ctx.includes[j], token) in fs
  }

  /** The search: the last include directory that holds the token, else `cwd/`, else `cwd` itself. */
  function Resolve(fs: FileSystem, ctx: Context, token: string): (r: Resolution)
    ensures r.found <==> InSomeInclude(fs, ctx, token) || Join(ctx.cwd, token) in fs
    ensures r.found ==> r.root + token in fs
    ensures !InSomeInclude(fs, ctx, token) && Join(ctx.cwd, token) in fs ==> r.root == ctx.cwd + "/"
    ensures !r.found ==> r.root == ctx.cwd
  {
    match LastInclude(fs, ctx, token)
    case Some(k) => Resolution(Join(ctx.src, ctx.includes[k]) + "/", true)
    case None =>
      if Join(ctx.cwd, token) in fs then Resolution(ctx.cwd + "/", true)
      else Resolution(ctx.cwd, false)
  }

  /** Among the include directories that hold the token, the one listed last decides the root. */
  lemma LastDirectoryWins(fs: FileSystem, ctx: Context, token: string, j: nat)
    requires j < |ctx.includes| && Candidate(ctx, ctx.includes[j], token) in fs
    requires forall k :: j < k < |ctx.includes| ==> Candidate(ctx, ctx.includes[k], token) !in fs
    ensures Resolve(fs, ctx, token) == Resolution(Join(ctx.src, ctx.includes[j]) + "/", true)
  {
    assert LastInclude(fs, ctx, token) == Some(j);
  }

  /** Listing one more directory that holds the token makes it the root, whatever came before. */
  lemma AppendedDirectoryWins(fs: FileSystem, ctx: Context, token: string, dir: string)
    requires Candidate(ctx, dir, token) in fs
    ensures Resolve(fs, ctx.(includes := ctx.includes + [dir]), token) == Resolution(Join(ctx.src, dir) + "/", true)
  {
    var ctx' := ctx.(includes := ctx.includes + [dir]);
    LastDirectoryWins(fs, ctx', token, |ctx.includes|);
  }

  /** Listing one more directory that lacks the token changes nothing. */
  lemma AppendedDirectoryIgnored(fs: FileSystem, ctx: Context, token: string, dir: string)
    requires Candidate(ctx, dir, token) !in fs
    ensures Resolve(fs, ctx.(includes := ctx.includes + [dir]), token) == Resolve(fs, ctx, token)
  {
    var ctx' := ctx.(includes := ctx.includes + [dir]);
    assert LastInclude(fs, ctx', token) == LastIncludeBelow(fs, ctx', token, |ctx.includes|);
    LastIncludeBelowSame(fs, ctx, ctx', token, |ctx.includes|);
  }

  /** The search over a prefix of the directories does not look past it. */
  lemma {:induction false} LastIncludeBelowSame(fs: FileSystem, ctx: Context, ctx': Context, token: string, n: nat)
    requires n <= |ctx.includes| && n <= |ctx'.includes| && ctx'.src == ctx.src
    requires ctx'.includes[..n] == ctx.includes[..n]
    ensures LastIncludeBelow(fs, ctx', token, n) == LastIncludeBelow(fs, ctx, token, n)
  {
    if n > 0 {
      assert ctx'.includes[n - 1] == ctx'.includes[..n][n - 1] == ctx.includes[n - 1];
      assert ctx'.includes[..n - 1] == ctx'.includes[..n][..n - 1];
      assert ctx.includes[..n - 1] == ctx.includes[..n][..n - 1];
      LastIncludeBelowSame(fs, ctx, ctx', token, n - 1);
    }
  }

  /** The file's own directory is consulted only when no include directory holds the token. */
  lemma IncludeBeforeCwd(fs: FileSystem, ctx: Context, token: string)
    requires InSomeInclude(fs, ctx, token)
    ensures LastInclude(fs, ctx, token).Some?
    ensures Resolve(fs, ctx, token).root == Join(ctx.src, ctx.includes[LastInclude(fs, ctx, token).value]) + "/"
  {
  }

  /**
   * The search as the source runs it: `found` and `includePath` overwritten
   * by every include directory that holds the token, then the cwd fallback.
   */
  method FindIncludePath(fs: FileSystem, ctx: Context, token: string) returns (root: string, found: bool)
    ensures Resolution(root, found) == Resolve(fs, ctx, token)
  {
    found := false;
    root := ctx.cwd;
    for idx := 0 to |ctx.includes|
      invariant found <==> LastIncludeBelow(fs, ctx, token, idx).Some?
      invariant found ==> root == Join(ctx.src, ctx.includes[LastIncludeBelow(fs, ctx, token, idx).value]) + "/"
      invariant !found ==> root == ctx.cwd
    {
      var p := ctx.includes[idx];
      if Join(Join(ctx.src, p), token) in fs {
        found := true;
        root := Join(ctx.src, p) + "/";
      }
    }
    if !found && Join(ctx.cwd, token) in fs {
      found := true;
      root := ctx.cwd + "/";
    }
  }

  /** The text a directive is replaced by: the globbed files under the root, concatenated (index.js:96-98). */
  function Replacement(fs: FileSystem, ctx: Context, token: string): (r: string)
    ensures var path := Resolve(fs, ctx, token).root + StripQuotes(token);
      && (path in fs ==> r == fs[path])
      && (path !in fs ==> r == "")
  {
    var path := Resolve(fs, ctx, token).root + StripQuotes(token);
    GlobRead(fs, path);
    ReadAll(fs, Glob(fs, path))
  }

  /** A token that was found is replaced by the contents of the file the search found. */
  lemma ReplacementFound(fs: FileSystem, ctx: Context, token: string)
    requires forall i :: 0 <= i < |token| ==> !IsQuote(token[i])
    requires Resolve(fs, ctx, token).found
    ensures Replacement(fs, ctx, token) == fs[Resolve(fs, ctx, token).root + token]
  {
    StripQuotesKeeps(token);
  }

  /**
   * A token that was not found is still globbed, at `cwd` followed directly by
   * the token with no separator: the replacement is that file, or nothing.
   */
  lemma ReplacementMissing(fs: FileSystem, ctx: Context, token: string)
    requires forall i :: 0 <= i < |token| ==> !IsQuote(token[i])
    requires !Resolve(fs, ctx, token).found
    ensures ctx.cwd + token in fs ==> Replacement(fs, ctx, token) == fs[ctx.cwd + token]
    ensures ctx.cwd + token !in fs ==> Replacement(fs, ctx, token) == ""
  {
    StripQuotesKeeps(token);
  }

  /**
   * The replacement function itself: search, report the token when it was not
   * found, then glob and concatenate.
   */
  method ReplaceDirective(fs: FileSystem, ctx: Context, token: string) returns (content: string, missing: bool)
    ensures content == Replacement(fs, ctx, token)
    ensures missing <==> !Resolve(fs, ctx, token).found
  {
    var root, found := FindIncludePath(fs, ctx, token);
    missing := !found;
    content := ReadAll(fs, Glob(fs, root + StripQuotes(token)));
  }
}
