/**
 * The file system as the plugin sees it through `fs.existsSync`,
 * `fs.readFileSync`, `glob.sync` and `path.join` (index.js:80-98).
 */
module Files {
  /**
   * A path exists when it is a key; its value is what reading it returns.
   * Directories are not modelled: only files exist.
   */
  type FileSystem = map<string, string>

  /** `path.join(a, b)`, without the normalisation of `.` and `..` segments. */
  function Join(a: string, b: string): (p: string)
    ensures |p| == |a| + 1 + |b|
  {
    a + "/" + b
  }

  /** `glob.sync(pattern)` for a pattern without wildcards: the pattern itself when it exists. */
  function Glob(fs: FileSystem, pattern: string): (paths: seq<string>)
    ensures forall p :: p in paths ==> p in fs
    ensures |paths| <= 1
    ensures pattern in fs ==> pattern in paths
    ensures pattern !in fs ==> paths == []
  {
    if pattern in fs then [pattern] else []
  }

  /** `paths.map(p => fs.readFileSync(p).toString()).join('')`. */
  function ReadAll(fs: FileSystem, paths: seq<string>): (s: string)
    requires forall p :: p in paths ==> p in fs
  {
    if paths == [] then "" else fs[paths[0]] + ReadAll(fs, paths[1..])
  }

  /** Reading two lists of paths one after the other gives the two contents one after the other. */
  lemma {:induction false} ReadAllAppend(fs: FileSystem, xs: seq<string>, ys: seq<string>)
    requires forall p :: p in xs ==> p in fs
    requires forall p :: p in ys ==> p in fs
    ensures ReadAll(fs, xs + ys) == ReadAll(fs, xs) + ReadAll(fs, ys)
  {
    if xs == [] {
      assert xs + ys == ys;
    } else {
      assert (xs + ys)[1..] == xs[1..] + ys;
      ReadAllAppend(fs, xs[1..], ys);
    }
  }

  /** What a wildcard-free glob reads: the file's contents, or nothing when it is absent. */
  lemma GlobRead(fs: FileSystem, pattern: string)
    ensures pattern in fs ==> ReadAll(fs, Glob(fs, pattern)) == fs[pattern]
    ensures pattern !in fs ==> ReadAll(fs, Glob(fs, pattern)) == ""
  {
    if pattern in fs {
      assert Glob(fs, pattern)[1..] == [];
    }
  }

  predicate IsQuote(c: char) {
    c == '\'' || c == '"'
  }

  /** `s.replace(/'|"/g, '')`: every quote character removed. */
  function StripQuotes(s: string): (r: string)
    ensures forall i :: 0 <= i < |r| ==> !IsQuote(r[i])
    ensures |r| <= |s|
  {
    if s == [] then ""
    else if IsQuote(s[0]) then StripQuotes(s[1..])
    else [s[0]] + StripQuotes(s[1..])
  }

  /** Removing quotes from a concatenation removes them from each part. */
  lemma {:induction false} StripQuotesAppend(a: string, b: string)
    ensures StripQuotes(a + b) == StripQuotes(a) + StripQuotes(b)
  {
    if a == [] {
      assert a + b == b;
    } else {
      assert (a + b)[0] == a[0];
      assert (a + b)[1..] == a[1..] + b;
      StripQuotesAppend(a[1..], b);
    }
  }

  /** A string without quotes comes back unchanged, so removing quotes twice removes nothing more. */
  lemma {:induction false} StripQuotesKeeps(s: string)
    requires forall i :: 0 <= i < |s| ==> !IsQuote(s[i])
    ensures StripQuotes(s) == s
  {
    if s != [] {
      assert !IsQuote(s[0]);
      StripQuotesKeeps(s[1..]);
    }
  }
}
