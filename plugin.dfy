/**
 * The plugin object of index.js:22-105: options merged once when the plugin
 * is created, and a transform applied to every file of the stream.
 */
module Plugin {
  import opened Wrappers
  import opened Options
  import opened Matcher
  import opened Scan
  import opened Files
  import opened Search
  import opened Rewrite

  /** What a vinyl file holds: nothing, a stream, or a buffer read as text. */
  datatype Contents = Null | Streamed | Buffered(text: string)

  /** A file of the stream: its working directory and its contents, which the transform overwrites. */
  class File {
    const cwd: string
    var contents: Contents

    constructor (cwd: string, contents: Contents)
      ensures this.cwd == cwd && this.contents == contents
    {
      this.cwd := cwd;
      this.contents := contents;
    }
  }

  /** How the transform ends for one file. */
  datatype Outcome =
    | Dropped                          // a null file: passed to the callback as nothing
    | StreamRejected                   // a streamed file: "Streams not supported" emitted, file passed on
    | Transformed(missing: seq<string>) // contents rewritten; the tokens reported "File not found"
    | Diverged                         // directives still present when the fuel ran out

  /** The search context of one file under the given options. */
  function ContextFor(opts: Options, cwd: string): Context
    requires opts.src.Some?
  {
    Context(opts.src.value, cwd, opts.includes)
  }

  /** `options.src` after a buffered file from `cwd` went through (index.js:63-65). */
  function SrcAfter(src: Option<string>, cwd: string): (r: Option<string>)
    ensures r.Some?
    ensures src.Some? ==> r == src
    ensures src.None? ==> r == Some(cwd)
  {
    if src.None? then Some(cwd) else src
  }

  /** Once a file has set `options.src`, later files leave it as the first one set it. */
  lemma SrcSetOnce(src: Option<string>, first: string, later: string)
    ensures SrcAfter(SrcAfter(src, first), later) == SrcAfter(src, first)
    ensures src.None? ==> SrcAfter(SrcAfter(src, first), later) == Some(first)
  {
  }

  class IncludePlugin {
    var options: Options
    /** The parts the regular expression is built from. */
    const pattern: Pattern
    /** The regular expression `include` itself, built once. */
    const regex: Scanner

    /** index.js:27-47: defaults, `Object.assign`, and the compiled pattern. */
    constructor (user: UserOptions)
      ensures options == Merge(user)
      ensures pattern == Compile(Merge(user)) && regex == Compiled(pattern)
      ensures ScannerOk(regex)
    {
      options := Merge(user);
      pattern := Compile(Merge(user));
      regex := Compiled(Compile(Merge(user)));
      CompiledOk(Compile(Merge(user)));
    }

    /**
     * The transform of index.js:49-104, with at most `fuel` passes of the
     * `while` loop. Contents are written only once the loop has ended.
     */
    method Transform(file: File, fs: FileSystem, fuel: nat) returns (outcome: Outcome)
      requires ScannerOk(regex)
      modifies this, file
      ensures old(file.contents).Null? ==> outcome == Dropped
      ensures old(file.contents).Streamed? ==> outcome == StreamRejected
      ensures !old(file.contents).Buffered? ==> options == old(options) && file.contents == old(file.contents)
      ensures old(file.contents).Buffered? ==>
        options == old(options).(src := SrcAfter(old(options.src), file.cwd))
      ensures old(file.contents).Buffered? ==>
        match Expand(fs, ContextFor(options, file.cwd), regex, old(file.contents).text, fuel)
        case Some(r) => outcome == Transformed(r.missing) && file.contents == Buffered(r.text)
        case None => outcome == Diverged && file.contents == old(file.contents)
    {
      match file.contents
      case Null =>
        return Dropped;
      case Streamed =>
        return StreamRejected;
      case Buffered(text) =>
        if options.src.None? {
          options := options.(src := Some(file.cwd));
        }
        assert options == old(options).(src := SrcAfter(old(options.src), file.cwd));
        var ctx := ContextFor(options, file.cwd);
        var r := RunPasses(fs, ctx, regex, text, fuel);
        match r
        case None =>
          outcome := Diverged;
        case Some(done) =>
          file.contents := Buffered(done.text);
          outcome := Transformed(done.missing);
    }
  }
}
