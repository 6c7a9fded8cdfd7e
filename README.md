# gulp-custom-include, modelled in Dafny

gulp-custom-include is a gulp plugin that expands include directives inside
the files of a stream. A directive is written as a prefix (default `//@`),
followed by a keyword (default `include` or `replace`), followed by a file
name in parentheses, for example `//@include("part.js")`. The plugin builds
one global regular expression from its options. Each directive is replaced
by the contents of the file it names. The file is searched for in the
configured include directories, where the last directory that holds it
wins; failing that, the file's own working directory is used. The plugin
repeats whole-text passes until no directive is left, so included files may
include further files.

The model follows `index.js` module by module:

- `Escape`: `regexSafe`, and the literal string an escaped prefix stands for.
- `Options`: the defaults, and `Object.assign` of the user's options over them.
- `Matcher`: the compiled pattern and one attempt of the regular expression at
  a position, written out by hand for the default shape: the prefix, the
  keyword, then `\([\s'"]*([a-z.]*)[\s'"]*\)`.
- `Scan`: the attempts at every position of a text, and the leftmost-first
  search that a global `match` or `replace` performs. Everything downstream
  sees the compiled expression as an abstract `Scanner`.
- `Files`: the file system as a map from path to contents. This covers
  `existsSync`, `readFileSync`, a wildcard-free `glob.sync`, `path.join`, and
  the removal of quote characters from the token.
- `Search`: the replacement callback. It searches the include directories and
  falls back to the working directory. It also reports "File not found" and
  computes the text a directive is replaced by. `FindIncludePath` is the
  `forEach` loop as written, proved equal to `Resolve`.
- `Rewrite`: one `replace` pass. `ReplaceAll` is the loop, proved equal to
  `Pass`. It also holds the repetition: `RunPasses` is the `while` loop,
  proved equal to `Expand`, which is bounded by a fuel argument.
- `Forms`: the directive spellings and options exercised by the test file
  `test/main.js`, stated as lemmas about the matcher and about the expansion
  of each test file against the fixture `include.js`.
- `Plugin`: the plugin object. `IncludePlugin` holds the mutable options and
  the expression built once. `Transform` sets `options.src` on first use and
  overwrites `file.contents`.

The file system, the working directory and the file's contents are
parameters. The `error` events the plugin emits become return values:
`Outcome.StreamRejected`, and the list of tokens reported "File not found".

## Model

| member | source | states |
|---|---|---|
| Escape.RegexSafe | index.js:24 | the escaped prefix is one backslash longer per special character, and starts with a backslash exactly when the prefix starts with a special character |
| Escape.RegexSafeRoundTrip | index.js:24 | reading the escaped prefix as a regular-expression source gives back exactly the literal prefix |
| Escape.RegexSafeInjective | index.js:24 | two different prefixes never escape to the same source |
| Escape.RegexSafeUnchanged | index.js:24 | a prefix is copied unchanged if and only if it holds no special character |
| Escape.LiteralOf | index.js:47 | a source made of escaped specials and ordinary characters stands for a string one character shorter per escape |
| Options.Keywords | index.js:34 | a keyword fragment accepts at least one word: the default accepts `include` and `replace`, a user keyword accepts itself |
| Options.Defaults | index.js:27-38 | the defaults: no include directories, prefix `//@`, the include-or-replace keyword, src undefined |
| Options.Merge | index.js:41 | src is the user's; every option the user left unset takes its default, and every option set is the user's |
| Options.Assign | index.js:41 | every option the user set replaces the base one, and every option left unset keeps the base value |
| Options.MergeNothing | index.js:27-41 | passing no options yields the defaults: no include directories, prefix `//@`, include-or-replace, no src |
| Matcher.Compile | index.js:44-47 | the compiled prefix stands for exactly the configured prefix, and the keyword is the configured one |
| Matcher.Run | index.js:37 | a greedy class run stays within the text |
| Matcher.RunAllIn | index.js:37 | every character a run covers is of its class |
| Matcher.RunExact | index.js:37 | a run over a string of its class that then meets a character outside the class has exactly that string's length |
| Matcher.ClassesDisjoint | index.js:37 | no character is both a gap character and a token character, and `)` is neither |
| Matcher.KeywordAt | index.js:34 | the keyword read is one of the accepted words, and it lies inside the text |
| Matcher.KeywordAtSound | index.js:34 | the keyword read does occur at the position |
| Matcher.KeywordAtPicks | index.js:34 | any accepted word that occurs at the position is the one read |
| Matcher.CaptureAt | index.js:37 | a capture ends after its `(` and within the text |
| Matcher.CaptureComplete | index.js:37 | any gap, token, gap between parentheses is captured with exactly that token and ends after the `)` |
| Matcher.CaptureSound | index.js:37 | whatever is captured consists of parentheses around a gap, a token of `[a-z.]`, and a gap |
| Matcher.MatchAt | index.js:47 | a match found at position i starts at i and ends within the text |
| Matcher.MatchAtComplete | index.js:47 | every directive of the pattern's shape at i is matched there, with its token and its full length |
| Matcher.MatchAtSound | index.js:47 | every match at i is a directive of the pattern's shape: prefix, accepted keyword, capture |
| Matcher.MatchParts | index.js:47 | a match has the prefix and an accepted keyword at its start, and the capture right after them |
| Scan.CompiledExact | index.js:47 | the compiled expression succeeds at a position with a given end and token exactly when a directive of the pattern's shape lies there with that end and token |
| Scan.AttemptsOf | index.js:47 | the attempts at every position are consistent: each success starts at its own position and ends inside the text |
| Scan.CompiledOk | index.js:47 | the compiled expression answers consistently for every text |
| Scan.FirstIndex | index.js:70-71 | the leftmost success at or after i is a success, and no earlier position succeeds |
| Scan.FirstIndexSkips | index.js:71 | failing attempts before j do not move where the leftmost search lands |
| Scan.HasDirective | index.js:70 | `result.match(include)` is non-null: the leftmost search from position 0 finds a success |
| Scan.HasDirectiveIff | index.js:70 | `result.match(include)` is non-null if and only if the expression matches at some position |
| Scan.MatchAtToken | index.js:37 | a matched token consists only of lower-case letters and dots |
| Scan.NoParenNoDirective | index.js:37 | a text without `(` holds no directive, whatever the prefix and keyword |
| Scan.RenderLaidOut | index.js:47 | a directive written out part by part has the directive shape and the directive length |
| Files.Join | index.js:80 | a joined path is one separator longer than its two parts |
| Files.Glob | index.js:96 | a wildcard-free glob lists only existing paths, at most one: the pattern itself when it exists, nothing otherwise |
| Files.ReadAll | index.js:96-98 | the contents of the listed paths, read in turn and joined with nothing between them |
| Files.ReadAllAppend | index.js:96-98 | reading two lists of paths in turn concatenates their contents |
| Files.GlobRead | index.js:96-98 | the glob-and-join yields the file's contents, or the empty string when the file is absent |
| Files.StripQuotes | index.js:96 | the result holds no quote character and is no longer than the input |
| Files.StripQuotesAppend | index.js:96 | quote removal distributes over concatenation |
| Files.StripQuotesKeeps | index.js:96 | a string without quotes comes back unchanged |
| Search.Candidate | index.js:80 | the path checked for a token in one include directory: `src`, the directory and the token joined |
| Search.LastIncludeBelow | index.js:79-84 | the chosen directory holds the token, and no later directory among the first n does |
| Search.LastInclude | index.js:79-84 | some directory is chosen if and only if some include directory holds the token; the chosen one holds it and no later one does |
| Search.Resolve | index.js:73-90 | found if and only if some include directory or the cwd holds the token; when found, root + token exists; when only the cwd holds it, the root is `cwd/`; when not found, the root is the cwd |
| Search.LastDirectoryWins | index.js:79-84 | the last listed directory that holds the token decides the root `src/dir/` |
| Search.AppendedDirectoryWins | index.js:79-84 | appending a directory that holds the token makes it the root, whatever came before |
| Search.AppendedDirectoryIgnored | index.js:79-84 | appending a directory that lacks the token changes nothing |
| Search.IncludeBeforeCwd | index.js:86-89 | when an include directory holds the token, the cwd is not consulted |
| Search.FindIncludePath | index.js:73-90 | the forEach loop and the cwd fallback compute exactly the root and `found` of the search |
| Search.Replacement | index.js:96-98 | the replacement is the contents of root + quote-free token when that file exists, and the empty string otherwise |
| Search.ReplacementFound | index.js:96-98 | a quote-free token that was found is replaced by the contents of root + token |
| Search.ReplacementMissing | index.js:77-98 | a token not found is replaced by the contents of cwd + token, with no separator, or by the empty string |
| Search.ReplaceDirective | index.js:71-99 | the callback returns the replacement text, and reports a token exactly when the search did not find it |
| Rewrite.Reported | index.js:92-94 | a directive reports at most one token: its own, exactly when the search did not find it |
| Rewrite.Directives | index.js:71 | the directives a global replace visits are, in order, successful attempts at or after the start, the first being the leftmost, each starting at or after the end of the one before |
| Rewrite.MissingOf | index.js:92-94 | at most one report per directive; every reported token was not found, and every directive whose token was not found is reported |
| Rewrite.MissingOfTokens | index.js:92-94 | every reported token is the token of one of the directives |
| Rewrite.PassFrom | index.js:71-99 | the rest of a global replace: the text up to the leftmost directive, its replacement, then the rest after it, with the reports in the same order |
| Rewrite.Pass | index.js:71-99 | one global replace over the whole text, from position 0 |
| Rewrite.PassFromMissing | index.js:71-99 | a pass reports exactly the not-found tokens of the directives it replaces, one per directive, left to right |
| Rewrite.PassUnchanged | index.js:71 | a text without a directive comes out of a pass unchanged, with nothing reported |
| Rewrite.PassSingle | index.js:71 | with exactly one directive, the text around it is kept and only the directive is replaced; inserted text is not rescanned |
| Rewrite.PassReportsMissing | index.js:92-94 | a token is reported by a pass if and only if a directive the pass replaces carries it and the search did not find it |
| Rewrite.PassReportsNotFound | index.js:92-94 | every token a pass reports is one the search did not find |
| Rewrite.ReplaceAll | index.js:71-99 | the replace loop as written produces exactly the pass |
| Rewrite.Expand | index.js:70-100 | when the passes end within the fuel, no directive is left |
| Rewrite.RunPasses | index.js:70-100 | the while loop as written, bounded by fuel, produces exactly the expansion |
| Rewrite.ExpandUnchanged | index.js:70 | a text without a directive is its own expansion, whatever the fuel |
| Rewrite.ExpandIdempotent | index.js:70-100 | expanding an expansion again changes nothing and reports nothing |
| Rewrite.ExpandMoreFuel | index.js:70 | more fuel does not change an expansion that already finished |
| Rewrite.ExpandOnePass | index.js:70-100 | when one pass leaves no directive, the expansion is that pass |
| Rewrite.ExpandReportsMissing | index.js:92-94 | every token the expansion reports is one the search could not find |
| Rewrite.ExpandReportsInOrder | index.js:70-100 | the expansion reports first every not-found directive of the first pass, left to right, then what the later passes report |
| Forms.DefaultPattern | index.js:27-47 | with no options, the pattern has prefix `//@` and the include-or-replace keyword |
| Forms.KeywordPattern | index.js:41-47 | with only a keyword set, the pattern has prefix `//@` and that keyword alone |
| Forms.PrefixPattern | index.js:41-47 | with only a prefix set, the pattern has that prefix and the default keyword |
| Forms.BeginsMatch | index.js:47 | a text that begins with a written-out directive is matched at 0, with its token and length |
| Forms.DirectiveExpands | index.js:70-100 | a file holding exactly one well-formed directive, whose replacement holds no directive, becomes that replacement, with the token reported exactly when it was not found |
| Forms.FixtureExpands | index.js:70-100 | with `include.js` in the one include directory and a body without `(`, any well-formed directive naming it becomes that body, with nothing reported |
| Forms.PlainSpelling | test/main.js:43-55 | `//@include(include.js)` is matched with token `include.js` |
| Forms.DoubleQuotedSpelling | test/main.js:57-69 | `//@include("include.js")` is matched with token `include.js` |
| Forms.SingleQuotedSpelling | test/main.js:71-83 | `//@include('include.js')` is matched with token `include.js` |
| Forms.BlankSpelling | test/main.js:85-97 | `//@include(  include.js  )` is matched with token `include.js` |
| Forms.TabSpelling | test/main.js:99-111 | `//@include(\tinclude.js\t)` is matched with token `include.js` |
| Forms.CustomPrefixSpelling | test/main.js:117-130 | with prefix `//--`, `//--include(include.js)` is matched with token `include.js` |
| Forms.CustomKeywordSpelling | test/main.js:132-145 | with keyword `inject`, `//@inject(include.js)` is matched with token `include.js` |
| Forms.PlainIncluded | test/main.js:43-55 | with the test's include directory, `//@include(include.js)` becomes `// Successfully included`, nothing reported |
| Forms.DoubleQuotedIncluded | test/main.js:57-69 | `//@include("include.js")` becomes `// Successfully included`, nothing reported |
| Forms.SingleQuotedIncluded | test/main.js:71-83 | `//@include('include.js')` becomes `// Successfully included`, nothing reported |
| Forms.BlankIncluded | test/main.js:85-97 | `//@include(  include.js  )` becomes `// Successfully included`, nothing reported |
| Forms.TabIncluded | test/main.js:99-111 | `//@include(\tinclude.js\t)` becomes `// Successfully included`, nothing reported |
| Forms.CustomPrefixIncluded | test/main.js:117-130 | with prefix `//--`, `//--include(include.js)` becomes `// Successfully included` |
| Forms.CustomKeywordIncluded | test/main.js:132-145 | with keyword `inject`, `//@inject(include.js)` becomes `// Successfully included` |
| Forms.DefaultRejectsInject | test/main.js:166-178 | with the default keyword, `//@inject(include.js)` is not a directive at position 0 |
| Forms.PrefixOnlyAtStart | test/main.js:166-178 | in `//@inject(include.js)` no directive starts after position 0 |
| Forms.InjectUntouched | test/main.js:166-178 | with the default keyword, `//@inject(include.js)` is left as it is, nothing reported, whatever the files |
| Forms.ColonSpellingRejected | test/main.js:180-192 | `//@include: include.js ` holds no directive under any pattern, so it is left as it is, nothing reported |
| Plugin.SrcAfter | index.js:63-65 | `options.src` is set to the file's cwd only when it was undefined |
| Plugin.SrcSetOnce | index.js:63-65 | once set, `options.src` keeps the first file's cwd for every later file |
| Plugin.File.constructor | index.js:49 | a file holds its cwd and its contents |
| Plugin.IncludePlugin.constructor | index.js:27-47 | the options are the merged options, and the expression is compiled from them once |
| Plugin.IncludePlugin.Transform | index.js:49-104 | a null file is dropped and a streamed file is rejected, both untouched; a buffered file sets src once and gets the expansion of its text written back with the missing tokens reported; when the fuel runs out, its contents stay as they were |

## Left out

- The through2 stream wrapper and `callback` plumbing (index.js:49-60, index.js:102-103). `Transform` returns an `Outcome` instead.
- The stream error message: index.js:58 emits "Streams not supported", while test/main.js:35 expects "Streaming not supported". The model has no messages.
- Emitting `error` on an emitter with no listener throws in Node. The model treats every report as a returned token and carries on, as the code does when a listener exists.
- User-supplied `regex` fragments (index.js:37, test/main.js:147-160). These are arbitrary regular expressions and would need a general regular-expression engine.
- A user `keyword` is taken literally. A keyword holding regular-expression syntax is not modelled.
- `Matcher.KeywordAt`: the default keyword is the alternation `(?:include|replace)` written out as two words. The expression's backtracking between them is not modelled separately, because they differ in their first letter.
- The options form `include('test.js')`, where a string is assigned into the options object, is not modelled. Only an options object is.
- `Object.assign` copies an own property explicitly set to `undefined`. The model treats an undefined option as not set.
- `glob.sync` wildcard semantics. A token matched by the default capture holds only `[a-z.]`, but `options.src`, an entry of `options.includes` and `file.cwd` may hold glob syntax (`*`, `?`, `[...]`, `{a,b}`). The glob pattern at index.js:96 is then a real wildcard, `glob.sync` may list several files, and the source joins their contents in glob's order, while `existsSync` at index.js:80 and index.js:87 takes the same path literally. `Files.Glob` lists the path itself or nothing, so the model covers only directories whose names hold no glob syntax.
- `path.join` normalisation of `.`, `..` and repeated separators. `Join` is plain concatenation with `/`, and `path.join(file.cwd)` is taken as `file.cwd`.
- Directories: a path exists only as a file key in the map, so `existsSync` on a directory is not modelled. In the source, a token that names a directory is found: the empty token (the capture `[a-z.]*` may be empty), `.`, `..`, or a directory name. `existsSync` is true for it at index.js:80 or index.js:87, the glob at index.js:96 lists the directory, and `readFileSync` at index.js:97 throws `EISDIR`, so the transform ends with an uncaught exception. The empty token always does this, because the cwd itself exists. The model has no directories: such a token is not found and is reported "File not found", and the directive is replaced by the file at cwd + token, or by the empty string.
- `exists` and `read` are one map: a path exists exactly when it can be read.
- Buffer encoding: `toString()` and `new Buffer(...)` are the identity on `string`.
- `Plugin.IncludePlugin.Transform`: the source loops for ever when a file includes itself. The model stops after `fuel` passes and leaves the contents unchanged (`Diverged`).
- `Escape.LiteralOf`: reads only sources made of escaped specials and ordinary characters. Any other source gets None rather than its regular-expression meaning.
- `Forms.PlainSpelling` and the other spelling lemmas are stated for any text that begins with the spelling. `Forms.PlainIncluded` and its siblings state the whole test, with the fixture `include.js` holding `// Successfully included`, `/test/fixtures` joined by `Join` rather than `path.join`, and `src` defaulting to the file's cwd.
- `Forms.DefaultRejectsInject` is stated for the attempt at position 0. `Forms.InjectUntouched` states the whole file.
- `IsSpace` follows the ECMAScript `\s` class as a fixed list of code points.
