/**
 * Plugin options (index.js:26-41): the defaults, and `Object.assign` of what the
 * user passed over them. Only the options the core reads are modelled.
 */
module Options {
  import opened Wrappers

  /**
   * The keyword fragment of the directive pattern: the default alternation
   * `(?:include|replace)` (index.js:34), or a single literal word the user set.
   */
  datatype Keyword = IncludeOrReplace | Word(w: string)

  /** The words a keyword fragment accepts, in the order the alternation tries them. */
  function Keywords(k: Keyword): (ws: seq<string>)
    ensures |ws| >= 1
  {
    match k
    case IncludeOrReplace => ["include", "replace"]
    case Word(w) => [w]
  }

  /** What the user may pass; a field that is None is one the user left undefined. */
  datatype UserOptions = UserOptions(
    includes: Option<seq<string>>,
    prefix: Option<string>,
    keyword: Option<string>,
    src: Option<string>)

  /** The merged options. `src` stays None until the first file supplies it (index.js:63-65). */
  datatype Options = Options(
    includes: seq<string>,
    prefix: string,
    keyword: Keyword,
    src: Option<string>)

  function NoUserOptions(): UserOptions {
    UserOptions(None, None, None, None)
  }

  /** The defaults of index.js:27-38: no include directories, prefix `//@`, include-or-replace, no src. */
  function Defaults(): Options {
    Options([], "//@", IncludeOrReplace, None)
  }

  /** `Object.assign(base, user)`: every option the user set replaces the one in `base`. */
  function Assign(base: Options, user: UserOptions): (r: Options)
    ensures user.includes.Some? ==> r.includes == user.includes.value
    ensures user.prefix.Some? ==> r.prefix == user.prefix.value
    ensures user.keyword.Some? ==> r.keyword == Word(user.keyword.value)
    ensures user.src.Some? ==> r.src == user.src
    ensures user.includes.None? ==> r.includes == base.includes
    ensures user.prefix.None? ==> r.prefix == base.prefix
    ensures user.keyword.None? ==> r.keyword == base.keyword
    ensures user.src.None? ==> r.src == base.src
  {
    Options(
      if user.includes.Some? then user.includes.value else base.includes,
      if user.prefix.Some? then user.prefix.value else base.prefix,
      if user.keyword.Some? then Word(user.keyword.value) else base.keyword,
      if user.src.Some? then user.src else base.src)
  }

  /** The options the plugin runs with (index.js:41). */
  function Merge(user: UserOptions): (r: Options)
    ensures r.src == user.src
    ensures user.includes.None? ==> r.includes == []
    ensures user.prefix.None? ==> r.prefix == "//@"
    ensures user.keyword.None? ==> r.keyword == IncludeOrReplace
    ensures user.includes.Some? ==> r.includes == user.includes.value
    ensures user.prefix.Some? ==> r.prefix == user.prefix.value
    ensures user.keyword.Some? ==> r.keyword == Word(user.keyword.value)
  {
    Assign(Defaults(), user)
  }

  /** Passing no options gives exactly the defaults. */
  lemma MergeNothing()
    ensures Merge(NoUserOptions()) == Defaults()
  {
  }
}
