/** The `Handler` newtype: the name of one desktop entry (for example `mpv.desktop`),
    with the data-file lookup it is resolved against. */
module Handlers {
  import opened Base
  import opened Mimes
  import opened Text

  /** A handler is its name and nothing else: the derived equality, ordering and hash all
      look only at `name`. */
  datatype Handler = Handler(name: string)

  /** The parsed desktop-entry record, as far as the engine reads it. */
  datatype DesktopEntry = DesktopEntry(
    name: string,
    exec: string,
    fileName: string,
    mimes: seq<Mime>,
    categories: seq<string>)

  /** The environment `Handler::get_path` and `DesktopEntry::try_from` consult: for each
      name whose data file `applications/<name>` exists, the outcome of parsing it. */
  datatype Env = Env(dataFiles: map<string, Result<DesktopEntry, Error>>)

  /** `Handler::assume_valid`: wraps the name without looking it up. */
  function AssumeValid(name: string): (h: Handler)
    ensures h.name == name
  {
    Handler(name)
  }

  /** `Display for Handler`: the name. */
  function Display(h: Handler): string {
    h.name
  }

  /** The derived `Ord`: the order of the names. */
  predicate HandlerLt(a: Handler, b: Handler) {
    LexLt(a.name, b.name)
  }

  /** `Handler::resolve`: `NotFound(name)` when there is no data file, the parse error
      when the file does not parse, and otherwise the handler of that name. */
  function Resolve(env: Env, name: string): Result<Handler, Error> {
    if name !in env.dataFiles then Failure(NotFound(name))
    else match env.dataFiles[name]
      case Failure(e) => Failure(e)
      case Success(_) => Success(Handler(name))
  }

  /** `FromStr for Handler`: exactly `resolve`. */
  function FromStr(env: Env, s: string): Result<Handler, Error> {
    Resolve(env, s)
  }

  predicate Resolves(env: Env, name: string) {
    name in env.dataFiles && env.dataFiles[name].Success?
  }

  /** `Handler::get_entry`: the `unwrap` on the path lookup panics when the data file is
      missing; a parse failure is returned. */
  function GetEntry(env: Env, h: Handler): (r: Result<DesktopEntry, Error>)
    ensures r.Success? <==> Resolves(env, h.name)
    ensures h.name !in env.dataFiles ==> r.Failure? && r.error.Panic?
  {
    if h.name !in env.dataFiles then Failure(Panic("no data file for " + h.name))
    else env.dataFiles[h.name]
  }

  /** What `resolve` promises: it succeeds exactly on names whose data file exists and
      parses, it then wraps the name unchanged, so `Display` gives the name back; a missing
      file is `NotFound(name)` and a parse error is passed on. `from_str` behaves alike. */
  lemma ResolveContract(env: Env, name: string)
    ensures Resolve(env, name).Success? <==> Resolves(env, name)
    ensures Resolve(env, name).Success? ==>
      Display(Resolve(env, name).value) == name && Resolve(env, name).value == AssumeValid(name)
    ensures name !in env.dataFiles ==> Resolve(env, name) == Failure(NotFound(name))
    ensures name in env.dataFiles && env.dataFiles[name].Failure? ==>
      Resolve(env, name) == Failure(env.dataFiles[name].error)
    ensures FromStr(env, name) == Resolve(env, name)
  {
  }

  /** A handler obtained from `resolve` has an entry that `get_entry` loads without error. */
  lemma ResolvedHandlerHasEntry(env: Env, name: string)
    requires Resolve(env, name).Success?
    ensures GetEntry(env, Resolve(env, name).value) == env.dataFiles[name]
    ensures GetEntry(env, Resolve(env, name).value).Success?
  {
  }

  /** Equality and order of handlers are those of their names. */
  lemma HandlerIdentity(a: Handler, b: Handler)
    ensures a == b <==> a.name == b.name
    ensures HandlerLt(a, b) <==> LexLt(Display(a), Display(b))
    ensures a != b ==> HandlerLt(a, b) || HandlerLt(b, a)
    ensures !HandlerLt(a, a)
  {
    LexLtIrreflexive(a.name);
    if a != b { LexLtTotal(a.name, b.name); }
  }
}
