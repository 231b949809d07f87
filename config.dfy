/** `Config`: whether multiple user defaults are resolved through an external selector,
    and which selector command that is; and the handling of the selector's output. */
module Configuration {
  import opened Base
  import opened Text

  datatype Config = Config(enableSelector: bool, selector: string)

  /** `Config::default`, used whenever the configuration file leaves a field out. */
  function DefaultConfig(): (c: Config)
    ensures !c.enableSelector
    ensures c.selector == "rofi -dmenu -i -p 'Open With: '"
  {
    Config(false, "rofi -dmenu -i -p 'Open With: '")
  }

  /** The selector process as far as `select` sees it: whether it could be spawned,
      whether its standard input and output came back as pipes, and what it prints on
      standard output given what it read on standard input. */
  datatype Process = Process(spawns: bool, stdinPiped: bool, stdoutPiped: bool, reply: string -> string)

  /** What the selector reads: the options, one per line. */
  function SelectorInput(opts: seq<string>): string {
    Join(opts, "\n")
  }

  /** `Config::select`: a spawn failure is an I/O error, a missing pipe is
      `Selector(command)`; otherwise the output loses its trailing whitespace, and an
      output left empty is `Cancelled`. */
  function Select(cfg: Config, proc: Process, opts: seq<string>): (r: Result<string, Error>)
    ensures r.Success? ==> r.value != [] && r.value <= proc.reply(SelectorInput(opts))
    ensures r.Failure? ==> r.error in {Io, Selector(cfg.selector), Cancelled}
  {
    if !proc.spawns then Failure(Io)
    else if !proc.stdinPiped || !proc.stdoutPiped then Failure(Selector(cfg.selector))
    else
      var output := TrimEnd(proc.reply(SelectorInput(opts)));
      if output == [] then Failure(Cancelled) else Success(output)
  }

  predicate Connected(proc: Process) {
    proc.spawns && proc.stdinPiped && proc.stdoutPiped
  }

  /** Cancellation happens exactly when a connected selector prints nothing but
      whitespace; otherwise its answer is what it printed up to its last non-whitespace
      character. A missing pipe is reported with the selector command. */
  lemma SelectOutcome(cfg: Config, proc: Process, opts: seq<string>)
    ensures Select(cfg, proc, opts) == Failure(Cancelled) <==>
      Connected(proc) && AllWhitespace(proc.reply(SelectorInput(opts)))
    ensures Select(cfg, proc, opts).Success? <==>
      Connected(proc) && !AllWhitespace(proc.reply(SelectorInput(opts)))
    ensures Select(cfg, proc, opts).Success? ==>
      var out := proc.reply(SelectorInput(opts));
      var v := Select(cfg, proc, opts).value;
      v <= out && !IsWhitespace(v[|v| - 1]) && forall i :: |v| <= i < |out| ==> IsWhitespace(out[i])
    ensures proc.spawns && !(proc.stdinPiped && proc.stdoutPiped) ==>
      Select(cfg, proc, opts) == Failure(Selector(cfg.selector))
    ensures !proc.spawns ==> Select(cfg, proc, opts) == Failure(Io)
  {
    TrimEndEmptyIff(proc.reply(SelectorInput(opts)));
  }

  /** Each option reaches the selector as one line of its input, in order. */
  lemma SelectorSeesOptions(opts: seq<string>)
    requires |opts| >= 1
    requires forall i :: 0 <= i < |opts| ==> '\n' !in opts[i]
    ensures Split(SelectorInput(opts), '\n') == opts
  {
    SplitJoin(opts, '\n');
  }

  /** An answer that already has no trailing whitespace comes back unchanged. */
  lemma SelectReturnsAnswer(cfg: Config, proc: Process, opts: seq<string>)
    requires Connected(proc)
    requires proc.reply(SelectorInput(opts)) != []
    requires !IsWhitespace(proc.reply(SelectorInput(opts))[|proc.reply(SelectorInput(opts))| - 1])
    ensures Select(cfg, proc, opts) == Success(proc.reply(SelectorInput(opts)))
  {
  }
}
