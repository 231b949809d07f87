/** `Config::terminal`: the command of the terminal emulator, taken from the handler of
    `x-scheme-handler/terminal` if one resolves, otherwise guessed from the installed
    entries and then remembered in the overrides file. */
module ConfigTerminal {
  import opened Base
  import opened Mimes
  import opened Handlers
  import opened System
  import opened UserStore
  import opened UserPersist
  import opened UserApps

  const TerminalCategory: string := "TerminalEmulator"

  predicate IsTerminal(e: (string, DesktopEntry)) {
    TerminalCategory in e.1.categories
  }

  /** `find` over the entries: the first that lists the terminal-emulator category. */
  function FirstTerminal(es: seq<(string, DesktopEntry)>): (r: Option<nat>)
    ensures r.Some? ==>
      r.value < |es| && IsTerminal(es[r.value]) && forall i :: 0 <= i < r.value ==> !IsTerminal(es[i])
    ensures r.None? ==> forall i :: 0 <= i < |es| ==> !IsTerminal(es[i])
  {
    if es == [] then None
    else if IsTerminal(es[0]) then Some(0)
    else match FirstTerminal(es[1..])
      case None => None
      case Some(i) => Some(i + 1)
  }

  /** The first step, `get_handler(..).ok().and_then(|h| h.get_entry().ok())`: the entry
      of the configured terminal, or `None` when the lookup or the entry fails; only an
      aborting failure gets through the two `ok()`s. */
  function ConfiguredTerminal(s: Store, ctx: Context): (r: Result<Option<DesktopEntry>, Error>)
    requires ValidStore(s)
    ensures r.Failure? ==> r.error.Aborts()
    ensures r.Success? && r.value.Some? ==>
      GetHandlerIn(s, ctx, TerminalScheme).Success?
      && GetEntry(ctx.env, GetHandlerIn(s, ctx, TerminalScheme).value) == Success(r.value.value)
    ensures GetHandlerIn(s, ctx, TerminalScheme).Failure? ==>
      var e := GetHandlerIn(s, ctx, TerminalScheme).error;
      r == if e.Aborts() then Failure(e) else Success(None)
    ensures GetHandlerIn(s, ctx, TerminalScheme).Success? ==>
      var entry := GetEntry(ctx.env, GetHandlerIn(s, ctx, TerminalScheme).value);
      r == if entry.Success? then Success(Some(entry.value))
           else if entry.error.Aborts() then Failure(entry.error) else Success(None)
  {
    match GetHandlerIn(s, ctx, TerminalScheme)
    case Failure(e) => if e.Aborts() then Failure(e) else Success(None)
    case Success(h) =>
      match GetEntry(ctx.env, h)
      case Failure(e) => if e.Aborts() then Failure(e) else Success(None)
      case Success(entry) => Success(Some(entry))
  }

  /** The installed-entries fallback: the first terminal emulator among the entries, when
      the directories can be listed, one is found, and the notification is sent. */
  function Guess(dirsOk: bool, scan: seq<ScannedFile>, notified: bool): (r: Option<(string, DesktopEntry)>)
    ensures r.Some? ==>
      dirsOk && notified && FirstTerminal(GetEntries(scan)).Some?
      && r.value == GetEntries(scan)[FirstTerminal(GetEntries(scan)).value]
  {
    if !dirsOk then None
    else match FirstTerminal(GetEntries(scan))
      case None => None
      case Some(i) => if notified then Some(GetEntries(scan)[i]) else None
  }

  /** What `terminal` answers, given whether the overrides file can be written. */
  function TerminalResult(s: Store, ctx: Context, dirsOk: bool, scan: seq<ScannedFile>, notified: bool, writable: bool): (r: Result<string, Error>)
    requires ValidStore(s)
    ensures r.Success? || r.error == NoTerminal || r.error.Aborts()
  {
    match ConfiguredTerminal(s, ctx)
    case Failure(e) => Failure(e)
    case Success(Some(entry)) => Success(entry.exec)
    case Success(None) => GuessResult(dirsOk, scan, notified, writable)
  }

  /** The answer of the fallback: the guessed entry's command once it has been saved. */
  function GuessResult(dirsOk: bool, scan: seq<ScannedFile>, notified: bool, writable: bool): (r: Result<string, Error>)
    ensures r.Success? <==> Guess(dirsOk, scan, notified).Some? && writable
    ensures r.Success? ==> r.value == Guess(dirsOk, scan, notified).value.1.exec
    ensures r.Failure? ==> r.error == NoTerminal
  {
    match Guess(dirsOk, scan, notified)
    case None => Failure(NoTerminal)
    case Some(g) => if writable then Success(g.1.exec) else Failure(NoTerminal)
  }

  /** The run that saves a guess: no configured terminal, a guess, and a writable file. */
  predicate Remembers(s: Store, ctx: Context, dirsOk: bool, scan: seq<ScannedFile>, notified: bool, writable: bool)
    requires ValidStore(s)
  {
    ConfiguredTerminal(s, ctx) == Success(None) && Guess(dirsOk, scan, notified).Some? && writable
  }

  /** `Config::terminal` over the global store `apps`. The guess is recorded by setting it
      as the terminal handler on a copy of the store and saving the copy; `apps` itself
      is left as it was. */
  method Terminal(apps: MimeApps, ctx: Context, dirsOk: bool, scan: seq<ScannedFile>, notified: bool)
    returns (r: Result<string, Error>)
    requires apps.Valid()
    modifies apps.file
    ensures r == TerminalResult(apps.Model(), ctx, dirsOk, scan, notified, apps.file.writable)
    ensures Remembers(apps.Model(), ctx, dirsOk, scan, notified, apps.file.writable) ==>
        apps.file.writes == old(apps.file.writes) + 1
        && apps.file.contents == SaveText(apps.addedAssociations,
             SetTo(apps.defaultApps, TerminalScheme, AssumeValid(Guess(dirsOk, scan, notified).value.0)))
    ensures !Remembers(apps.Model(), ctx, dirsOk, scan, notified, apps.file.writable) ==>
        apps.file.writes == old(apps.file.writes) && apps.file.contents == old(apps.file.contents)
  {
    var found := apps.GetHandler(ctx, TerminalScheme);
    match found {
      case Failure(e) =>
        if e.Aborts() { return Failure(e); }
      case Success(h) =>
        var entry := GetEntry(ctx.env, h);
        match entry {
          case Failure(e) =>
            if e.Aborts() { return Failure(e); }
          case Success(en) =>
            return Success(en.exec);
        }
    }
    r := GuessTerminal(apps, dirsOk, scan, notified);
  }

  /** The fallback of `terminal`: guess, announce, and remember the guess as the terminal
      handler on a copy of the store saved to the same file. */
  method GuessTerminal(apps: MimeApps, dirsOk: bool, scan: seq<ScannedFile>, notified: bool)
    returns (r: Result<string, Error>)
    requires apps.Valid()
    modifies apps.file
    ensures r == GuessResult(dirsOk, scan, notified, apps.file.writable)
    ensures Guess(dirsOk, scan, notified).Some? && apps.file.writable ==>
        apps.file.writes == old(apps.file.writes) + 1
        && apps.file.contents == SaveText(apps.addedAssociations,
             SetTo(apps.defaultApps, TerminalScheme, AssumeValid(Guess(dirsOk, scan, notified).value.0)))
    ensures Guess(dirsOk, scan, notified).None? || !apps.file.writable ==>
        apps.file.writes == old(apps.file.writes) && apps.file.contents == old(apps.file.contents)
  {
    if !dirsOk {
      return Failure(NoTerminal);
    }
    var es := GetEntries(scan);
    var i := FirstTerminal(es);
    if i.None? || !notified {
      return Failure(NoTerminal);
    }
    var copy := apps.Clone();
    copy.SetHandler(TerminalScheme, AssumeValid(es[i.value].0));
    var saved := copy.Save();
    if saved.Failure? {
      return Failure(NoTerminal);
    }
    r := Success(es[i.value].1.exec);
  }

  /** A configured terminal whose entry loads wins, and nothing is written. */
  lemma ConfiguredTerminalWins(s: Store, ctx: Context, dirsOk: bool, scan: seq<ScannedFile>, notified: bool, writable: bool, h: Handler, e: DesktopEntry)
    requires ValidStore(s)
    requires GetHandlerIn(s, ctx, TerminalScheme) == Success(h) && GetEntry(ctx.env, h) == Success(e)
    ensures ConfiguredTerminal(s, ctx) == Success(Some(e))
    ensures TerminalResult(s, ctx, dirsOk, scan, notified, writable) == Success(e.exec)
  {
  }

  /** Otherwise the first installed terminal emulator is used, when it can be announced
      and remembered. */
  lemma FallbackToFirstEmulator(s: Store, ctx: Context, scan: seq<ScannedFile>, i: nat)
    requires ValidStore(s) && ConfiguredTerminal(s, ctx) == Success(None)
    requires i < |GetEntries(scan)| && IsTerminal(GetEntries(scan)[i])
    requires forall j :: 0 <= j < i ==> !IsTerminal(GetEntries(scan)[j])
    ensures Guess(true, scan, true) == Some(GetEntries(scan)[i])
    ensures TerminalResult(s, ctx, true, scan, true, true) == Success(GetEntries(scan)[i].1.exec)
  {
  }

  /** Without a configured terminal, `NoTerminal` is the answer exactly when no emulator
      is guessed or the guess cannot be saved. */
  lemma NoTerminalExactly(s: Store, ctx: Context, dirsOk: bool, scan: seq<ScannedFile>, notified: bool, writable: bool)
    requires ValidStore(s) && ConfiguredTerminal(s, ctx) == Success(None)
    ensures TerminalResult(s, ctx, dirsOk, scan, notified, writable) == Failure(NoTerminal)
      <==> Guess(dirsOk, scan, notified).None? || !writable
    ensures Guess(dirsOk, scan, notified).None?
      <==> !dirsOk || !notified || forall j :: 0 <= j < |GetEntries(scan)| ==> !IsTerminal(GetEntries(scan)[j])
  {
    if dirsOk && notified && FirstTerminal(GetEntries(scan)).Some? {
      var es := GetEntries(scan);
      var i := FirstTerminal(es).value;
      assert i < |es| && IsTerminal(es[i]);
      assert !(forall j :: 0 <= j < |es| ==> !IsTerminal(es[j]));
    }
  }

  /** The saved guess is what the next lookup of the terminal type finds first, whatever
      the configuration: it is the only default for that type. */
  lemma SavedGuessResolves(s: Store, ctx: Context, name: string)
    requires ValidStore(s)
    ensures var s2 := Store(s.added, SetTo(s.defaults, TerminalScheme, AssumeValid(name)), s.system);
      ValidStore(s2) && GetHandlerIn(s2, ctx, TerminalScheme) == Success(AssumeValid(name))
  {
    EditsKeepListsNonEmpty(s.defaults, TerminalScheme, AssumeValid(name));
  }
}
