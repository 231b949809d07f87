/** The state of `MimeApps` as values: the two override maps and the system snapshot, the
    map edits `add_handler`, `set_handler` and `remove_handler` make, and the tiered
    resolver `get_handler` with the two per-source lookups it chains. */
module UserStore {
  import opened Base
  import opened Mimes
  import opened Handlers
  import opened System
  import opened Configuration
  import opened Text

  type HandlerMap = map<Mime, seq<Handler>>

  /** No stored list is empty: what the `get(0).unwrap()` calls rely on. */
  predicate ValidMap(hm: HandlerMap) {
    forall m :: m in hm ==> hm[m] != []
  }

  /** `added_associations`, `default_apps` and `system_apps`. */
  datatype Store = Store(added: HandlerMap, defaults: HandlerMap, system: SystemApps)

  predicate ValidStore(s: Store) {
    ValidMap(s.added) && ValidMap(s.defaults) && ValidSystem(s.system)
  }

  // ---- edits of `default_apps` ----

  /** `entry(mime).or_default().push_back(handler)`: appends, creating a one-element list
      when the key is absent; no duplicate check. */
  function AddTo(hm: HandlerMap, m: Mime, h: Handler): (r: HandlerMap)
    ensures m in r && r[m] == Lookup(hm, m) + [h]
    ensures |r[m]| == |Lookup(hm, m)| + 1
    ensures m !in hm ==> r[m] == [h]
    ensures forall k :: k != m ==> (k in r <==> k in hm) && (k in hm ==> r[k] == hm[k])
  {
    hm[m := Lookup(hm, m) + [h]]
  }

  /** `insert(mime, vec![handler].into())`. */
  function SetTo(hm: HandlerMap, m: Mime, h: Handler): (r: HandlerMap)
    ensures m in r && r[m] == [h]
    ensures forall k :: k != m ==> (k in r <==> k in hm) && (k in hm ==> r[k] == hm[k])
  {
    hm[m := [h]]
  }

  /** `remove(mime)`. */
  function RemoveFrom(hm: HandlerMap, m: Mime): (r: HandlerMap)
    ensures m !in r
    ensures forall k :: k != m ==> (k in r <==> k in hm) && (k in hm ==> r[k] == hm[k])
    ensures ValidMap(hm) ==> ValidMap(r)
  {
    hm - {m}
  }

  /** None of the edits can leave an empty list behind. */
  lemma EditsKeepListsNonEmpty(hm: HandlerMap, m: Mime, h: Handler)
    requires ValidMap(hm)
    ensures ValidMap(AddTo(hm, m, h))
    ensures ValidMap(SetTo(hm, m, h))
    ensures ValidMap(RemoveFrom(hm, m))
  {
  }

  // ---- lookups ----

  /** The process-wide singletons the resolver consults: the loaded configuration, the
      selector process it would spawn, and the data-file lookup. */
  datatype Context = Context(cfg: Config, proc: Process, env: Env)

  /** The display names of the candidates, each read from its entry; the `unwrap` turns
      any failure to load an entry into a panic. */
  function EntryNames(env: Env, hs: seq<Handler>): (r: Result<seq<string>, Error>)
    ensures r.Success? <==> forall i :: 0 <= i < |hs| ==> GetEntry(env, hs[i]).Success?
    ensures r.Success? ==> |r.value| == |hs|
    ensures r.Success? ==> forall i :: 0 <= i < |hs| ==> r.value[i] == GetEntry(env, hs[i]).value.name
    ensures r.Failure? ==> r.error.Panic?
  {
    if hs == [] then Success([])
    else match GetEntry(env, hs[0])
      case Failure(_) => Failure(Panic("desktop entry of a default handler did not load"))
      case Success(e) =>
        var rest := EntryNames(env, hs[1..]);
        assert forall i :: 1 <= i < |hs| ==> hs[i] == hs[1..][i - 1];
        match rest
        case Failure(err) => Failure(err)
        case Success(names) => Success([e.name] + names)
  }

  /** `find(|h| h.1 == name)`: the first candidate with that display name. */
  function FindName(names: seq<string>, name: string): (r: Option<nat>)
    ensures r.Some? <==> name in names
    ensures r.Some? ==> r.value < |names| && names[r.value] == name && name !in names[..r.value]
  {
    if names == [] then None
    else if names[0] == name then Some(0)
    else match FindName(names[1..], name)
      case None => None
      case Some(i) => assert names[..i + 1] == [names[0]] + names[1..][..i]; Some(i + 1)
  }

  /** `get_handler_from_user`: a missing key is `NotFound`; several candidates with the
      selector enabled go through the selector, whose errors are passed on; otherwise the
      first candidate. */
  function GetHandlerFromUser(defaults: HandlerMap, ctx: Context, m: Mime): (r: Result<Handler, Error>)
    requires ValidMap(defaults)
    ensures r.Success? ==> m in defaults && r.value in defaults[m]
    ensures r == Failure(NotFound(Essence(m))) <==> m !in defaults
    ensures r.Failure? && m in defaults ==> r.error in {Io, Selector(ctx.cfg.selector), Cancelled} || r.error.Panic?
  {
    if m !in defaults then Failure(NotFound(Essence(m)))
    else
      var hs := defaults[m];
      if ctx.cfg.enableSelector && |hs| > 1 then
        match EntryNames(ctx.env, hs)
        case Failure(e) => Failure(e)
        case Success(names) =>
          match Select(ctx.cfg, ctx.proc, names)
          case Failure(e) => Failure(e)
          case Success(name) =>
            match FindName(names, name)
            case None => Failure(Panic("the selector answered a name that is not a candidate"))
            case Some(i) => Success(hs[i])
      else Success(hs[0])
  }

  /** `get_handler_from_added_associations`: the first added association, else the first
      system handler, else `NotFound`. */
  function GetHandlerFromAdded(s: Store, m: Mime): (r: Result<Handler, Error>)
    requires ValidStore(s)
    ensures r.Success? <==> m in s.added || m in s.system.table
    ensures r.Failure? ==> r.error == NotFound(Essence(m))
  {
    if m in s.added then Success(s.added[m][0])
    else match GetHandler(s.system, m)
      case Some(h) => Success(h)
      case None => Failure(NotFound(Essence(m)))
  }

  /** An `or_else` moves on from an error; a panic or an exit is not an error value and
      ends the process instead. */
  predicate FallsThrough(r: Result<Handler, Error>) {
    r.Failure? && !r.error.Aborts()
  }

  /** `MimeApps::get_handler`: the exact user default, else the type-wildcard user default,
      else the added association or system handler. */
  function GetHandlerIn(s: Store, ctx: Context, m: Mime): (r: Result<Handler, Error>)
    requires ValidStore(s)
    ensures r.Success? || r.error == NotFound(Essence(m)) || r.error.Aborts()
  {
    var exact := GetHandlerFromUser(s.defaults, ctx, m);
    if !FallsThrough(exact) then exact
    else
      var wild := GetHandlerFromUser(s.defaults, ctx, Wildcard(m));
      if !FallsThrough(wild) then wild
      else GetHandlerFromAdded(s, m)
  }

  /** The selector is consulted only when it is enabled and there are several candidates. */
  predicate Unambiguous(ctx: Context, hs: seq<Handler>) {
    !ctx.cfg.enableSelector || |hs| == 1
  }

  /** Tier 1: an exact user default wins. */
  lemma ExactDefaultWins(s: Store, ctx: Context, m: Mime)
    requires ValidStore(s) && m in s.defaults && Unambiguous(ctx, s.defaults[m])
    ensures GetHandlerIn(s, ctx, m) == Success(s.defaults[m][0])
  {
  }

  /** Tier 2: without an exact entry, the type-wildcard user default wins. */
  lemma WildcardDefaultNext(s: Store, ctx: Context, m: Mime)
    requires ValidStore(s) && m !in s.defaults
    requires Wildcard(m) in s.defaults && Unambiguous(ctx, s.defaults[Wildcard(m)])
    ensures GetHandlerIn(s, ctx, m) == Success(s.defaults[Wildcard(m)][0])
  {
  }

  /** Tier 3: without user defaults, the first added association. */
  lemma AddedAssociationNext(s: Store, ctx: Context, m: Mime)
    requires ValidStore(s) && m !in s.defaults && Wildcard(m) !in s.defaults && m in s.added
    ensures GetHandlerIn(s, ctx, m) == Success(s.added[m][0])
  {
  }

  /** Tier 4: then the first system handler. */
  lemma SystemHandlerNext(s: Store, ctx: Context, m: Mime)
    requires ValidStore(s) && m !in s.defaults && Wildcard(m) !in s.defaults && m !in s.added
    requires m in s.system.table
    ensures GetHandlerIn(s, ctx, m) == Success(s.system.table[m][0])
  {
  }

  /** When no tier knows the type, the answer is `NotFound` of its essence. Conversely a
      `NotFound` answer means that neither added associations nor the system know the
      type and that every user default consulted fell through (it was absent, or its
      selection failed without aborting). */
  lemma NotFoundExactly(s: Store, ctx: Context, m: Mime)
    requires ValidStore(s)
    ensures m !in s.defaults && Wildcard(m) !in s.defaults && m !in s.added && m !in s.system.table
      ==> GetHandlerIn(s, ctx, m) == Failure(NotFound(Essence(m)))
    ensures GetHandlerIn(s, ctx, m) == Failure(NotFound(Essence(m))) ==>
      m !in s.added && m !in s.system.table
      && FallsThrough(GetHandlerFromUser(s.defaults, ctx, m))
      && FallsThrough(GetHandlerFromUser(s.defaults, ctx, Wildcard(m)))
  {
  }

  /** A resolved handler comes from one of the four tiers. */
  lemma ResolvedFromSomeTier(s: Store, ctx: Context, m: Mime)
    requires ValidStore(s) && GetHandlerIn(s, ctx, m).Success?
    ensures var h := GetHandlerIn(s, ctx, m).value;
      (m in s.defaults && h in s.defaults[m])
      || (Wildcard(m) in s.defaults && h in s.defaults[Wildcard(m)])
      || (m in s.added && h == s.added[m][0])
      || (m in s.system.table && h == s.system.table[m][0])
  {
  }

  /** With the selector enabled and several exact candidates, the answer is the first
      candidate whose entry's display name the selector printed. */
  lemma SelectionPicksNamedHandler(s: Store, ctx: Context, m: Mime, names: seq<string>, name: string)
    requires ValidStore(s) && m in s.defaults
    requires ctx.cfg.enableSelector && |s.defaults[m]| > 1
    requires EntryNames(ctx.env, s.defaults[m]) == Success(names)
    requires Select(ctx.cfg, ctx.proc, names) == Success(name) && name in names
    ensures GetHandlerIn(s, ctx, m) == Success(s.defaults[m][FindName(names, name).value])
    ensures GetEntry(ctx.env, GetHandlerIn(s, ctx, m).value).value.name == name
  {
  }

  /** An empty selection makes the exact lookup `Cancelled`. */
  lemma EmptySelectionCancels(defaults: HandlerMap, ctx: Context, m: Mime)
    requires ValidMap(defaults) && m in defaults
    requires ctx.cfg.enableSelector && |defaults[m]| > 1
    requires EntryNames(ctx.env, defaults[m]).Success?
    requires Connected(ctx.proc)
    requires AllWhitespace(ctx.proc.reply(SelectorInput(EntryNames(ctx.env, defaults[m]).value)))
    ensures GetHandlerFromUser(defaults, ctx, m) == Failure(Cancelled)
  {
    SelectOutcome(ctx.cfg, ctx.proc, EntryNames(ctx.env, defaults[m]).value);
  }

  /** `get_handler` itself never answers `Cancelled` or a selector error: its `or_else`
      chain treats them like a missing entry and moves on to the next tier. */
  lemma CancellationFallsThrough(s: Store, ctx: Context, m: Mime)
    requires ValidStore(s)
    requires GetHandlerFromUser(s.defaults, ctx, m) == Failure(Cancelled)
    ensures GetHandlerIn(s, ctx, m) == (
      var wild := GetHandlerFromUser(s.defaults, ctx, Wildcard(m));
      if !FallsThrough(wild) then wild else GetHandlerFromAdded(s, m))
    ensures GetHandlerIn(s, ctx, m) != Failure(Cancelled)
  {
  }

  /** The MIME types of the source's wildcard test. */
  const VideoAny: Mime := RawMime("video", "*")
  const VideoMp4: Mime := RawMime("video", "mp4")
  const VideoAsdf: Mime := RawMime("video", "asdf")
  const VideoWebm: Mime := RawMime("video", "webm")

  /** The wildcard case the source's own test checks: with the `video` wildcard set to `mpv.desktop`
      and `video/webm` to `brave.desktop` on an empty store, `video/mp4` and `video/asdf`
      resolve to mpv and `video/webm` to brave, whatever the configuration. */
  lemma WildcardMimes(ctx: Context, system: SystemApps)
    requires ValidSystem(system)
    ensures var defaults := AddTo(AddTo(map[], VideoAny, AssumeValid("mpv.desktop")),
                                  VideoWebm, AssumeValid("brave.desktop"));
      var s := Store(map[], defaults, system);
      ValidStore(s)
      && GetHandlerIn(s, ctx, VideoMp4) == Success(AssumeValid("mpv.desktop"))
      && GetHandlerIn(s, ctx, VideoAsdf) == Success(AssumeValid("mpv.desktop"))
      && GetHandlerIn(s, ctx, VideoWebm) == Success(AssumeValid("brave.desktop"))
  {
    var defaults := AddTo(AddTo(map[], VideoAny, AssumeValid("mpv.desktop")), VideoWebm, AssumeValid("brave.desktop"));
    var s := Store(map[], defaults, system);
    assert VideoWebm != VideoAny;
    assert Wildcard(VideoMp4) == VideoAny && VideoMp4 !in defaults;
    assert Wildcard(VideoAsdf) == VideoAny && VideoAsdf !in defaults;
    WildcardDefaultNext(s, ctx, VideoMp4);
    WildcardDefaultNext(s, ctx, VideoAsdf);
    ExactDefaultWins(s, ctx, VideoWebm);
  }
}
