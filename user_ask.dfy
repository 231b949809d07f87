/** `MimeApps::ask_handler`: the candidate entries for a MIME type (the entry of the handler
    currently resolved, the installed entries declaring the type, then those declaring the
    types of its file-extension aliases), with adjacent repeats dropped, and the choice
    among them through the configured selector or the numbered prompt. */
module UserAsk {
  import opened Base
  import opened Text
  import opened Mimes
  import opened Handlers
  import opened System
  import opened Configuration
  import opened Utils
  import opened UserStore
  import opened UserApps

  /** The shared MIME database: the file-name globs (`mime_db::extensions`) of a type, and
      the type a glob belongs to (`mime_db::lookup`). */
  datatype MimeDb = MimeDb(extensions: Mime -> Option<seq<string>>, lookup: string -> Option<string>)

  /** Alias expansion runs only when fewer than `ExpansionGuard` entries declare the type,
      and stops after the first alias at which more than `ExpansionCap` are collected. */
  const ExpansionGuard: nat := 10
  const ExpansionCap: nat := 10

  // ---- the candidates ----

  /** `get_apps`: the listed entries that declare exactly `m`, in listing order. */
  function EntriesDeclaring(es: seq<(string, DesktopEntry)>, m: Mime): (r: seq<DesktopEntry>)
    ensures |r| <= |es|
  {
    if es == [] then []
    else (if m in es[0].1.mimes then [es[0].1] else []) + EntriesDeclaring(es[1..], m)
  }

  lemma {:induction false} EntriesDeclaringMembers(es: seq<(string, DesktopEntry)>, m: Mime)
    ensures forall e :: e in EntriesDeclaring(es, m) <==>
      exists i :: 0 <= i < |es| && es[i].1 == e && m in e.mimes
  {
    if es != [] {
      EntriesDeclaringMembers(es[1..], m);
      forall e | e in EntriesDeclaring(es, m)
        ensures exists i :: 0 <= i < |es| && es[i].1 == e && m in e.mimes
      {
        if e !in EntriesDeclaring(es[1..], m) {
          assert es[0].1 == e;
        } else {
          var i :| 0 <= i < |es[1..]| && es[1..][i].1 == e && m in e.mimes;
          assert es[i + 1].1 == e;
        }
      }
      forall e | exists i :: 0 <= i < |es| && es[i].1 == e && m in e.mimes
        ensures e in EntriesDeclaring(es, m)
      {
        var i :| 0 <= i < |es| && es[i].1 == e && m in e.mimes;
        if i > 0 { assert es[1..][i - 1].1 == e; }
      }
    }
  }

  /** The globs of the type, or those of `text/plain` when the database does not know it;
      the `unwrap` panics when it knows neither. */
  function Globs(db: MimeDb, m: Mime): (r: Result<seq<string>, Error>)
    ensures r.Failure? ==> r.error.Panic? && db.extensions(m).None?
  {
    match db.extensions(m)
    case Some(gs) => Success(gs)
    case None =>
      match db.extensions(TextPlain)
      case Some(gs) => Success(gs)
      case None => Failure(Panic("no extensions for text/plain"))
  }

  /** One alias: a glob the database maps to a type adds the entries declaring that type;
      a type that does not parse is an error. */
  function StepAlias(es: seq<(string, DesktopEntry)>, db: MimeDb, parse: string -> Option<Mime>, sys: seq<DesktopEntry>, g: string): (r: Result<seq<DesktopEntry>, Error>)
    ensures r.Success? ==> sys <= r.value
  {
    match db.lookup(g)
    case None => Success(sys)
    case Some(text) =>
      match parse(text)
      case None => Failure(BadMime(text))
      case Some(a) => Success(sys + EntriesDeclaring(es, a))
  }

  /** The `for glob in &globs` loop, with its `break`. */
  function Aliases(es: seq<(string, DesktopEntry)>, db: MimeDb, parse: string -> Option<Mime>, sys: seq<DesktopEntry>, globs: seq<string>): (r: Result<seq<DesktopEntry>, Error>)
    ensures r.Success? ==> sys <= r.value
    decreases |globs|
  {
    if globs == [] then Success(sys)
    else
      match StepAlias(es, db, parse, sys, globs[0])
      case Failure(e) => Failure(e)
      case Success(s2) =>
        if |s2| > ExpansionCap then Success(s2) else Aliases(es, db, parse, s2, globs[1..])
  }

  /** The expansion by the globs in `globs` without any `break`: the reference that the
      loop is compared with. */
  function Expand(es: seq<(string, DesktopEntry)>, db: MimeDb, parse: string -> Option<Mime>, sys: seq<DesktopEntry>, globs: seq<string>): Result<seq<DesktopEntry>, Error>
    decreases |globs|
  {
    if globs == [] then Success(sys)
    else
      match Expand(es, db, parse, sys, globs[..|globs| - 1])
      case Failure(e) => Failure(e)
      case Success(s) => StepAlias(es, db, parse, s, globs[|globs| - 1])
  }

  lemma {:induction false} ExpandCons(es: seq<(string, DesktopEntry)>, db: MimeDb, parse: string -> Option<Mime>, sys: seq<DesktopEntry>, g: string, gs: seq<string>, s2: seq<DesktopEntry>)
    requires StepAlias(es, db, parse, sys, g) == Success(s2)
    ensures Expand(es, db, parse, sys, [g] + gs) == Expand(es, db, parse, s2, gs)
    decreases |gs|
  {
    if gs == [] {
      assert ([g] + gs)[..0] == [];
    } else {
      var p := gs[..|gs| - 1];
      ExpandCons(es, db, parse, sys, g, p, s2);
      assert ([g] + gs)[..|[g] + gs| - 1] == [g] + p;
    }
  }

  /** Every prefix of `globs` shorter than `k` expands without error to at most the cap. */
  predicate UnderCapBefore(es: seq<(string, DesktopEntry)>, db: MimeDb, parse: string -> Option<Mime>, sys: seq<DesktopEntry>, globs: seq<string>, k: nat)
    requires k <= |globs|
  {
    forall j :: 0 <= j < k ==>
      Expand(es, db, parse, sys, globs[..j]).Success? && |Expand(es, db, parse, sys, globs[..j]).value| <= ExpansionCap
  }

  /** The loop stops after the first `k` globs with `r`: their expansion is `r`, either
      they are all the globs or `r` is over the cap, and no shorter prefix is. */
  predicate StopsAt(es: seq<(string, DesktopEntry)>, db: MimeDb, parse: string -> Option<Mime>, sys: seq<DesktopEntry>, globs: seq<string>, r: seq<DesktopEntry>, k: nat) {
    k <= |globs| && Expand(es, db, parse, sys, globs[..k]) == Success(r)
    && (k == |globs| || |r| > ExpansionCap)
    && UnderCapBefore(es, db, parse, sys, globs, k)
  }

  /** Whatever the globs, the loop's result is the expansion by some prefix of them: all
      of them when no prefix collects more than the cap, and otherwise exactly the
      shortest prefix that does. */
  lemma {:induction false} AliasesStopRule(es: seq<(string, DesktopEntry)>, db: MimeDb, parse: string -> Option<Mime>, sys: seq<DesktopEntry>, globs: seq<string>)
    requires |sys| <= ExpansionCap
    requires Aliases(es, db, parse, sys, globs).Success?
    ensures exists k: nat :: StopsAt(es, db, parse, sys, globs, Aliases(es, db, parse, sys, globs).value, k)
    decreases |globs|
  {
    var r := Aliases(es, db, parse, sys, globs).value;
    assert Expand(es, db, parse, sys, globs[..0]) == Success(sys) by { assert globs[..0] == []; }
    if globs == [] {
      assert StopsAt(es, db, parse, sys, globs, r, 0);
    } else {
      var s2 := StepAlias(es, db, parse, sys, globs[0]).value;
      assert Expand(es, db, parse, sys, globs[..1]) == Success(s2) by {
        assert globs[..1][..0] == [];
      }
      if |s2| > ExpansionCap {
        assert StopsAt(es, db, parse, sys, globs, r, 1);
      } else {
        AliasesStopRule(es, db, parse, s2, globs[1..]);
        var k: nat :| StopsAt(es, db, parse, s2, globs[1..], r, k);
        StopsAtShift(es, db, parse, sys, globs, s2, r, k);
      }
    }
  }

  /** A stop after `k` globs from the state after the first glob is a stop after `k + 1`
      from the start. */
  lemma StopsAtShift(es: seq<(string, DesktopEntry)>, db: MimeDb, parse: string -> Option<Mime>, sys: seq<DesktopEntry>, globs: seq<string>, s2: seq<DesktopEntry>, r: seq<DesktopEntry>, k: nat)
    requires globs != [] && |sys| <= ExpansionCap
    requires StepAlias(es, db, parse, sys, globs[0]) == Success(s2)
    requires StopsAt(es, db, parse, s2, globs[1..], r, k)
    ensures StopsAt(es, db, parse, sys, globs, r, k + 1)
  {
    var rest := globs[1..];
    forall j | 0 <= j <= k
      ensures Expand(es, db, parse, sys, globs[..j + 1]) == Expand(es, db, parse, s2, rest[..j])
    {
      ExpandCons(es, db, parse, sys, globs[0], rest[..j], s2);
      assert globs[..j + 1] == [globs[0]] + rest[..j];
    }
    assert Expand(es, db, parse, sys, globs[..0]) == Success(sys) by { assert globs[..0] == []; }
    forall j | 0 <= j < k + 1
      ensures Expand(es, db, parse, sys, globs[..j]).Success?
        && |Expand(es, db, parse, sys, globs[..j]).value| <= ExpansionCap
    {
      if j > 0 {
        assert Expand(es, db, parse, sys, globs[..j]) == Expand(es, db, parse, s2, rest[..j - 1]);
      }
    }
  }

  /** The system candidates: the entries declaring `m`, expanded by the aliases only when
      there are fewer than ten of them. */
  function SystemCandidates(es: seq<(string, DesktopEntry)>, db: MimeDb, parse: string -> Option<Mime>, m: Mime, globs: seq<string>): (r: Result<seq<DesktopEntry>, Error>)
    ensures r.Success? ==> EntriesDeclaring(es, m) <= r.value
    ensures |EntriesDeclaring(es, m)| >= ExpansionGuard ==> r == Success(EntriesDeclaring(es, m))
  {
    var exact := EntriesDeclaring(es, m);
    if |exact| < ExpansionGuard then Aliases(es, db, parse, exact, globs) else Success(exact)
  }

  /** The entry of the handler `get_handler` resolves, when there is one and it loads; only
      an aborting failure is passed on. */
  function Resolved(s: Store, ctx: Context, m: Mime): (r: Result<seq<DesktopEntry>, Error>)
    requires ValidStore(s)
    ensures r.Success? ==> |r.value| <= 1
    ensures r.Failure? ==> r.error.Aborts()
    ensures r.Success? && |r.value| == 1 ==>
      GetHandlerIn(s, ctx, m).Success? && GetEntry(ctx.env, GetHandlerIn(s, ctx, m).value) == Success(r.value[0])
    ensures GetHandlerIn(s, ctx, m).Success? && GetEntry(ctx.env, GetHandlerIn(s, ctx, m).value).Success? ==>
      r == Success([GetEntry(ctx.env, GetHandlerIn(s, ctx, m).value).value])
    ensures GetHandlerIn(s, ctx, m).Failure? ==>
      r == if GetHandlerIn(s, ctx, m).error.Aborts() then Failure(GetHandlerIn(s, ctx, m).error) else Success([])
    ensures GetHandlerIn(s, ctx, m).Success? && GetEntry(ctx.env, GetHandlerIn(s, ctx, m).value).Failure? ==>
      var e := GetEntry(ctx.env, GetHandlerIn(s, ctx, m).value).error;
      r == if e.Aborts() then Failure(e) else Success([])
  {
    match GetHandlerIn(s, ctx, m)
    case Failure(e) => if e.Aborts() then Failure(e) else Success([])
    case Success(h) =>
      match GetEntry(ctx.env, h)
      case Failure(e) => if e.Aborts() then Failure(e) else Success([])
      case Success(d) => Success([d])
  }

  /** `Vec::dedup`: drops an element equal to the one just before it. */
  function Dedup<T(==)>(s: seq<T>): (r: seq<T>)
    ensures |r| <= |s|
    ensures s != [] ==> r != [] && r[|r| - 1] == s[|s| - 1]
  {
    if |s| <= 1 then s
    else
      var p := Dedup(s[..|s| - 1]);
      if s[|s| - 1] == s[|s| - 2] then p else p + [s[|s| - 1]]
  }

  predicate NoAdjacentDup<T(==)>(s: seq<T>) {
    forall i :: 0 <= i < |s| - 1 ==> s[i] != s[i + 1]
  }

  /** What `dedup` leaves: no two neighbours equal, the same elements as before, the first
      one first. */
  lemma {:induction false} DedupProps<T(!new)>(s: seq<T>)
    ensures NoAdjacentDup(Dedup(s))
    ensures forall x :: x in Dedup(s) <==> x in s
    ensures s != [] ==> Dedup(s)[0] == s[0]
  {
    if |s| > 1 {
      var p := s[..|s| - 1];
      DedupProps(p);
      assert s == p + [s[|s| - 1]];
      assert p[|p| - 1] == s[|s| - 2];
    }
  }

  /** Only adjacent repeats go: a list without them is left as it is. */
  lemma {:induction false} DedupOfNoAdjacent<T(!new)>(s: seq<T>)
    requires NoAdjacentDup(s)
    ensures Dedup(s) == s
  {
    if |s| > 1 {
      var p := s[..|s| - 1];
      assert NoAdjacentDup(p);
      DedupOfNoAdjacent(p);
      assert p + [s[|s| - 1]] == s;
    }
  }

  /** So an entry that appears twice with another between them appears twice after. */
  lemma DedupKeepsSeparated<T(!new)>(a: T, b: T)
    requires a != b
    ensures Dedup([a, b, a]) == [a, b, a]
  {
    DedupOfNoAdjacent([a, b, a]);
  }

  /** Deduplicating a longer list starts with the deduplication of its beginning. */
  lemma {:induction false} DedupPrefix<T(!new)>(a: seq<T>, b: seq<T>)
    ensures Dedup(a) <= Dedup(a + b)
    decreases |b|
  {
    if b == [] {
      assert a + b == a;
    } else {
      var b0 := b[..|b| - 1];
      DedupPrefix(a, b0);
      assert (a + b)[..|a + b| - 1] == a + b0;
      if |a + b| > 1 {
        assert Dedup(a + b0) <= Dedup(a + b);
      }
    }
  }

  /** The candidate list `ask_handler` offers. */
  function Candidates(s: Store, ctx: Context, db: MimeDb, parse: string -> Option<Mime>, dirsOk: bool, es: seq<(string, DesktopEntry)>, m: Mime): (r: Result<seq<DesktopEntry>, Error>)
    requires ValidStore(s)
  {
    match Globs(db, m)
    case Failure(e) => Failure(e)
    case Success(globs) =>
      match Resolved(s, ctx, m)
      case Failure(e) => Failure(e)
      case Success(first) =>
        if !dirsOk then Failure(Io)
        else
          match SystemCandidates(es, db, parse, m, globs)
          case Failure(e) => Failure(e)
          case Success(sys) => Success(Dedup(first + sys))
  }

  /** A successful candidate list is the deduplicated resolved entry and system list. */
  lemma CandidatesValue(s: Store, ctx: Context, db: MimeDb, parse: string -> Option<Mime>, dirsOk: bool, es: seq<(string, DesktopEntry)>, m: Mime)
    requires ValidStore(s) && Candidates(s, ctx, db, parse, dirsOk, es, m).Success?
    ensures dirsOk && Globs(db, m).Success? && Resolved(s, ctx, m).Success?
    ensures SystemCandidates(es, db, parse, m, Globs(db, m).value).Success?
    ensures Candidates(s, ctx, db, parse, dirsOk, es, m).value
      == Dedup(Resolved(s, ctx, m).value + SystemCandidates(es, db, parse, m, Globs(db, m).value).value)
  {
  }

  /** The shape of `dedup` over the resolved entry followed by a system list that starts
      with the exact declarers. */
  lemma DedupShape(first: seq<DesktopEntry>, exact: seq<DesktopEntry>, sys: seq<DesktopEntry>)
    requires exact <= sys
    ensures Dedup(first + exact) <= Dedup(first + sys)
    ensures first != [] ==> Dedup(first + sys)[0] == first[0]
    ensures NoAdjacentDup(Dedup(first + sys))
    ensures forall e :: e in Dedup(first + sys) <==> e in first || e in sys
    ensures forall e :: e in exact ==> e in Dedup(first + sys)
  {
    var tail := sys[|exact|..];
    assert sys == exact + tail;
    assert first + sys == (first + exact) + tail;
    DedupPrefix(first + exact, tail);
    DedupProps(first + sys);
    forall e | e in exact ensures e in first + sys {
      var i :| 0 <= i < |exact| && exact[i] == e;
      assert (first + sys)[|first| + i] == e;
    }
  }

  /** The order of the candidates: the resolved entry first, then the entries declaring
      exactly the type, in listing order, with adjacent repeats dropped, and none of
      those lost. */
  lemma CandidatesOrder(s: Store, ctx: Context, db: MimeDb, parse: string -> Option<Mime>, dirsOk: bool, es: seq<(string, DesktopEntry)>, m: Mime)
    requires ValidStore(s) && Candidates(s, ctx, db, parse, dirsOk, es, m).Success?
    ensures var apps := Candidates(s, ctx, db, parse, dirsOk, es, m).value;
      var first := Resolved(s, ctx, m).value;
      Dedup(first + EntriesDeclaring(es, m)) <= apps
      && (first != [] ==> apps[0] == first[0])
      && (GetHandlerIn(s, ctx, m).Success? && GetEntry(ctx.env, GetHandlerIn(s, ctx, m).value).Success? ==>
          apps[0] == GetEntry(ctx.env, GetHandlerIn(s, ctx, m).value).value)
      && NoAdjacentDup(apps)
      && forall e :: e in EntriesDeclaring(es, m) ==> e in apps
  {
    CandidatesValue(s, ctx, db, parse, dirsOk, es, m);
    var sys := SystemCandidates(es, db, parse, m, Globs(db, m).value).value;
    DedupShape(Resolved(s, ctx, m).value, EntriesDeclaring(es, m), sys);
  }

  /** Every candidate is the resolved entry or a listed entry. */
  lemma CandidatesProvenance(s: Store, ctx: Context, db: MimeDb, parse: string -> Option<Mime>, dirsOk: bool, es: seq<(string, DesktopEntry)>, m: Mime, e: DesktopEntry)
    requires ValidStore(s) && Candidates(s, ctx, db, parse, dirsOk, es, m).Success?
    requires e in Candidates(s, ctx, db, parse, dirsOk, es, m).value
    ensures e in Resolved(s, ctx, m).value || exists i :: 0 <= i < |es| && es[i].1 == e
  {
    CandidatesValue(s, ctx, db, parse, dirsOk, es, m);
    var globs := Globs(db, m).value;
    var sys := SystemCandidates(es, db, parse, m, globs).value;
    DedupShape(Resolved(s, ctx, m).value, EntriesDeclaring(es, m), sys);
    if e in sys {
      AliasEntriesListed(es, db, parse, globs, m, e);
    }
  }

  lemma AliasEntriesListed(es: seq<(string, DesktopEntry)>, db: MimeDb, parse: string -> Option<Mime>, globs: seq<string>, m: Mime, e: DesktopEntry)
    requires SystemCandidates(es, db, parse, m, globs).Success? && e in SystemCandidates(es, db, parse, m, globs).value
    ensures exists i :: 0 <= i < |es| && es[i].1 == e
  {
    var exact := EntriesDeclaring(es, m);
    EntriesDeclaringMembers(es, m);
    if |exact| < ExpansionGuard {
      AliasesListed(es, db, parse, exact, globs, e);
    }
  }

  lemma {:induction false} AliasesListed(es: seq<(string, DesktopEntry)>, db: MimeDb, parse: string -> Option<Mime>, sys: seq<DesktopEntry>, globs: seq<string>, e: DesktopEntry)
    requires forall x :: x in sys ==> exists i :: 0 <= i < |es| && es[i].1 == x
    requires Aliases(es, db, parse, sys, globs).Success? && e in Aliases(es, db, parse, sys, globs).value
    ensures exists i :: 0 <= i < |es| && es[i].1 == e
    decreases |globs|
  {
    if globs != [] {
      var s2 := StepAlias(es, db, parse, sys, globs[0]).value;
      assert forall x :: x in s2 ==> exists i :: 0 <= i < |es| && es[i].1 == x by {
        match db.lookup(globs[0]) {
          case None =>
          case Some(text) =>
            var a := parse(text).value;
            EntriesDeclaringMembers(es, a);
        }
      }
      if |s2| <= ExpansionCap {
        AliasesListed(es, db, parse, s2, globs[1..], e);
      }
    }
  }

  // ---- the choice ----

  /** An entry's file name with every `"` removed, as the selector shows it. */
  function FileLabel(e: DesktopEntry): string {
    RemoveChar(e.fileName, '"')
  }

  function FileLabels(apps: seq<DesktopEntry>): (r: seq<string>)
    ensures |r| == |apps| && forall i :: 0 <= i < |apps| ==> r[i] == FileLabel(apps[i])
  {
    if apps == [] then [] else [FileLabel(apps[0])] + FileLabels(apps[1..])
  }

  /** `{name} -- {file name}`, as the numbered prompt shows an entry. */
  function PromptLabel(e: DesktopEntry): string {
    e.name + " -- " + FileLabel(e)
  }

  function PromptLabels(apps: seq<DesktopEntry>): (r: seq<string>)
    ensures |r| == |apps| && forall i :: 0 <= i < |apps| ==> r[i] == PromptLabel(apps[i])
  {
    if apps == [] then [] else [PromptLabel(apps[0])] + PromptLabels(apps[1..])
  }

  const PromptText: string := "Select handler:"

  /** Through the selector: the first candidate whose label it printed, and `Cancelled`
      when none has it; the selector's own errors are passed on. */
  function ChooseBySelector(cfg: Config, proc: Process, apps: seq<DesktopEntry>): (r: Result<DesktopEntry, Error>)
    ensures r.Success? ==> r.value in apps
  {
    match Select(cfg, proc, FileLabels(apps))
    case Failure(e) => Failure(e)
    case Success(name) => Labelled(apps, name)
  }

  /** `find(|app| label == name)`, then `ok_or(Cancelled)`. */
  function Labelled(apps: seq<DesktopEntry>, name: string): (r: Result<DesktopEntry, Error>)
    ensures r.Success? ==> r.value in apps
  {
    match FindName(FileLabels(apps), name)
    case None => Failure(Cancelled)
    case Some(i) => Success(apps[i])
  }

  /** Through the numbered prompt: the entry whose number was typed, and `exit(1)` when the
      loop ends without one. */
  function ChooseByPrompt(lines: seq<string>, apps: seq<DesktopEntry>): (r: Result<DesktopEntry, Error>)
    ensures r.Success? ==> r.value in apps
  {
    PromptAnswer(Pick(|apps|, lines), apps)
  }

  /** The entry numbered `pick`, or `exit(1)` when the picker returned nothing. */
  function PromptAnswer(pick: Option<nat>, apps: seq<DesktopEntry>): (r: Result<DesktopEntry, Error>)
    requires pick.Some? ==> 1 <= pick.value <= |apps|
    ensures r.Success? ==> r.value in apps
  {
    match pick
    case None => Failure(Exit(1))
    case Some(n) => Success(apps[n - 1])
  }

  function Choose(cfg: Config, proc: Process, lines: seq<string>, apps: seq<DesktopEntry>, useSelector: bool): (r: Result<DesktopEntry, Error>)
    ensures r.Success? ==> r.value in apps
  {
    if useSelector then ChooseBySelector(cfg, proc, apps) else ChooseByPrompt(lines, apps)
  }

  /** What `ask_handler` answers, the `skim` mode aside. */
  function Ask(s: Store, ctx: Context, db: MimeDb, parse: string -> Option<Mime>, dirsOk: bool, es: seq<(string, DesktopEntry)>, m: Mime, useSelector: bool, lines: seq<string>): (r: Result<DesktopEntry, Error>)
    requires ValidStore(s)
    ensures r.Success? ==>
      Candidates(s, ctx, db, parse, dirsOk, es, m).Success?
      && r.value in Candidates(s, ctx, db, parse, dirsOk, es, m).value
  {
    match Candidates(s, ctx, db, parse, dirsOk, es, m)
    case Failure(e) => Failure(e)
    case Success(apps) => Choose(ctx.cfg, ctx.proc, lines, apps, useSelector)
  }

  /** Through the selector: the answer is the first candidate whose label it printed, and
      a printed label that no candidate has cancels. */
  lemma SelectorChoice(apps: seq<DesktopEntry>, name: string)
    ensures Labelled(apps, name).Success? <==> exists i :: 0 <= i < |apps| && FileLabel(apps[i]) == name
    ensures Labelled(apps, name).Success? ==>
      exists i :: 0 <= i < |apps| && Labelled(apps, name).value == apps[i] && FileLabel(apps[i]) == name
        && forall j :: 0 <= j < i ==> FileLabel(apps[j]) != name
    ensures Labelled(apps, name).Failure? ==> Labelled(apps, name).error == Cancelled
  {
    var labels := FileLabels(apps);
    if exists i :: 0 <= i < |apps| && FileLabel(apps[i]) == name {
      var i :| 0 <= i < |apps| && FileLabel(apps[i]) == name;
      assert labels[i] == name;
    }
    if FindName(labels, name).Some? {
      var i := FindName(labels, name).value;
      forall j | 0 <= j < i ensures FileLabel(apps[j]) != name {
        assert labels[..i][j] == labels[j];
      }
    }
  }

  /** A selector answer is passed through `Labelled`; its errors are passed on. */
  lemma SelectorAnswer(cfg: Config, proc: Process, apps: seq<DesktopEntry>)
    ensures Select(cfg, proc, FileLabels(apps)).Success? ==>
      ChooseBySelector(cfg, proc, apps) == Labelled(apps, Select(cfg, proc, FileLabels(apps)).value)
    ensures Select(cfg, proc, FileLabels(apps)).Failure? ==>
      ChooseBySelector(cfg, proc, apps) == Failure(Select(cfg, proc, FileLabels(apps)).error)
  {
  }

  /** Through the prompt: typing the number shown next to a candidate picks it, and a blank
      line (or the end of input) before any valid number ends the process with status 1. */
  lemma PromptChoice(apps: seq<DesktopEntry>, k: nat, rest: seq<string>)
    requires 1 <= k <= |apps| && k <= USIZE_MAX
    ensures ChooseByPrompt([NatToString(k)] + rest, apps) == Success(apps[k - 1])
    ensures ChooseByPrompt([], apps) == Failure(Exit(1))
  {
    ChoosingPrintedNumber(|apps|, k, rest);
  }

  /** With no candidates the prompt can only end the process. */
  lemma NoCandidatesExit(lines: seq<string>)
    ensures ChooseByPrompt(lines, []) == Failure(Exit(1))
  {
    NoItemsNoChoice(lines, "");
  }

  // ---- the methods ----

  /** The `for glob in &globs` loop of `ask_handler`, pushing onto `system`. */
  method ExpandAliases(es: seq<(string, DesktopEntry)>, db: MimeDb, parse: string -> Option<Mime>, sys: seq<DesktopEntry>, globs: seq<string>)
    returns (r: Result<seq<DesktopEntry>, Error>)
    ensures r == Aliases(es, db, parse, sys, globs)
  {
    var system := sys;
    var k := 0;
    while k < |globs|
      invariant 0 <= k <= |globs|
      invariant Aliases(es, db, parse, sys, globs) == Aliases(es, db, parse, system, globs[k..])
    {
      ghost var before := system;
      assert globs[k..][0] == globs[k] && globs[k..][1..] == globs[k + 1..];
      match db.lookup(globs[k]) {
        case None =>
        case Some(text) =>
          match parse(text) {
            case None => return Failure(BadMime(text));
            case Some(a) => system := system + EntriesDeclaring(es, a);
          }
      }
      assert StepAlias(es, db, parse, before, globs[k]) == Success(system);
      if |system| > ExpansionCap {
        return Success(system);
      }
      k := k + 1;
    }
    r := Success(system);
  }

  /** The candidate assembly of `ask_handler`. */
  method CollectCandidates(apps: MimeApps, ctx: Context, db: MimeDb, parse: string -> Option<Mime>, dirsOk: bool, scan: seq<ScannedFile>, m: Mime)
    returns (r: Result<seq<DesktopEntry>, Error>)
    requires apps.Valid()
    ensures r == Candidates(apps.Model(), ctx, db, parse, dirsOk, GetEntries(scan), m)
  {
    var globs: seq<string>;
    match db.extensions(m) {
      case Some(gs) => globs := gs;
      case None =>
        match db.extensions(TextPlain) {
          case Some(gs) => globs := gs;
          case None => return Failure(Panic("no extensions for text/plain"));
        }
    }
    ghost var first := Resolved(apps.Model(), ctx, m);
    var candidates: seq<DesktopEntry> := [];
    var found := apps.GetHandler(ctx, m);
    match found {
      case Failure(e) =>
        if e.Aborts() { return Failure(e); }
        assert first == Success([]);
      case Success(h) =>
        var def := GetEntry(ctx.env, h);
        match def {
          case Failure(e) =>
            if e.Aborts() { return Failure(e); }
            assert first == Success([]);
          case Success(d) =>
            candidates := [d];
        }
    }
    assert first == Success(candidates);
    if !dirsOk {
      return Failure(Io);
    }
    var es := GetEntries(scan);
    var system := EntriesDeclaring(es, m);
    if |system| < ExpansionGuard {
      var expanded := ExpandAliases(es, db, parse, system, globs);
      match expanded {
        case Failure(e) => return Failure(e);
        case Success(more) => system := more;
      }
    }
    r := Success(Dedup(candidates + system));
  }

  /** The `config` branch of `ask_handler`: ask the selector, then find the entry. */
  method ChooseWithSelector(ctx: Context, candidates: seq<DesktopEntry>) returns (r: Result<DesktopEntry, Error>)
    ensures r == ChooseBySelector(ctx.cfg, ctx.proc, candidates)
  {
    var chosen := Select(ctx.cfg, ctx.proc, FileLabels(candidates));
    match chosen {
      case Failure(e) =>
        r := Failure(e);
      case Success(name) =>
        var i := FindName(FileLabels(candidates), name);
        if i.None? {
          return Failure(Cancelled);
        }
        r := Success(candidates[i.value]);
    }
  }

  /** The numbered-prompt branch of `ask_handler`. */
  method ChooseWithPrompt(lines: seq<string>, candidates: seq<DesktopEntry>) returns (r: Result<DesktopEntry, Error>)
    ensures r == ChooseByPrompt(lines, candidates)
  {
    var choice, shown := SelectItem(PromptText, PromptLabels(candidates), lines);
    r := PromptAnswer(choice, candidates);
  }

  /** `ask_handler(mime, false, _, config)` over the global store `apps`, the listed
      entries `scan`, whether the data directories can be listed, and the lines typed. */
  method AskHandler(apps: MimeApps, ctx: Context, db: MimeDb, parse: string -> Option<Mime>, dirsOk: bool, scan: seq<ScannedFile>, m: Mime, useSelector: bool, lines: seq<string>)
    returns (r: Result<DesktopEntry, Error>)
    requires apps.Valid()
    ensures r == Ask(apps.Model(), ctx, db, parse, dirsOk, GetEntries(scan), m, useSelector, lines)
  {
    var candidates := CollectCandidates(apps, ctx, db, parse, dirsOk, scan, m);
    match candidates {
      case Failure(e) => r := Failure(e);
      case Success(list) =>
        if useSelector {
          r := ChooseWithSelector(ctx, list);
        } else {
          r := ChooseWithPrompt(lines, list);
        }
    }
  }
}
