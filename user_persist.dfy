/** Persistence of the user overrides in the `mimeapps.list` format: the loop of
    `MimeApps::read` over the lines of the file, and the text `MimeApps::save` writes.
    Only the `[Added Associations]` and `[Default Applications]` groups are kept. */
module UserPersist {
  import opened Base
  import opened Text
  import opened Mimes
  import opened Handlers
  import opened System
  import opened UserStore

  /** One line of the file as the grammar yields it: a group header with its name, a
      `key=value` property, or anything else (blank lines, the end of input). */
  datatype Event = Section(name: string) | Property(key: string, value: string) | Other

  const AddedGroup: string := "Added Associations"
  const DefaultGroup: string := "Default Applications"

  // ---- duplicates ----

  predicate NoDup<T(==)>(s: seq<T>) {
    forall i, j :: 0 <= i < j < |s| ==> s[i] != s[j]
  }

  /** `Itertools::unique`: every element at its first occurrence, later repeats dropped. */
  function Unique<T(==)>(s: seq<T>): seq<T> {
    if s == [] then []
    else if s[|s| - 1] in s[..|s| - 1] then Unique(s[..|s| - 1])
    else Unique(s[..|s| - 1]) + [s[|s| - 1]]
  }

  /** The result repeats nothing and holds exactly the elements of the input. */
  lemma {:induction false} UniqueProps<T(!new)>(s: seq<T>)
    ensures NoDup(Unique(s))
    ensures forall x :: x in Unique(s) <==> x in s
    ensures |Unique(s)| <= |s|
  {
    if s != [] {
      var p := s[..|s| - 1];
      UniqueProps(p);
      assert s == p + [s[|s| - 1]];
    }
  }

  /** An index holding `x` with no earlier `x` is the first occurrence. */
  lemma FirstIndexAt<T>(s: seq<T>, x: T, i: nat)
    requires i < |s| && s[i] == x && x !in s[..i]
    ensures FirstIndex(s, x) == i
  {
  }

  /** Appending an element does not move the first occurrence of anything already present. */
  lemma FirstIndexAppend<T>(p: seq<T>, x: T, y: T)
    requires y in p
    ensures FirstIndex(p + [x], y) == FirstIndex(p, y)
  {
    var k := FirstIndex(p, y);
    assert (p + [x])[..k] == p[..k];
    FirstIndexAt(p + [x], y, k);
  }

  /** `Unique` keeps first occurrences in the order they occur: it starts with the first
      element, and of two kept elements the earlier one first occurs earlier. With
      `UniqueProps`, this determines `Unique(s)` completely. */
  lemma {:induction false} UniqueOrder<T(!new)>(s: seq<T>)
    ensures s != [] ==> Unique(s) != [] && Unique(s)[0] == s[0]
    ensures forall i, j :: 0 <= i < j < |Unique(s)| ==>
      Unique(s)[i] in s && Unique(s)[j] in s && FirstIndex(s, Unique(s)[i]) < FirstIndex(s, Unique(s)[j])
  {
    if s != [] {
      var p, x := s[..|s| - 1], s[|s| - 1];
      assert s == p + [x];
      UniqueOrder(p);
      UniqueProps(p);
      UniqueProps(s);
      forall y | y in p ensures FirstIndex(s, y) == FirstIndex(p, y) {
        FirstIndexAppend(p, x, y);
      }
      var u := Unique(p);
      if x in p {
        assert Unique(s) == u;
        forall i, j | 0 <= i < j < |u|
          ensures u[i] in s && u[j] in s && FirstIndex(s, u[i]) < FirstIndex(s, u[j])
        {
          assert u[i] in p && u[j] in p;
          assert FirstIndex(p, u[i]) < FirstIndex(p, u[j]);
        }
      } else {
        assert Unique(s) == u + [x];
        assert s[..|p|] == p;
        FirstIndexAt(s, x, |p|);
        forall i, j | 0 <= i < j < |Unique(s)|
          ensures Unique(s)[i] in s && Unique(s)[j] in s && FirstIndex(s, Unique(s)[i]) < FirstIndex(s, Unique(s)[j])
        {
          assert Unique(s)[i] == u[i] && u[i] in p;
          if j < |u| {
            assert Unique(s)[j] == u[j];
          }
        }
      }
    } else {
      assert Unique(s) == [];
    }
  }

  /** A list without repeats is left as it is. */
  lemma {:induction false} UniqueOfDistinct<T(!new)>(s: seq<T>)
    requires NoDup(s)
    ensures Unique(s) == s
  {
    if s != [] {
      var p := s[..|s| - 1];
      assert NoDup(p);
      UniqueOfDistinct(p);
      assert s[|s| - 1] !in p;
      assert p + [s[|s| - 1]] == s;
    }
  }

  /** Keeping first occurrences commutes with taking names, since a handler is its name. */
  lemma {:induction false} UniqueNames(hs: seq<Handler>)
    ensures Names(Unique(hs)) == Unique(Names(hs))
  {
    if hs != [] {
      var p := hs[..|hs| - 1];
      var h := hs[|hs| - 1];
      UniqueNames(p);
      assert Names(hs)[..|hs| - 1] == Names(p);
      NamesMember(p, h);
      NamesAppend(Unique(p), h);
    }
  }

  // ---- handler lists as text ----

  function Names(hs: seq<Handler>): (r: seq<string>)
    ensures |r| == |hs| && forall i :: 0 <= i < |hs| ==> r[i] == hs[i].name
  {
    if hs == [] then [] else Names(hs[..|hs| - 1]) + [hs[|hs| - 1].name]
  }

  lemma NamesAppend(hs: seq<Handler>, h: Handler)
    ensures Names(hs + [h]) == Names(hs) + [h.name]
  {
    assert (hs + [h])[..|hs|] == hs;
  }

  lemma NamesMember(hs: seq<Handler>, h: Handler)
    ensures h.name in Names(hs) <==> h in hs
  {
    if h.name in Names(hs) {
      var i :| 0 <= i < |hs| && Names(hs)[i] == h.name;
      assert hs[i] == h;
    }
    if h in hs {
      var i :| 0 <= i < |hs| && hs[i] == h;
      assert Names(hs)[i] == h.name;
    }
  }

  /** The value `save` writes for a list: the names joined by `;`, with a trailing `;`. */
  function ValueText(hs: seq<Handler>): string {
    Join(Names(hs), [';']) + [';']
  }

  function NonEmptyTokens(ts: seq<string>): seq<string> {
    if ts == [] then []
    else NonEmptyTokens(ts[..|ts| - 1]) + (if ts[|ts| - 1] == [] then [] else [ts[|ts| - 1]])
  }

  lemma {:induction false} NonEmptyTokensMembers(ts: seq<string>)
    ensures forall t :: t in NonEmptyTokens(ts) <==> t in ts && t != []
  {
    if ts != [] {
      NonEmptyTokensMembers(ts[..|ts| - 1]);
      assert ts == ts[..|ts| - 1] + [ts[|ts| - 1]];
    }
  }

  /** `filter_map(|s| Handler::from_str(s).ok())`: the tokens that resolve, as handlers. */
  function Resolvable(env: Env, ts: seq<string>): seq<Handler> {
    if ts == [] then []
    else
      Resolvable(env, ts[..|ts| - 1])
      + match FromStr(env, ts[|ts| - 1]) { case Success(h) => [h] case Failure(_) => [] }
  }

  lemma {:induction false} ResolvableMembers(env: Env, ts: seq<string>)
    ensures forall h :: h in Resolvable(env, ts) <==> h.name in ts && Resolves(env, h.name)
  {
    if ts != [] {
      ResolvableMembers(env, ts[..|ts| - 1]);
      assert ts == ts[..|ts| - 1] + [ts[|ts| - 1]];
    }
  }

  /** The handler list `read` builds from a value: split on `;`, drop empty tokens, keep
      first occurrences, drop names that do not resolve. */
  function ParseValue(env: Env, v: string): seq<Handler> {
    Resolvable(env, Unique(NonEmptyTokens(Split(v, ';'))))
  }

  /** A parsed list holds no handler twice, and only handlers that resolve. */
  lemma {:induction false} ResolvableNoDup(env: Env, ts: seq<string>)
    requires NoDup(ts)
    ensures NoDup(Resolvable(env, ts))
  {
    if ts != [] {
      var p := ts[..|ts| - 1];
      assert NoDup(p);
      ResolvableNoDup(env, p);
      ResolvableMembers(env, p);
      assert ts[|ts| - 1] !in p;
    }
  }

  lemma ParseValueValid(env: Env, v: string)
    ensures NoDup(ParseValue(env, v))
    ensures forall h :: h in ParseValue(env, v) ==> Resolves(env, h.name) && h.name != [] && ';' !in h.name
  {
    var ts := Split(v, ';');
    var ne := NonEmptyTokens(ts);
    NonEmptyTokensMembers(ts);
    UniqueProps(ne);
    ResolvableMembers(env, Unique(ne));
    ResolvableNoDup(env, Unique(ne));
    forall h | h in ParseValue(env, v) ensures ';' !in h.name {
      assert h.name in ts;
      var i :| 0 <= i < |ts| && ts[i] == h.name;
    }
  }

  lemma {:induction false} NonEmptyTokensKeep(ts: seq<string>)
    requires forall i :: 0 <= i < |ts| ==> ts[i] != []
    ensures NonEmptyTokens(ts) == ts
  {
    if ts != [] {
      NonEmptyTokensKeep(ts[..|ts| - 1]);
      assert ts[..|ts| - 1] + [ts[|ts| - 1]] == ts;
    }
  }

  lemma {:induction false} ResolvableNames(env: Env, hs: seq<Handler>)
    requires forall i :: 0 <= i < |hs| ==> Resolves(env, hs[i].name)
    ensures Resolvable(env, Names(hs)) == hs
  {
    if hs != [] {
      var p := hs[..|hs| - 1];
      ResolvableNames(env, p);
      assert Names(hs)[..|hs| - 1] == Names(p);
      assert hs == p + [hs[|hs| - 1]];
    }
  }

  /** The tokens of a `;`-terminated list of non-empty pieces, empty ones dropped, are
      the pieces. */
  lemma TokensOfTerminated(ns: seq<string>, v: string)
    requires ns != [] && v == Join(ns, [';']) + [';']
    requires forall i :: 0 <= i < |ns| ==> ns[i] != [] && ';' !in ns[i]
    ensures NonEmptyTokens(Split(v, ';')) == ns
  {
    SplitJoinTerminated(ns, ';');
    NonEmptyTokensKeep(ns);
    assert (ns + [""])[..|ns|] == ns;
  }

  lemma TokensOfValueText(hs: seq<Handler>)
    requires hs != []
    requires forall i :: 0 <= i < |hs| ==> hs[i].name != [] && ';' !in hs[i].name
    ensures NonEmptyTokens(Split(ValueText(hs), ';')) == Names(hs)
  {
    TokensOfTerminated(Names(hs), ValueText(hs));
  }

  /** Names that are non-empty, free of `;` and resolvable, written as `save` writes them,
      read back as the same list with repeats dropped. */
  lemma ParseValueText(env: Env, hs: seq<Handler>)
    requires hs != []
    requires forall i :: 0 <= i < |hs| ==> Writable(env, hs[i])
    ensures ParseValue(env, ValueText(hs)) == Unique(hs)
  {
    TokensOfValueText(hs);
    UniqueNames(hs);
    UniqueProps(hs);
    forall i | 0 <= i < |Unique(hs)| ensures Resolves(env, Unique(hs)[i].name) {
      assert Unique(hs)[i] in hs;
    }
    ResolvableNames(env, Unique(hs));
  }

  /** A handler `save` can write and `read` gets back. */
  predicate Writable(env: Env, h: Handler) {
    h.name != [] && ';' !in h.name && Resolves(env, h.name)
  }

  // ---- read ----

  /** What the loop of `read` carries: the current group name and the two maps. */
  datatype ReadState = ReadState(group: string, added: HandlerMap, defaults: HandlerMap)

  const Start: ReadState := ReadState("", map[], map[])

  /** One iteration of the loop. A header switches the group; a property whose parsed list
      is non-empty and whose key parses as a MIME type is stored in the map of the current
      group, replacing what was there; everything else is ignored. */
  function Step(env: Env, parse: string -> Option<Mime>, st: ReadState, ev: Event): ReadState {
    match ev
    case Section(name) => st.(group := name)
    case Other => st
    case Property(key, value) =>
      var hs := ParseValue(env, value);
      if hs == [] then st
      else match parse(key)
        case None => st
        case Some(m) =>
          if st.group == AddedGroup then st.(added := st.added[m := hs])
          else if st.group == DefaultGroup then st.(defaults := st.defaults[m := hs])
          else st
  }

  /** The loop run over a sequence of lines from a given state. */
  function RunFrom(env: Env, parse: string -> Option<Mime>, st: ReadState, evs: seq<Event>): ReadState
    decreases |evs|
  {
    if evs == [] then st else RunFrom(env, parse, Step(env, parse, st, evs[0]), evs[1..])
  }

  lemma {:induction false} RunFromSnoc(env: Env, parse: string -> Option<Mime>, st: ReadState, evs: seq<Event>, ev: Event)
    ensures RunFrom(env, parse, st, evs + [ev]) == Step(env, parse, RunFrom(env, parse, st, evs), ev)
    decreases |evs|
  {
    if evs != [] {
      assert (evs + [ev])[1..] == evs[1..] + [ev];
      RunFromSnoc(env, parse, Step(env, parse, st, evs[0]), evs[1..], ev);
    } else {
      assert ([] + [ev])[1..] == [];
    }
  }

  lemma {:induction false} RunFromConcat(env: Env, parse: string -> Option<Mime>, st: ReadState, a: seq<Event>, b: seq<Event>)
    ensures RunFrom(env, parse, st, a + b) == RunFrom(env, parse, RunFrom(env, parse, st, a), b)
    decreases |a|
  {
    if a != [] {
      assert (a + b)[1..] == a[1..] + b;
      RunFromConcat(env, parse, Step(env, parse, st, a[0]), a[1..], b);
    } else {
      assert [] + b == b;
    }
  }

  /** The maps `read` loads from the lines of the file. */
  function ReadAll(env: Env, parse: string -> Option<Mime>, evs: seq<Event>): ReadState {
    RunFrom(env, parse, Start, evs)
  }

  /** The `for_each` of `MimeApps::read`. */
  method ReadEntries(env: Env, parse: string -> Option<Mime>, evs: seq<Event>)
    returns (added: HandlerMap, defaults: HandlerMap)
    ensures added == ReadAll(env, parse, evs).added
    ensures defaults == ReadAll(env, parse, evs).defaults
    ensures ValidList(env, added) && ValidList(env, defaults)
  {
    var group := "";
    added, defaults := map[], map[];
    var i := 0;
    while i < |evs|
      invariant 0 <= i <= |evs|
      invariant ReadState(group, added, defaults) == RunFrom(env, parse, Start, evs[..i])
    {
      RunFromSnoc(env, parse, Start, evs[..i], evs[i]);
      assert evs[..i + 1] == evs[..i] + [evs[i]];
      match evs[i] {
        case Section(name) =>
          group := name;
        case Other =>
        case Property(key, value) =>
          var hs := ParseValue(env, value);
          if hs != [] {
            match parse(key) {
              case None =>
              case Some(m) =>
                if group == AddedGroup {
                  added := added[m := hs];
                } else if group == DefaultGroup {
                  defaults := defaults[m := hs];
                }
            }
          }
      }
      i := i + 1;
    }
    assert evs[..i] == evs;
    ReadAllValid(env, parse, evs);
  }

  /** Every stored list is non-empty, free of repeats, and made of handlers that resolve. */
  predicate ValidList(env: Env, hm: HandlerMap) {
    ValidMap(hm)
    && forall m :: m in hm ==> NoDup(hm[m]) && forall h :: h in hm[m] ==> Resolves(env, h.name)
  }

  lemma {:induction false} RunFromValid(env: Env, parse: string -> Option<Mime>, st: ReadState, evs: seq<Event>)
    requires ValidList(env, st.added) && ValidList(env, st.defaults)
    ensures ValidList(env, RunFrom(env, parse, st, evs).added)
    ensures ValidList(env, RunFrom(env, parse, st, evs).defaults)
    decreases |evs|
  {
    if evs != [] {
      if evs[0].Property? {
        ParseValueValid(env, evs[0].value);
      }
      RunFromValid(env, parse, Step(env, parse, st, evs[0]), evs[1..]);
    }
  }

  /** No list `read` stores is empty, so the `get(0).unwrap()` calls of the resolver never
      panic on a loaded store; no list repeats a handler and every handler resolves. */
  lemma ReadAllValid(env: Env, parse: string -> Option<Mime>, evs: seq<Event>)
    ensures ValidList(env, ReadAll(env, parse, evs).added)
    ensures ValidList(env, ReadAll(env, parse, evs).defaults)
  {
    RunFromValid(env, parse, Start, evs);
  }

  // ---- what `read` stores ----

  /** The group in force before line `i`: the last header above it, or none. */
  function GroupBefore(evs: seq<Event>, i: nat): string
    requires i <= |evs|
  {
    if i == 0 then "" else if evs[i - 1].Section? then evs[i - 1].name else GroupBefore(evs, i - 1)
  }

  lemma {:induction false} GroupBeforePrefix(evs: seq<Event>, e: Event, i: nat)
    requires i <= |evs|
    ensures GroupBefore(evs + [e], i) == GroupBefore(evs, i)
  {
    if i > 0 {
      assert (evs + [e])[i - 1] == evs[i - 1];
      GroupBeforePrefix(evs, e, i - 1);
    }
  }

  /** The map of one of the two groups. */
  function GroupMap(st: ReadState, g: string): HandlerMap {
    if g == AddedGroup then st.added else st.defaults
  }

  predicate Kept(g: string) {
    g == AddedGroup || g == DefaultGroup
  }

  /** Line `i` stores a list under `m` in group `g`. */
  predicate StoresAt(env: Env, parse: string -> Option<Mime>, evs: seq<Event>, i: int, g: string, m: Mime) {
    0 <= i < |evs| && evs[i].Property? && GroupBefore(evs, i) == g
    && parse(evs[i].key) == Some(m) && ParseValue(env, evs[i].value) != []
  }

  lemma {:induction false} ReadGroup(env: Env, parse: string -> Option<Mime>, evs: seq<Event>)
    ensures ReadAll(env, parse, evs).group == GroupBefore(evs, |evs|)
    decreases |evs|
  {
    if evs != [] {
      var p := evs[..|evs| - 1];
      assert evs == p + [evs[|evs| - 1]];
      ReadGroup(env, parse, p);
      RunFromSnoc(env, parse, Start, p, evs[|evs| - 1]);
      GroupBeforePrefix(p, evs[|evs| - 1], |p|);
    }
  }

  /** What one line does to the map of group `g`, given the group in force. */
  lemma StepGroupMap(env: Env, parse: string -> Option<Mime>, st: ReadState, e: Event, g: string, m: Mime)
    requires Kept(g)
    ensures var stores := e.Property? && st.group == g && parse(e.key) == Some(m) && ParseValue(env, e.value) != [];
      (stores ==> m in GroupMap(Step(env, parse, st, e), g)
                  && GroupMap(Step(env, parse, st, e), g)[m] == ParseValue(env, e.value))
      && (!stores ==> (m in GroupMap(Step(env, parse, st, e), g) <==> m in GroupMap(st, g))
                      && (m in GroupMap(st, g) ==> GroupMap(Step(env, parse, st, e), g)[m] == GroupMap(st, g)[m]))
  {
  }

  /** The lines of a prefix store what they stored before more lines were appended. */
  lemma StoresAtPrefix(env: Env, parse: string -> Option<Mime>, p: seq<Event>, e: Event, g: string, m: Mime)
    ensures forall j :: 0 <= j < |p| ==> (StoresAt(env, parse, p + [e], j, g, m) <==> StoresAt(env, parse, p, j, g, m))
    ensures StoresAt(env, parse, p + [e], |p|, g, m) <==>
      e.Property? && GroupBefore(p, |p|) == g && parse(e.key) == Some(m) && ParseValue(env, e.value) != []
  {
    forall j | 0 <= j < |p| ensures StoresAt(env, parse, p + [e], j, g, m) <==> StoresAt(env, parse, p, j, g, m) {
      GroupBeforePrefix(p, e, j);
      assert (p + [e])[j] == p[j];
    }
    GroupBeforePrefix(p, e, |p|);
  }

  /** Some line of `p + [e]` stores `m` in `g` exactly when the last one does or some line
      of `p` does. */
  lemma SomeStoreSnoc(env: Env, parse: string -> Option<Mime>, p: seq<Event>, e: Event, g: string, m: Mime)
    ensures (exists j :: StoresAt(env, parse, p + [e], j, g, m)) <==>
      (e.Property? && GroupBefore(p, |p|) == g && parse(e.key) == Some(m) && ParseValue(env, e.value) != [])
      || exists j :: StoresAt(env, parse, p, j, g, m)
  {
    StoresAtPrefix(env, parse, p, e, g, m);
    if exists j :: StoresAt(env, parse, p + [e], j, g, m) {
      var j :| StoresAt(env, parse, p + [e], j, g, m);
      if j < |p| { assert StoresAt(env, parse, p, j, g, m); }
    }
    if exists j :: StoresAt(env, parse, p, j, g, m) {
      var j :| StoresAt(env, parse, p, j, g, m);
      assert StoresAt(env, parse, p + [e], j, g, m);
    }
  }

  /** `read` keeps a key in a group exactly when some line of that group stores a
      non-empty list under a key that parses as it; other groups, unparsable keys and
      lists left empty are ignored. */
  lemma {:induction false} ReadKeeps(env: Env, parse: string -> Option<Mime>, evs: seq<Event>, g: string, m: Mime)
    requires Kept(g)
    ensures m in GroupMap(ReadAll(env, parse, evs), g) <==> exists j :: StoresAt(env, parse, evs, j, g, m)
    decreases |evs|
  {
    if evs != [] {
      var p := evs[..|evs| - 1];
      var e := evs[|evs| - 1];
      assert evs == p + [e];
      RunFromSnoc(env, parse, Start, p, e);
      ReadGroup(env, parse, p);
      StepGroupMap(env, parse, ReadAll(env, parse, p), e, g, m);
      SomeStoreSnoc(env, parse, p, e, g, m);
      ReadKeeps(env, parse, p, g, m);
    }
  }

  /** A repeated key overwrites the earlier one: the list kept is the one of the last line
      that stores under the key in that group. */
  lemma {:induction false} ReadLastWins(env: Env, parse: string -> Option<Mime>, evs: seq<Event>, g: string, m: Mime, i: nat)
    requires Kept(g)
    requires StoresAt(env, parse, evs, i, g, m)
    requires forall j :: i < j < |evs| ==> !StoresAt(env, parse, evs, j, g, m)
    ensures m in GroupMap(ReadAll(env, parse, evs), g)
    ensures GroupMap(ReadAll(env, parse, evs), g)[m] == ParseValue(env, evs[i].value)
    decreases |evs|
  {
    var p := evs[..|evs| - 1];
    var e := evs[|evs| - 1];
    assert evs == p + [e];
    RunFromSnoc(env, parse, Start, p, e);
    ReadGroup(env, parse, p);
    StepGroupMap(env, parse, ReadAll(env, parse, p), e, g, m);
    StoresAtPrefix(env, parse, p, e, g, m);
    if i < |p| {
      assert !StoresAt(env, parse, evs, |p|, g, m);
      forall j | i < j < |p| ensures !StoresAt(env, parse, p, j, g, m) {
        assert !StoresAt(env, parse, evs, j, g, m);
      }
      ReadLastWins(env, parse, p, g, m, i);
    } else {
      assert e == evs[i];
    }
  }

  // ---- save ----

  /** One line `save` writes: `mime=h1;...;hn;`. */
  function Line(k: Mime, hs: seq<Handler>): string {
    Essence(k) + "=" + ValueText(hs) + "\n"
  }

  /** The lines of one group, for the keys `ks` in that order. */
  function Block(ks: seq<Mime>, hm: HandlerMap): string
    requires forall k :: k in ks ==> k in hm
  {
    if ks == [] then "" else Line(ks[0], hm[ks[0]]) + Block(ks[1..], hm)
  }

  /** The text `MimeApps::save` writes: the added associations, a blank line, then the
      defaults, each group with its keys in ascending order. */
  ghost function SaveText(added: HandlerMap, defaults: HandlerMap): string {
    Header(AddedGroup) + Block(SortedKeys(added.Keys), added)
    + "\n" + Header(DefaultGroup) + Block(SortedKeys(defaults.Keys), defaults)
  }

  /** A group header line, `[name]`. */
  function Header(name: string): string {
    "[" + name + "]\n"
  }

  /** The loop of `save` over one group: the keys in ascending order, one line each. */
  method WriteGroup(hm: HandlerMap) returns (text: string)
    ensures text == Block(SortedKeys(hm.Keys), hm)
  {
    text := "";
    var rest := hm.Keys;
    while rest != {}
      invariant rest <= hm.Keys
      invariant text + Block(SortedKeys(rest), hm) == Block(SortedKeys(hm.Keys), hm)
      decreases |rest|
    {
      LeastExists(rest);
      var k :| k in rest && IsLeast(k, rest);
      SortedKeysUnfold(rest, k);
      ghost var tail := Block(SortedKeys(rest - {k}), hm);
      assert Block(SortedKeys(rest), hm) == Line(k, hm[k]) + tail;
      Associative(text, Line(k, hm[k]), tail);
      text := text + Line(k, hm[k]);
      rest := rest - {k};
    }
    NoKeys(rest);
  }

  /** `MimeApps::save`: the text written to the overrides file. */
  method Serialize(added: HandlerMap, defaults: HandlerMap) returns (text: string)
    ensures text == SaveText(added, defaults)
  {
    var a := WriteGroup(added);
    var d := WriteGroup(defaults);
    text := Header(AddedGroup) + a + "\n" + Header(DefaultGroup) + d;
  }

  /** The text of lines of the file. */
  function Render(evs: seq<Event>): string {
    if evs == [] then ""
    else
      match evs[0]
      case Section(name) => Header(name) + Render(evs[1..])
      case Property(key, value) => key + "=" + value + "\n" + Render(evs[1..])
      case Other => "\n" + Render(evs[1..])
  }

  /** The property lines of one group. */
  function PropertyEvents(ks: seq<Mime>, hm: HandlerMap): (r: seq<Event>)
    requires forall k :: k in ks ==> k in hm
    ensures |r| == |ks|
  {
    if ks == [] then [] else [Property(Essence(ks[0]), ValueText(hm[ks[0]]))] + PropertyEvents(ks[1..], hm)
  }

  /** The lines `save` writes. */
  ghost function SaveEvents(added: HandlerMap, defaults: HandlerMap): seq<Event> {
    [Section(AddedGroup)] + PropertyEvents(SortedKeys(added.Keys), added)
    + [Other, Section(DefaultGroup)] + PropertyEvents(SortedKeys(defaults.Keys), defaults)
  }

  lemma {:induction false} RenderConcat(a: seq<Event>, b: seq<Event>)
    ensures Render(a + b) == Render(a) + Render(b)
    decreases |a|
  {
    if a != [] {
      assert (a + b)[0] == a[0];
      assert (a + b)[1..] == a[1..] + b;
      RenderConcat(a[1..], b);
    } else {
      assert [] + b == b;
    }
  }

  lemma {:induction false} RenderProperties(ks: seq<Mime>, hm: HandlerMap)
    requires forall k :: k in ks ==> k in hm
    ensures Render(PropertyEvents(ks, hm)) == Block(ks, hm)
    decreases |ks|
  {
    if ks != [] {
      var evs := PropertyEvents(ks, hm);
      RenderProperties(ks[1..], hm);
      assert evs[1..] == PropertyEvents(ks[1..], hm);
    }
  }

  lemma RenderFour(a: seq<Event>, b: seq<Event>, c: seq<Event>, d: seq<Event>)
    ensures Render(a + b + c + d) == Render(a) + Render(b) + Render(c) + Render(d)
  {
    RenderConcat(a, b);
    RenderConcat(a + b, c);
    RenderConcat(a + b + c, d);
  }

  /** The saved text is, line by line, the headers of the two groups, one property line
      per key, and the blank line between the groups. */
  lemma SaveTextRendersEvents(added: HandlerMap, defaults: HandlerMap)
    ensures SaveText(added, defaults) == Render(SaveEvents(added, defaults))
  {
    var pa := PropertyEvents(SortedKeys(added.Keys), added);
    var pd := PropertyEvents(SortedKeys(defaults.Keys), defaults);
    RenderProperties(SortedKeys(added.Keys), added);
    RenderProperties(SortedKeys(defaults.Keys), defaults);
    var h1: seq<Event> := [Section(AddedGroup)];
    var h2: seq<Event> := [Other, Section(DefaultGroup)];
    RenderFour(h1, pa, h2, pd);
    assert Render(h1) == Header(AddedGroup);
    assert h2[1..] == [Section(DefaultGroup)];
    assert Render(h2[1..]) == Header(DefaultGroup);
    assert Render(h2) == "\n" + Header(DefaultGroup);
    var x := Header(AddedGroup) + Block(SortedKeys(added.Keys), added);
    Associative(x, "\n", Header(DefaultGroup));
  }

  // ---- save, then read ----

  /** What `read` needs of a map for the round trip: non-empty lists of handlers it can
      write and read back, under keys whose essence parses back to the key. */
  predicate Saveable(env: Env, parse: string -> Option<Mime>, hm: HandlerMap) {
    forall k :: k in hm ==>
      (hm[k] != [] && parse(Essence(k)) == Some(k)
       && forall i :: 0 <= i < |hm[k]| ==> Writable(env, hm[k][i]))
  }

  /** Each list with its repeats dropped. */
  function MapUnique(hm: HandlerMap): (r: HandlerMap)
    ensures r.Keys == hm.Keys && forall k :: k in r ==> r[k] == Unique(hm[k])
  {
    map k | k in hm :: Unique(hm[k])
  }

  function Updated(ks: seq<Mime>, hm: HandlerMap): HandlerMap
    requires forall k :: k in ks ==> k in hm
  {
    map k | k in ks :: Unique(hm[k])
  }

  lemma MergeUpdate(base: HandlerMap, rest: HandlerMap, k: Mime, v: seq<Handler>)
    requires k in rest ==> rest[k] == v
    ensures base[k := v] + rest == base + rest[k := v]
  {
  }

  /** The state with the map of group `g` replaced. */
  function WithGroupMap(st: ReadState, g: string, hm: HandlerMap): ReadState {
    if g == AddedGroup then st.(added := hm) else st.(defaults := hm)
  }

  /** Reading one property line `save` wrote. */
  lemma StepSaved(env: Env, parse: string -> Option<Mime>, st: ReadState, k: Mime, hm: HandlerMap)
    requires Kept(st.group) && Saveable(env, parse, hm) && k in hm
    ensures Step(env, parse, st, Property(Essence(k), ValueText(hm[k])))
      == WithGroupMap(st, st.group, GroupMap(st, st.group)[k := Unique(hm[k])])
  {
    var hs := hm[k];
    assert forall i :: 0 <= i < |hs| ==> Writable(env, hs[i]);
    ParseValueText(env, hs);
    UniqueProps(hs);
    assert hs[0] in Unique(hs);
  }

  lemma RunFromCons(env: Env, parse: string -> Option<Mime>, st: ReadState, e: Event, evs: seq<Event>)
    ensures RunFrom(env, parse, st, [e] + evs) == RunFrom(env, parse, Step(env, parse, st, e), evs)
  {
    assert ([e] + evs)[1..] == evs;
  }

  /** Reading the property lines of a group stores each key's list, repeats dropped. */
  lemma {:induction false} RunProperties(env: Env, parse: string -> Option<Mime>, st: ReadState, ks: seq<Mime>, hm: HandlerMap)
    requires Kept(st.group) && Saveable(env, parse, hm)
    requires forall k :: k in ks ==> k in hm
    ensures RunFrom(env, parse, st, PropertyEvents(ks, hm))
      == WithGroupMap(st, st.group, GroupMap(st, st.group) + Updated(ks, hm))
    decreases |ks|
  {
    if ks == [] {
      assert Updated(ks, hm) == map[];
    } else {
      var k := ks[0];
      var rest := ks[1..];
      var u := Unique(hm[k]);
      var g := st.group;
      var ev := Property(Essence(k), ValueText(hm[k]));
      assert PropertyEvents(ks, hm) == [ev] + PropertyEvents(rest, hm);
      RunFromCons(env, parse, st, ev, PropertyEvents(rest, hm));
      StepSaved(env, parse, st, k, hm);
      var st1 := WithGroupMap(st, g, GroupMap(st, g)[k := u]);
      WithGroupMapTwice(st, g, GroupMap(st, g)[k := u], Updated(rest, hm));
      RunProperties(env, parse, st1, rest, hm);
      UpdatedCons(ks, hm);
      MergeUpdate(GroupMap(st, g), Updated(rest, hm), k, u);
    }
  }

  lemma UpdatedCons(ks: seq<Mime>, hm: HandlerMap)
    requires ks != [] && forall k :: k in ks ==> k in hm
    ensures Updated(ks, hm) == Updated(ks[1..], hm)[ks[0] := Unique(hm[ks[0]])]
  {
    assert forall j :: j in ks <==> j == ks[0] || j in ks[1..] by { assert ks == [ks[0]] + ks[1..]; }
  }

  lemma WithGroupMapTwice(st: ReadState, g: string, a: HandlerMap, b: HandlerMap)
    requires Kept(g)
    ensures var s1 := WithGroupMap(st, g, a);
      s1.group == st.group && GroupMap(s1, g) == a
      && WithGroupMap(s1, g, a + b) == WithGroupMap(st, g, a + b)
  {
  }

  lemma RunSection(env: Env, parse: string -> Option<Mime>, st: ReadState, g: string, rest: seq<Event>)
    ensures RunFrom(env, parse, st, [Section(g)] + rest) == RunFrom(env, parse, st.(group := g), rest)
  {
    RunFromCons(env, parse, st, Section(g), rest);
  }

  lemma RunBlankSection(env: Env, parse: string -> Option<Mime>, st: ReadState, g: string, rest: seq<Event>)
    ensures RunFrom(env, parse, st, [Other, Section(g)] + rest) == RunFrom(env, parse, st.(group := g), rest)
  {
    assert [Other, Section(g)] + rest == [Other] + ([Section(g)] + rest);
    RunFromCons(env, parse, st, Other, [Section(g)] + rest);
    RunSection(env, parse, st, g, rest);
  }

  lemma UpdatedAll(ks: seq<Mime>, hm: HandlerMap)
    requires forall k :: k in ks <==> k in hm
    ensures Updated(ks, hm) == MapUnique(hm)
  {
  }

  /** Reading the property lines of one group, as `save` writes them, into an empty map. */
  lemma RunGroup(env: Env, parse: string -> Option<Mime>, st: ReadState, ks: seq<Mime>, hm: HandlerMap)
    requires Kept(st.group) && Saveable(env, parse, hm)
    requires forall k :: k in ks <==> k in hm
    requires GroupMap(st, st.group) == map[]
    ensures RunFrom(env, parse, st, PropertyEvents(ks, hm)) == WithGroupMap(st, st.group, MapUnique(hm))
  {
    RunProperties(env, parse, st, ks, hm);
    UpdatedAll(ks, hm);
    EmptyMerge(MapUnique(hm));
  }

  lemma EmptyMerge(hm: HandlerMap)
    ensures map[] + hm == hm
  {
  }

  lemma RunHalves(env: Env, parse: string -> Option<Mime>, a: seq<Event>, b: seq<Event>, c: seq<Event>, d: seq<Event>)
    ensures RunFrom(env, parse, Start, a + b + c + d)
      == RunFrom(env, parse, RunFrom(env, parse, Start, a + b), c + d)
  {
    assert a + b + c + d == (a + b) + (c + d);
    RunFromConcat(env, parse, Start, a + b, c + d);
  }

  /** The round trip for the two groups written with their keys in any order. */
  lemma RoundTripInAnyOrder(env: Env, parse: string -> Option<Mime>, added: HandlerMap, defaults: HandlerMap, ka: seq<Mime>, kd: seq<Mime>)
    requires Saveable(env, parse, added) && Saveable(env, parse, defaults)
    requires forall k :: k in ka <==> k in added
    requires forall k :: k in kd <==> k in defaults
    ensures RunFrom(env, parse, Start,
        [Section(AddedGroup)] + PropertyEvents(ka, added) + [Other, Section(DefaultGroup)] + PropertyEvents(kd, defaults))
      == ReadState(DefaultGroup, MapUnique(added), MapUnique(defaults))
  {
    var h1: seq<Event> := [Section(AddedGroup)];
    var h2: seq<Event> := [Other, Section(DefaultGroup)];
    var pa := PropertyEvents(ka, added);
    var pd := PropertyEvents(kd, defaults);
    RunHalves(env, parse, h1, pa, h2, pd);
    RunSection(env, parse, Start, AddedGroup, pa);
    RunGroup(env, parse, Start.(group := AddedGroup), ka, added);
    var s2 := ReadState(AddedGroup, MapUnique(added), map[]);
    RunBlankSection(env, parse, s2, DefaultGroup, pd);
    RunGroup(env, parse, s2.(group := DefaultGroup), kd, defaults);
  }

  /** Reading back what `save` writes gives both maps again, each list with its repeats
      dropped, provided the lists are non-empty, their handlers resolve and contain no
      `;`, and the keys parse back. */
  lemma SaveReadRoundTrip(env: Env, parse: string -> Option<Mime>, added: HandlerMap, defaults: HandlerMap)
    requires Saveable(env, parse, added) && Saveable(env, parse, defaults)
    ensures ReadAll(env, parse, SaveEvents(added, defaults))
      == ReadState(DefaultGroup, MapUnique(added), MapUnique(defaults))
  {
    RoundTripInAnyOrder(env, parse, added, defaults, SortedKeys(added.Keys), SortedKeys(defaults.Keys));
  }

  /** Dropping repeats changes nothing in a map whose lists have none. */
  lemma MapUniqueOfDistinct(hm: HandlerMap)
    requires forall k :: k in hm ==> NoDup(hm[k])
    ensures MapUnique(hm) == hm
  {
    forall k | k in hm ensures MapUnique(hm)[k] == hm[k] { UniqueOfDistinct(hm[k]); }
  }

  /** For lists without repeats, as `read` itself produces them, the round trip is exact. */
  lemma SaveReadIdentity(env: Env, parse: string -> Option<Mime>, added: HandlerMap, defaults: HandlerMap)
    requires Saveable(env, parse, added) && Saveable(env, parse, defaults)
    requires forall k :: k in added ==> NoDup(added[k])
    requires forall k :: k in defaults ==> NoDup(defaults[k])
    ensures ReadAll(env, parse, SaveEvents(added, defaults)) == ReadState(DefaultGroup, added, defaults)
  {
    SaveReadRoundTrip(env, parse, added, defaults);
    MapUniqueOfDistinct(added);
    MapUniqueOfDistinct(defaults);
  }
}
