/** `SystemApps`: the registry of installed applications, built once from the desktop
    entries found in the XDG `applications` directories. */
module System {
  import opened Base
  import opened Mimes
  import opened Handlers

  /** One file listed in an `applications` data directory, in listing order, with the
      outcome of `DesktopEntry::try_from` on it. */
  datatype ScannedFile = ScannedFile(fileName: string, parsed: Option<DesktopEntry>)

  /** The registry proper: MIME type to the handlers that declare it, in scan order. */
  datatype SystemApps = SystemApps(table: map<Mime, seq<Handler>>)

  predicate ValidSystem(s: SystemApps) {
    forall m :: m in s.table ==> s.table[m] != []
  }

  function LastIndexOf(s: string, c: char): (i: nat)
    requires c in s
    ensures i < |s| && s[i] == c && c !in s[i + 1..]
  {
    if s[|s| - 1] == c then |s| - 1
    else
      assert c in s[..|s| - 1] by { var k :| 0 <= k < |s| && s[k] == c; assert s[..|s| - 1][k] == c; }
      LastIndexOf(s[..|s| - 1], c)
  }

  /** `Path::extension` of a file name: the text after the last `.`, unless there is no
      `.`, the only `.` starts the name, or the name is `..`. */
  function Extension(name: string): (r: Option<string>)
    ensures r.Some? ==> '.' in name && '.' !in r.value
  {
    if name == ".." || '.' !in name then None
    else
      var i := LastIndexOf(name, '.');
      if i == 0 then None else Some(name[i + 1..])
  }

  /** The filter rule of `get_entries`: a `.desktop` file whose entry parsed. */
  predicate Admitted(f: ScannedFile) {
    Extension(f.fileName) == Some("desktop") && f.parsed.Some?
  }

  /** `SystemApps::get_entries`: the admitted files, in listing order, each paired with its
      entry; files that do not parse are skipped, not reported. */
  function GetEntries(scan: seq<ScannedFile>): seq<(string, DesktopEntry)> {
    if scan == [] then []
    else
      (if Admitted(scan[0]) then [(scan[0].fileName, scan[0].parsed.value)] else [])
      + GetEntries(scan[1..])
  }

  /** Exactly the admitted files are yielded, in order, and nothing else. */
  lemma {:induction false} GetEntriesFilter(scan: seq<ScannedFile>)
    ensures |GetEntries(scan)| <= |scan|
    ensures forall p :: p in GetEntries(scan) <==>
      exists i :: 0 <= i < |scan| && Admitted(scan[i]) && p == (scan[i].fileName, scan[i].parsed.value)
  {
    if scan != [] {
      GetEntriesFilter(scan[1..]);
      forall p ensures p in GetEntries(scan) <==>
        exists i :: 0 <= i < |scan| && Admitted(scan[i]) && p == (scan[i].fileName, scan[i].parsed.value)
      {
        if p in GetEntries(scan[1..]) {
          var i :| 0 <= i < |scan[1..]| && Admitted(scan[1..][i]) && p == (scan[1..][i].fileName, scan[1..][i].parsed.value);
          assert scan[i + 1] == scan[1..][i];
        }
        if exists i :: 0 <= i < |scan| && Admitted(scan[i]) && p == (scan[i].fileName, scan[i].parsed.value) {
          var i :| 0 <= i < |scan| && Admitted(scan[i]) && p == (scan[i].fileName, scan[i].parsed.value);
          if i > 0 { assert scan[1..][i - 1] == scan[i]; }
        }
      }
    }
  }

  /** `get_handlers`: the stored list for exactly this key. */
  function GetHandlers(s: SystemApps, m: Mime): (r: Option<seq<Handler>>)
    ensures r.Some? <==> m in s.table
  {
    if m in s.table then Some(s.table[m]) else None
  }

  /** `get_handler`: the first stored handler; the `unwrap` is safe because no stored list
      is empty. */
  function GetHandler(s: SystemApps, m: Mime): (r: Option<Handler>)
    requires ValidSystem(s)
    ensures r.Some? <==> m in s.table
    ensures r.Some? ==> r.value in s.table[m]
  {
    match GetHandlers(s, m)
    case None => None
    case Some(hs) => Some(hs[0])
  }

  // ---- populate ----

  function Lookup(table: map<Mime, seq<Handler>>, m: Mime): seq<Handler> {
    if m in table then table[m] else []
  }

  /** One `entry(mime).or_default().push_back(h)`. */
  function Push(table: map<Mime, seq<Handler>>, m: Mime, h: Handler): map<Mime, seq<Handler>> {
    table[m := Lookup(table, m) + [h]]
  }

  /** The inner loop of `populate` over one entry's MIME list. */
  function PushAll(table: map<Mime, seq<Handler>>, ms: seq<Mime>, h: Handler): map<Mime, seq<Handler>> {
    if ms == [] then table else Push(PushAll(table, ms[..|ms| - 1], h), ms[|ms| - 1], h)
  }

  /** The table `populate` builds from the entries, processed in order. */
  function Registry(es: seq<(string, DesktopEntry)>): map<Mime, seq<Handler>> {
    if es == [] then map[]
    else PushAll(Registry(es[..|es| - 1]), es[|es| - 1].1.mimes, AssumeValid(es[|es| - 1].1.fileName))
  }

  function Count(ms: seq<Mime>, m: Mime): nat {
    if ms == [] then 0 else Count(ms[..|ms| - 1], m) + (if ms[|ms| - 1] == m then 1 else 0)
  }

  function Repeat(h: Handler, n: nat): (r: seq<Handler>)
    ensures |r| == n && forall i :: 0 <= i < n ==> r[i] == h
  {
    if n == 0 then [] else Repeat(h, n - 1) + [h]
  }

  /** The reference meaning of the registry: for each entry in scan order, its handler once
      per time the entry declares `m`. */
  function HandlersFor(es: seq<(string, DesktopEntry)>, m: Mime): seq<Handler> {
    if es == [] then []
    else HandlersFor(es[..|es| - 1], m) + Repeat(AssumeValid(es[|es| - 1].1.fileName), Count(es[|es| - 1].1.mimes, m))
  }

  lemma {:induction false} PushAllLookup(table: map<Mime, seq<Handler>>, ms: seq<Mime>, h: Handler, m: Mime)
    ensures Lookup(PushAll(table, ms, h), m) == Lookup(table, m) + Repeat(h, Count(ms, m))
    ensures m in PushAll(table, ms, h) <==> m in table || Count(ms, m) > 0
  {
    if ms != [] {
      PushAllLookup(table, ms[..|ms| - 1], h, m);
      if ms[|ms| - 1] == m {
        assert Repeat(h, Count(ms, m)) == Repeat(h, Count(ms[..|ms| - 1], m)) + [h];
      }
    }
  }

  /** `populate` makes one `push_back` per (entry, declared MIME) pair: the list stored
      under `m` is exactly `HandlersFor(es, m)`, and a key is present exactly when that list
      is non-empty. */
  lemma {:induction false} RegistryLookup(es: seq<(string, DesktopEntry)>, m: Mime)
    ensures Lookup(Registry(es), m) == HandlersFor(es, m)
    ensures m in Registry(es) <==> HandlersFor(es, m) != []
  {
    if es != [] {
      var pre := es[..|es| - 1];
      var e := es[|es| - 1].1;
      RegistryLookup(pre, m);
      PushAllLookup(Registry(pre), e.mimes, AssumeValid(e.fileName), m);
    }
  }

  /** No list the registry stores is empty, so `get_handler`'s `unwrap` never panics. */
  lemma RegistryValid(es: seq<(string, DesktopEntry)>)
    ensures ValidSystem(SystemApps(Registry(es)))
  {
    forall m | m in Registry(es) ensures Registry(es)[m] != [] {
      RegistryLookup(es, m);
    }
  }

  lemma {:induction false} CountPositive(ms: seq<Mime>, m: Mime)
    ensures Count(ms, m) > 0 <==> m in ms
  {
    if ms != [] {
      CountPositive(ms[..|ms| - 1], m);
      assert ms == ms[..|ms| - 1] + [ms[|ms| - 1]];
    }
  }

  /** Every handler stored under `m` is the entry file name of some entry declaring `m`. */
  lemma {:induction false} HandlersForProvenance(es: seq<(string, DesktopEntry)>, m: Mime, h: Handler)
    requires h in HandlersFor(es, m)
    ensures exists i :: 0 <= i < |es| && m in es[i].1.mimes && h == AssumeValid(es[i].1.fileName)
  {
    var pre := es[..|es| - 1];
    var e := es[|es| - 1].1;
    if h in HandlersFor(pre, m) {
      HandlersForProvenance(pre, m, h);
      var i :| 0 <= i < |pre| && m in pre[i].1.mimes && h == AssumeValid(pre[i].1.fileName);
      assert es[i] == pre[i];
    } else {
      CountPositive(e.mimes, m);
      assert m in es[|es| - 1].1.mimes;
    }
  }

  lemma {:induction false} HandlersForNone(es: seq<(string, DesktopEntry)>, m: Mime)
    requires forall j :: 0 <= j < |es| ==> m !in es[j].1.mimes
    ensures HandlersFor(es, m) == []
  {
    if es != [] {
      var pre := es[..|es| - 1];
      forall j | 0 <= j < |pre| ensures m !in pre[j].1.mimes { assert pre[j] == es[j]; }
      HandlersForNone(pre, m);
      CountPositive(es[|es| - 1].1.mimes, m);
    }
  }

  /** The first handler stored under `m` is the one of the first entry, in scan order,
      that declares `m`. */
  lemma {:induction false} HandlersForFirst(es: seq<(string, DesktopEntry)>, m: Mime, i: nat)
    requires i < |es| && m in es[i].1.mimes
    requires forall j :: 0 <= j < i ==> m !in es[j].1.mimes
    ensures HandlersFor(es, m) != [] && HandlersFor(es, m)[0] == AssumeValid(es[i].1.fileName)
  {
    var pre := es[..|es| - 1];
    var e := es[|es| - 1].1;
    if i < |pre| {
      forall j | 0 <= j < i ensures m !in pre[j].1.mimes { assert pre[j] == es[j]; }
      assert pre[i] == es[i];
      HandlersForFirst(pre, m, i);
    } else {
      forall j | 0 <= j < |pre| ensures m !in pre[j].1.mimes { assert pre[j] == es[j]; }
      HandlersForNone(pre, m);
      CountPositive(e.mimes, m);
    }
  }

  /** `get_handler` on the populated registry answers the first scanned entry that declares
      `m`, and `None` when no entry declares it. */
  lemma SystemFirstHandler(scan: seq<ScannedFile>, m: Mime, i: nat)
    requires i < |GetEntries(scan)| && m in GetEntries(scan)[i].1.mimes
    requires forall j :: 0 <= j < i ==> m !in GetEntries(scan)[j].1.mimes
    ensures ValidSystem(SystemApps(Registry(GetEntries(scan))))
    ensures GetHandler(SystemApps(Registry(GetEntries(scan))), m)
      == Some(AssumeValid(GetEntries(scan)[i].1.fileName))
  {
    var es := GetEntries(scan);
    RegistryValid(es);
    RegistryLookup(es, m);
    HandlersForFirst(es, m, i);
  }

  lemma SystemNoHandler(scan: seq<ScannedFile>, m: Mime)
    requires forall j :: 0 <= j < |GetEntries(scan)| ==> m !in GetEntries(scan)[j].1.mimes
    ensures ValidSystem(SystemApps(Registry(GetEntries(scan))))
    ensures GetHandler(SystemApps(Registry(GetEntries(scan))), m) == None
  {
    var es := GetEntries(scan);
    RegistryValid(es);
    RegistryLookup(es, m);
    HandlersForNone(es, m);
  }

  /** `SystemApps::populate`: one pass over the entries, pushing each entry's handler onto
      the list of every MIME type it declares. */
  method Populate(scan: seq<ScannedFile>) returns (sys: SystemApps)
    ensures sys.table == Registry(GetEntries(scan))
    ensures ValidSystem(sys)
    ensures forall m :: Lookup(sys.table, m) == HandlersFor(GetEntries(scan), m)
  {
    var entries := GetEntries(scan);
    var table: map<Mime, seq<Handler>> := map[];
    var i := 0;
    while i < |entries|
      invariant 0 <= i <= |entries|
      invariant table == Registry(entries[..i])
    {
      var e := entries[i].1;
      var h := AssumeValid(e.fileName);
      var j := 0;
      while j < |e.mimes|
        invariant 0 <= j <= |e.mimes|
        invariant table == PushAll(Registry(entries[..i]), e.mimes[..j], h)
      {
        assert e.mimes[..j + 1][..j] == e.mimes[..j];
        table := Push(table, e.mimes[j], h);
        j := j + 1;
      }
      assert e.mimes[..j] == e.mimes;
      assert entries[..i + 1][..i] == entries[..i];
      i := i + 1;
    }
    assert entries[..i] == entries;
    sys := SystemApps(table);
    RegistryValid(entries);
    forall m ensures Lookup(sys.table, m) == HandlersFor(entries, m) {
      RegistryLookup(entries, m);
    }
  }
}
