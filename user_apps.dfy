/** `MimeApps` as the object the program holds: the two override maps and the system
    snapshot as fields that the edit methods update in place, and the overrides file that
    `save` rewrites. */
module UserApps {
  import opened Base
  import opened Mimes
  import opened Handlers
  import opened System
  import opened UserStore
  import opened UserPersist

  /** The user's `mimeapps.list`: whether it can be opened for writing, its text, and how
      many times `save` has rewritten it. */
  class OverrideFile {
    const writable: bool
    var contents: string
    var writes: nat

    constructor (writable: bool, contents: string)
      ensures this.writable == writable && this.contents == contents && writes == 0
    {
      this.writable := writable;
      this.contents := contents;
      writes := 0;
    }
  }

  class MimeApps {
    var addedAssociations: HandlerMap
    var defaultApps: HandlerMap
    var systemApps: SystemApps
    /** Where `save` writes; every copy of the store writes to the same file. */
    const file: OverrideFile

    /** The fields as a value. */
    function Model(): Store
      reads this
    {
      Store(addedAssociations, defaultApps, systemApps)
    }

    /** No list in either map, nor in the system snapshot, is empty. */
    predicate Valid()
      reads this
    {
      ValidStore(Model())
    }

    /** `MimeApps::default`: no overrides and an empty system snapshot. */
    constructor Empty(file: OverrideFile)
      ensures addedAssociations == map[] && defaultApps == map[] && systemApps == SystemApps(map[])
      ensures this.file == file
      ensures Valid()
    {
      addedAssociations := map[];
      defaultApps := map[];
      systemApps := SystemApps(map[]);
      this.file := file;
    }

    /** `MimeApps::read`: the system snapshot from the scanned entries, then the loop
        over the lines of the overrides file. */
    constructor Read(file: OverrideFile, env: Env, parse: string -> Option<Mime>, lines: seq<Event>, scan: seq<ScannedFile>)
      ensures systemApps.table == Registry(GetEntries(scan))
      ensures addedAssociations == ReadAll(env, parse, lines).added
      ensures defaultApps == ReadAll(env, parse, lines).defaults
      ensures ValidList(env, addedAssociations) && ValidList(env, defaultApps)
      ensures this.file == file
      ensures Valid()
    {
      var sys := Populate(scan);
      var added, defaults := ReadEntries(env, parse, lines);
      addedAssociations := added;
      defaultApps := defaults;
      systemApps := sys;
      this.file := file;
    }

    /** `add_handler`: appends at the back of the list of `m`, creating it if absent. */
    method AddHandler(m: Mime, h: Handler)
      modifies this
      ensures defaultApps == AddTo(old(defaultApps), m, h)
      ensures addedAssociations == old(addedAssociations) && systemApps == old(systemApps)
      ensures old(Valid()) ==> Valid()
    {
      if ValidMap(defaultApps) { EditsKeepListsNonEmpty(defaultApps, m, h); }
      defaultApps := AddTo(defaultApps, m, h);
    }

    /** `set_handler`: `m` now maps to `h` alone. */
    method SetHandler(m: Mime, h: Handler)
      modifies this
      ensures defaultApps == SetTo(old(defaultApps), m, h)
      ensures addedAssociations == old(addedAssociations) && systemApps == old(systemApps)
      ensures old(Valid()) ==> Valid()
    {
      if ValidMap(defaultApps) { EditsKeepListsNonEmpty(defaultApps, m, h); }
      defaultApps := SetTo(defaultApps, m, h);
    }

    /** `save`: rewrites the overrides file with the text of both maps. A file that
        cannot be opened is an I/O error and is left as it was. */
    method Save() returns (r: Result<(), Error>)
      modifies file
      ensures file.writable ==>
        r == Success(()) && file.writes == old(file.writes) + 1
        && file.contents == SaveText(addedAssociations, defaultApps)
      ensures !file.writable ==>
        r == Failure(Io) && file.writes == old(file.writes) && file.contents == old(file.contents)
    {
      if !file.writable {
        return Failure(Io);
      }
      var text := Serialize(addedAssociations, defaultApps);
      file.contents := text;
      file.writes := file.writes + 1;
      r := Success(());
    }

    /** `remove_handler`: drops the key, and saves once if (and only if) it was there;
        the result is that of the save, or `Ok` when nothing was removed. */
    method RemoveHandler(m: Mime) returns (r: Result<(), Error>)
      modifies this, file
      ensures defaultApps == RemoveFrom(old(defaultApps), m)
      ensures addedAssociations == old(addedAssociations) && systemApps == old(systemApps)
      ensures old(Valid()) ==> Valid()
      ensures m in old(defaultApps) && file.writable ==>
        r == Success(()) && file.writes == old(file.writes) + 1
        && file.contents == SaveText(addedAssociations, defaultApps)
      ensures m in old(defaultApps) && !file.writable ==>
        r == Failure(Io) && file.writes == old(file.writes) && file.contents == old(file.contents)
      ensures m !in old(defaultApps) ==>
        r == Success(()) && file.writes == old(file.writes) && file.contents == old(file.contents)
    {
      if m in defaultApps {
        defaultApps := RemoveFrom(defaultApps, m);
        r := Save();
      } else {
        r := Success(());
      }
    }

    /** The derived `Clone`: a new store with the same maps, writing to the same file. */
    method Clone() returns (c: MimeApps)
      ensures fresh(c)
      ensures c.Model() == Model() && c.file == file
    {
      c := new MimeApps.Empty(file);
      c.addedAssociations := addedAssociations;
      c.defaultApps := defaultApps;
      c.systemApps := systemApps;
    }

    /** `get_handler` on the current maps. */
    method GetHandler(ctx: Context, m: Mime) returns (r: Result<Handler, Error>)
      requires Valid()
      ensures r == GetHandlerIn(Model(), ctx, m)
    {
      r := GetHandlerIn(Model(), ctx, m);
    }
  }

  /** The store the source's test builds: the wildcard of `video` set to `mpv.desktop` and
      `video/webm` to `brave.desktop`, starting from the default store. The
      resolution of `video/mp4`, `video/asdf` and `video/webm` follows from
      `UserStore.WildcardMimes`. */
  method WildcardMimesStore(file: OverrideFile) returns (apps: MimeApps)
    ensures fresh(apps)
    ensures apps.Valid()
    ensures apps.addedAssociations == map[]
    ensures apps.defaultApps == AddTo(AddTo(map[], VideoAny, AssumeValid("mpv.desktop")),
                                        VideoWebm, AssumeValid("brave.desktop"))
  {
    apps := new MimeApps.Empty(file);
    apps.AddHandler(VideoAny, AssumeValid("mpv.desktop"));
    apps.AddHandler(VideoWebm, AssumeValid("brave.desktop"));
  }
}
