/**
 * Applying one event to the local tree (cp): translating the server's
 * names to local ones, the per-event file-type filters, the skip test for
 * files that already match, the attribute-by-attribute metadata repair,
 * deletion, renaming with its fall-back to a copy, and the dirsync
 * requests of overflow and add-tree events.
 *
 * The local filesystem, the call to copy_file_data and the clock are
 * parameters; what cp does to the filesystem is recorded as actions.
 */
module Apply {
  import opened Types
  import opened Events
  import opened Dirsync

  /** The configuration cp reads: the two prefixes, the set of file types
   *  each kind of event is replicated for, the flags it tests, and the
   *  dirsync deadline. */
  datatype Config = Config(
    fromPrefix: string,
    toPrefix: string,
    metaTypes: set<FileType>,
    dataTypes: set<FileType>,
    createTypes: set<FileType>,
    deleteTypes: set<FileType>,
    renameTypes: set<FileType>,
    skipMatching: bool,
    overflowDirsync: bool,
    initialDirsync: bool,
    dirsyncDeadline: int)

  /** What lstat reports about a local node; perm is st_mode & 07777. */
  datatype LocalStat = LocalStat(fileType: FileType, perm: int, user: int, group: int, size: int, mtime: int)

  /** How rename(2) failed, if it did. */
  datatype RenameResult = Renamed | NoEntry | RenameFailed

  /** The return code of copy_file_data. */
  type CopyCode = c: int | 0 <= c <= 2

  /**
   * The local filesystem as cp sees it: lstat before anything changes,
   * lstat after copy_file_data, whether utime succeeds, how rename ends,
   * and what copy_file_data returns for a (local name, server name,
   * existing node type) triple.
   */
  datatype LocalFs = LocalFs(
    before: string -> Option<LocalStat>,
    after: string -> Option<LocalStat>,
    utimeOk: string -> bool,
    rename: (string, string) -> RenameResult,
    copy: (string, string, Option<FileType>) -> CopyCode)

  /** What cp does, in order. */
  datatype CpAction =
    | Lchown(path: string, user: int, group: int)
    | Chmod(path: string, mode: int)
    | Utime(path: string, mtime: int)
    | CopyFileData(cptr: string, sptr: string, existing: Option<FileType>)
    | RemoveTree(path: string)
    | Unlink(path: string)
    | RenameTo(from: string, to: string)
    | ScheduleDirsync(reason: string, path: string, deadline: int)

  /** The return code of cp, whether it counted a change, and its actions. */
  datatype CpResult = CpResult(code: int, counted: bool, actions: seq<CpAction>)

  /** Nothing done, nothing counted, code 1. */
  const Nothing := CpResult(1, false, [])

  // ---------------------------------------------------------------------
  // Names

  /** The local name of a server name: the from prefix replaced by the to
   *  prefix.  A missing name, or one shorter than the from prefix, has no
   *  local name; cp leaves its buffer unset then, the model uses "". */
  function Translate(cfg: Config, name: Option<string>): string
  {
    if name.Some? && |name.value| >= |cfg.fromPrefix| then cfg.toPrefix + name.value[|cfg.fromPrefix|..]
    else ""
  }

  /** A name under the from prefix maps to the same rest under the to
   *  prefix. */
  lemma TranslateRoundTrip(cfg: Config, rest: string)
    ensures Translate(cfg, Some(cfg.fromPrefix + rest)) == cfg.toPrefix + rest
  {
    assert (cfg.fromPrefix + rest)[|cfg.fromPrefix|..] == rest;
  }

  /** The local rename target as written: the guard tests the length of
   *  the to prefix, the copy skips the length of the from prefix.  None
   *  stands for a copy that starts beyond the end of to_name, Some("") for
   *  the buffer the guard leaves unset. */
  function TargetAsWritten(cfg: Config, to: Option<string>): Option<string>
  {
    if to.Some? && |to.value| >= |cfg.toPrefix| then
      if |to.value| >= |cfg.fromPrefix| then Some(cfg.toPrefix + to.value[|cfg.fromPrefix|..])
      else None
    else Some("")
  }

  /** A target the guard lets through although it is shorter than the from
   *  prefix: the copy would read past the end of the name. */
  lemma TargetAsWrittenOverreads(cfg: Config)
    requires cfg.fromPrefix == "/srv/data" && cfg.toPrefix == "/d"
    ensures TargetAsWritten(cfg, Some("/srv")) == None
  {
  }

  /** A to name under the from prefix that is shorter than the to prefix
   *  fails the guard, so tname stays unset (Some("") here), where the
   *  translation gives it a local name. */
  lemma TargetAsWrittenLeavesUnset(cfg: Config)
    requires cfg.fromPrefix == "/s" && cfg.toPrefix == "/home/u/mirror"
    ensures TargetAsWritten(cfg, Some("/s/a")) == Some("")
    ensures Translate(cfg, Some("/s/a")) == "/home/u/mirror/a"
  {
    assert "/s/a"[2..] == "/a";
  }

  /** For names at least as long as both prefixes, the code as written
   *  agrees with Translate. */
  lemma TargetAsWrittenAgrees(cfg: Config, to: string)
    requires |to| >= |cfg.fromPrefix| && |to| >= |cfg.toPrefix|
    ensures TargetAsWritten(cfg, Some(to)) == Some(Translate(cfg, Some(to)))
  {
  }

  // ---------------------------------------------------------------------
  // The pieces of cp

  /** The file types an event of this kind is replicated for. */
  function Filter(cfg: Config, kind: EventType): set<FileType>
  {
    match kind
    case ChangeMeta => cfg.metaTypes
    case ChangeData => cfg.dataTypes
    case Create => cfg.createTypes
    case Delete => cfg.deleteTypes
    case Rename => cfg.renameTypes
    case _ => {}
  }

  /**
   * adjust_meta: with the node's stat sb, change the owner when it
   * differs, the mode when it differs and the node is not a symbolic link,
   * and the mtime when it differs.  A failed lchown or chmod is only
   * reported; a failed utime ends cp without counting the change.  With
   * no stat there is nothing to compare with, and cp gives up.
   */
  function AdjustMeta(fname: string, st: Stat, sb: Option<LocalStat>, fs: LocalFs, done: seq<CpAction>): CpResult
  {
    match sb
    case None => CpResult(1, false, done)
    case Some(s) =>
      var own := if st.user != s.user || st.group != s.group then [Lchown(fname, st.user, st.group)] else [];
      var mode := if s.perm != st.mode && !s.fileType.Symlink? then [Chmod(fname, st.mode)] else [];
      if st.mtime != s.mtime then CpResult(1, fs.utimeOk(fname), done + own + mode + [Utime(fname, st.mtime)])
      else CpResult(1, true, done + own + mode)
  }

  /** Whether the node at the local name already matches the event: same
   *  mtime, size and type, with skipping enabled. */
  predicate Matching(cfg: Config, ev: Change, s: LocalStat)
  {
    cfg.skipMatching && s.mtime == ev.stat.mtime && s.size == ev.stat.size && s.fileType == ev.fileType
  }

  /** Whether a matching node still needs its metadata repaired. */
  predicate MetaDiffers(ev: Change, s: LocalStat)
  {
    s.user != ev.stat.user || s.group != ev.stat.group || s.mtime != ev.stat.mtime || s.perm != ev.stat.mode
  }

  /**
   * copy_data: copy the event's data from the server name sptr to the
   * local name cptr, unless the node there already matches (then only
   * repair its metadata, on fname), or neither the data nor the create
   * filter lets the type through.  copy_file_data's 0 is passed on, its 1
   * counts a change, its 2 goes on to repair the metadata of fname.
   */
  function CopyData(cfg: Config, ev: Change, fname: string, cptr: string, sptr: string,
                    fs: LocalFs, done: seq<CpAction>): CpResult
  {
    if !ev.statValid then CpResult(1, false, done)
    else
      var sb := fs.before(cptr);
      if sb.Some? && Matching(cfg, ev, sb.value) then
        if MetaDiffers(ev, sb.value) then AdjustMeta(fname, ev.stat, sb, fs, done)
        else CpResult(1, false, done)
      else if ev.fileType !in cfg.dataTypes && ev.fileType !in cfg.createTypes then CpResult(1, false, done)
      else
        var existing := if sb.Some? then Some(sb.value.fileType) else None;
        var acts := done + [CopyFileData(cptr, sptr, existing)];
        var code := fs.copy(cptr, sptr, existing);
        if code == 0 then CpResult(0, false, acts)
        else if code == 1 then CpResult(1, true, acts)
        else AdjustMeta(fname, ev.stat, fs.after(fname), fs, acts)
  }

  /** The deadline of a dirsync cp asks for: the configured one, made
   *  absolute when it is positive. */
  function Deadline(cfg: Config, now: int): int
  {
    if cfg.dirsyncDeadline > 0 then cfg.dirsyncDeadline + now else cfg.dirsyncDeadline
  }

  /** The tree of an add-tree event, relative to the to prefix: that many
   *  characters off the local name, then every leading '/'. */
  function TreePath(toPrefix: string, fname: string): (p: string)
    ensures p == [] || p[0] != '/'
  {
    var rest := if |fname| >= |toPrefix| then fname[|toPrefix|..] else "";
    rest[LeadEnd(rest, 0)..]
  }

  /** The string of a server name, "" when there is none. */
  function Name(name: Option<string>): string
  {
    if name.Some? then name.value else ""
  }

  /** The rename of cp: on ENOENT with the source gone, the event becomes
   *  a copy of the target, after removing the source name when deletes
   *  are replicated for the type. */
  function RenameOrCopy(cfg: Config, ev: Change, fname: string, fs: LocalFs): CpResult
  {
    var tname := Translate(cfg, ev.to);
    var moved := [RenameTo(fname, tname)];
    if fs.rename(fname, tname).NoEntry? && fs.before(fname).None? then
      var cleared := moved + (if ev.fileType in cfg.deleteTypes then [Unlink(fname)] else []);
      CopyData(cfg, ev, fname, tname, Name(ev.to), fs, cleared)
    else CpResult(1, false, moved)
  }

  /** cp: one event, its effect and its return code; now is time(NULL). */
  function Cp(cfg: Config, ev: Change, fs: LocalFs, now: int): CpResult
  {
    var fname := Translate(cfg, ev.from);
    match ev.kind
    case ChangeMeta =>
      if !ev.statValid || ev.fileType !in cfg.metaTypes then Nothing
      else AdjustMeta(fname, ev.stat, fs.before(fname), fs, [])
    case ChangeData =>
      if ev.fileType !in cfg.dataTypes then Nothing
      else CopyData(cfg, ev, fname, fname, Name(ev.from), fs, [])
    case Create =>
      if ev.fileType !in cfg.createTypes then Nothing
      else CopyData(cfg, ev, fname, fname, Name(ev.from), fs, [])
    case Delete =>
      if ev.fileType !in cfg.deleteTypes then Nothing
      else
        var sb := fs.before(fname);
        CpResult(1, false, [if sb.Some? && sb.value.fileType.Dir? then RemoveTree(fname) else Unlink(fname)])
    case Rename =>
      if ev.fileType !in cfg.renameTypes then Nothing
      else RenameOrCopy(cfg, ev, fname, fs)
    case Overflow =>
      if cfg.overflowDirsync then CpResult(1, false, [ScheduleDirsync("overflow", "", Deadline(cfg, now))])
      else Nothing
    case NoSpace =>
      if cfg.overflowDirsync then CpResult(1, false, [ScheduleDirsync("overflow", "", Deadline(cfg, now))])
      else Nothing
    case AddTree =>
      if cfg.initialDirsync then
        CpResult(1, false, [ScheduleDirsync("initial", TreePath(cfg.toPrefix, fname), Deadline(cfg, now))])
      else Nothing
  }

  // ---------------------------------------------------------------------
  // Properties of cp

  /** Whether the last action is a copy_file_data call that returned 0. */
  predicate EndsInFailedCopy(acts: seq<CpAction>, fs: LocalFs)
  {
    |acts| > 0 && acts[|acts| - 1].CopyFileData? &&
    fs.copy(acts[|acts| - 1].cptr, acts[|acts| - 1].sptr, acts[|acts| - 1].existing) == 0
  }

  /** The actions of acts from index `from` on are all metadata changes. */
  predicate MetaAfter(acts: seq<CpAction>, from: nat)
  {
    forall k :: from <= k < |acts| ==> acts[k].Lchown? || acts[k].Chmod? || acts[k].Utime?
  }

  /** The metadata repair always returns 1 and only appends metadata
   *  changes. */
  lemma AdjustMetaShape(fname: string, st: Stat, sb: Option<LocalStat>, fs: LocalFs, done: seq<CpAction>)
    ensures var r := AdjustMeta(fname, st, sb, fs, done);
      r.code == 1 && |r.actions| >= |done| && r.actions[..|done|] == done && MetaAfter(r.actions, |done|)
  {
  }

  /** copy_data returns 0 exactly when its copy_file_data call does. */
  lemma CopyDataCode(cfg: Config, ev: Change, fname: string, cptr: string, sptr: string,
                     fs: LocalFs, done: seq<CpAction>)
    requires !EndsInFailedCopy(done, fs)
    ensures var r := CopyData(cfg, ev, fname, cptr, sptr, fs, done);
      (r.code == 0 || r.code == 1) && (r.code == 0 <==> EndsInFailedCopy(r.actions, fs))
  {
    var r := CopyData(cfg, ev, fname, cptr, sptr, fs, done);
    if ev.statValid {
      var sb := fs.before(cptr);
      if sb.Some? && Matching(cfg, ev, sb.value) {
        AdjustMetaShape(fname, ev.stat, sb, fs, done);
        if |r.actions| > |done| {
          assert !r.actions[|r.actions| - 1].CopyFileData?;
        } else {
          assert r.actions == done;
        }
      } else if ev.fileType in cfg.dataTypes || ev.fileType in cfg.createTypes {
        var existing := if sb.Some? then Some(sb.value.fileType) else None;
        var acts := done + [CopyFileData(cptr, sptr, existing)];
        if fs.copy(cptr, sptr, existing) == 2 {
          AdjustMetaShape(fname, ev.stat, fs.after(fname), fs, acts);
          if |r.actions| > |acts| {
            assert !r.actions[|r.actions| - 1].CopyFileData?;
          } else {
            assert r.actions == acts;
          }
        }
      }
    }
  }

  /** cp returns 0 or 1, and 0 exactly when the copy_file_data call it
   *  ends with returned 0: every other failure is reported and cp goes
   *  on. */
  lemma CpCode(cfg: Config, ev: Change, fs: LocalFs, now: int)
    ensures var r := Cp(cfg, ev, fs, now);
      (r.code == 0 || r.code == 1) && (r.code == 0 <==> EndsInFailedCopy(r.actions, fs))
  {
    var fname := Translate(cfg, ev.from);
    match ev.kind
    case ChangeMeta =>
      if ev.statValid && ev.fileType in cfg.metaTypes {
        AdjustMetaShape(fname, ev.stat, fs.before(fname), fs, []);
      }
    case ChangeData => CopyDataCode(cfg, ev, fname, fname, Name(ev.from), fs, []);
    case Create => CopyDataCode(cfg, ev, fname, fname, Name(ev.from), fs, []);
    case Rename =>
      if ev.fileType in cfg.renameTypes {
        var tname := Translate(cfg, ev.to);
        var cleared := [RenameTo(fname, tname)] + (if ev.fileType in cfg.deleteTypes then [Unlink(fname)] else []);
        CopyDataCode(cfg, ev, fname, tname, Name(ev.to), fs, cleared);
      }
    case _ =>
  }

  /** An event whose file type its kind's filter leaves out changes
   *  nothing; so does a create, data or metadata event whose stat the
   *  server could not take (the file went away). */
  lemma CpGated(cfg: Config, ev: Change, fs: LocalFs, now: int)
    requires ev.kind.ChangeMeta? || ev.kind.ChangeData? || ev.kind.Create? || ev.kind.Delete? || ev.kind.Rename?
    requires ev.fileType !in Filter(cfg, ev.kind) ||
             (!ev.statValid && (ev.kind.ChangeMeta? || ev.kind.ChangeData? || ev.kind.Create?))
    ensures Cp(cfg, ev, fs, now) == Nothing
  {
  }

  /** The metadata repair tries every attribute that differs, in the
   *  order owner, mode, mtime, never the mode of a symbolic link, and
   *  counts the change unless utime fails. */
  lemma AdjustMetaSteps(fname: string, st: Stat, s: LocalStat, fs: LocalFs)
    ensures var r := AdjustMeta(fname, st, Some(s), fs, []);
      (Lchown(fname, st.user, st.group) in r.actions <==> st.user != s.user || st.group != s.group) &&
      (Chmod(fname, st.mode) in r.actions <==> s.perm != st.mode && !s.fileType.Symlink?) &&
      (Utime(fname, st.mtime) in r.actions <==> st.mtime != s.mtime) &&
      (r.counted <==> st.mtime == s.mtime || fs.utimeOk(fname)) &&
      (forall a :: a in r.actions ==> (a.Lchown? || a.Chmod? || a.Utime?) && a.path == fname)
  {
  }

  /** A node that already matches, with the same owner, mode and mtime, is
   *  neither copied nor changed. */
  lemma CpSkipsMatching(cfg: Config, ev: Change, fs: LocalFs, now: int)
    requires ev.kind.Create? || ev.kind.ChangeData?
    requires ev.fileType in Filter(cfg, ev.kind) && ev.statValid
    requires var sb := fs.before(Translate(cfg, ev.from));
      sb.Some? && Matching(cfg, ev, sb.value) && !MetaDiffers(ev, sb.value)
    ensures Cp(cfg, ev, fs, now) == Nothing
  {
  }

  /** A rename whose source is gone becomes a copy to the target name,
   *  after unlinking the source name when deletes are replicated. */
  lemma CpRenameFallsBack(cfg: Config, ev: Change, fs: LocalFs, now: int)
    requires ev.kind.Rename? && ev.fileType in cfg.renameTypes
    requires var fname := Translate(cfg, ev.from);
      fs.rename(fname, Translate(cfg, ev.to)).NoEntry? && fs.before(fname).None?
    ensures var fname := Translate(cfg, ev.from);
      var tname := Translate(cfg, ev.to);
      var r := Cp(cfg, ev, fs, now);
      r.actions[0] == RenameTo(fname, tname) &&
      (ev.fileType in cfg.deleteTypes <==> |r.actions| > 1 && r.actions[1] == Unlink(fname)) &&
      (forall k :: 0 <= k < |r.actions| && r.actions[k].CopyFileData? ==>
        r.actions[k].cptr == tname && r.actions[k].sptr == Name(ev.to))
  {
    var fname := Translate(cfg, ev.from);
    var tname := Translate(cfg, ev.to);
    var cleared := [RenameTo(fname, tname)] + (if ev.fileType in cfg.deleteTypes then [Unlink(fname)] else []);
    var r := CopyData(cfg, ev, fname, tname, Name(ev.to), fs, cleared);
    CopyDataShape(cfg, ev, fname, tname, Name(ev.to), fs, cleared);
    assert r.actions[..|cleared|] == cleared;
    assert r.actions[0] == cleared[0];
    if ev.fileType !in cfg.deleteTypes && |r.actions| > 1 {
      assert !r.actions[1].Unlink?;
    }
    if ev.fileType in cfg.deleteTypes {
      assert r.actions[1] == cleared[1];
    }
  }

  /** copy_data only appends, at most one copy_file_data call, on cptr
   *  and sptr, and no unlink. */
  lemma CopyDataShape(cfg: Config, ev: Change, fname: string, cptr: string, sptr: string,
                      fs: LocalFs, done: seq<CpAction>)
    ensures var r := CopyData(cfg, ev, fname, cptr, sptr, fs, done);
      |r.actions| >= |done| && r.actions[..|done|] == done &&
      (forall k :: |done| <= k < |r.actions| ==> !r.actions[k].Unlink?) &&
      (forall k :: |done| <= k < |r.actions| && r.actions[k].CopyFileData? ==>
        r.actions[k].cptr == cptr && r.actions[k].sptr == sptr)
  {
    var r := CopyData(cfg, ev, fname, cptr, sptr, fs, done);
    if ev.statValid {
      var sb := fs.before(cptr);
      if sb.Some? && Matching(cfg, ev, sb.value) {
        AdjustMetaShape(fname, ev.stat, sb, fs, done);
      } else if ev.fileType in cfg.dataTypes || ev.fileType in cfg.createTypes {
        var existing := if sb.Some? then Some(sb.value.fileType) else None;
        var acts := done + [CopyFileData(cptr, sptr, existing)];
        if fs.copy(cptr, sptr, existing) == 2 {
          AdjustMetaShape(fname, ev.stat, fs.after(fname), fs, acts);
          assert r.actions[..|acts|] == acts;
          assert forall k :: |done| <= k < |acts| ==> r.actions[k] == CopyFileData(cptr, sptr, existing);
        } else {
          assert r.actions == acts;
        }
      }
    }
  }

  /** After the rename fall-back, a copy_file_data that returns 2 has its
   *  metadata repaired on the source name, which is gone: the repair
   *  finds no node and the change is not counted. */
  lemma CpRenameRepairsSource(cfg: Config, ev: Change, fs: LocalFs, now: int)
    requires ev.kind.Rename? && ev.fileType in cfg.renameTypes && ev.statValid
    requires ev.fileType in cfg.dataTypes
    requires var fname := Translate(cfg, ev.from);
      var tname := Translate(cfg, ev.to);
      fs.rename(fname, tname).NoEntry? && fs.before(fname).None? && fs.before(tname).None? &&
      fs.copy(tname, Name(ev.to), None) == 2 && fs.after(fname).None?
    ensures Cp(cfg, ev, fs, now).code == 1 && !Cp(cfg, ev, fs, now).counted
  {
  }

  /** An add-tree event asks for a dirsync of its tree relative to the to
   *  prefix, with no leading '/'; overflow and no-space events ask for a
   *  dirsync of the root.  Positive deadlines are made absolute. */
  lemma CpSchedules(cfg: Config, ev: Change, fs: LocalFs, now: int)
    requires ev.kind.AddTree? || ev.kind.Overflow? || ev.kind.NoSpace?
    ensures var r := Cp(cfg, ev, fs, now);
      var go := if ev.kind.AddTree? then cfg.initialDirsync else cfg.overflowDirsync;
      r.code == 1 && !r.counted && (go <==> |r.actions| == 1) && (!go ==> r.actions == [])
    ensures var r := Cp(cfg, ev, fs, now);
      |r.actions| == 1 ==>
        r.actions[0].ScheduleDirsync? &&
        r.actions[0].deadline == (if cfg.dirsyncDeadline > 0 then cfg.dirsyncDeadline + now else cfg.dirsyncDeadline) &&
        (r.actions[0].path == [] || r.actions[0].path[0] != '/') &&
        (ev.kind.AddTree? ==> r.actions[0].reason == "initial") &&
        (!ev.kind.AddTree? ==> r.actions[0].reason == "overflow" && r.actions[0].path == "")
  {
  }

  /** The add-tree path of a local name under the to prefix is the rest of
   *  the name after the prefix, split into a run of '/' that is dropped
   *  and a path that does not start with '/'. */
  lemma TreePathUnderPrefix(toPrefix: string, rest: string)
    ensures var p := TreePath(toPrefix, toPrefix + rest);
      |p| <= |rest| && rest == rest[..|rest| - |p|] + p &&
      (forall k :: 0 <= k < |rest| - |p| ==> rest[k] == '/') &&
      (p == [] || p[0] != '/')
  {
    assert (toPrefix + rest)[|toPrefix|..] == rest;
    var j := LeadEnd(rest, 0);
    LeadEndSkips(rest, 0);
    assert TreePath(toPrefix, toPrefix + rest) == rest[j..];
    assert rest == rest[..j] + rest[j..];
  }
}
