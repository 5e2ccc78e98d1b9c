/**
 * `save_json_atomic` (scraper.py:55-82) over an abstract file system. Named
 * files map a path to what they hold; the temporary files `mkstemp` creates
 * in the primary's directory have no name a caller could know, so they are
 * kept apart as a sequence. Each step that can raise has its own fault flag.
 */
module Durable {
  import opened Wrappers
  import opened Extract

  type Path = string

  /**
   * What a file holds: the complete JSON serialisation of a record list
   * (serialisation is injective, so the list stands for it), or anything
   * else, such as the remains of an interrupted write.
   */
  datatype Content = Snapshot(records: seq<Record>) | Partial

  /** How `shutil.copy2(path, backup_path)` ends. */
  datatype CopyFault =
    | Copied          // the backup now holds the primary's contents
    | CopyNotStarted  // raised before the destination was opened
    | CopyTorn        // raised while the destination was being written

  /** Which step raises: `mkstemp`, the JSON write, `fsync`, the copy, `os.replace`, `os.remove`. */
  datatype Faults = Faults(createFails: bool, writeFails: bool, fsyncFails: bool,
                           copy: CopyFault, replaceFails: bool, removeFails: bool)

  const NoFaults: Faults := Faults(false, false, false, Copied, false, false)

  datatype DiskState = DiskState(files: map<Path, Content>, temps: seq<Content>)

  /** The file system afterwards, and whether the exception of `mkstemp` escaped to the caller. */
  datatype SaveOutcome = SaveOutcome(disk: DiskState, raised: bool)

  /** `p` is present in both maps with the same contents, or absent from both. */
  predicate SameAt(m: map<Path, Content>, m': map<Path, Content>, p: Path) {
    (p in m <==> p in m') && (p in m ==> m[p] == m'[p])
  }

  /** `os.replace` is reached and succeeds. */
  predicate Committed(data: seq<Record>, f: Faults) {
    data != [] && !f.createFails && !f.writeFails && !f.fsyncFails && !f.replaceFails
  }

  /** The temporary file is complete and on disk when the copy and the replace run. */
  predicate TempSynced(data: seq<Record>, f: Faults) {
    data != [] && !f.createFails && !f.writeFails && !f.fsyncFails
  }

  /** A backup is made only when a non-empty backup path is given and the primary exists (scraper.py:70). */
  predicate BackupWanted(files: map<Path, Content>, path: Path, backup: Option<Path>) {
    backup.Some? && backup.value != [] && path in files
  }

  /** `shutil.copy2(path, backup)` with its exception swallowed; copying a file onto itself raises. */
  function CopyFile(files: map<Path, Content>, path: Path, backup: Path, c: CopyFault): map<Path, Content>
    requires path in files
  {
    if backup == path then files
    else
      match c
      case Copied => files[backup := files[path]]
      case CopyNotStarted => files
      case CopyTorn => files[backup := Partial]
  }

  function BackupStep(files: map<Path, Content>, path: Path, backup: Option<Path>, c: CopyFault): map<Path, Content> {
    if BackupWanted(files, path, backup) then CopyFile(files, path, backup.value, c) else files
  }

  /** The effect of `save_json_atomic(path, data, backup)` when the steps fail as `f` says. */
  function Save(d: DiskState, path: Path, data: seq<Record>, backup: Option<Path>, f: Faults): SaveOutcome {
    if data == [] || f.createFails then SaveOutcome(d, data != [])
    else
      var synced := !f.writeFails && !f.fsyncFails;
      var files := if synced then BackupStep(d.files, path, backup, f.copy) else d.files;
      if synced && !f.replaceFails then
        SaveOutcome(DiskState(files[path := Snapshot(data)], d.temps), false)
      else
        var leftover := if f.writeFails then Partial else Snapshot(data);
        SaveOutcome(DiskState(files, if f.removeFails then d.temps + [leftover] else d.temps), false)
  }

  /**
   * Empty data changes nothing. Only the exception of `mkstemp` escapes, and
   * then nothing has changed. The primary ends up holding exactly the new
   * data if the replace is reached and succeeds, and is left as it was
   * otherwise, so it never holds a partial write. The backup receives the
   * previous primary when the copy succeeds, and is touched at all only once
   * the temporary file is on disk and a primary exists. A failed step
   * removes the temporary file unless the removal fails too. No other file
   * changes.
   */
  lemma SaveSpec(d: DiskState, path: Path, data: seq<Record>, backup: Option<Path>, f: Faults)
    ensures var o := Save(d, path, data, backup, f);
            && (data == [] ==> o == SaveOutcome(d, false))
            && (o.raised <==> data != [] && f.createFails)
            && (o.raised ==> o.disk == d)
            && (Committed(data, f) ==> path in o.disk.files && o.disk.files[path] == Snapshot(data))
            && (!Committed(data, f) ==> SameAt(o.disk.files, d.files, path))
            && (forall p :: p != path && (backup.None? || p != backup.value) ==> SameAt(o.disk.files, d.files, p))
            && ((TempSynced(data, f) && BackupWanted(d.files, path, backup) && backup.value != path &&
                 f.copy == Copied) ==>
                  backup.value in o.disk.files && o.disk.files[backup.value] == d.files[path])
            && ((backup.Some? && backup.value != path && !SameAt(o.disk.files, d.files, backup.value)) ==>
                  TempSynced(data, f) && path in d.files && backup.value in o.disk.files &&
                  o.disk.files[backup.value] in {d.files[path], Partial})
            && (o.disk.temps == d.temps ||
                (!Committed(data, f) && f.removeFails && |o.disk.temps| == |d.temps| + 1 &&
                 o.disk.temps[..|d.temps|] == d.temps))
            && (!f.removeFails ==> o.disk.temps == d.temps)
  {
  }

  /** The directory a `save_json_atomic` call works in. */
  class Disk {
    var files: map<Path, Content>
    var temps: seq<Content>

    ghost function State(): DiskState
      reads this
    {
      DiskState(files, temps)
    }

    constructor (initial: map<Path, Content>)
      ensures State() == DiskState(initial, [])
    {
      files := initial;
      temps := [];
    }

    /**
     * scraper.py:55-82. Returns whether the exception of `mkstemp` escaped:
     * it is raised before the `try`, so it is the one failure the function
     * does not handle itself.
     */
    method SaveJsonAtomic(path: Path, data: seq<Record>, backup: Option<Path>, f: Faults) returns (raised: bool)
      modifies this
      ensures SaveOutcome(State(), raised) == Save(old(State()), path, data, backup, f)
    {
      if data == [] {
        return false;
      }
      if f.createFails {
        return true;
      }
      temps := temps + [Partial];
      var t := |temps| - 1;
      var failed := false;
      if f.writeFails {
        failed := true;
      } else {
        temps := temps[t := Snapshot(data)];
        failed := f.fsyncFails;
      }
      if !failed {
        if backup.Some? && backup.value != [] && path in files {
          if backup.value != path {
            match f.copy
            case Copied => files := files[backup.value := files[path]];
            case CopyNotStarted =>
            case CopyTorn => files := files[backup.value := Partial];
          }
        }
        if f.replaceFails {
          failed := true;
        } else {
          assert temps[t] == Snapshot(data);
          files := files[path := temps[t]];
          temps := temps[..t];
        }
      }
      if failed && !f.removeFails {
        temps := temps[..t];
      }
      return false;
    }
  }

  // ---------------------------------------------------------------------
  // Lemmas about the durable mirror

  /** The primary, if present, is a complete, non-empty snapshot. */
  predicate PrimaryValid(files: map<Path, Content>, path: Path) {
    path in files ==> files[path].Snapshot? && files[path].records != []
  }

  /** Whatever fails, a save keeps the primary valid. */
  lemma SaveKeepsPrimaryValid(d: DiskState, path: Path, data: seq<Record>, backup: Option<Path>, f: Faults)
    requires PrimaryValid(d.files, path)
    ensures PrimaryValid(Save(d, path, data, backup, f).disk.files, path)
  {
  }

  /** A failed backup copy does not stop the replace: the primary ends the same whatever the copy does. */
  lemma BackupFailureDoesNotBlockReplace(d: DiskState, path: Path, data: seq<Record>, backup: Option<Path>,
                                         f: Faults, c: CopyFault)
    ensures SameAt(Save(d, path, data, backup, f).disk.files,
                   Save(d, path, data, backup, f.(copy := c)).disk.files, path)
  {
  }

  /** After two successful saves the backup holds the first one's data and the primary the second's. */
  lemma BackupHoldsPreviousSnapshot(d: DiskState, path: Path, backup: Path, first: seq<Record>, second: seq<Record>)
    requires backup != path && backup != []
    requires first != [] && second != []
    ensures var d1 := Save(d, path, first, Some(backup), NoFaults).disk;
            var d2 := Save(d1, path, second, Some(backup), NoFaults).disk;
            d2.files[path] == Snapshot(second) && d2.files[backup] == Snapshot(first)
  {
  }
}
