/** Save-state file handling: the backup path built from a name, copying the
    default state to a backup and back, the quick save, and the listing of
    saved states by name. The file system is a map from path to contents. */
module StateFiles {
  import opened MemoryDiff

  /** The contents of a save-state file; never inspected. */
  type Blob = seq<Byte>

  const BackupDir: string := "roms/"
  const StateSuffix: string := ".state"
  /** The ROM's file name; the emulator saves its own state next to it. */
  const RomName: string := "LinksAwakeningDX-Rev2.gbc"
  /** The emulator's own state file as the directory lists it,
      `LinksAwakeningDX-Rev2.gbc.state`. */
  const DefaultStateName: string := RomName + StateSuffix
  /** The emulator's own state file as a path, `roms/LinksAwakeningDX-Rev2.gbc.state`. */
  const DefaultState: string := BackupDir + DefaultStateName
  const QuickSavePrefix: string := "quick_save_"

  /** The outcome of a copy: it happened (the method returns True), the source
      is missing (it returns False), or source and destination are the same
      file (the copy raises `SameFileError`). */
  datatype CopyOutcome = Copied | NotFound | SameFile

  predicate EndsWith(s: string, suffix: string) {
    |suffix| <= |s| && s[|s| - |suffix|..] == suffix
  }

  /** `f"{backup_dir}{name}.state"`. */
  function BackupPath(name: string): string {
    BackupDir + name + StateSuffix
  }

  /** Removing the same prefix from two equal strings leaves equal strings. */
  lemma PrefixCancel(p: string, x: string, y: string)
    requires p + x == p + y
    ensures x == y
  {
    assert x == (p + x)[|p|..];
    assert y == (p + y)[|p|..];
  }

  /** Removing the same suffix from two equal strings leaves equal strings. */
  lemma SuffixCancel(x: string, y: string, q: string)
    requires x + q == y + q
    ensures x == y
  {
    assert x == (x + q)[..|x|];
    assert y == (y + q)[..|y|];
  }

  /** The default state is the backup path of its own base name, and of no other. */
  lemma BackupPathOfDefault(name: string)
    ensures BackupPath(name) == DefaultState <==> name == RomName
  {
    assert BackupPath(name) == BackupDir + (name + StateSuffix);
    if BackupPath(name) == DefaultState {
      PrefixCancel(BackupDir, name + StateSuffix, DefaultStateName);
      SuffixCancel(name, RomName, StateSuffix);
    }
  }

  /** Different names give different backup paths. */
  lemma BackupPathInjective(n1: string, n2: string)
    requires BackupPath(n1) == BackupPath(n2)
    ensures n1 == n2
  {
    assert BackupPath(n1) == BackupDir + (n1 + StateSuffix);
    assert BackupPath(n2) == BackupDir + (n2 + StateSuffix);
    PrefixCancel(BackupDir, n1 + StateSuffix, n2 + StateSuffix);
    SuffixCancel(n1, n2, StateSuffix);
  }

  /** A directory entry is listed when it ends in `.state` and is not the
      emulator's own state file. */
  predicate Listed(file: string) {
    EndsWith(file, StateSuffix) && file != DefaultStateName
  }

  /** `file[:-6]`: the entry's name without its `.state` suffix. */
  function StateName(file: string): (name: string)
    requires EndsWith(file, StateSuffix)
    ensures name + StateSuffix == file
  {
    file[..|file| - 6]
  }

  /** The names `list_states` returns for a directory listing, in listing order. */
  function ListedNames(listing: seq<string>): seq<string> {
    if listing == [] then []
    else
      var file := listing[|listing| - 1];
      ListedNames(listing[..|listing| - 1]) + (if Listed(file) then [StateName(file)] else [])
  }

  /** Every returned name comes from a listed entry: adding `.state` gives back
      the entry, which is not the emulator's own state file; and the names are
      no more than the entries. */
  lemma {:induction false} ListedNamesSound(listing: seq<string>)
    ensures |ListedNames(listing)| <= |listing|
    ensures forall i :: 0 <= i < |ListedNames(listing)| ==>
      ListedNames(listing)[i] + StateSuffix in listing
      && ListedNames(listing)[i] + StateSuffix != DefaultStateName
  {
    if listing != [] {
      var init := listing[..|listing| - 1];
      ListedNamesSound(init);
      forall i | 0 <= i < |ListedNames(init)| ensures ListedNames(init)[i] + StateSuffix in listing {
        var k :| 0 <= k < |init| && init[k] == ListedNames(init)[i] + StateSuffix;
        assert listing[k] == init[k];
      }
    }
  }

  /** Every listed entry's name is returned. */
  lemma {:induction false} ListedNamesComplete(listing: seq<string>, file: string)
    requires file in listing && Listed(file)
    ensures StateName(file) in ListedNames(listing)
  {
    var init := listing[..|listing| - 1];
    if file != listing[|listing| - 1] {
      assert listing == init + [listing[|listing| - 1]];
      ListedNamesComplete(init, file);
    }
  }

  /** The names keep the listing's order: listing more entries appends their names. */
  lemma {:induction false} ListedNamesAppend(xs: seq<string>, ys: seq<string>)
    ensures ListedNames(xs + ys) == ListedNames(xs) + ListedNames(ys)
    decreases |ys|
  {
    if ys == [] {
      assert xs + ys == xs;
    } else {
      ListedNamesAppend(xs, ys[..|ys| - 1]);
      assert (xs + ys)[..|xs + ys| - 1] == xs + ys[..|ys| - 1];
      assert (xs + ys)[|xs + ys| - 1] == ys[|ys| - 1];
    }
  }

  /** `backup_current_state(name)` on the file set `files`. */
  function Backup(files: map<string, Blob>, name: string): (CopyOutcome, map<string, Blob>) {
    if DefaultState !in files then (NotFound, files)
    else if BackupPath(name) == DefaultState then (SameFile, files)
    else (Copied, files[BackupPath(name) := files[DefaultState]])
  }

  /** `load_state(name)` on the file set `files`. */
  function Load(files: map<string, Blob>, name: string): (CopyOutcome, map<string, Blob>) {
    if BackupPath(name) !in files then (NotFound, files)
    else if BackupPath(name) == DefaultState then (SameFile, files)
    else (Copied, files[DefaultState := files[BackupPath(name)]])
  }

  /** A backup fails without the default state and changes nothing unless it
      copies; a copy adds or overwrites only the backup path, with the default
      state's contents, which it leaves as they were. */
  lemma BackupEffect(files: map<string, Blob>, name: string)
    ensures Backup(files, name).0 == NotFound <==> DefaultState !in files
    ensures Backup(files, name).0 != Copied ==> Backup(files, name).1 == files
    ensures Backup(files, name).0 == Copied ==>
      && Backup(files, name).1.Keys == files.Keys + {BackupPath(name)}
      && Backup(files, name).1[BackupPath(name)] == files[DefaultState]
      && Backup(files, name).1[DefaultState] == files[DefaultState]
      && forall p :: p in files && p != BackupPath(name) ==> Backup(files, name).1[p] == files[p]
  {
  }

  /** A load fails without the named backup and changes nothing unless it
      copies; a copy overwrites only the default state, with the backup's
      contents. */
  lemma LoadEffect(files: map<string, Blob>, name: string)
    ensures Load(files, name).0 == NotFound <==> BackupPath(name) !in files
    ensures Load(files, name).0 != Copied ==> Load(files, name).1 == files
    ensures Load(files, name).0 == Copied ==>
      && Load(files, name).1.Keys == files.Keys + {DefaultState}
      && Load(files, name).1[DefaultState] == files[BackupPath(name)]
      && Load(files, name).1[BackupPath(name)] == files[BackupPath(name)]
      && forall p :: p in files && p != DefaultState ==> Load(files, name).1[p] == files[p]
  {
  }

  /** Loading a state right after backing it up succeeds and leaves the files
      exactly as the backup left them. */
  lemma LoadAfterBackup(files: map<string, Blob>, name: string)
    requires Backup(files, name).0 == Copied
    ensures Load(Backup(files, name).1, name) == (Copied, Backup(files, name).1)
  {
    var after := Backup(files, name).1;
    assert after[DefaultState := after[BackupPath(name)]] == after;
  }

  /** The quick save's name: `quick_save_` and the time of day. */
  function QuickSaveName(timestamp: string): string {
    QuickSavePrefix + timestamp
  }

  /** A quick save never targets the default state, so it copies whenever the
      default state exists. */
  lemma QuickSaveNeverSameFile(files: map<string, Blob>, timestamp: string)
    ensures Backup(files, QuickSaveName(timestamp)).0 == (if DefaultState in files then Copied else NotFound)
  {
    assert BackupPath(QuickSaveName(timestamp))[5] == 'q';
    assert DefaultState[5] == 'L';
  }

  /** Every name the listing returns loads, when the listing is of the backup
      directory: its backup path is the listed file, which is never the
      default state. */
  lemma ListedStatesLoadable(files: map<string, Blob>, listing: seq<string>, name: string)
    requires forall f :: f in listing ==> BackupDir + f in files
    requires name in ListedNames(listing)
    ensures Load(files, name).0 == Copied
    ensures Load(files, name).1[DefaultState] == files[BackupPath(name)]
  {
    ListedNamesSound(listing);
    var i :| 0 <= i < |ListedNames(listing)| && ListedNames(listing)[i] == name;
    var file := name + StateSuffix;
    assert BackupPath(name) == BackupDir + file;
    assert BackupPath(name) in files;
    if BackupPath(name) == DefaultState {
      PrefixCancel(BackupDir, file, DefaultStateName);
    }
  }

  class StateManager {
    /** The file system, path to contents. */
    var files: map<string, Blob>

    constructor(initial: map<string, Blob>)
      ensures files == initial
    {
      files := initial;
    }

    /** Copy the default state to the backup path of `name`. */
    method BackupCurrentState(name: string) returns (outcome: CopyOutcome)
      modifies this
      ensures (outcome, files) == Backup(old(files), name)
    {
      if DefaultState !in files {
        return NotFound;
      }
      var backupPath := BackupDir + name + StateSuffix;
      if backupPath == DefaultState {
        return SameFile;
      }
      files := files[backupPath := files[DefaultState]];
      return Copied;
    }

    /** Copy the backup of `name` over the default state. */
    method LoadState(name: string) returns (outcome: CopyOutcome)
      modifies this
      ensures (outcome, files) == Load(old(files), name)
    {
      var sourcePath := BackupDir + name + StateSuffix;
      if sourcePath !in files {
        return NotFound;
      }
      if sourcePath == DefaultState {
        return SameFile;
      }
      files := files[DefaultState := files[sourcePath]];
      return Copied;
    }

    /** The listing loop: names of the `.state` entries other than the
        emulator's own, in listing order. */
    method ListStates(listing: seq<string>) returns (states: seq<string>)
      ensures states == ListedNames(listing)
    {
      states := [];
      var k := 0;
      while k < |listing|
        invariant 0 <= k <= |listing|
        invariant states == ListedNames(listing[..k])
      {
        var file := listing[k];
        if EndsWith(file, StateSuffix) && file != DefaultStateName {
          var name := file[..|file| - 6];
          states := states + [name];
        }
        assert listing[..k + 1][..k] == listing[..k];
        k := k + 1;
      }
      assert listing[..k] == listing;
    }

    /** A backup named after the time of day. */
    method QuickSave(timestamp: string) returns (outcome: CopyOutcome)
      modifies this
      ensures (outcome, files) == Backup(old(files), QuickSaveName(timestamp))
      ensures outcome != SameFile
    {
      QuickSaveNeverSameFile(files, timestamp);
      outcome := BackupCurrentState(QuickSavePrefix + timestamp);
    }
  }
}
