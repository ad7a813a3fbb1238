/**
 * `copy_fallout_data_fast`: decide which game data folders are copied into
 * which mod folders of the mod manager, and in what order.
 *
 * The file system is a given set of existing paths; each job issued is one
 * call of `copy_directory_with_robocopy` with its default exclusion list.
 */
module DataRouting {
  import opened Wrappers

  /** The value that marks the London data path as not needing a copy. */
  const AlreadyInstalled: string := "Already installed"

  const Fallout4Folder: string := "Fallout 4 Data"
  const LondonFolder: string := "Fallout London Data"
  const Fallout4Label: string := "Copying Fallout 4 Data (Fast)"
  const LondonLabel: string := "Copying Fallout: London Data (Fast)"

  /** The installer's settings that the routing reads. */
  datatype Installer = Installer(
    f4Path: string,           // the Fallout 4 installation
    londonDataPath: string,   // the separate Fallout: London folder, or "Already installed"
    mo2Path: string,          // the mod manager's folder
    londonInstalled: bool)

  /** Which of the two source folders a job copies. */
  datatype Origin = Fallout4 | London

  /** One call `copy_directory_with_robocopy(source, dest, labelText)`. */
  datatype CopyJob = CopyJob(origin: Origin, source: string, dest: string, labelText: string)

  predicate IsSeparator(c: char) {
    c == '\\' || c == '/'
  }

  /** What a Windows `os.path.join(dir, name)` puts in front of a relative,
      drive-less `name`: nothing for an empty `dir`, `dir` itself when it
      ends in a separator or is a bare drive such as `C:`, and `dir` plus a
      backslash otherwise. */
  function JoinPrefix(dir: string): string {
    if dir == [] || IsSeparator(dir[|dir| - 1]) || (|dir| == 2 && dir[1] == ':') then dir
    else dir + "\\"
  }

  function Join(dir: string, name: string): string {
    JoinPrefix(dir) + name
  }

  /** Joining different names to the same folder gives different paths. */
  lemma JoinInjective(dir: string, a: string, b: string)
    requires a != b
    ensures Join(dir, a) != Join(dir, b)
  {
    var p := JoinPrefix(dir);
    assert Join(dir, a)[|p|..] == a;
    assert Join(dir, b)[|p|..] == b;
  }

  function F4Data(s: Installer): string {
    Join(s.f4Path, "Data")
  }

  function ModsDir(s: Installer): string {
    Join(s.mo2Path, "mods")
  }

  /** The London `Data` folder, considered only when the London path is set
      and is not "Already installed". */
  function LondonData(s: Installer): Option<string> {
    if s.londonDataPath != "" && s.londonDataPath != AlreadyInstalled then
      Some(Join(s.londonDataPath, "Data"))
    else None
  }

  /** The first scenario: London is not yet installed and its separate `Data`
      folder exists, so the two games' data go to two mod folders. */
  predicate SeparateLondon(s: Installer, existing: set<string>) {
    !s.londonInstalled && LondonData(s).Some? && LondonData(s).value in existing
  }

  /** The copies issued, in order. */
  function DataCopyJobs(s: Installer, existing: set<string>): (jobs: seq<CopyJob>)
    ensures forall j :: j in jobs ==> j.source in existing
    ensures (exists j :: j in jobs && j.origin == London) <==>
              !s.londonInstalled && s.londonDataPath != "" && s.londonDataPath != AlreadyInstalled
              && Join(s.londonDataPath, "Data") in existing
    ensures (exists j :: j in jobs && j.origin == Fallout4) <==> Join(s.f4Path, "Data") in existing
    ensures forall j :: j in jobs && j.origin == London ==>
              j == CopyJob(London, Join(s.londonDataPath, "Data"), Join(Join(s.mo2Path, "mods"), LondonFolder), LondonLabel)
    ensures forall j :: j in jobs && j.origin == Fallout4 ==>
              j.source == Join(s.f4Path, "Data") &&
              j.dest == Join(Join(s.mo2Path, "mods"), if SeparateLondon(s, existing) then Fallout4Folder else LondonFolder) &&
              j.labelText == if SeparateLondon(s, existing) then Fallout4Label else LondonLabel
    ensures forall i, k :: 0 <= i < k < |jobs| ==> jobs[i].origin == Fallout4 && jobs[k].origin == London
  {
    var f4 := F4Data(s);
    var mods := ModsDir(s);
    var london := LondonData(s);
    if !s.londonInstalled && london.Some? && london.value in existing then
      (if f4 in existing then [CopyJob(Fallout4, f4, Join(mods, Fallout4Folder), Fallout4Label)] else [])
      + (if london.value in existing then [CopyJob(London, london.value, Join(mods, LondonFolder), LondonLabel)] else [])
    else if f4 in existing then
      [CopyJob(Fallout4, f4, Join(mods, LondonFolder), LondonLabel)]
    else []
  }

  /** At most two jobs are issued, at most one outside the first scenario,
      and no two of them write to the same mod folder. */
  lemma JobsDistinct(s: Installer, existing: set<string>)
    ensures var jobs := DataCopyJobs(s, existing);
            |jobs| <= (if SeparateLondon(s, existing) then 2 else 1) &&
            forall i, k :: 0 <= i < k < |jobs| ==> jobs[i].dest != jobs[k].dest
  {
    var jobs := DataCopyJobs(s, existing);
    JoinInjective(ModsDir(s), Fallout4Folder, LondonFolder);
  }
}
