# Fast game-data copy of the Fallout: London VR installer, in Dafny

This project models the fast copy path of the installer
(`robocopy_methods.py`): how it copies the Fallout 4 and Fallout: London
`Data` folders into the mod manager's `mods` folder with robocopy, how it
works out a progress percentage from robocopy's output, and when it falls
back to the installer's own Python copier.

Five decision procedures are modelled, each over abstract inputs:

- **Command construction** (`RobocopyCopy.Command`). The command is
  `robocopy <src> <dest>` and then eleven fixed switches. `/XD` and the
  excluded names follow only when the exclusion list is non-empty. Without a
  list, the defaults `F4SE`, `source` and `scripts\source` are used.
- **Output parsing and progress** (`RobocopyCopy.LineSize`,
  `RobocopyCopy.ReadOutput`). A line counts when, stripped and split once on
  whitespace, it has two parts and the first is all digits. That number is
  added to the copied size. Progress is shown after each counting line, and
  only when the total is positive. It is capped at 100 percent.
- **Exit code and fallback** (`RobocopyCopy.CopyDirectoryWithRobocopy`).
  The model covers three ways the `try` can raise: a process that cannot be
  started, a cancel request seen before a line, and an exit code of 8 or
  more. Each one leads to exactly one fallback call with the same source, destination,
  label and (defaulted) exclusion list. Cancellation is one of these cases:
  `InterruptedError` is an `Exception`, so a cancelled robocopy run also
  ends in the fallback call. Exit codes below 8, negative ones included,
  count as success.
- **Size walk** (`DirectorySize.GetDirectorySize`). A top-down walk sums
  file sizes. At each directory the walk first removes the subdirectories
  whose lower-cased name is in the lower-cased exclusion list. A file whose
  size cannot be read adds 0, and a directory that cannot be listed adds
  nothing. The walk is proved equal to a reference definition: the sum over
  the files that have no excluded directory on their path. Further lemmas
  prove that the result ignores letter case, that with no list it counts
  every file, that more exclusions never give a larger total, and that an
  entry spanning two path components (`scripts\source`) never prunes
  anything.
- **Routing** (`DataRouting.DataCopyJobs`). London's own `Data` folder is
  considered only when the London path is set and is not
  `"Already installed"`. When London is not installed and that folder
  exists, Fallout 4 `Data` goes to `mods/Fallout 4 Data` (if it exists) and
  then London `Data` goes to `mods/Fallout London Data`. Otherwise at most one
  job runs: Fallout 4 `Data` to `mods/Fallout London Data`, if it exists.

How the inputs are abstracted:

- Robocopy's output is a sequence of lines. Each line carries the value the
  cancel flag has when the loop reaches it.
- Whether the process starts is a boolean.
- The exit code is an integer.
- The source tree is a `Node` datatype.
- The file system that `os.path.exists` consults is a set of existing paths.

The progress value `min((copied / total) * 100, 100)` is carried as the
number of bytes it stands for, `min(copied, total)` out of `total`.
`RobocopyCopy.PercentOfShown` proves that the percentage of that count, in
exact rational arithmetic, is the source's expression.

The installer's own Python copier (`copy_directory_with_progress`), which
the fallback calls, is not modelled.

## Model

| member | source | states |
|---|---|---|
| `PyText.StripLeftShape` | robocopy_methods.py:52 | `lstrip` drops exactly a leading whitespace run and leaves a suffix that is empty or starts with non-whitespace |
| `PyText.StripRightShape` | robocopy_methods.py:52 | `rstrip` drops exactly a trailing whitespace run and leaves a prefix that is empty or ends in non-whitespace |
| `PyText.TakeWord` | robocopy_methods.py:52 | the first word is the longest whitespace-free prefix: it is followed by whitespace or by the end |
| `PyText.SplitOnce` | robocopy_methods.py:52 | `split(None, 1)` yields at most two non-empty parts, none starting with whitespace and the first holding none; no parts exactly when the text is all whitespace; the text is leading whitespace, the first part, then whitespace and nothing else (one part) or then a non-empty whitespace run and the second part (two parts) |
| `PyText.SplitPieces` | robocopy_methods.py:52 | a text that is not all whitespace is its leading whitespace, its first word, a whitespace run and the stripped rest, the run being non-empty when a rest follows |
| `PyText.SplitOnceAt` | robocopy_methods.py:52 | a stripped text with whitespace after its first word splits into two parts, the first being that word |
| `PyText.SplitOnceTwo` | robocopy_methods.py:52 | for a text that does not start with whitespace, when there are two parts the first is a prefix of the text followed by whitespace |
| `PyText.InLowerAll` | robocopy_methods.py:98-102 | a name is in the lower-cased list exactly when some entry equals it ignoring case |
| `PyText.LowerKeepsSeparators` | robocopy_methods.py:98-102 | lower-casing neither adds nor removes path separators |
| `PyText.NatToDigits` | robocopy_methods.py:54 | the decimal notation of a number is a digit string without a leading zero |
| `PyText.DigitsRoundTrip` | robocopy_methods.py:54 | `int` of the decimal notation of `n` is `n` |
| `DirectorySize.GetDirectorySize` | robocopy_methods.py:92-111 | the walk with its prune-then-descend loop returns the pruned total `WalkSize` of the lower-cased list; no list means an empty one |
| `DirectorySize.ScanDirectory` | robocopy_methods.py:102-109 | visiting one directory adds exactly the readable sizes of its files to the total (`FileSizes`) and appends exactly its subdirectories whose lower-cased name is not excluded, in listing order, to the queue (`KeptDirs`); so the total plus what the queue will add grows by the directory's pruned size, and the queue grows by at most the directory's nodes |
| `DirectorySize.WalkSizeIsKeptSize` | robocopy_methods.py:98-109 | the total is the sum of the readable sizes of exactly the files with no excluded directory on their path below the root |
| `DirectorySize.NoExclusionsCountsEverything` | robocopy_methods.py:94-109 | with no exclusion list the total is the size of every readable file; unreadable sizes add 0 |
| `DirectorySize.MoreExclusionsShrink` | robocopy_methods.py:98-109 | excluding a superset of the names never gives a larger total, and no total exceeds the size of all readable files |
| `DirectorySize.CaseVariantSameSize` | robocopy_methods.py:98-102 | renaming directories to another letter case leaves the total unchanged |
| `DirectorySize.SeparatorEntryNeverPrunes` | robocopy_methods.py:98-102 | an entry containing a backslash never prunes in a tree of plain names, so adding it leaves the total unchanged |
| `DirectorySize.KeptSizeUnder` | robocopy_methods.py:100-102 | the files below a directory count fully or, when its name is excluded, not at all |
| `RobocopyCopy.Command` | robocopy_methods.py:10-29 | the command is `robocopy`, source, destination, the 11 switches in order, then `/XD` and the names exactly when the list is non-empty |
| `RobocopyCopy.DefaultCommand` | robocopy_methods.py:1-29 | with no list the command ends in `/XD F4SE source scripts\source` |
| `RobocopyCopy.DefaultExclusionsTotal` | robocopy_methods.py:3-4 | in a tree whose directory names hold no backslash, the default `scripts\source` prunes nothing in the size walk, so the total is that of excluding `F4SE` and `source` alone |
| `RobocopyCopy.StripEnds` | robocopy_methods.py:52 | a stripped line is empty or neither starts nor ends with whitespace |
| `RobocopyCopy.LineSizeForm` | robocopy_methods.py:52-55 | a line counts exactly when its stripped text is digits followed by whitespace and more, and it then adds the value of those digits |
| `RobocopyCopy.StripLeftPadded` | robocopy_methods.py:52 | stripping removes exactly an indent that precedes a non-whitespace character |
| `RobocopyCopy.StripRightKeeps` | robocopy_methods.py:52 | stripping keeps everything up to the last non-whitespace character |
| `RobocopyCopy.StripRightFormatted` | robocopy_methods.py:52 | stripping `word + gap + name` on the right keeps the word and the gap's first character |
| `RobocopyCopy.StripFormatted` | robocopy_methods.py:51-52 | a formatted line strips to its size digits followed by whitespace |
| `RobocopyCopy.FormattedLineParses` | robocopy_methods.py:50-55 | a line laid out as `<indent><size><gap><name>` adds exactly `size` |
| `RobocopyCopy.ShownBytes` | robocopy_methods.py:59 | the shown amount is the copied size capped at the total, and reaches the total exactly when the copied size does |
| `RobocopyCopy.PercentOfShown` | robocopy_methods.py:59 | the percentage shown is `min((copied / total) * 100, 100)` and lies in 0..100 |
| `RobocopyCopy.PercentMonotone` | robocopy_methods.py:59 | the percentage grows with the amount shown |
| `RobocopyCopy.CopiedSizeMonotone` | robocopy_methods.py:55 | the copied size never decreases from line to line |
| `RobocopyCopy.CopiedSizeSplit` | robocopy_methods.py:53-55 | the copied size of two runs of lines is the sum of their copied sizes |
| `RobocopyCopy.ReadLine` | robocopy_methods.py:52-63 | one more line adds its reported size, and shows one more value exactly when the line reports a size and the total is positive |
| `RobocopyCopy.ReportedCount` | robocopy_methods.py:53-58 | one progress value per counting line, and none at all when the total is 0 |
| `RobocopyCopy.ReportedUpToCurrent` | robocopy_methods.py:55-59 | every value shown is at most the current capped copied size, and the last one equals it |
| `RobocopyCopy.ReportedSorted` | robocopy_methods.py:55-59 | successive progress values never decrease |
| `RobocopyCopy.ReportedCapped` | robocopy_methods.py:59 | no value exceeds 100 percent, and the last is 100 percent exactly when the copied size has reached the total |
| `RobocopyCopy.SizesOfPrefix` | robocopy_methods.py:45-55 | the sizes of one more line extend the sizes read so far by that line's size |
| `RobocopyCopy.ParsedCount` | robocopy_methods.py:45-48 | the lines parsed are exactly those before the first line at which the cancel flag is set |
| `RobocopyCopy.ParsedCountAt` | robocopy_methods.py:45-48 | the loop stops at the first line where the cancel flag is set, or after the last line |
| `RobocopyCopy.ReadOutput` | robocopy_methods.py:45-63 | the loop stops at a cancel request, and its copied size and progress values are those of the lines before it |
| `RobocopyCopy.CopyDirectoryWithRobocopy` | robocopy_methods.py:1-85 | the command and total are built from the defaulted list; a start failure, a cancel or a code of 8 or more each give one fallback call with the same arguments; codes below 8 give none |
| `DataRouting.JoinInjective` | robocopy_methods.py:133-134 | the two mod folders are different paths |
| `DataRouting.DataCopyJobs` | robocopy_methods.py:122-153 | a London job, from `<london path>\Data`, is issued iff London is not installed, its path is non-empty and not "Already installed", and that `Data` exists; a Fallout 4 job iff its `Data` exists, to `Fallout 4 Data` with the Fallout 4 label in the first scenario and to `Fallout London Data` with the London label otherwise; Fallout 4 comes first; only existing sources are copied |
| `DataRouting.JobsDistinct` | robocopy_methods.py:131-153 | at most two jobs, at most one outside the first scenario, and never two into the same mod folder |

## Left out

- Running robocopy: `subprocess.Popen`, `terminate` and `wait`, and how robocopy copies (`/MT`, `/Z`, retries). Its output, whether it starts and its exit code are inputs.
- Which lines robocopy actually prints under `/NFL /NDL /NJH /NJS /NP /BYTES`. That is robocopy's behaviour, so the output is any sequence of lines.
- The file system: `os.walk`, `os.path.getsize`, `os.path.exists` and `os.makedirs`. They are replaced by the `Node` tree and a set of existing paths. A failing `os.makedirs`, which raises before any job, is not modelled.
- Symbolic links under the walked tree. `os.walk` does not follow them, and the tree datatype has none.
- Three more ways the `try` of `copy_directory_with_robocopy` can raise, each of which would also reach the fallback call: an error while reading robocopy's output (such as a `UnicodeDecodeError` on a byte the locale codec rejects, line 45), a failing `root.after` call (lines 60-61) and a failing `process.wait()` (line 66). The model has no input for these, so it covers only a start failure, a cancel and an exit code of 8 or more.
- RobocopyCopy.CopyDirectoryWithRobocopy: does not model two more exceptions that would also reach the fallback call, because unbounded integers and exact arithmetic have no such limits. One is the `ValueError` of `int` at line 54 on a digit run longer than CPython's integer-string limit (4300 digits by default). The other is the `OverflowError` of the float division at line 59 when the ratio is too large for a float. On such output with an exit code below 8, the model counts the line and promises no fallback.
- Exceptions from `get_directory_size` other than those its code swallows. In the model the walk always returns, so it never causes the fallback.
- `copy_directory_with_progress_python` and `copy_directory_with_progress`, the fallback copier. Its code is not part of this model. A fallback call is recorded with its arguments and is not run.
- The exceptions the fallback copier might raise. In `copy_fallout_data_fast` they would propagate and skip the later jobs. `DataRouting.DataCopyJobs` lists the jobs that are issued when no job raises.
- The re-check of the London folder's existence at line 143. It is assumed to see the same file system as the check at line 132, so in the model it always holds.
- `os.path.join`: modelled as Windows joining of a plain relative name (an empty folder, a trailing separator, a bare drive such as `C:`, otherwise a backslash). Other UNC and drive forms of `ntpath` are not modelled.
- The Tk calls (`create_progress_bar`, `root.after`, label updates, `winfo_exists`) and the `:.1f` formatting. They are presentation only.
- Floating point. Progress is exact. Its value is carried as the capped byte count, and `Percent` gives the exact percentage.
- Non-ASCII text. `isspace`, `isdigit` and `lower` are modelled on ASCII only. So a non-ASCII digit that `isdigit` accepts and `int` rejects is not modelled: it would raise `ValueError` and fall back.
- The cancel flag being set by another thread. It is modelled as the value read at each line.
- Logging.
