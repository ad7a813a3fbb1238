/**
 * `copy_directory_with_robocopy`: build the robocopy command line, size the
 * source tree, read robocopy's output line by line to accumulate the bytes
 * copied and report progress, classify the exit code, and fall back to the
 * Python copier on any exception.
 *
 * The robocopy process is not modelled: its output is a given sequence of
 * lines (each paired with the value the cancel flag has when the loop reaches
 * it), whether it could be started is a given boolean and its exit code a
 * given integer.
 */
module RobocopyCopy {
  import opened Wrappers
  import opened PyText
  import DirectorySize

  /** The exclusion list used when the caller passes none. */
  const DefaultExclusions: seq<string> := ["F4SE", "source", "scripts\\source"]

  /** The fixed robocopy switches, in the order they are passed. */
  const Switches: seq<string> :=
    ["/E", "/Z", "/MT:16", "/R:2", "/W:1", "/NFL", "/NDL", "/NJH", "/NJS", "/NP", "/BYTES"]

  /** `exclude_dirs` once the default has been filled in. */
  function EffectiveExclusions(excludeDirs: Option<seq<string>>): seq<string> {
    excludeDirs.GetOr(DefaultExclusions)
  }

  /** The argument list handed to the process. */
  function Command(src: string, dest: string, excluded: seq<string>): (cmd: seq<string>)
    ensures |cmd| == if excluded == [] then 14 else 15 + |excluded|
    ensures cmd[0] == "robocopy" && cmd[1] == src && cmd[2] == dest
    ensures cmd[3..14] == Switches
    ensures excluded != [] ==> cmd[14] == "/XD" && cmd[15..] == excluded
  {
    var base := ["robocopy", src, dest] + Switches;
    if excluded != [] then base + ["/XD"] + excluded else base
  }

  /** Without an exclusion list the command excludes the three default names. */
  lemma DefaultCommand(src: string, dest: string)
    ensures Command(src, dest, EffectiveExclusions(None))
         == ["robocopy", src, dest, "/E", "/Z", "/MT:16", "/R:2", "/W:1", "/NFL", "/NDL",
             "/NJH", "/NJS", "/NP", "/BYTES", "/XD", "F4SE", "source", "scripts\\source"]
  {
  }

  /** In the size walk the default entry `scripts\source` prunes nothing, so the
      total is what excluding `F4SE` and `source` alone gives, although the same
      entry is handed to robocopy's `/XD`. */
  lemma DefaultExclusionsTotal(root: DirectorySize.Node)
    requires DirectorySize.PlainNames(root)
    ensures DirectorySize.WalkSize(root, LowerAll(DefaultExclusions))
         == DirectorySize.WalkSize(root, LowerAll(["F4SE", "source"]))
  {
    assert DefaultExclusions == ["F4SE", "source"] + ["scripts\\source"];
    assert '\\' in "scripts\\source" by { assert "scripts\\source"[7] == '\\'; }
    DirectorySize.SeparatorEntryNeverPrunes(root, ["F4SE", "source"], "scripts\\source");
  }

  // ---------------------------------------------------------------------
  // Parsing one output line.

  /** The size a line of robocopy output reports: the line counts when,
      stripped and split once on whitespace, it has two parts of which the
      first is all digits. */
  function LineSize(line: string): Option<nat> {
    var parts := SplitOnce(Strip(line));
    if |parts| == 2 && IsDigits(parts[0]) then Some(DigitsValue(parts[0])) else None
  }

  /** `t[..i]` is a run of digits directly followed by whitespace, with
      something after it. */
  predicate SizeCut(t: string, i: int) {
    0 < i < |t| && IsDigits(t[..i]) && IsSpace(t[i])
  }

  lemma StripEnds(s: string)
    ensures Strip(s) == [] || (!IsSpace(Strip(s)[0]) && !IsSpace(Strip(s)[|Strip(s)| - 1]))
  {
    var left := StripLeft(s);
    StripLeftShape(s);
    StripRightShape(left);
  }

  /** A line counts exactly when its stripped text starts with digits followed
      by whitespace, and then it adds the value of those digits. */
  lemma LineSizeForm(line: string)
    ensures LineSize(line).Some? <==> exists i :: SizeCut(Strip(line), i)
    ensures forall i :: SizeCut(Strip(line), i) ==> LineSize(line) == Some(DigitsValue(Strip(line)[..i]))
  {
    var t := Strip(line);
    StripEnds(line);
    if LineSize(line).Some? {
      SplitOnceTwo(t);
      assert SizeCut(t, |SplitOnce(t)[0]|);
    }
    forall i | SizeCut(t, i) ensures LineSize(line) == Some(DigitsValue(t[..i])) {
      SplitOnceAt(t, i);
    }
  }

  /** Stripping leading whitespace removes exactly an all-whitespace prefix
      that is followed by a non-whitespace character. */
  lemma StripLeftPadded(indent: string, x: string)
    requires AllSpace(indent) && x != [] && !IsSpace(x[0])
    ensures StripLeft(indent + x) == x
  {
    var line := indent + x;
    StripLeftShape(line);
    var m := |line| - |StripLeft(line)|;
    assert line[|indent|] == x[0];
  }

  /** Stripping trailing whitespace keeps everything up to the last
      non-whitespace character. */
  lemma StripRightKeeps(s: string, j: nat)
    requires j < |s| && !IsSpace(s[j])
    ensures |StripRight(s)| > j
    ensures StripRight(s)[..j + 1] == s[..j + 1]
  {
    StripRightShape(s);
  }

  /** Stripping `word + gap + name` on the right keeps the word and the first
      character of the gap. */
  lemma StripRightFormatted(word: string, gap: string, name: string)
    requires gap != [] && !AllSpace(name)
    ensures |StripRight(word + gap + name)| > |word|
    ensures StripRight(word + gap + name)[..|word| + 1] == word + [gap[0]]
  {
    var left := word + gap + name;
    var k :| 0 <= k < |name| && !IsSpace(name[k]);
    var j := |word| + |gap| + k;
    assert left[j] == name[k];
    StripRightKeeps(left, j);
    assert left[..j + 1][..|word| + 1] == word + [gap[0]];
  }

  /** Stripping `indent + word + gap + name` leaves the word at the front,
      followed by whitespace. */
  lemma StripFormatted(indent: string, word: string, gap: string, name: string)
    requires AllSpace(indent) && AllSpace(gap) && gap != []
    requires word != [] && !IsSpace(word[0]) && !AllSpace(name)
    ensures |Strip(indent + word + gap + name)| > |word|
    ensures Strip(indent + word + gap + name)[..|word|] == word
    ensures IsSpace(Strip(indent + word + gap + name)[|word|])
  {
    var left := word + gap + name;
    assert indent + word + gap + name == indent + left;
    assert left[0] == word[0];
    StripLeftPadded(indent, left);
    StripRightFormatted(word, gap, name);
    var t := StripRight(left);
    assert t[..|word| + 1][..|word|] == word;
    assert t[..|word| + 1][|word|] == gap[0];
  }

  /** A line laid out as robocopy prints a file entry, an indent, the size, a
      gap and the name, reports exactly that size. */
  lemma FormattedLineParses(indent: string, size: nat, gap: string, name: string)
    requires AllSpace(indent) && AllSpace(gap) && gap != []
    requires !AllSpace(name)
    ensures LineSize(indent + NatToDigits(size) + gap + name) == Some(size)
  {
    var d := NatToDigits(size);
    var line := indent + d + gap + name;
    StripFormatted(indent, d, gap, name);
    assert SizeCut(Strip(line), |d|);
    LineSizeForm(line);
    DigitsRoundTrip(size);
  }

  // ---------------------------------------------------------------------
  // Accumulating the copied size and reporting progress.

  /** The progress shown after `copied` of `total` bytes, measured in bytes:
      `min((copied / total) * 100, 100)` percent is `min(copied, total)` bytes
      out of `total`. Progress values are compared as these byte counts, so
      no division is needed; `Percent` gives the percentage itself. */
  function ShownBytes(copied: nat, total: nat): (shown: nat)
    ensures shown <= total && shown <= copied
    ensures shown == total <==> copied >= total
    ensures shown == copied <==> copied <= total
  {
    if copied <= total then copied else total
  }

  /** The percentage shown for `shown` of `total` bytes. */
  function Percent(shown: nat, total: nat): real
    requires total > 0
  {
    (shown as real / total as real) * 100.0
  }

  /** The percentage computed by `copy_directory_with_robocopy`,
      `min((copied / total) * 100, 100)`, is the one shown for
      `ShownBytes(copied, total)`; it lies between 0 and 100 and grows with
      the copied size. */
  lemma PercentOfShown(copied: nat, total: nat)
    requires total > 0
    ensures var ratio := (copied as real / total as real) * 100.0;
            Percent(ShownBytes(copied, total), total) == if ratio <= 100.0 then ratio else 100.0
    ensures 0.0 <= Percent(ShownBytes(copied, total), total) <= 100.0
  {
    var t := total as real;
    assert (copied as real / t) * t == copied as real;
    assert (total as real / t) == 1.0;
  }

  lemma PercentMonotone(a: nat, b: nat, total: nat)
    requires total > 0 && a <= b
    ensures Percent(a, total) <= Percent(b, total)
  {
    var t := total as real;
    assert (a as real / t) * t == a as real;
    assert (b as real / t) * t == b as real;
  }

  // The accumulation is stated over the sizes the lines report, one
  // `Option<nat>` per line as `LineSize` gives it.

  /** `copied_size` after lines reporting these sizes have been read. */
  function CopiedSize(sizes: seq<Option<nat>>): nat {
    if sizes == [] then 0
    else CopiedSize(sizes[..|sizes| - 1]) + sizes[|sizes| - 1].GetOr(0)
  }

  /** The number of lines that report a size. */
  function SizeLineCount(sizes: seq<Option<nat>>): nat {
    if sizes == [] then 0
    else SizeLineCount(sizes[..|sizes| - 1]) + (if sizes[|sizes| - 1].Some? then 1 else 0)
  }

  /** The progress values shown while the lines are read: one after each line
      that reports a size, and none at all when the total is zero. */
  function Reported(sizes: seq<Option<nat>>, total: nat): seq<nat> {
    if sizes == [] then []
    else
      Reported(sizes[..|sizes| - 1], total)
      + (if sizes[|sizes| - 1].Some? && total > 0 then [ShownBytes(CopiedSize(sizes), total)] else [])
  }

  /** The copied size never goes down as more lines are read. */
  lemma {:induction false} CopiedSizeMonotone(sizes: seq<Option<nat>>, i: nat, j: nat)
    requires i <= j <= |sizes|
    ensures CopiedSize(sizes[..i]) <= CopiedSize(sizes[..j])
    decreases j - i
  {
    if i < j {
      CopiedSizeMonotone(sizes, i + 1, j);
      assert sizes[..i + 1][..i] == sizes[..i];
    }
  }

  /** The copied size is the sum of the sizes the lines report. */
  lemma {:induction false} CopiedSizeSplit(a: seq<Option<nat>>, b: seq<Option<nat>>)
    ensures CopiedSize(a + b) == CopiedSize(a) + CopiedSize(b)
    decreases |b|
  {
    if b == [] {
      assert a + b == a;
    } else {
      CopiedSizeSplit(a, b[..|b| - 1]);
      assert (a + b)[..|a + b| - 1] == a + b[..|b| - 1];
    }
  }

  /** Reading one more line adds its size, if it reports one, and shows one
      more progress value when the total is positive. */
  lemma ReadLine(sizes: seq<Option<nat>>, size: Option<nat>, total: nat)
    ensures CopiedSize(sizes + [size]) == CopiedSize(sizes) + size.GetOr(0)
    ensures Reported(sizes + [size], total)
         == Reported(sizes, total)
            + (if size.Some? && total > 0 then [ShownBytes(CopiedSize(sizes + [size]), total)] else [])
  {
    assert (sizes + [size])[..|sizes|] == sizes;
  }

  /** One progress value per size line, and none when the total is zero. */
  lemma {:induction false} ReportedCount(sizes: seq<Option<nat>>, total: nat)
    ensures |Reported(sizes, total)| == if total == 0 then 0 else SizeLineCount(sizes)
  {
    if sizes != [] {
      ReportedCount(sizes[..|sizes| - 1], total);
    }
  }

  /** Every value shown so far is at most the current copied size, capped at
      the total, and the last one equals it. */
  lemma {:induction false} ReportedUpToCurrent(sizes: seq<Option<nat>>, total: nat)
    ensures forall k :: 0 <= k < |Reported(sizes, total)| ==>
              Reported(sizes, total)[k] <= ShownBytes(CopiedSize(sizes), total)
    ensures Reported(sizes, total) != [] ==>
              Reported(sizes, total)[|Reported(sizes, total)| - 1] == ShownBytes(CopiedSize(sizes), total)
  {
    if sizes != [] {
      ReportedUpToCurrent(sizes[..|sizes| - 1], total);
    }
  }

  /** The values shown never decrease. */
  lemma {:induction false} ReportedSorted(sizes: seq<Option<nat>>, total: nat)
    ensures forall k, l :: 0 <= k <= l < |Reported(sizes, total)| ==>
              Reported(sizes, total)[k] <= Reported(sizes, total)[l]
  {
    if sizes != [] {
      var prev := sizes[..|sizes| - 1];
      ReportedSorted(prev, total);
      ReportedUpToCurrent(prev, total);
    }
  }

  /** Every value shown is at most 100 percent, and it is 100 percent exactly
      when the copied size has reached the total. */
  lemma ReportedCapped(sizes: seq<Option<nat>>, total: nat)
    ensures forall k :: 0 <= k < |Reported(sizes, total)| ==> Reported(sizes, total)[k] <= total
    ensures Reported(sizes, total) != [] ==>
              (Reported(sizes, total)[|Reported(sizes, total)| - 1] == total <==> CopiedSize(sizes) >= total)
  {
    ReportedUpToCurrent(sizes, total);
  }

  // ---------------------------------------------------------------------
  // The whole copy.

  /** One line of robocopy output, with the value the cancel flag has when the
      loop reaches it. */
  datatype Observed = Observed(cancelRequested: bool, text: string)

  /** The size each line reports. */
  function SizesOf(output: seq<Observed>): (sizes: seq<Option<nat>>)
    ensures |sizes| == |output|
  {
    if output == [] then []
    else SizesOf(output[..|output| - 1]) + [LineSize(output[|output| - 1].text)]
  }

  /** The number of lines parsed before the loop sees the cancel flag set. */
  function ParsedCount(output: seq<Observed>): (n: nat)
    ensures n <= |output|
    ensures forall k :: 0 <= k < n ==> !output[k].cancelRequested
    ensures n < |output| ==> output[n].cancelRequested
  {
    if output == [] || output[0].cancelRequested then 0 else 1 + ParsedCount(output[1..])
  }

  /** `ParsedCount` is the index of the first line with the cancel flag set,
      or the number of lines when there is none. */
  lemma {:induction false} ParsedCountAt(output: seq<Observed>, i: nat)
    requires i <= |output|
    requires forall k :: 0 <= k < i ==> !output[k].cancelRequested
    requires i == |output| || output[i].cancelRequested
    ensures ParsedCount(output) == i
  {
    if i > 0 {
      ParsedCountAt(output[1..], i - 1);
    }
  }

  /** Why the robocopy attempt raised, among the causes the model has inputs
      for: a start failure, a cancel and a failing exit code. */
  datatype Failure =
    | LaunchFailed            // the process could not be started
    | Cancelled               // the `InterruptedError` raised on cancellation
    | RobocopyError(code: int) // an exit code of 8 or more

  /** The arguments of a call to the Python fallback copier. */
  datatype CopyRequest = CopyRequest(src: string, dest: string, labelText: string, excludeDirs: seq<string>)

  /** What one call does: the command it runs, the total it sized, the bytes
      it counted, the progress values it showed, why it raised (if it did) and
      the fallback calls it made. */
  datatype RobocopyRun = RobocopyRun(
    command: seq<string>,
    totalSize: nat,
    copiedSize: nat,
    progress: seq<nat>,
    failure: Option<Failure>,
    fallbacks: seq<CopyRequest>)

  lemma SizesOfPrefix(output: seq<Observed>, i: nat)
    requires i < |output|
    ensures SizesOf(output[..i + 1]) == SizesOf(output[..i]) + [LineSize(output[i].text)]
  {
    assert output[..i + 1][..i] == output[..i];
  }

  /** The loop over robocopy's output: before each line the cancel flag is
      checked, and a line that reports a size adds it to the copied size and,
      when the total is positive, shows progress. */
  method ReadOutput(output: seq<Observed>, total: nat) returns (copied: nat, progress: seq<nat>, cancelled: bool)
    ensures cancelled <==> ParsedCount(output) < |output|
    ensures copied == CopiedSize(SizesOf(output[..ParsedCount(output)]))
    ensures progress == Reported(SizesOf(output[..ParsedCount(output)]), total)
  {
    copied, progress, cancelled := 0, [], false;
    var i := 0;
    ghost var sizes: seq<Option<nat>> := [];
    while i < |output|
      invariant 0 <= i <= |output| && !cancelled
      invariant forall k :: 0 <= k < i ==> !output[k].cancelRequested
      invariant sizes == SizesOf(output[..i])
      invariant copied == CopiedSize(sizes)
      invariant progress == Reported(sizes, total)
    {
      if output[i].cancelRequested {
        cancelled := true;
        break;
      }
      assert forall k :: 0 <= k < i + 1 ==> !output[k].cancelRequested;
      var size := LineSize(output[i].text);
      ReadLine(sizes, size, total);
      SizesOfPrefix(output, i);
      sizes := sizes + [size];
      copied := copied + size.GetOr(0);
      if size.Some? && total > 0 {
        progress := progress + [ShownBytes(copied, total)];
      }
      i := i + 1;
    }
    ParsedCountAt(output, i);
  }

  /** `copy_directory_with_robocopy(src_dir, dest_dir, label_text, exclude_dirs)`. */
  method CopyDirectoryWithRobocopy(
    src: string, dest: string, labelText: string, excludeDirs: Option<seq<string>>,
    source: DirectorySize.Node, launched: bool, output: seq<Observed>, returnCode: int)
    returns (run: RobocopyRun)
    ensures run.command == Command(src, dest, EffectiveExclusions(excludeDirs))
    ensures run.totalSize == DirectorySize.WalkSize(source, LowerAll(EffectiveExclusions(excludeDirs)))
    ensures var parsed := if launched then SizesOf(output[..ParsedCount(output)]) else [];
            run.copiedSize == CopiedSize(parsed) && run.progress == Reported(parsed, run.totalSize)
    ensures !launched ==> run.failure == Some(LaunchFailed)
    ensures launched && ParsedCount(output) < |output| ==> run.failure == Some(Cancelled)
    ensures launched && ParsedCount(output) == |output| ==>
              run.failure == if returnCode >= 8 then Some(RobocopyError(returnCode)) else None
    ensures |run.fallbacks| == if run.failure.None? then 0 else 1
    ensures forall c :: c in run.fallbacks ==> c == CopyRequest(src, dest, labelText, EffectiveExclusions(excludeDirs))
  {
    var excluded := if excludeDirs.None? then DefaultExclusions else excludeDirs.value;
    var cmd := Command(src, dest, excluded);
    var total := DirectorySize.GetDirectorySize(source, Some(excluded));
    var copied, progress := 0, [];
    var failure := None;
    if !launched {
      failure := Some(LaunchFailed);
    } else {
      var cancelled;
      copied, progress, cancelled := ReadOutput(output, total);
      if cancelled {
        failure := Some(Cancelled);
      } else if returnCode >= 8 {
        failure := Some(RobocopyError(returnCode));
      }
    }
    var fallbacks := if failure.Some? then [CopyRequest(src, dest, labelText, excluded)] else [];
    run := RobocopyRun(cmd, total, copied, progress, failure, fallbacks);
  }
}
