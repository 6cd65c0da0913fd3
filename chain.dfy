/**
 * Chaining observing plans (bin/chain_itelescope.py): `write_chained_plan`,
 * `write_chained_plans` with its `file_cache`, and the guards of `main`.
 * The file system is a map from path to contents that the run threads
 * through its positions in order, so a read sees every earlier write.
 */
module Chain {
  import opened Wrappers
  import opened Naming
  import opened PlanText

  type FileSystem = map<Path, string>

  /** Why a run stops. */
  datatype ChainError =
    | TooFewPlans                 // main: fewer than two plans
    | TooManyPlans                // main: more than 9999 plans
    | NoOutputPattern             // main: no -o/--output, so splitext receives None
    | MissingInput(path: Path)    // open(infile) on a path with no file
    | MissingPath(position: nat)  // zip_longest filled a path of this position with None

  /** The line naming the next plan of the chain. */
  function Directive(next: Path): string {
    "#chain " + next + "\n"
  }

  /** What `write_chained_plan` writes: the plan text, then the directive when there is a next file. */
  function ChainedContent(planText: string, next: Option<Path>): string {
    match next
    case None => planText
    case Some(n) => planText + Directive(n)
  }

  /** `p` is present in both maps with the same contents, or in neither. */
  predicate SameEntry(fs: FileSystem, fs': FileSystem, p: Path) {
    (p in fs <==> p in fs') && (p in fs ==> fs'[p] == fs[p])
  }

  /** `write_chained_plan`: creates or overwrites `outputFile`, and nothing else. */
  function WriteChainedPlan(fs: FileSystem, planText: string, outputFile: Path, next: Option<Path>): (fs': FileSystem)
    ensures outputFile in fs' && fs'[outputFile] == ChainedContent(planText, next)
    ensures forall p | p != outputFile :: SameEntry(fs, fs', p)
  {
    fs[outputFile := ChainedContent(planText, next)]
  }

  /**
   * How a reader of an output file recovers the chain: when the last line is
   * a directive, the text before it and the file it names.
   */
  function ParseChainedPlan(content: string): (string, Option<Path>) {
    if content == [] || content[|content| - 1] != '\n' then (content, None)
    else
      var body := content[..|content| - 1];
      var start := RFind(body, '\n') + 1;
      var last := body[start..];
      if |last| >= 7 && last[..7] == "#chain " then (content[..start], Some(last[7..]))
      else (content, None)
  }

  /**
   * The directive can be read back: plan text ending in a newline (as
   * normalised text does) followed by the directive for a one-line name
   * parses into that text and that name.
   */
  lemma DirectiveRoundTrip(planText: string, next: Path)
    requires planText == [] || planText[|planText| - 1] == '\n'
    requires '\n' !in next
    ensures ParseChainedPlan(ChainedContent(planText, Some(next))) == (planText, Some(next))
  {
    var content := ChainedContent(planText, Some(next));
    var line := "#chain " + next;
    var body := content[..|content| - 1];
    assert body == planText + line;
    assert '\n' !in line by {
      forall i | 0 <= i < |line| ensures line[i] != '\n' {
        if i >= 7 { assert line[i] == next[i - 7]; }
      }
    }
    if planText == [] {
      assert body == line;
    } else {
      assert body[|planText| - 1] == '\n';
      assert body[|planText|..] == line;
      RFindIs(body, '\n', |planText| - 1);
    }
    assert content[..|planText|] == planText;
    ParseLastLine(content, |planText|, next);
  }

  /** Parsing a file whose last line, from `start`, is the directive for `next`. */
  lemma ParseLastLine(content: string, start: nat, next: Path)
    requires start < |content| && content[|content| - 1] == '\n'
    requires RFind(content[..|content| - 1], '\n') + 1 == start
    requires content[start..|content| - 1] == "#chain " + next
    ensures ParseChainedPlan(content) == (content[..start], Some(next))
  {
    var body := content[..|content| - 1];
    assert body[start..] == content[start..|content| - 1];
    assert body[start..][..7] == "#chain ";
    assert body[start..][7..] == next;
  }

  // ---------------------------------------------------------------------
  // The loop of write_chained_plans, as a specification over positions.

  /** State of a run after some positions: files, the cache, the paths read, the outcome. */
  datatype Progress = Progress(fs: FileSystem, cache: map<Path, string>, readLog: seq<Path>, outcome: Outcome<ChainError>)

  /** Number of positions `zip_longest(inputs, outputs, outputs[1:])` yields. */
  function Positions(inputs: seq<Path>, outputs: seq<Path>): nat {
    if |inputs| < |outputs| then |outputs| else |inputs|
  }

  /** The `outputs[1:]` entry at position `i`: the next file, if any. */
  function NextOutput(outputs: seq<Path>, i: nat): Option<Path> {
    if i + 1 < |outputs| then Some(outputs[i + 1]) else None
  }

  /**
   * Position `i` of the loop: take the plan text from the cache, or read and
   * cache it, then write output `i` chained to output `i + 1`.
   */
  function Step(s: Progress, inputs: seq<Path>, outputs: seq<Path>, i: nat): Progress {
    if i >= |inputs| then s.(outcome := Fail(MissingPath(i)))
    else
      var p := inputs[i];
      if p !in s.cache && p !in s.fs then s.(outcome := Fail(MissingInput(p)))
      else
        var s' := if p in s.cache then s
                  else s.(cache := s.cache[p := ReadPlanText(s.fs[p])], readLog := s.readLog + [p]);
        if i >= |outputs| then s'.(outcome := Fail(MissingPath(i)))
        else s'.(fs := WriteChainedPlan(s'.fs, s'.cache[p], outputs[i], NextOutput(outputs, i)))
  }

  /** The state after the first `k` positions; a failure stops the run. */
  function RunTo(fs: FileSystem, inputs: seq<Path>, outputs: seq<Path>, k: nat): Progress {
    if k == 0 then Progress(fs, map[], [], Pass)
    else
      var s := RunTo(fs, inputs, outputs, k - 1);
      if s.outcome.Fail? then s else Step(s, inputs, outputs, k - 1)
  }

  /** A whole run of write_chained_plans. */
  function ChainRun(fs: FileSystem, inputs: seq<Path>, outputs: seq<Path>): Progress {
    RunTo(fs, inputs, outputs, Positions(inputs, outputs))
  }

  predicate NoDuplicates(s: seq<Path>) {
    forall i, j | 0 <= i < j < |s| :: s[i] != s[j]
  }

  /** The distinct elements of `s` in order of first occurrence. */
  function Dedup(s: seq<Path>): (d: seq<Path>)
    ensures NoDuplicates(d)
    ensures forall x :: x in d <==> x in s
  {
    if s == [] then []
    else
      var d := Dedup(s[..|s| - 1]);
      assert s == s[..|s| - 1] + [s[|s| - 1]];
      if s[|s| - 1] in d then d else d + [s[|s| - 1]]
  }

  /** Index of the first occurrence of `x` in `s`. */
  function FirstIndex(s: seq<Path>, x: Path): (i: nat)
    requires x in s
    ensures i < |s| && s[i] == x && x !in s[..i]
  {
    if s[0] == x then 0
    else
      assert s == [s[0]] + s[1..];
      1 + FirstIndex(s[1..], x)
  }

  /** The outputs the first `k` positions may write. */
  function Take(s: seq<Path>, k: nat): seq<Path> {
    if k <= |s| then s[..k] else s
  }

  // ---------------------------------------------------------------------

  /** A failure ends the run: later positions change nothing. */
  lemma {:induction false} FailureIsFinal(fs: FileSystem, inputs: seq<Path>, outputs: seq<Path>, k: nat, m: nat)
    requires k <= m && RunTo(fs, inputs, outputs, k).outcome.Fail?
    ensures RunTo(fs, inputs, outputs, m) == RunTo(fs, inputs, outputs, k)
  {
    if k < m {
      FailureIsFinal(fs, inputs, outputs, k, m - 1);
      var s := RunTo(fs, inputs, outputs, m - 1);
      assert s.outcome.Fail?;
      assert RunTo(fs, inputs, outputs, m) == s;
    }
  }

  /** A run that passes `k` positions passed every earlier one, and had paths for them. */
  lemma PassedBefore(fs: FileSystem, inputs: seq<Path>, outputs: seq<Path>, j: nat, k: nat)
    requires j <= k && RunTo(fs, inputs, outputs, k).outcome.Pass?
    ensures RunTo(fs, inputs, outputs, j).outcome.Pass?
    ensures k <= |inputs| && k <= |outputs|
  {
    if RunTo(fs, inputs, outputs, j).outcome.Fail? {
      FailureIsFinal(fs, inputs, outputs, j, k);
    }
  }

  /** The paths read are distinct and are exactly the cached ones. */
  ghost predicate ReadOnce(s: Progress) {
    NoDuplicates(s.readLog) && forall p :: p in s.cache <==> p in s.readLog
  }

  /** Every input path is read at most once: the paths read are distinct and are exactly the cached ones. */
  lemma {:induction false} ReadsEachInputOnce(fs: FileSystem, inputs: seq<Path>, outputs: seq<Path>, k: nat)
    ensures ReadOnce(RunTo(fs, inputs, outputs, k))
  {
    if k > 0 {
      ReadsEachInputOnce(fs, inputs, outputs, k - 1);
      var s := RunTo(fs, inputs, outputs, k - 1);
      if s.outcome.Fail? {
        assert RunTo(fs, inputs, outputs, k) == s;
      } else {
        StepReadsOnce(s, inputs, outputs, k - 1);
        assert RunTo(fs, inputs, outputs, k) == Step(s, inputs, outputs, k - 1);
      }
    }
  }

  /** A run that passes `k` positions has read the distinct inputs of those positions, in first-use order. */
  lemma {:induction false} ReadsInFirstUseOrder(fs: FileSystem, inputs: seq<Path>, outputs: seq<Path>, k: nat)
    ensures RunTo(fs, inputs, outputs, k).outcome.Pass? ==> RunTo(fs, inputs, outputs, k).readLog == Dedup(inputs[..k])
  {
    if k > 0 {
      var s := RunTo(fs, inputs, outputs, k - 1);
      if s.outcome.Pass? {
        PassedBefore(fs, inputs, outputs, k - 1, k - 1);
        ReadsInFirstUseOrder(fs, inputs, outputs, k - 1);
        ReadsEachInputOnce(fs, inputs, outputs, k - 1);
        StepReadsInOrder(s, inputs, outputs, k - 1);
      }
    }
  }

  /** One passing position extends the first-use order of the inputs read by its own input. */
  lemma StepReadsInOrder(s: Progress, inputs: seq<Path>, outputs: seq<Path>, i: nat)
    requires ReadOnce(s) && i <= |inputs| && s.readLog == Dedup(inputs[..i])
    ensures Step(s, inputs, outputs, i).outcome.Pass? ==> i < |inputs| && Step(s, inputs, outputs, i).readLog == Dedup(inputs[..i + 1])
  {
    StepReadsOnce(s, inputs, outputs, i);
    if i == |inputs| {
      return;
    }
    var x := inputs[i];
    assert inputs[..i + 1] == inputs[..i] + [x];
    DedupSnoc(inputs[..i], x);
  }

  lemma DedupSnoc(s: seq<Path>, x: Path)
    ensures Dedup(s + [x]) == if x in s then Dedup(s) else Dedup(s) + [x]
  {
    assert (s + [x])[..|s|] == s;
  }

  /** One position reads its input only when it is not cached yet. */
  lemma StepReadsOnce(s: Progress, inputs: seq<Path>, outputs: seq<Path>, i: nat)
    requires ReadOnce(s)
    ensures var t := Step(s, inputs, outputs, i);
            && ReadOnce(t)
            && (t.outcome.Pass? ==> i < |inputs| && t.readLog == if inputs[i] in s.readLog then s.readLog else s.readLog + [inputs[i]])
  {
  }

  /**
   * A position that passes had both paths, cached its input (keeping every
   * earlier cache entry) and wrote its output chained to the next one.
   */
  lemma StepPasses(s: Progress, inputs: seq<Path>, outputs: seq<Path>, i: nat)
    requires Step(s, inputs, outputs, i).outcome.Pass?
    ensures i < |inputs| && i < |outputs|
    ensures var t := Step(s, inputs, outputs, i);
            && inputs[i] in t.cache
            && (forall p | p in s.cache :: p in t.cache && t.cache[p] == s.cache[p])
            && t.fs == s.fs[outputs[i] := ChainedContent(t.cache[inputs[i]], NextOutput(outputs, i))]
  {
  }

  /** A cached text never changes once stored. */
  lemma {:induction false} CacheStable(fs: FileSystem, inputs: seq<Path>, outputs: seq<Path>, k: nat, m: nat)
    requires k <= m
    ensures forall p | p in RunTo(fs, inputs, outputs, k).cache ::
              p in RunTo(fs, inputs, outputs, m).cache
              && RunTo(fs, inputs, outputs, m).cache[p] == RunTo(fs, inputs, outputs, k).cache[p]
  {
    if k < m {
      CacheStable(fs, inputs, outputs, k, m - 1);
      var s := RunTo(fs, inputs, outputs, m - 1);
      if s.outcome.Fail? {
        assert RunTo(fs, inputs, outputs, m) == s;
      } else {
        StepKeepsCache(s, inputs, outputs, m - 1);
        assert RunTo(fs, inputs, outputs, m) == Step(s, inputs, outputs, m - 1);
      }
    }
  }

  /** One position never changes or drops a cache entry. */
  lemma StepKeepsCache(s: Progress, inputs: seq<Path>, outputs: seq<Path>, i: nat)
    ensures forall p | p in s.cache :: p in Step(s, inputs, outputs, i).cache && Step(s, inputs, outputs, i).cache[p] == s.cache[p]
  {
  }

  /** No path other than the outputs of the first `k` positions is written. */
  lemma {:induction false} RunFrame(fs: FileSystem, inputs: seq<Path>, outputs: seq<Path>, k: nat)
    ensures forall p | p !in Take(outputs, k) :: SameEntry(fs, RunTo(fs, inputs, outputs, k).fs, p)
  {
    if k > 0 {
      RunFrame(fs, inputs, outputs, k - 1);
      forall p | p !in Take(outputs, k) ensures SameEntry(fs, RunTo(fs, inputs, outputs, k).fs, p) {
        assert p !in Take(outputs, k - 1) by {
          if k - 1 < |outputs| { assert Take(outputs, k) == Take(outputs, k - 1) + [outputs[k - 1]]; }
        }
      }
    }
  }

  /** The inputs of the positions a run has passed are all cached. */
  lemma PassedInputsCached(fs: FileSystem, inputs: seq<Path>, outputs: seq<Path>, k: nat)
    requires RunTo(fs, inputs, outputs, k).outcome.Pass?
    ensures k <= |inputs|
    ensures forall p :: p in RunTo(fs, inputs, outputs, k).cache <==> p in inputs[..k]
  {
    PassedBefore(fs, inputs, outputs, k, k);
    ReadsEachInputOnce(fs, inputs, outputs, k);
  }

  /**
   * With distinct output names, each output of a passed position holds its
   * cached plan text followed by the directive for the next output, if any.
   */
  lemma {:induction false} WrittenContents(fs: FileSystem, inputs: seq<Path>, outputs: seq<Path>, k: nat)
    requires NoDuplicates(outputs) && RunTo(fs, inputs, outputs, k).outcome.Pass?
    ensures k <= |inputs| && k <= |outputs|
    ensures forall j | 0 <= j < k ::
              && inputs[j] in RunTo(fs, inputs, outputs, k).cache
              && outputs[j] in RunTo(fs, inputs, outputs, k).fs
              && RunTo(fs, inputs, outputs, k).fs[outputs[j]]
                 == ChainedContent(RunTo(fs, inputs, outputs, k).cache[inputs[j]], NextOutput(outputs, j))
  {
    PassedBefore(fs, inputs, outputs, k, k);
    PassedInputsCached(fs, inputs, outputs, k);
    if k > 0 {
      PassedBefore(fs, inputs, outputs, k - 1, k);
      WrittenContents(fs, inputs, outputs, k - 1);
      var s, t := RunTo(fs, inputs, outputs, k - 1), RunTo(fs, inputs, outputs, k);
      assert t == Step(s, inputs, outputs, k - 1);
      StepPasses(s, inputs, outputs, k - 1);
      forall j | 0 <= j < k
        ensures inputs[j] in t.cache && outputs[j] in t.fs
        ensures t.fs[outputs[j]] == ChainedContent(t.cache[inputs[j]], NextOutput(outputs, j))
      {
        if j < k - 1 {
          assert outputs[j] != outputs[k - 1];
        }
      }
    }
  }

  /**
   * The cache serves the text of the first read: for every passed position
   * `i`, the text used is the normalised contents its input path had when
   * the first position naming that path was reached, even if the path was
   * overwritten afterwards.
   */
  lemma CachedTextIsFirstRead(fs: FileSystem, inputs: seq<Path>, outputs: seq<Path>, k: nat, i: nat)
    requires RunTo(fs, inputs, outputs, k).outcome.Pass? && i < k
    ensures i < |inputs| && FirstIndex(inputs, inputs[i]) <= i
    ensures var p, f := inputs[i], FirstIndex(inputs, inputs[i]);
            && p in RunTo(fs, inputs, outputs, k).cache
            && p in RunTo(fs, inputs, outputs, f).fs
            && RunTo(fs, inputs, outputs, k).cache[p] == ReadPlanText(RunTo(fs, inputs, outputs, f).fs[p])
  {
    PassedBefore(fs, inputs, outputs, k, k);
    var p := inputs[i];
    assert p in inputs[..i + 1];
    var f := FirstIndex(inputs, p);
    PassedBefore(fs, inputs, outputs, f + 1, k);
    PassedBefore(fs, inputs, outputs, f, k);
    PassedInputsCached(fs, inputs, outputs, f);
    CacheStable(fs, inputs, outputs, f + 1, k);
  }

  /** No input path is one of the output names. */
  predicate Unaliased(inputs: seq<Path>, outputs: seq<Path>) {
    forall i | 0 <= i < |inputs| :: inputs[i] !in outputs
  }

  /**
   * When no input is an output, a run of aligned inputs and outputs passes
   * position `k` exactly when the inputs of those positions exist, and
   * otherwise stops at an input that does not.
   */
  lemma {:induction false} PassesIffInputsExist(fs: FileSystem, inputs: seq<Path>, outputs: seq<Path>, k: nat)
    requires |inputs| == |outputs| && k <= |inputs| && Unaliased(inputs, outputs)
    ensures var run := RunTo(fs, inputs, outputs, k);
            && (run.outcome.Pass? <==> forall i | 0 <= i < k :: inputs[i] in fs)
            && (run.outcome.Fail? ==> run.outcome.error.MissingInput? && run.outcome.error.path in inputs[..k]
                                      && run.outcome.error.path !in fs)
  {
    if k > 0 {
      PassesIffInputsExist(fs, inputs, outputs, k - 1);
      var s := RunTo(fs, inputs, outputs, k - 1);
      assert inputs[..k] == inputs[..k - 1] + [inputs[k - 1]];
      if s.outcome.Pass? {
        NextPassesIffInputExists(fs, inputs, outputs, k);
      } else {
        assert RunTo(fs, inputs, outputs, k) == s;
      }
    }
  }

  /** The position after a passed prefix of an unaliased run passes exactly when its input exists. */
  lemma NextPassesIffInputExists(fs: FileSystem, inputs: seq<Path>, outputs: seq<Path>, k: nat)
    requires |inputs| == |outputs| && 0 < k <= |inputs| && Unaliased(inputs, outputs)
    requires RunTo(fs, inputs, outputs, k - 1).outcome.Pass?
    requires forall j | 0 <= j < k - 1 :: inputs[j] in fs
    ensures var t := RunTo(fs, inputs, outputs, k);
            && (t.outcome.Pass? <==> inputs[k - 1] in fs)
            && (t.outcome.Fail? ==> t.outcome.error == MissingInput(inputs[k - 1]))
  {
    var s := RunTo(fs, inputs, outputs, k - 1);
    var p := inputs[k - 1];
    assert p in s.cache <==> p in inputs[..k - 1] by {
      PassedInputsCached(fs, inputs, outputs, k - 1);
    }
    assert SameEntry(fs, s.fs, p) by {
      RunFrame(fs, inputs, outputs, k - 1);
      assert p !in Take(outputs, k - 1);
    }
    StepPassesIffInputExists(fs, s, inputs, outputs, k - 1);
    assert RunTo(fs, inputs, outputs, k) == Step(s, inputs, outputs, k - 1);
  }

  /**
   * One position of a run whose earlier inputs all exist: it passes exactly
   * when its own input exists in the original files.
   */
  lemma StepPassesIffInputExists(fs: FileSystem, s: Progress, inputs: seq<Path>, outputs: seq<Path>, i: nat)
    requires s.outcome.Pass? && i < |inputs| && i < |outputs|
    requires inputs[i] in s.cache <==> inputs[i] in inputs[..i]
    requires SameEntry(fs, s.fs, inputs[i])
    requires forall j | 0 <= j < i :: inputs[j] in fs
    ensures var t := Step(s, inputs, outputs, i);
            && (t.outcome.Pass? <==> inputs[i] in fs)
            && (t.outcome.Fail? ==> t.outcome.error == MissingInput(inputs[i]))
  {
    var p := inputs[i];
    if p in inputs[..i] {
      var j :| 0 <= j < i && inputs[..i][j] == p;
      assert inputs[j] == p;
    }
  }

  /**
   * The chain a run writes. With aligned inputs and outputs, distinct
   * output names and no input among the outputs: the run succeeds exactly
   * when every input exists; output `i` then holds the normalised text of
   * input `i`, followed by "#chain <output i+1>" for every output but the
   * last; on failure the run names a missing input; and whatever happens,
   * no path other than the outputs changes.
   */
  lemma ChainContents(fs: FileSystem, inputs: seq<Path>, outputs: seq<Path>)
    requires |inputs| == |outputs| && NoDuplicates(outputs) && Unaliased(inputs, outputs)
    ensures var run := ChainRun(fs, inputs, outputs);
            && (run.outcome.Pass? <==> forall i | 0 <= i < |inputs| :: inputs[i] in fs)
            && (run.outcome.Fail? ==> run.outcome.error.MissingInput? && run.outcome.error.path in inputs
                                      && run.outcome.error.path !in fs)
            && (run.outcome.Pass? ==>
                  forall i | 0 <= i < |outputs| ::
                    && outputs[i] in run.fs && inputs[i] in fs
                    && run.fs[outputs[i]] == ChainedContent(Normalize(fs[inputs[i]]), NextOutput(outputs, i)))
            && forall p | p !in outputs :: SameEntry(fs, run.fs, p)
  {
    var n := |inputs|;
    PassesIffInputsExist(fs, inputs, outputs, n);
    RunFrame(fs, inputs, outputs, n);
    assert inputs[..n] == inputs;
    var run := RunTo(fs, inputs, outputs, n);
    if run.outcome.Pass? {
      WrittenContents(fs, inputs, outputs, n);
      forall i | 0 <= i < n
        ensures run.fs[outputs[i]] == ChainedContent(Normalize(fs[inputs[i]]), NextOutput(outputs, i))
      {
        var p := inputs[i];
        CachedTextIsFirstRead(fs, inputs, outputs, n, i);
        var f := FirstIndex(inputs, p);
        RunFrame(fs, inputs, outputs, f);
        assert p !in Take(outputs, f);
        ReadPlanTextIsNormalize(fs[p]);
      }
    }
  }

  /** Index of the first input at or after `i` that is not a file, or `|inputs|`. */
  function FirstMissing(fs: FileSystem, inputs: seq<Path>, i: nat): (f: nat)
    requires i <= |inputs|
    ensures i <= f <= |inputs|
    ensures forall j | i <= j < f :: inputs[j] in fs
    ensures f < |inputs| ==> inputs[f] !in fs
    decreases |inputs| - i
  {
    if i == |inputs| || inputs[i] !in fs then i else FirstMissing(fs, inputs, i + 1)
  }

  /** A position that fails leaves the files as they were. */
  lemma StepFailsKeepsFiles(s: Progress, inputs: seq<Path>, outputs: seq<Path>, i: nat)
    requires s.outcome.Pass?
    ensures Step(s, inputs, outputs, i).outcome.Fail? ==> Step(s, inputs, outputs, i).fs == s.fs
  {
  }

  /** In an unaliased run, every cached input text is the normalised original file. */
  lemma CachedIsOriginal(fs: FileSystem, inputs: seq<Path>, outputs: seq<Path>, k: nat, i: nat)
    requires Unaliased(inputs, outputs) && RunTo(fs, inputs, outputs, k).outcome.Pass? && i < k
    ensures i < |inputs| && inputs[i] in fs && inputs[i] in RunTo(fs, inputs, outputs, k).cache
    ensures RunTo(fs, inputs, outputs, k).cache[inputs[i]] == Normalize(fs[inputs[i]])
  {
    var p := inputs[i];
    CachedTextIsFirstRead(fs, inputs, outputs, k, i);
    var f := FirstIndex(inputs, p);
    RunFrame(fs, inputs, outputs, f);
    assert p !in Take(outputs, f);
    ReadPlanTextIsNormalize(fs[p]);
  }

  /**
   * A run of aligned, distinct, unaliased paths with a missing input stops
   * at the first one: it fails naming that input, the outputs of the earlier
   * positions hold their chained plans, and no other path has changed.
   */
  lemma ChainStopsAtFirstMissing(fs: FileSystem, inputs: seq<Path>, outputs: seq<Path>)
    requires |inputs| == |outputs| && NoDuplicates(outputs) && Unaliased(inputs, outputs)
    ensures var run, f := ChainRun(fs, inputs, outputs), FirstMissing(fs, inputs, 0);
            f < |inputs| ==>
              && run.outcome == Fail(MissingInput(inputs[f]))
              && (forall j | 0 <= j < f ::
                    outputs[j] in run.fs
                    && run.fs[outputs[j]] == ChainedContent(Normalize(fs[inputs[j]]), NextOutput(outputs, j)))
              && forall p | p !in outputs[..f] :: SameEntry(fs, run.fs, p)
  {
    var f := FirstMissing(fs, inputs, 0);
    if f < |inputs| {
      var n := |inputs|;
      PassesIffInputsExist(fs, inputs, outputs, f);
      var s := RunTo(fs, inputs, outputs, f);
      NextPassesIffInputExists(fs, inputs, outputs, f + 1);
      assert RunTo(fs, inputs, outputs, f + 1) == Step(s, inputs, outputs, f);
      StepFailsKeepsFiles(s, inputs, outputs, f);
      FailureIsFinal(fs, inputs, outputs, f + 1, n);
      WrittenContents(fs, inputs, outputs, f);
      RunFrame(fs, inputs, outputs, f);
      assert Take(outputs, f) == outputs[..f];
      forall j | 0 <= j < f
        ensures s.cache[inputs[j]] == Normalize(fs[inputs[j]])
      {
        CachedIsOriginal(fs, inputs, outputs, f, j);
      }
    }
  }

  /**
   * Reads are lazy, in general: when the first position naming input path
   * `inputs[i]` comes after position `j`, and that path is output `j`, the
   * text used is the normalised chained content position `j` wrote there.
   */
  lemma EarlierOutputRead(fs: FileSystem, inputs: seq<Path>, outputs: seq<Path>, k: nat, i: nat, j: nat)
    requires NoDuplicates(outputs) && RunTo(fs, inputs, outputs, k).outcome.Pass? && i < k
    requires i < |inputs| && j < |outputs| && inputs[i] == outputs[j] && j < FirstIndex(inputs, inputs[i])
    ensures j < |inputs|
    ensures var run := RunTo(fs, inputs, outputs, k);
            && inputs[i] in run.cache && inputs[j] in run.cache
            && run.cache[inputs[i]] == ReadPlanText(ChainedContent(run.cache[inputs[j]], NextOutput(outputs, j)))
  {
    var p := inputs[i];
    var f := FirstIndex(inputs, p);
    CachedTextIsFirstRead(fs, inputs, outputs, k, i);
    PassedBefore(fs, inputs, outputs, f, k);
    WrittenContents(fs, inputs, outputs, f);
    CacheStable(fs, inputs, outputs, f, k);
  }

  /**
   * Reads are lazy: an input that names an earlier output is read after that
   * output was written, so its text is the chained content, directive included.
   */
  lemma ReadSeesEarlierOutput(fs: FileSystem, a: Path, o0: Path, o1: Path)
    requires a in fs && a != o0 && o0 != o1
    ensures var run := ChainRun(fs, [a, o0], [o0, o1]);
            && run.outcome == Pass
            && run.readLog == [a, o0]
            && o1 in run.fs
            && run.fs[o1] == ReadPlanText(ReadPlanText(fs[a]) + Directive(o1))
  {
    var inputs, outputs := [a, o0], [o0, o1];
    var s0 := RunTo(fs, inputs, outputs, 0);
    assert s0 == Progress(fs, map[], [], Pass);
    var s1 := Step(s0, inputs, outputs, 0);
    assert RunTo(fs, inputs, outputs, 1) == s1;
    assert inputs[0] == a && outputs[0] == o0 && NextOutput(outputs, 0) == Some(o1);
    assert s1.cache == map[a := ReadPlanText(fs[a])] && s1.readLog == [a];
    assert s1.fs == fs[o0 := ReadPlanText(fs[a]) + Directive(o1)];
    var s2 := Step(s1, inputs, outputs, 1);
    assert RunTo(fs, inputs, outputs, 2) == s2;
    assert inputs[1] == o0 && outputs[1] == o1 && NextOutput(outputs, 1) == None;
  }

  /**
   * The cache hides later writes: when a cached input path is overwritten
   * by an output, later positions naming it still use the text first read.
   */
  lemma CacheHidesLaterWrite(fs: FileSystem, x: Path, o0: Path, o1: Path, o2: Path)
    requires o1 in fs && x in fs
    requires o0 != o1 && o1 != o2 && o0 != o2 && x != o0 && x != o1 && x != o2
    ensures var run := ChainRun(fs, [o1, x, o1], [o0, o1, o2]);
            && run.outcome == Pass
            && run.readLog == [o1, x]
            && o1 in run.fs && o2 in run.fs
            && run.fs[o1] == ReadPlanText(fs[x]) + Directive(o2)
            && run.fs[o2] == ReadPlanText(fs[o1])
  {
    var inputs, outputs := [o1, x, o1], [o0, o1, o2];
    var s0 := RunTo(fs, inputs, outputs, 0);
    assert s0 == Progress(fs, map[], [], Pass);
    var s1 := Step(s0, inputs, outputs, 0);
    assert RunTo(fs, inputs, outputs, 1) == s1;
    assert inputs[0] == o1 && outputs[0] == o0 && NextOutput(outputs, 0) == Some(o1);
    assert s1.cache == map[o1 := ReadPlanText(fs[o1])] && s1.readLog == [o1];
    assert s1.fs == fs[o0 := ReadPlanText(fs[o1]) + Directive(o1)];
    var s2 := Step(s1, inputs, outputs, 1);
    assert RunTo(fs, inputs, outputs, 2) == s2;
    assert inputs[1] == x && outputs[1] == o1 && NextOutput(outputs, 1) == Some(o2);
    assert s2.cache == s1.cache[x := ReadPlanText(fs[x])] && s2.readLog == [o1, x];
    assert s2.fs == s1.fs[o1 := ReadPlanText(fs[x]) + Directive(o2)];
    var s3 := Step(s2, inputs, outputs, 2);
    assert RunTo(fs, inputs, outputs, 3) == s3;
    assert inputs[2] == o1 && outputs[2] == o2 && NextOutput(outputs, 2) == None;
    assert s3.fs == s2.fs[o2 := ReadPlanText(fs[o1])];
  }

  // ---------------------------------------------------------------------
  // The program.

  /**
   * `write_chained_plans`: walks the positions in order, reading each input
   * path at most once through a cache, and writes every output. A failure
   * stops the run and keeps the files already written.
   */
  method WriteChainedPlans(fs: FileSystem, inputs: seq<Path>, outputs: seq<Path>)
    returns (fs': FileSystem, readLog: seq<Path>, outcome: Outcome<ChainError>)
    ensures var run := ChainRun(fs, inputs, outputs);
            fs' == run.fs && readLog == run.readLog && outcome == run.outcome
    ensures NoDuplicates(readLog)
    ensures forall p | p !in outputs :: SameEntry(fs, fs', p)
  {
    var cache: map<Path, string> := map[];
    fs', readLog, outcome := fs, [], Pass;
    var n := Positions(inputs, outputs);
    ghost var stop := 0;
    var i := 0;
    while i < n && outcome.Pass?
      invariant i <= n && stop <= n
      invariant outcome.Pass? ==> stop == i
      invariant RunTo(fs, inputs, outputs, stop) == Progress(fs', cache, readLog, outcome)
    {
      ghost var before := Progress(fs', cache, readLog, outcome);
      assert RunTo(fs, inputs, outputs, i + 1) == Step(before, inputs, outputs, i);
      stop := i + 1;
      if i >= |inputs| {
        outcome := Fail(MissingPath(i));
      } else {
        var infile := inputs[i];
        var planText: string;
        if infile in cache {
          planText := cache[infile];
        } else if infile in fs' {
          planText := ReadPlanText(fs'[infile]);
          cache := cache[infile := planText];
          readLog := readLog + [infile];
        } else {
          outcome := Fail(MissingInput(infile));
        }
        if outcome.Pass? {
          if i >= |outputs| {
            outcome := Fail(MissingPath(i));
          } else {
            fs' := WriteChainedPlan(fs', planText, outputs[i], NextOutput(outputs, i));
          }
        }
      }
      assert Progress(fs', cache, readLog, outcome) == Step(before, inputs, outputs, i);
      i := i + 1;
    }
    assert RunTo(fs, inputs, outputs, n) == Progress(fs', cache, readLog, outcome) by {
      if outcome.Fail? {
        FailureIsFinal(fs, inputs, outputs, stop, n);
      }
    }
    assert NoDuplicates(readLog) by {
      ReadsEachInputOnce(fs, inputs, outputs, n);
    }
    assert Take(outputs, n) == outputs;
    RunFrame(fs, inputs, outputs, n);
  }

  /**
   * `main`: refuses fewer than two or more than 9999 plans, and a missing
   * output pattern, before touching any file; otherwise names the outputs
   * from the pattern and chains the plans into them.
   */
  method ChainPlans(fs: FileSystem, plans: seq<Path>, pattern: Option<Path>)
    returns (fs': FileSystem, outcome: Outcome<ChainError>)
    ensures |plans| < 2 ==> fs' == fs && outcome == Fail(TooFewPlans)
    ensures |plans| > 9999 ==> fs' == fs && outcome == Fail(TooManyPlans)
    ensures 2 <= |plans| <= 9999 && pattern.None? ==> fs' == fs && outcome == Fail(NoOutputPattern)
    ensures 2 <= |plans| <= 9999 && pattern.Some? ==>
              var run := ChainRun(fs, plans, OutputNameSeq(pattern.value, |plans|));
              fs' == run.fs && outcome == run.outcome
    ensures 2 <= |plans| <= 9999 && pattern.Some? ==>
              var outputs := OutputNameSeq(pattern.value, |plans|);
              Unaliased(plans, outputs) ==>
                && (outcome.Pass? <==> forall i | 0 <= i < |plans| :: plans[i] in fs)
                && (outcome.Pass? ==>
                      forall i | 0 <= i < |plans| ::
                        && outputs[i] in fs' && plans[i] in fs
                        && fs'[outputs[i]] == ChainedContent(Normalize(fs[plans[i]]), NextOutput(outputs, i)))
                && forall p | p !in outputs :: SameEntry(fs, fs', p)
    ensures 2 <= |plans| <= 9999 && pattern.Some? ==>
              var outputs, f := OutputNameSeq(pattern.value, |plans|), FirstMissing(fs, plans, 0);
              Unaliased(plans, outputs) && f < |plans| ==>
                && outcome == Fail(MissingInput(plans[f]))
                && (forall j | 0 <= j < f ::
                      outputs[j] in fs'
                      && fs'[outputs[j]] == ChainedContent(Normalize(fs[plans[j]]), NextOutput(outputs, j)))
                && forall p | p !in outputs[..f] :: SameEntry(fs, fs', p)
  {
    var length := |plans|;
    if length < 2 {
      return fs, Fail(TooFewPlans);
    }
    if length > 9999 {
      return fs, Fail(TooManyPlans);
    }
    if pattern.None? {
      return fs, Fail(NoOutputPattern);
    }
    var outputFiles := OutputNames(pattern.value, length);
    assert outputFiles == OutputNameSeq(pattern.value, length);
    var readLog;
    fs', readLog, outcome := WriteChainedPlans(fs, plans, outputFiles);
    ghost var unaliased := Unaliased(plans, outputFiles);
    if unaliased {
      ChainContents(fs, plans, outputFiles);
      ChainStopsAtFirstMissing(fs, plans, outputFiles);
    }
  }
}
