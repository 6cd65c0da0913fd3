# chain_itelescope in Dafny

A model of `bin/chain_itelescope.py`, the script that chains iTelescope
observing plans. The script takes the input plans and an output filename
pattern. It writes one output file per input. Each output holds that input's
plan text, and every output but the last ends with a `#chain <next output>`
line, so the telescope runs the plans one after another.

The model has four modules:

- `Wrappers` (wrappers.dfy): `Option` and `Outcome`.
- `Naming` (naming.dfy): `output_names`.
  - `os.path.splitext` with the POSIX rules: last `.` of the final `/`
    segment, leading dots ignored. This is `SplitExt`, following the
    index scan of the library function.
  - `f"{i:04d}"` (`FormatIndex`).
  - Python's ordering of `str` values (`LexLess`).
  - The `for` loop that appends the names (`OutputNames`).
- `PlanText` (plan_text.dfy): what happens to a plan file's contents.
  - Universal-newline translation of a text-mode read (`TranslateNewlines`).
  - `str.splitlines` with Python's full set of line boundaries.
  - `'\n'.join(lines + [''])` (`Normalize`).
- `Chain` (chain.dfy): the chaining itself.
  - `write_chained_plan`, as a function on a file system.
  - `write_chained_plans` with its `file_cache`, as a method with a loop.
  - `main`'s guards, as `ChainPlans`.

The file system is a value of type `map<Path, string>`:

- A read looks a path up.
- A write replaces one entry.
- The run threads the map through the positions in order. A read therefore
  sees every output already written under the same path string, as the
  script's lazy reads do. Paths are compared as strings: two spellings of
  one file are two entries (see "## Left out").

`RunTo`/`Step` specify the loop position by position. `WriteChainedPlans`
is proved equal to that specification, and the lemmas state what the
specification guarantees.

`WriteChainedPlans` also returns the list of paths it read (`readLog`). This
makes "each input is read once" something a contract can state.

`ParseChainedPlan` is not part of the script. It is the reader's side of the
`#chain` line, and its only use is to state that the directive round-trips.

Normalisation terminates each line exactly once and adds no blank line: a
one-line input `LINE1` (with or without a final newline) becomes `LINE1\n`,
so the first output of a chain over it is `LINE1\n#chain out_0001.plan\n`.
`PlanText.NormalizeOneLine` states this.

## Model

| member | source | states |
|---|---|---|
| Naming.RFind | bin/chain_itelescope.py:35 | the index found holds the character and no later index does, or -1 when there is none |
| Naming.SplitExt | bin/chain_itelescope.py:35 | root and extension concatenate back to the pattern; a non-empty extension starts with `.` and holds neither `/` nor another `.` |
| Naming.SplitExtLeadingDotRule | bin/chain_itelescope.py:35 | the extension is non-empty exactly when a `.` follows the leading dots of the last path segment |
| Naming.SplitExtAt | bin/chain_itelescope.py:35 | a path with no `/` splits at its last `.` when some non-dot character precedes it |
| Naming.SplitSimplePattern | bin/chain_itelescope.py:35 | a pattern `root.ext` with a root that is not all dots splits into `root` and `.ext` |
| Naming.DigitsRoundTrip | bin/chain_itelescope.py:38 | zero-padded digits of `n` at a width it fits in read back as `n` |
| Naming.FormatIndexRoundTrip | bin/chain_itelescope.py:38 | the `{i:04d}` text is all digits, reads back as `i`, is at least four long, and is exactly four long iff `i < 10000` |
| Naming.FormatFourDigits | bin/chain_itelescope.py:38 | below 10000 the index is written with exactly four digits |
| Naming.FormatOneDigit | bin/chain_itelescope.py:38 | an index below ten is written as `000` followed by its digit |
| Naming.DigitsOrdered | bin/chain_itelescope.py:38 | equal-width digit strings sort as the numbers they denote |
| Naming.OutputNameShape | bin/chain_itelescope.py:35-38 | name `i` is the pattern's root, `_`, the index text and the pattern's extension, with root and extension rebuilding the pattern |
| Naming.OutputNameOfSimplePattern | bin/chain_itelescope.py:35-38 | for a pattern `root.ext` name `i` is `root_<index>.ext` |
| Naming.OutputNamesDistinct | bin/chain_itelescope.py:38 | different indices give different names, for any pattern |
| Naming.OutputNamesOrdered | bin/chain_itelescope.py:38 | for indices up to 9999 the names sort in chain order |
| Naming.OrderBreaksPastLimit | bin/chain_itelescope.py:71-72 | without the 9999 limit the order would break: name 10000 sorts before name 9999 |
| Naming.FormatIndex | bin/chain_itelescope.py:38 | `f"{i:04d}"`: the digits of `i`, zero-padded to at least four; characterised by `FormatIndexRoundTrip`, `FormatFourDigits` and `FormatOneDigit` |
| Naming.OutputName | bin/chain_itelescope.py:35-38 | name `i` of a chain: the root of the split pattern, `_`, `FormatIndex(i)` and the extension; characterised by `OutputNameShape`, `OutputNamesDistinct` and `OutputNamesOrdered` |
| Naming.OutputNameSeq | bin/chain_itelescope.py:36-39 | the list `output_names` returns, of exactly `length` names; `OutputNames` is proved to build it |
| Naming.LexLess | bin/chain_itelescope.py:38 | Python's `<` on `str` (code-point lexicographic), the order in which `OutputNamesOrdered` and `OrderBreaksPastLimit` compare the names |
| Naming.OutputNames | bin/chain_itelescope.py:34-39 | returns exactly `length` names, name `i` at index `i`, pairwise distinct, and sorted when at most 10000 are asked for |
| PlanText.LineEnd | bin/chain_itelescope.py:59 | the index returned is within the string and, when short of its end, holds a line boundary; that no earlier character is one is `LineEndBreakFree` |
| PlanText.LineEndBreakFree | bin/chain_itelescope.py:59 | no character before the first boundary is a boundary |
| PlanText.SplitLines | bin/chain_itelescope.py:59 | `splitlines` gives no lines exactly for the empty string |
| PlanText.SplitLinesBreakFree | bin/chain_itelescope.py:59 | no line `splitlines` returns contains a line boundary |
| PlanText.SplitLinesAtBreak | bin/chain_itelescope.py:59 | a boundary-free line followed by a boundary (`\r\n` as one) splits off as the first line |
| PlanText.TranslateLine | bin/chain_itelescope.py:58 | a text-mode read leaves a boundary-free line unchanged |
| PlanText.TranslateBreak | bin/chain_itelescope.py:58 | a text-mode read turns `\r\n` and `\r` into one `\n` and keeps every other boundary |
| PlanText.SplitLinesIgnoresTranslation | bin/chain_itelescope.py:58-59 | `splitlines` gives the same lines whether or not the newlines were translated |
| PlanText.TranslateNewlines | bin/chain_itelescope.py:58 | the universal-newline translation of a text-mode `open`; characterised by `TranslateLine`, `TranslateBreak` and `SplitLinesIgnoresTranslation` |
| PlanText.Join | bin/chain_itelescope.py:61 | `'\n'.join(lines)`; characterised by `JoinWithEmptyLast` |
| PlanText.Normalize | bin/chain_itelescope.py:59-61 | `'\n'.join(text.splitlines() + [''])`; characterised by `NormalizeTerminatesLines`, `NormalizeIdempotent`, `NormalizeFixedPoints` and `NormalizeOneLine` |
| PlanText.ReadPlanText | bin/chain_itelescope.py:58-61 | the cached plan text of a file: its contents read in text mode, then normalised; equal to `Normalize` of the raw contents by `ReadPlanTextIsNormalize` |
| PlanText.ReadPlanTextIsNormalize | bin/chain_itelescope.py:58-61 | the plan text of a file is the normalisation of its raw contents |
| PlanText.JoinWithEmptyLast | bin/chain_itelescope.py:60-61 | joining lines with an extra empty line is each line followed by `\n` |
| PlanText.TerminatedShape | bin/chain_itelescope.py:60-61 | `\n`-terminated boundary-free lines form text that is empty only for no lines, ends in `\n`, and has `\n` as its only boundary |
| PlanText.NormalizeTerminatesLines | bin/chain_itelescope.py:59-61 | the plan text is each line followed by `\n`; it is empty exactly for an empty file and otherwise ends in `\n` |
| PlanText.SplitTerminated | bin/chain_itelescope.py:59-61 | splitting `\n`-terminated boundary-free lines gives the lines back |
| PlanText.TerminatedSplitOfTerminated | bin/chain_itelescope.py:59-61 | re-terminating the lines of `\n`-terminated text gives the text back |
| PlanText.NormalizeIdempotent | bin/chain_itelescope.py:59-61 | normalising twice is normalising once |
| PlanText.NormalizeFixedPoints | bin/chain_itelescope.py:59-61 | a text is unchanged by normalisation iff its only boundary is `\n` and it is empty or ends in `\n` |
| PlanText.NormalizeOneLine | bin/chain_itelescope.py:59-61 | a single line normalises to the line plus one `\n`, whether or not it already had one |
| Chain.Directive | bin/chain_itelescope.py:45 | the line `#chain <next>` ended by a newline; read back by `DirectiveRoundTrip` |
| Chain.ChainedContent | bin/chain_itelescope.py:44-49 | what an output holds: the plan text, then the directive only when there is a next file; see `WriteChainedPlan` and `DirectiveRoundTrip` |
| Chain.Positions | bin/chain_itelescope.py:53-54 | the number of tuples `zip_longest` yields: the longer of inputs and outputs |
| Chain.NextOutput | bin/chain_itelescope.py:54 | the `output_files[1:]` entry of position `i`: output `i+1`, or `None` past the end |
| Chain.Step | bin/chain_itelescope.py:55-63 | one loop position: a missing path or input fails, a cached input is reused, an uncached one is read and cached, then the output is written; see `StepPasses`, `StepReadsOnce` and `StepKeepsCache` |
| Chain.RunTo | bin/chain_itelescope.py:53-63 | the state after the first `k` positions, stopping at the first failure; see `FailureIsFinal`, `ReadsEachInputOnce`, `RunFrame` and `WrittenContents` |
| Chain.ChainRun | bin/chain_itelescope.py:51-63 | a whole run of `write_chained_plans`; `WriteChainedPlans` is proved to end in it and `ChainContents` states its result |
| Chain.WriteChainedPlan | bin/chain_itelescope.py:41-49 | the output holds the plan text, plus the directive only when there is a next file; no other path changes |
| Chain.DirectiveRoundTrip | bin/chain_itelescope.py:45 | text ending in a newline, followed by the directive for a one-line name, parses back into that text and that name |
| Chain.ParseLastLine | bin/chain_itelescope.py:45 | a file whose last line is the directive parses into the text before it and the named file |
| Chain.FailureIsFinal | bin/chain_itelescope.py:53-63 | once a position fails, later positions change nothing |
| Chain.PassedBefore | bin/chain_itelescope.py:53-54 | a run past position `k` passed every earlier position and had both an input and an output path for each |
| Chain.StepReadsOnce | bin/chain_itelescope.py:55-62 | one position reads its input only when the input is not cached, and the paths read stay exactly the cached ones |
| Chain.ReadsEachInputOnce | bin/chain_itelescope.py:52-62 | the paths read are pairwise distinct and are exactly the cached paths |
| Chain.StepReadsInOrder | bin/chain_itelescope.py:55-62 | a passing position extends the first-use order of the paths read |
| Chain.ReadsInFirstUseOrder | bin/chain_itelescope.py:55-62 | a passing run has read the distinct inputs of its positions, in order of first use |
| Chain.StepPasses | bin/chain_itelescope.py:55-63 | a passing position had both paths, cached its input, kept every cache entry and wrote its output chained to the next |
| Chain.StepKeepsCache | bin/chain_itelescope.py:55-62 | one position never changes or drops a cache entry |
| Chain.CacheStable | bin/chain_itelescope.py:55-62 | a cached text never changes for the rest of the run |
| Chain.PassedInputsCached | bin/chain_itelescope.py:55-62 | after `k` passing positions the cached paths are exactly the inputs of those positions |
| Chain.RunFrame | bin/chain_itelescope.py:46-63 | no path other than the outputs of the positions reached is written |
| Chain.WrittenContents | bin/chain_itelescope.py:63 | with distinct output names, output `j` of a passing run holds the cached text of input `j` chained to output `j+1` |
| Chain.CachedTextIsFirstRead | bin/chain_itelescope.py:55-62 | the text used at any position is the normalised contents its input had when that path was first reached, even if it was overwritten later |
| Chain.StepPassesIffInputExists | bin/chain_itelescope.py:58 | a position whose earlier inputs exist passes exactly when its own input exists, and otherwise fails naming it |
| Chain.NextPassesIffInputExists | bin/chain_itelescope.py:58 | with no input among the outputs, the position after a passed prefix passes exactly when its input exists |
| Chain.PassesIffInputsExist | bin/chain_itelescope.py:58 | with no input among the outputs, a run passes `k` positions iff those inputs exist, and otherwise fails naming a missing one |
| Chain.ChainContents | bin/chain_itelescope.py:51-63 | with aligned, distinct, unaliased paths: the run succeeds iff every input exists; output `i` is the normalised input `i` plus the directive for output `i+1`, except the last; nothing else changes |
| Chain.FirstMissing | bin/chain_itelescope.py:58 | the index of the first input that is not a file (every earlier one is), or the number of inputs when all exist |
| Chain.StepFailsKeepsFiles | bin/chain_itelescope.py:58-63 | a position that fails writes nothing: the exception at the `open` comes before the write |
| Chain.CachedIsOriginal | bin/chain_itelescope.py:55-62 | in an unaliased run, the cached text of every passed input is the normalised original file |
| Chain.ChainStopsAtFirstMissing | bin/chain_itelescope.py:51-63 | with aligned, distinct, unaliased paths and a missing input: the run fails naming the first missing input, the outputs of the earlier positions hold their chained plans (no rollback), and no path outside those outputs changes |
| Chain.EarlierOutputRead | bin/chain_itelescope.py:55-63 | when an input path is output `j` of an earlier position than the one first naming it, the text used is the normalised chained content written at `j` |
| Chain.ReadSeesEarlierOutput | bin/chain_itelescope.py:58-63 | an input that names an earlier output is read after that output is written, so its text includes the directive |
| Chain.CacheHidesLaterWrite | bin/chain_itelescope.py:55-56 | a cached input later overwritten by an output is still served with the text first read |
| Chain.WriteChainedPlans | bin/chain_itelescope.py:51-63 | the loop ends in exactly the state the position-by-position run specifies; no path is read twice; only output paths change |
| Chain.ChainPlans | bin/chain_itelescope.py:66-74 | fewer than 2 or more than 9999 plans, or no pattern, fail without touching a file; otherwise the outputs are the run over the generated names, with the contents, success condition and frame of `ChainContents` when no input is an output name, and, when an input is missing, the first-missing failure, the kept earlier outputs and the frame of `ChainStopsAtFirstMissing` |

## Left out

- `parse_args` (bin/chain_itelescope.py:27-32): command-line parsing. The plans and the optional pattern are parameters of `ChainPlans`.
- I/O is not modelled beyond the map: permissions, missing directories, partial writes, decoding errors and the file system's encoding. A missing input is the only read failure (`MissingInput`).
- Other processes changing files during a run are not modelled.
- Paths are compared as strings. Different spellings of one file (`./out_0000.plan` and `out_0000.plan`, symbolic or hard links, names on a case-insensitive volume) are different entries of the map. So `Unaliased` means only that no input string equals an output string. For a run where an input names an output through another spelling, the model reads the file as it was before the run (or reports it missing), while the script reads what the run wrote there.
- The text-mode write's translation of `\n` to `os.linesep` is left out. The model writes the text as is, which is what POSIX systems do.
- Windows path rules for `splitext` (the `\` separator and the alternative separator) are left out. Only the POSIX `/` rule is modelled.
- Exception types and messages of `main` are left out. Each becomes a `ChainError` value:
  - too few plans;
  - too many plans;
  - no pattern (`splitext(None)` raises);
  - a missing input;
  - a `None` path from `zip_longest` (`MissingPath`).
- Chain.ChainContents: states contents and success only for runs where no input path is also an output name (as strings; see the line on path spellings). Its failure clause names some missing input; `ChainStopsAtFirstMissing` pins it to the first one and states the outputs kept. Runs with such aliasing are described by `WrittenContents`, `CachedTextIsFirstRead`, `ReadSeesEarlierOutput` and `CacheHidesLaterWrite` instead.
- Chain.ChainPlans: inherits the same restriction for its content, success and failure clauses. Its first four clauses hold for all inputs.
- Chain.DirectiveRoundTrip: covers only next-file names without a newline, since a name with one cannot be read back from a line-based file.
