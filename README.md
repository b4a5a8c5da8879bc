# Full-coverage tracker of the ccache NuGet packaging recipe

The recipe unpacks a ccache release and then checks that every entry of the
unpacked tree has been dealt with before it moves files into the package.
`FullCoverage` does that check. It tracks every entry found under a root
directory and gives each a two-bit status, `FullCoverageStatus`, with bits
INCLUDED (1) and EXCLUDED (2). A path starts with neither bit.

- `include(pattern, target)` ORs INCLUDED into every path the pattern
  matches. It also records, or overwrites, that path's destination label.
- `exclude(pattern)` ORs in EXCLUDED.
- `validate` raises an error while any tracked path still has the empty
  status. The message names the root and lists each uncovered path on its
  own `- file` line, in tracking order.
- Two queries return the included paths with their labels, and the
  excluded paths.

The model has four modules:

- `CoverageStatus` (status.dfy): the flag type as a `bv2`, with `|` for `|=`.
- `Lines` (lines.dfy): `"\n".join` and its inverse, `split("\n")`.
- `Coverage` (coverage.dfy): a class `FullCoverage`. Its fields are `root`,
  `paths` (the tracked entries in scan order, which is also the key order of
  `files`), `files: map<Path, Status>` and `targets: map<Path, string>`.
  The constructor sets up the fields. `ApplyStatus`, `Include` and `Exclude`
  update the maps in place, under `modifies this`. Their `ensures` clauses
  tie the new maps to the old ones through the specification functions
  `Marked` and `Labeled`.
  `Validate` and the two queries are functions that read the object. The
  object invariant `Valid()` says four things:
  - the scanned paths are distinct;
  - the key set of `files` is the scanned set;
  - every labelled path is tracked;
  - the labelled paths are exactly the INCLUDED ones.
- `CoverageRuns` (runs.dfy): the two maps as a value (`Table`), acted on by a
  sequence of include/exclude calls (`Run`). It proves the properties that
  span a whole session:
  - validation passes exactly when every scanned path was matched by some
    call;
  - a path's label is the label of the last include that matched it;
  - repeating a call changes nothing.

  `Replay` builds a `FullCoverage` object and makes the calls on it through
  `Include` and `Exclude`. It proves that the object passes through the same
  tables as `Run`, so these session properties hold for the class itself.

The filesystem is an input. The constructor receives the entries the
recursive scan found, as a sequence of distinct paths. `ApplyStatus`,
`Include` and `Exclude` receive the paths their pattern matched. Their
precondition is that the matched paths are tracked. In the source, an
untracked match would raise `KeyError` at `self.files[file] |= flag`. Paths
are strings, compared exactly.

## Model

| member | source | states |
|---|---|---|
| CoverageStatus.Union | conanfile.py:112 | `status \| flag` has INCLUDED (EXCLUDED) iff either operand has it, and is empty iff both are |
| CoverageStatus.StatusIsItsBits | conanfile.py:91-93 | a status is determined by its INCLUDED and EXCLUDED bits; it is empty iff it has neither |
| CoverageStatus.Has | conanfile.py:157 | `status & flag` is truthy: it implies both are non-empty, and for a single flag it holds iff ORing the flag in changes nothing |
| CoverageStatus.IsEmpty | conanfile.py:136 | `status == FullCoverageStatus(0)` holds iff neither the INCLUDED nor the EXCLUDED bit is set |
| CoverageStatus.UnionIdempotent | conanfile.py:112 | ORing the same flag twice equals ORing it once |
| CoverageStatus.UnionKeeps | conanfile.py:112 | `\|=` never clears a bit |
| Coverage.FullCoverage.constructor | conanfile.py:97-102 | tracked paths are exactly the scanned ones in scan order, each with the empty status; no targets; the invariant holds |
| Coverage.Marked | conanfile.py:110-112 | keys unchanged; unmatched paths keep their status; a matched path gains exactly the bits of the flag and loses none |
| Coverage.MarkedNeverClears | conanfile.py:112 | whatever the flag, a bit set before marking is still set after |
| Coverage.MarkedIdempotent | conanfile.py:110-112 | applying the same flag to the same matches twice equals applying it once |
| Coverage.MarkedStep | conanfile.py:111-112 | one more loop iteration marks one more match, duplicates included |
| Coverage.FullCoverage.ApplyStatus | conanfile.py:109-119 | `files` becomes the old map with the flag ORed into every match; `targets` unchanged; the key set stays the scanned set; returns the matches |
| Coverage.Labeled | conanfile.py:125-126 | every match gets the new label, overwriting any old one; other labelled paths keep theirs; keys grow by the matches |
| Coverage.LabeledStep | conanfile.py:125-126 | one more loop iteration labels one more match |
| Coverage.LabeledIdempotent | conanfile.py:126 | labelling the same matches twice with the same label equals doing it once |
| Coverage.IncludeKeepsLabels | conanfile.py:121-126 | after an include, the labelled paths are still exactly the INCLUDED ones |
| Coverage.ExcludeKeepsLabels | conanfile.py:128-130 | after an exclude, the labelled paths are still exactly the INCLUDED ones |
| Coverage.FullCoverage.Include | conanfile.py:121-126 | matches gain INCLUDED and the given label (default `.`); nothing else changes; the invariant is kept |
| Coverage.FullCoverage.Exclude | conanfile.py:128-130 | matches gain EXCLUDED; `targets` untouched; the invariant is kept |
| Coverage.Select | conanfile.py:133-137 | the result holds exactly the tracked paths whose status passes the filter, as a subsequence of the tracking order |
| Coverage.SelectUnique | conanfile.py:133-137 | on distinct paths, that contract determines the result: any such subsequence equals Select's |
| Coverage.SubsequenceDistinct | conanfile.py:133-137 | a filtered list of distinct paths has no repetitions |
| Coverage.Uncovered | conanfile.py:133-137 | exactly the tracked paths with the empty status, in tracking order |
| Coverage.FullCoverage.Validate | conanfile.py:132-148 | passes iff no tracked path has the empty status, so a path with both bits counts as covered; on failure, when no uncovered path holds a newline, the message reads back as exactly the uncovered paths in tracking order |
| Coverage.Header | conanfile.py:145 | the header starts with a blank line, names the root between quotes and ends its line |
| Coverage.Bullets | conanfile.py:147 | one `- file` line per path, in order; a line holds a newline iff its path does |
| Lines.JoinLines | conanfile.py:147 | `"\n".join` starts with the first line and holds a newline iff there are two lines or more or some line holds one; SplitJoin and JoinSplit show it inverse to the split |
| Coverage.UncoveredMessage | conanfile.py:144-147 | the header naming the root, then the `- file` lines joined by newlines; nothing follows the header iff no path is listed; ListedPathsRoundTrip reads it back |
| Coverage.UnbulletBullets | conanfile.py:147 | the `- file` lines read back as the paths they were made from |
| Coverage.ListedPathsRoundTrip | conanfile.py:144-148 | the error message (header naming the root, then `- file` lines joined by newlines) reads back as exactly the listed paths when none holds a newline |
| Lines.SplitLines | conanfile.py:147 | splitting gives at least one piece and no piece holds a newline |
| Lines.JoinSplit | conanfile.py:147 | joining the split pieces of any text gives the text back |
| Lines.SplitJoin | conanfile.py:147 | splitting joined lines (at least one, none with a newline) gives the lines back |
| Coverage.FullCoverage.GetIncludesWithTargets | conanfile.py:150-151 | the returned keys are exactly the tracked paths that carry INCLUDED |
| Coverage.FullCoverage.GetExcludedPaths | conanfile.py:153-158 | exactly the tracked paths that carry EXCLUDED, without repetition, in tracking order |
| CoverageRuns.Initial | conanfile.py:99-102 | the starting table: the scanned keys, each empty, no targets |
| CoverageRuns.Apply | conanfile.py:121-130 | one include or exclude keeps the key set; an exclude keeps the targets |
| CoverageRuns.Run | conanfile.py:121-130 | a session of calls keeps the key set |
| CoverageRuns.RunFlags | conanfile.py:109-130 | after a session, a path has INCLUDED iff it had it or some include matched it, and EXCLUDED iff it had it or some exclude matched it |
| CoverageRuns.UncoveredIffUnmatched | conanfile.py:133-137 | from a fresh tracker, a path is uncovered after a session iff no call matched it |
| CoverageRuns.ValidatePassesIffAllMatched | conanfile.py:132-143 | from a fresh tracker, validation passes after a session iff every scanned path was matched by some include or exclude |
| CoverageRuns.RunTargets | conanfile.py:125-126 | a path's label after a session is the label of the last include that matched it, or else its earlier label |
| CoverageRuns.LastTargetIsLast | conanfile.py:125-126 | that label exists iff some include matched, and comes from a matching include that no later include overrides |
| CoverageRuns.IncludeTargetsAfterSession | conanfile.py:121-126 | from a fresh tracker, the labelled paths are exactly those some include matched, each with the label of the last such include |
| CoverageRuns.Replay | conanfile.py:97-143 | a tracker constructed over the scan and then given include/exclude calls holds the table Run computes; it then validates iff every scanned path was matched, and its labelled paths are exactly those some include matched, each with the target of the last such include |
| CoverageRuns.ApplyIdempotent | conanfile.py:121-130 | repeating an include or exclude with the same matches changes nothing |

## Left out

- `NuGetRecipe.source` (conanfile.py:12-88) is not part of this model: environment lookup, download and checksum, folder removal, file moves, the external `nuget` tool, smoke tests and the help text are all I/O.
- Pattern resolution (`rglob("*")` at construction, `glob(pattern)` in `_apply_status`) is a filesystem call. Its result is an input: a sequence of distinct paths for the constructor, and a sequence of tracked paths for each include or exclude. The pattern string itself is not modelled.
- Coverage.FullCoverage.ApplyStatus: requires every matched path to be tracked. The source raises `KeyError` whenever a match is not one of the scanned entries, after updating the matches before it. That can happen with `**` (its first match is the root itself), with a `..` part, through a symlinked directory that the recursive scan does not enter, or when the tree changes after the scan. None of this is modelled.
- Paths are compared as exact strings, not with `Path` equality. On Windows the source's `Path` equality ignores case. A pattern spelled in another case there finds the tracked entry, and the source then keys `targets` by the pattern's spelling. The model's precondition excludes such a match.
- All `verbose` printing (conanfile.py:104-107, 114-118, 139-142) is output only and is left out, together with the `verbose` flag.
- Coverage.FullCoverage.GetIncludesWithTargets: the source returns the `targets` dictionary itself, so a caller could change the tracker through it. The model returns the map as a value. Its insertion order, which sets the order of the file moves in the recipe, is not modelled.
- Coverage.FullCoverage.Validate: the message read-back is stated only when no uncovered path holds a newline. An uncovered path with a newline would make two error lines, and the message would then not determine the list.
- CoverageRuns.Run: applies every call, including one whose matches are not tracked. The source raises `KeyError` on such a call. `Run` instead labels the untracked path and leaves `files` alone. So `RunTargets` and `IncludeTargetsAfterSession` also cover tables no tracker reaches. `Replay` requires every match to be scanned, and on those inputs `Run` and the class agree.
