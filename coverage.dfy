/**
 The full-coverage tracker: every entry found under a root directory is
 tracked with a coverage status, include and exclude patterns set flags on
 the entries they match, and validation fails, listing the offenders, while
 any tracked entry has no flag. Pattern resolution is done by the caller:
 each operation receives the paths its pattern matched.
 */
module Coverage {
  import opened CoverageStatus
  import opened Lines

  type Path = string

  datatype Option<T> = None | Some(value: T)

  /** The result of validation: normal return, or the raised error's message. */
  datatype Outcome = Pass | Fail(error: string)

  predicate Distinct(s: seq<Path>) {
    forall i, j :: 0 <= i < j < |s| ==> s[i] != s[j]
  }

  /** `r` is `s` with some elements left out, the rest in their order. */
  predicate SubsequenceOf(r: seq<Path>, s: seq<Path>)
    decreases |s|
  {
    if r == [] then true
    else if s == [] then false
    else if r[0] == s[0] then SubsequenceOf(r[1..], s[1..])
    else SubsequenceOf(r, s[1..])
  }

  lemma {:induction false} SubsequenceMembers(r: seq<Path>, s: seq<Path>, p: Path)
    requires SubsequenceOf(r, s)
    requires p in r
    ensures p in s
    decreases |s|
  {
    if r[0] == s[0] {
      if p != r[0] {
        SubsequenceMembers(r[1..], s[1..], p);
      }
    } else {
      SubsequenceMembers(r, s[1..], p);
    }
  }

  /** A subsequence of a list without repetitions has none either. */
  lemma {:induction false} SubsequenceDistinct(r: seq<Path>, s: seq<Path>)
    requires SubsequenceOf(r, s)
    requires Distinct(s)
    ensures Distinct(r)
    decreases |s|
  {
    if r != [] {
      if r[0] == s[0] {
        SubsequenceDistinct(r[1..], s[1..]);
        forall k | 0 < k < |r| ensures r[k] != r[0] {
          SubsequenceMembers(r[1..], s[1..], r[k]);
        }
      } else {
        SubsequenceDistinct(r, s[1..]);
      }
    }
  }

  /** The status map after `flag` is ORed into the entry of every matched
      path; matched paths that are not tracked are not added. */
  function Marked(files: map<Path, Status>, matched: seq<Path>, flag: Status): (r: map<Path, Status>)
    ensures r.Keys == files.Keys
    ensures forall p :: p in files && p !in matched ==> r[p] == files[p]
    ensures forall p :: p in files && p in matched ==>
      && (Has(r[p], INCLUDED) <==> Has(files[p], INCLUDED) || Has(flag, INCLUDED))
      && (Has(r[p], EXCLUDED) <==> Has(files[p], EXCLUDED) || Has(flag, EXCLUDED))
  {
    map p | p in files :: if p in matched then Union(files[p], flag) else files[p]
  }

  /** The target map after every matched path is given `target`, overwriting
      any earlier target. */
  function Labeled(targets: map<Path, string>, matched: seq<Path>, target: string): (r: map<Path, string>)
    ensures r.Keys == targets.Keys + set p | p in matched
    ensures forall p :: p in matched ==> r[p] == target
    ensures forall p :: p in targets && p !in matched ==> r[p] == targets[p]
  {
    targets + map p | p in matched :: target
  }

  /** A bit once set is never cleared by marking, whatever the flag. */
  lemma MarkedNeverClears(files: map<Path, Status>, matched: seq<Path>, flag: Status, p: Path, bit: Status)
    requires p in files && Has(files[p], bit)
    ensures Has(Marked(files, matched, flag)[p], bit)
  {
    UnionKeeps(files[p], flag, bit);
  }

  /** Marking the same matches twice with the same flag marks them once. */
  lemma MarkedIdempotent(files: map<Path, Status>, matched: seq<Path>, flag: Status)
    ensures Marked(Marked(files, matched, flag), matched, flag) == Marked(files, matched, flag)
  {
    var once := Marked(files, matched, flag);
    forall p | p in files
      ensures Marked(once, matched, flag)[p] == once[p]
    {
      UnionIdempotent(files[p], flag);
    }
  }

  /** Marking one more match extends the marked prefix by one. */
  lemma MarkedStep(files: map<Path, Status>, matched: seq<Path>, i: nat, flag: Status)
    requires i < |matched| && matched[i] in files
    ensures var before := Marked(files, matched[..i], flag);
      before[matched[i] := Union(before[matched[i]], flag)] == Marked(files, matched[..i + 1], flag)
  {
    var before := Marked(files, matched[..i], flag);
    var file := matched[i];
    assert forall p :: p in matched[..i + 1] <==> p in matched[..i] || p == file;
    if file in matched[..i] {
      UnionIdempotent(files[file], flag);
    }
  }

  /** Labelling one more match extends the labelled prefix by one. */
  lemma LabeledStep(targets: map<Path, string>, matched: seq<Path>, i: nat, target: string)
    requires i < |matched|
    ensures Labeled(targets, matched[..i], target)[matched[i] := target] == Labeled(targets, matched[..i + 1], target)
  {
    assert forall p :: p in matched[..i + 1] <==> p in matched[..i] || p == matched[i];
  }

  /** Has the target map a label for exactly the included paths? */
  ghost predicate LabelsIncluded(files: map<Path, Status>, targets: map<Path, string>) {
    && targets.Keys <= files.Keys
    && forall p :: p in files ==> (p in targets <==> Has(files[p], INCLUDED))
  }

  /** An include keeps the labelled paths and the included paths equal. */
  lemma IncludeKeepsLabels(files: map<Path, Status>, targets: map<Path, string>, matched: seq<Path>, target: string)
    requires LabelsIncluded(files, targets)
    requires forall p :: p in matched ==> p in files
    ensures LabelsIncluded(Marked(files, matched, INCLUDED), Labeled(targets, matched, target))
  {
  }

  /** An exclude keeps them equal too. */
  lemma ExcludeKeepsLabels(files: map<Path, Status>, targets: map<Path, string>, matched: seq<Path>)
    requires LabelsIncluded(files, targets)
    ensures LabelsIncluded(Marked(files, matched, EXCLUDED), targets)
  {
  }

  /** Labelling the same matches twice with the same target labels them once. */
  lemma LabeledIdempotent(targets: map<Path, string>, matched: seq<Path>, target: string)
    ensures Labeled(Labeled(targets, matched, target), matched, target) == Labeled(targets, matched, target)
  {
  }

  /** The tracked paths, in tracking order, whose status satisfies `keep`. */
  function Select(paths: seq<Path>, files: map<Path, Status>, keep: Status -> bool): (r: seq<Path>)
    requires forall p :: p in paths ==> p in files
    ensures forall p :: p in r <==> p in paths && keep(files[p])
    ensures SubsequenceOf(r, paths)
  {
    if paths == [] then []
    else
      var rest := Select(paths[1..], files, keep);
      if keep(files[paths[0]]) then [paths[0]] + rest else rest
  }

  /** The contract of Select determines its result: on a list without
      repetitions, the subsequence holding exactly the kept paths is unique. */
  lemma {:induction false} SelectUnique(paths: seq<Path>, files: map<Path, Status>, keep: Status -> bool, r: seq<Path>)
    requires forall p :: p in paths ==> p in files
    requires Distinct(paths)
    requires SubsequenceOf(r, paths)
    requires forall p :: p in r <==> p in paths && keep(files[p])
    ensures r == Select(paths, files, keep)
  {
    if paths != [] {
      var x := paths[0];
      assert forall p :: p in paths[1..] ==> p in paths;
      assert x !in paths[1..] by {
        forall k | 0 <= k < |paths| - 1 ensures paths[1..][k] != x {
          assert paths[1..][k] == paths[k + 1];
        }
      }
      SubsequenceDistinct(r, paths);
      if r != [] && r[0] == x {
        assert forall p :: p in r[1..] <==> p in r && p != x by {
          forall p ensures p in r[1..] <==> p in r && p != x {
            if p in r && p != x {
              var k :| 0 <= k < |r| && r[k] == p;
              assert r[1..][k - 1] == p;
            }
            if p in r[1..] {
              var k :| 0 <= k < |r| - 1 && r[1..][k] == p;
              assert r[k + 1] == p;
            }
          }
        }
        assert forall p :: p in paths[1..] <==> p in paths && p != x by {
          forall p ensures p in paths[1..] <==> p in paths && p != x {
            if p in paths && p != x {
              var k :| 0 <= k < |paths| && paths[k] == p;
              assert paths[1..][k - 1] == p;
            }
          }
        }
        SelectUnique(paths[1..], files, keep, r[1..]);
        assert r == [x] + r[1..];
      } else {
        assert SubsequenceOf(r, paths[1..]);
        assert x !in r by {
          if x in r {
            SubsequenceMembers(r, paths[1..], x);
          }
        }
        SelectUnique(paths[1..], files, keep, r);
      }
    }
  }

  /** The uncovered paths, in tracking order. */
  function Uncovered(paths: seq<Path>, files: map<Path, Status>): (r: seq<Path>)
    requires forall p :: p in paths ==> p in files
    ensures forall p :: p in r <==> p in paths && IsEmpty(files[p])
    ensures SubsequenceOf(r, paths)
  {
    Select(paths, files, IsEmpty)
  }

  /** The first line of the error raised by validation, after a blank line:
      it names the root between quotes and ends the line. */
  function Header(root: Path): (r: string)
    ensures |r| == |root| + 58
    ensures r[0] == '\n' && r[|r| - 1] == '\n'
    ensures r[34] == '\'' && r[35..35 + |root|] == root && r[35 + |root|] == '\''
  {
    "\nDetected uncovered files in path '" + root + "'! See the list below.\n"
  }

  /** One `- file` line per path, in order; a path without a newline makes a
      line without one. */
  function Bullets(paths: seq<Path>): (r: seq<string>)
    ensures |r| == |paths|
    ensures forall i :: 0 <= i < |r| ==> |r[i]| == |paths[i]| + 2 && r[i][..2] == "- " && r[i][2..] == paths[i]
    ensures forall i :: 0 <= i < |r| ==> (NoNewline(r[i]) <==> NoNewline(paths[i]))
  {
    seq(|paths|, (i: int) requires 0 <= i < |paths| => "- " + paths[i])
  }

  /** The validation error: the header, then one `- file` line per path. It
      starts with the header, and is nothing more exactly when no path is
      listed. */
  function UncoveredMessage(root: Path, uncovered: seq<Path>): (r: string)
    ensures |r| >= |Header(root)| && r[..|Header(root)|] == Header(root)
    ensures r == Header(root) <==> uncovered == []
  {
    Header(root) + JoinLines(Bullets(uncovered))
  }

  /** The paths of a list of `- file` lines, or None if a line is not one. */
  function Unbullet(lines: seq<string>): Option<seq<Path>>
  {
    if lines == [] then Some([])
    else if |lines[0]| >= 2 && lines[0][..2] == "- " then
      match Unbullet(lines[1..])
      case Some(rest) => Some([lines[0][2..]] + rest)
      case None => None
    else None
  }

  /** Reads back the list of paths from a validation error about `root`. */
  function ListedPaths(root: Path, message: string): Option<seq<Path>> {
    var header := Header(root);
    if |message| >= |header| && message[..|header|] == header then
      Unbullet(SplitLines(message[|header|..]))
    else None
  }

  lemma {:induction false} UnbulletBullets(paths: seq<Path>)
    ensures Unbullet(Bullets(paths)) == Some(paths)
  {
    if paths != [] {
      assert Bullets(paths)[1..] == Bullets(paths[1..]);
      var line := Bullets(paths)[0];
      assert line == "- " + paths[0];
      assert line[..2] == "- " && line[2..] == paths[0];
      UnbulletBullets(paths[1..]);
      assert paths == [paths[0]] + paths[1..];
    }
  }

  /** The error message names exactly the uncovered paths, in order, when it
      names any and none of them holds a newline. */
  lemma ListedPathsRoundTrip(root: Path, uncovered: seq<Path>)
    requires |uncovered| >= 1
    ensures (forall i :: 0 <= i < |uncovered| ==> NoNewline(uncovered[i])) ==>
      ListedPaths(root, UncoveredMessage(root, uncovered)) == Some(uncovered)
  {
    if forall i :: 0 <= i < |uncovered| ==> NoNewline(uncovered[i]) {
      var lines := Bullets(uncovered);
      forall i | 0 <= i < |lines| ensures NoNewline(lines[i]) {
        assert lines[i] == "- " + uncovered[i];
      }
      SplitJoin(lines);
      var message := UncoveredMessage(root, uncovered);
      assert message[..|Header(root)|] == Header(root);
      assert message[|Header(root)|..] == JoinLines(lines);
      UnbulletBullets(uncovered);
    }
  }

  /**
   The tracker. `paths` lists the tracked entries in the order they were
   found; it is also the key order of `files`, which never gains or loses a
   key. `targets` holds the destination label of every included entry.
   */
  class FullCoverage {
    const root: Path
    const paths: seq<Path>
    var files: map<Path, Status>
    var targets: map<Path, string>

    /** The key set of `files` is the scanned set, in scan order. */
    ghost predicate Tracked()
      reads this
    {
      Distinct(paths) && files.Keys == set p | p in paths
    }

    /** Labelled entries are exactly the included ones. */
    ghost predicate Valid()
      reads this
    {
      Tracked() && LabelsIncluded(files, targets)
    }

    /** Tracks every scanned path with the empty status. */
    constructor (root: Path, scanned: seq<Path>)
      requires Distinct(scanned)
      ensures Valid()
      ensures this.root == root && paths == scanned
      ensures files.Keys == set p | p in scanned
      ensures forall p :: p in files ==> IsEmpty(files[p])
      ensures targets == map[]
    {
      this.root := root;
      paths := scanned;
      files := map p | p in scanned :: NONE;
      targets := map[];
    }

    /** ORs `flag` into the status of every matched path and returns the
        matches. */
    method ApplyStatus(flag: Status, matched: seq<Path>) returns (applied: seq<Path>)
      requires Tracked()
      requires forall p :: p in matched ==> p in files
      modifies this
      ensures Tracked()
      ensures files == Marked(old(files), matched, flag)
      ensures targets == old(targets)
      ensures applied == matched
    {
      for i := 0 to |matched|
        invariant files == Marked(old(files), matched[..i], flag)
        invariant targets == old(targets)
      {
        MarkedStep(old(files), matched, i, flag);
        files := files[matched[i] := Union(files[matched[i]], flag)];
      }
      assert matched[..|matched|] == matched;
      applied := matched;
    }

    /** Sets INCLUDED on every matched path and labels each with `target`. */
    method Include(matched: seq<Path>, target: string := ".")
      requires Valid()
      requires forall p :: p in matched ==> p in files
      modifies this
      ensures Valid()
      ensures files == Marked(old(files), matched, INCLUDED)
      ensures targets == Labeled(old(targets), matched, target)
    {
      var applied := ApplyStatus(INCLUDED, matched);
      for i := 0 to |applied|
        invariant files == Marked(old(files), matched, INCLUDED)
        invariant targets == Labeled(old(targets), applied[..i], target)
      {
        LabeledStep(old(targets), applied, i, target);
        targets := targets[applied[i] := target];
      }
      assert applied[..|applied|] == matched;
      IncludeKeepsLabels(old(files), old(targets), matched, target);
    }

    /** Sets EXCLUDED on every matched path; labels are untouched. */
    method Exclude(matched: seq<Path>)
      requires Valid()
      requires forall p :: p in matched ==> p in files
      modifies this
      ensures Valid()
      ensures files == Marked(old(files), matched, EXCLUDED)
      ensures targets == old(targets)
    {
      var _ := ApplyStatus(EXCLUDED, matched);
      ExcludeKeepsLabels(old(files), old(targets), matched);
    }

    /** Passes exactly when no tracked path has the empty status; otherwise
        fails with a message naming every uncovered path, in tracking order. */
    function Validate(): (r: Outcome)
      reads this
      requires Valid()
      ensures r.Pass? <==> forall p :: p in files ==> !IsEmpty(files[p])
      ensures r.Fail? ==> (forall p :: p in Uncovered(paths, files) ==> NoNewline(p)) ==>
        ListedPaths(root, r.error) == Some(Uncovered(paths, files))
    {
      var uncovered := Uncovered(paths, files);
      if uncovered == [] then
        Pass
      else
        assert forall i :: 0 <= i < |uncovered| ==> uncovered[i] in paths;
        ListedPathsRoundTrip(root, uncovered);
        Fail(UncoveredMessage(root, uncovered))
    }

    /** The included paths with their latest labels. */
    function GetIncludesWithTargets(): (r: map<Path, string>)
      reads this
      requires Valid()
      ensures forall p :: p in r <==> p in files && Has(files[p], INCLUDED)
    {
      targets
    }

    /** The excluded paths, in tracking order. */
    function GetExcludedPaths(): (r: seq<Path>)
      reads this
      requires Valid()
      ensures forall p :: p in r <==> p in files && Has(files[p], EXCLUDED)
      ensures SubsequenceOf(r, paths) && Distinct(r)
    {
      var r := Select(paths, files, (s: Status) => Has(s, EXCLUDED));
      SubsequenceDistinct(r, paths);
      r
    }
  }
}
