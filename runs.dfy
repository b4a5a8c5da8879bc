/**
 The tracker's state over a whole session: a sequence of include and exclude
 calls applied, in order, to the table the constructor builds. The lemmas
 here relate the final state to the calls made, which one FullCoverage
 method contract alone cannot.
 */
module CoverageRuns {
  import opened CoverageStatus
  import opened Coverage

  /** One call: `include(pattern, target)` or `exclude(pattern)`, with the
      paths the pattern matched. */
  datatype Op = IncludeOp(matched: seq<Path>, target: string) | ExcludeOp(matched: seq<Path>)

  /** The two dictionaries of a tracker. */
  datatype Table = Table(files: map<Path, Status>, targets: map<Path, string>)

  /** The table a tracker starts with. */
  function Initial(scanned: seq<Path>): (t: Table)
    ensures t.files.Keys == set p | p in scanned
    ensures forall p :: p in t.files ==> IsEmpty(t.files[p])
    ensures t.targets == map[]
  {
    Table(map p | p in scanned :: NONE, map[])
  }

  /** The effect of one call, as FullCoverage.Include and Exclude ensure. */
  function Apply(t: Table, op: Op): (r: Table)
    ensures r.files.Keys == t.files.Keys
    ensures op.ExcludeOp? ==> r.targets == t.targets
  {
    match op
    case IncludeOp(matched, target) => Table(Marked(t.files, matched, INCLUDED), Labeled(t.targets, matched, target))
    case ExcludeOp(matched) => Table(Marked(t.files, matched, EXCLUDED), t.targets)
  }

  /** The effect of the calls `ops`, first to last. */
  function Run(t: Table, ops: seq<Op>): (r: Table)
    ensures r.files.Keys == t.files.Keys
    decreases |ops|
  {
    if ops == [] then t else Apply(Run(t, ops[..|ops| - 1]), ops[|ops| - 1])
  }

  predicate IncludesAt(ops: seq<Op>, i: int, p: Path)
    requires 0 <= i < |ops|
  {
    ops[i].IncludeOp? && p in ops[i].matched
  }

  predicate ExcludesAt(ops: seq<Op>, i: int, p: Path)
    requires 0 <= i < |ops|
  {
    ops[i].ExcludeOp? && p in ops[i].matched
  }

  /** Some include among `ops` matched `p`. */
  ghost predicate IncludedBy(ops: seq<Op>, p: Path) {
    exists i :: 0 <= i < |ops| && IncludesAt(ops, i, p)
  }

  /** Some exclude among `ops` matched `p`. */
  ghost predicate ExcludedBy(ops: seq<Op>, p: Path) {
    exists i :: 0 <= i < |ops| && ExcludesAt(ops, i, p)
  }

  /** The target of the last include among `ops` that matched `p`. */
  function LastTarget(ops: seq<Op>, p: Path): Option<string>
    decreases |ops|
  {
    if ops == [] then None
    else if IncludesAt(ops, |ops| - 1, p) then Some(ops[|ops| - 1].target)
    else LastTarget(ops[..|ops| - 1], p)
  }

  function Lookup(m: map<Path, string>, p: Path): Option<string> {
    if p in m then Some(m[p]) else None
  }

  /** Dropping the last call keeps which calls matched a path. */
  lemma PrefixMatches(ops: seq<Op>, p: Path)
    requires ops != []
    ensures IncludedBy(ops, p) <==> IncludedBy(ops[..|ops| - 1], p) || IncludesAt(ops, |ops| - 1, p)
    ensures ExcludedBy(ops, p) <==> ExcludedBy(ops[..|ops| - 1], p) || ExcludesAt(ops, |ops| - 1, p)
  {
    var init := ops[..|ops| - 1];
    assert forall i :: 0 <= i < |init| ==> init[i] == ops[i];
    if IncludedBy(ops, p) && !IncludesAt(ops, |ops| - 1, p) {
      var i :| 0 <= i < |ops| && IncludesAt(ops, i, p);
      assert IncludesAt(init, i, p);
    }
    if ExcludedBy(ops, p) && !ExcludesAt(ops, |ops| - 1, p) {
      var i :| 0 <= i < |ops| && ExcludesAt(ops, i, p);
      assert ExcludesAt(init, i, p);
    }
    if IncludedBy(init, p) {
      var i :| 0 <= i < |init| && IncludesAt(init, i, p);
      assert IncludesAt(ops, i, p);
    }
    if ExcludedBy(init, p) {
      var i :| 0 <= i < |init| && ExcludesAt(init, i, p);
      assert ExcludesAt(ops, i, p);
    }
  }

  /** A tracked path ends up INCLUDED exactly when it was already or some
      include matched it, and EXCLUDED exactly when it was already or some
      exclude matched it: bits are only ever added, and only by matches. */
  lemma {:induction false} RunFlags(t: Table, ops: seq<Op>, p: Path)
    requires p in t.files
    ensures Has(Run(t, ops).files[p], INCLUDED) <==> Has(t.files[p], INCLUDED) || IncludedBy(ops, p)
    ensures Has(Run(t, ops).files[p], EXCLUDED) <==> Has(t.files[p], EXCLUDED) || ExcludedBy(ops, p)
    decreases |ops|
  {
    if ops != [] {
      RunFlags(t, ops[..|ops| - 1], p);
      PrefixMatches(ops, p);
    }
  }

  /** After a session started from a fresh table, a path is uncovered
      exactly when no call at all matched it. */
  lemma UncoveredIffUnmatched(scanned: seq<Path>, ops: seq<Op>, p: Path)
    requires p in scanned
    ensures IsEmpty(Run(Initial(scanned), ops).files[p]) <==> !IncludedBy(ops, p) && !ExcludedBy(ops, p)
  {
    var t := Initial(scanned);
    RunFlags(t, ops, p);
    StatusIsItsBits(Run(t, ops).files[p], NONE);
    StatusIsItsBits(t.files[p], NONE);
  }

  /** Validation after a session passes exactly when every scanned path was
      matched by some include or some exclude. */
  lemma ValidatePassesIffAllMatched(scanned: seq<Path>, ops: seq<Op>)
    ensures (forall p :: p in Run(Initial(scanned), ops).files ==> !IsEmpty(Run(Initial(scanned), ops).files[p]))
        <==> (forall p :: p in scanned ==> IncludedBy(ops, p) || ExcludedBy(ops, p))
  {
    var r := Run(Initial(scanned), ops);
    assert forall p :: p in r.files <==> p in scanned;
    if forall p :: p in scanned ==> IncludedBy(ops, p) || ExcludedBy(ops, p) {
      forall p | p in r.files ensures !IsEmpty(r.files[p]) {
        UncoveredIffUnmatched(scanned, ops, p);
      }
    } else {
      var p :| p in scanned && !(IncludedBy(ops, p) || ExcludedBy(ops, p));
      UncoveredIffUnmatched(scanned, ops, p);
      assert p in r.files && IsEmpty(r.files[p]);
    }
  }

  /** The label of the last include that matched a path is its label; a
      path no include matched keeps what it had. */
  lemma {:induction false} RunTargets(t: Table, ops: seq<Op>, p: Path)
    ensures Lookup(Run(t, ops).targets, p) == if LastTarget(ops, p).Some? then LastTarget(ops, p) else Lookup(t.targets, p)
    decreases |ops|
  {
    if ops != [] {
      RunTargets(t, ops[..|ops| - 1], p);
    }
  }

  /** LastTarget finds an include exactly when some include matched, and
      what it finds is the target of a matching include that no later
      include overrides. */
  lemma {:induction false} LastTargetIsLast(ops: seq<Op>, p: Path)
    ensures LastTarget(ops, p).Some? <==> IncludedBy(ops, p)
    ensures LastTarget(ops, p).Some? ==>
      exists i :: 0 <= i < |ops| && IncludesAt(ops, i, p) && ops[i].target == LastTarget(ops, p).value &&
        forall j :: i < j < |ops| ==> !IncludesAt(ops, j, p)
    decreases |ops|
  {
    if ops != [] {
      var n := |ops| - 1;
      var init := ops[..n];
      PrefixMatches(ops, p);
      LastTargetIsLast(init, p);
      if !IncludesAt(ops, n, p) && LastTarget(init, p).Some? {
        var i :| 0 <= i < |init| && IncludesAt(init, i, p) && init[i].target == LastTarget(init, p).value &&
          forall j :: i < j < |init| ==> !IncludesAt(init, j, p);
        assert IncludesAt(ops, i, p);
        forall j | i < j < |ops| ensures !IncludesAt(ops, j, p) {
          if j < n {
            assert !IncludesAt(init, j, p);
          }
        }
      }
    }
  }

  /** After a session started from a fresh table, the labelled paths are
      exactly those some include matched, and each carries the target of the
      last include that matched it. */
  lemma IncludeTargetsAfterSession(scanned: seq<Path>, ops: seq<Op>, p: Path)
    ensures p in Run(Initial(scanned), ops).targets <==> IncludedBy(ops, p)
    ensures p in Run(Initial(scanned), ops).targets ==>
      exists i :: 0 <= i < |ops| && IncludesAt(ops, i, p) && ops[i].target == Run(Initial(scanned), ops).targets[p] &&
        forall j :: i < j < |ops| ==> !IncludesAt(ops, j, p)
  {
    RunTargets(Initial(scanned), ops, p);
    LastTargetIsLast(ops, p);
  }

  /** Repeating a call with the same matches changes nothing. */
  lemma ApplyIdempotent(t: Table, op: Op)
    ensures Apply(Apply(t, op), op) == Apply(t, op)
  {
    match op
    case IncludeOp(matched, target) =>
      MarkedIdempotent(t.files, matched, INCLUDED);
      LabeledIdempotent(t.targets, matched, target);
    case ExcludeOp(matched) =>
      MarkedIdempotent(t.files, matched, EXCLUDED);
  }

  /** A tracker that is built over `scanned` and then given the calls `ops`,
      first to last, passes through the same tables as Run. Validation then
      passes exactly when every scanned path was matched by some call, and
      the labelled paths are exactly those some include matched, each with
      the target of the last include that matched it. */
  method Replay(root: Path, scanned: seq<Path>, ops: seq<Op>) returns (c: FullCoverage)
    requires Distinct(scanned)
    requires forall i, p :: 0 <= i < |ops| && p in ops[i].matched ==> p in scanned
    ensures c.Valid() && c.root == root && c.paths == scanned
    ensures Table(c.files, c.targets) == Run(Initial(scanned), ops)
    ensures c.Validate().Pass? <==> forall p :: p in scanned ==> IncludedBy(ops, p) || ExcludedBy(ops, p)
    ensures forall p :: p in c.GetIncludesWithTargets() <==> IncludedBy(ops, p)
    ensures forall p :: p in c.targets ==>
      exists i :: 0 <= i < |ops| && IncludesAt(ops, i, p) && ops[i].target == c.targets[p] &&
        forall j :: i < j < |ops| ==> !IncludesAt(ops, j, p)
  {
    c := new FullCoverage(root, scanned);
    for i := 0 to |ops|
      invariant c.Valid() && c.root == root && c.paths == scanned
      invariant Table(c.files, c.targets) == Run(Initial(scanned), ops[..i])
    {
      assert ops[..i + 1][..i] == ops[..i];
      match ops[i]
      case IncludeOp(matched, target) =>
        assert forall p :: p in matched ==> p in scanned;
        c.Include(matched, target);
      case ExcludeOp(matched) =>
        assert forall p :: p in matched ==> p in scanned;
        c.Exclude(matched);
    }
    assert ops[..|ops|] == ops;
    ValidatePassesIffAllMatched(scanned, ops);
    forall p
      ensures p in c.targets <==> IncludedBy(ops, p)
      ensures p in c.targets ==>
        exists i :: 0 <= i < |ops| && IncludesAt(ops, i, p) && ops[i].target == c.targets[p] &&
          forall j :: i < j < |ops| ==> !IncludesAt(ops, j, p)
    {
      IncludeTargetsAfterSession(scanned, ops, p);
    }
  }
}
