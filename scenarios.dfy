/**
 * Small repositories worked through `describe` from start to end.
 */
module Scenarios {
  import opened Bytes
  import opened Results
  import opened Utf8
  import opened Git2
  import opened GitUtils
  import opened Describe

  /** A commit id that is never the zero id. */
  function Commit(n: Byte): (o: Oid)
    ensures o != Zero
  {
    var o := Oid([0xC0, n] + ZeroBytes[2..]);
    assert o.bytes[0] != Zero.bytes[0];
    o
  }

  const C0 := Commit(0)
  const C1 := Commit(1)
  const C2 := Commit(2)

  /**
   * `main` at C0; `feature` made at C0 and given two commits, C1 and then
   * C2; no tags.
   */
  function Forked(): Repo
  {
    Repo(
      map[C0 := [Ok(C0)], C2 := [Ok(C2), Ok(C1), Ok(C0)]],
      map["main" := C0, "feature" := C2],
      Ok([Ok(RawReference(C0, Encode("main"))), Ok(RawReference(C2, Encode("feature")))]),
      Ok([]),
      Ok([]))
  }

  lemma Distinct()
    ensures C0 != C1 && C0 != C2 && C1 != C2
  {
    assert C0.bytes[1] != C1.bytes[1] && C0.bytes[1] != C2.bytes[1] && C1.bytes[1] != C2.bytes[1];
  }

  /** A branch enumeration of two well-named branches gives both, in order. */
  lemma TwoBranches(repo: Repo, x: ReferenceInfo, y: ReferenceInfo)
    requires repo.localBranches == Ok([Ok(RawReference(x.oid, Encode(x.name))), Ok(RawReference(y.oid, Encode(y.name)))])
    ensures Branches(repo) == Ok([x, y])
  {
    var items := repo.localBranches.value;
    FromEncodedName(x.oid, x.name);
    FromEncodedName(y.oid, y.name);
    assert FromBranch(items[0]) == Ok(x) && FromBranch(items[1]) == Ok(y);
    var rs := FromBranches(items);
    assert rs == [Ok(x), Ok(y)];
    var c := Collect(rs);
    assert c.Ok? && |c.value| == 2 && c.value[0] == x && c.value[1] == y;
    assert c.value == [x, y];
    assert Branches(repo) == c;
  }

  lemma ForkedBranches()
    ensures Branches(Forked()) == Ok([ReferenceInfo("main", C0), ReferenceInfo("feature", C2)])
  {
    TwoBranches(Forked(), ReferenceInfo("main", C0), ReferenceInfo("feature", C2));
  }

  /** Sorting two infos where the second sorts first swaps them. */
  lemma SortTwo(a: ReferenceInfo, b: ReferenceInfo)
    requires Less(b, a)
    ensures Sort([a, b]) == [b, a]
  {
    LessAsymmetricHere(b, a);
    var s := [a, b];
    assert s[1..] == [b];
    assert [b][1..] == [];
    assert Sort([b]) == [b];
    assert Insert(a, [b]) == [b] + Insert(a, []);
  }

  /** "feature" sorts before "main": their first bytes are `f` and `m`. */
  lemma FeatureBeforeMain()
    ensures Less(ReferenceInfo("feature", C2), ReferenceInfo("main", C0))
  {
    var f, m := "feature", "main";
    assert Encode(f) == EncodeScalar(f[0] as int) + Encode(f[1..]);
    assert Encode(m) == EncodeScalar(m[0] as int) + Encode(m[1..]);
    assert Encode(f)[0] == 0x66 && Encode(m)[0] == 0x6D;
    assert LexLess(Encode(f), Encode(m));
  }

  lemma ForkedSort()
    ensures Sort([ReferenceInfo("main", C0), ReferenceInfo("feature", C2)]) == [ReferenceInfo("feature", C2), ReferenceInfo("main", C0)]
  {
    FeatureBeforeMain();
    SortTwo(ReferenceInfo("main", C0), ReferenceInfo("feature", C2));
  }

  lemma ForkedResolve(ctx: Context)
    requires ctx.repo == Forked() && ctx.defaultCommits == map[]
    requires ctx.referenceMap.Keys == {C0, C2} && ctx.referenceMap[C0] == Branch("main")
    ensures Resolve(ctx, ReferenceInfo("feature", C2)) == Ok(Named(Branch("main"), C0))
  {
    Distinct();
    var w: Walk := [Ok(C2), Ok(C1), Ok(C0)];
    assert ctx.repo.walks[C2] == w;
    assert Revwalk(ctx.repo, C2) == Ok(w);
    var below: Walk := [Ok(C1), Ok(C0)];
    assert Skip1(w) == below;
    var keys := ctx.referenceMap.Keys;
    assert C1 !in keys && C0 in keys;
    assert below[1..] == [Ok(C0)];
    assert FirstKey([Ok(C0)], keys) == Ok(C0);
    assert FirstKey(below, keys) == Ok(C0);
    assert ParentOf(ctx.repo, C2, keys) == Ok(C0);
    IsZeroIsZero(C0);
    assert MainCommit(ctx, C2, C0) == Ok(None);
  }

  /** Two branches on different commits and no tags: each commit names its branch. */
  lemma TwoBranchesMap(a: ReferenceInfo, b: ReferenceInfo)
    requires a.oid != b.oid
    ensures var m := ReferenceMap([a, b], []);
      m.Keys == {a.oid, b.oid} && m[a.oid] == Branch(a.name)
  {
    var bs := [a, b];
    var ts: seq<ReferenceInfo> := [];
    assert OidsOf(bs) == {a.oid, b.oid} by {
      assert bs[0] in bs && bs[1] in bs;
    }
    assert OidsOf(ts) == {};
    assert forall j :: 0 < j < |bs| ==> bs[j].oid != bs[0].oid;
  }

  /** Two sorted branches, the second on the default tip: one line, for the first. */
  lemma LinesOfTwo(resolve: ReferenceInfo -> Result<Resolution, GitError>, tip: Oid, x: ReferenceInfo, y: ReferenceInfo, res: Resolution)
    requires x.oid != tip && y.oid == tip && resolve(x) == Ok(res)
    ensures LinesOf(resolve, tip, [x, y]) == Report([Line(x, res)], None)
  {
    var bs := [x, y];
    assert bs[1..] == [y];
    assert [y][1..] == [];
    assert LinesOf(resolve, tip, [y]) == Report([], None);
  }

  /** A commit whose walk is itself alone has an empty history after it. */
  lemma CommitsSinceRoot(repo: Repo, c: Oid)
    requires c in repo.walks && repo.walks[c] == [Ok(c)]
    ensures CommitsSince(repo, c) == Ok([])
  {
    assert Skip1(repo.walks[c]) == [];
  }

  /**
   * With `init.defaultBranch` set to the empty string, `feature` is described by the branch
   * `main` at C0: the default branch's own tip is not in the commit index,
   * so a branch forked right at that tip is named, not detached.
   */
  lemma ForkedAtDefaultTip()
    ensures DescribeSpec(Forked(), None, Ok("")) ==
      Report([Line(ReferenceInfo("feature", C2), Named(Branch("main"), C0))], None)
  {
    var repo := Forked();
    var main, feature := ReferenceInfo("main", C0), ReferenceInfo("feature", C2);
    Distinct();
    assert BranchDefaultName(None, Ok("")) == Ok("main");
    assert repo.localBranchTips["main"] == C0;
    CommitsSinceRoot(repo, C0);
    var history: seq<Oid> := [];
    ForkedBranches();
    var ts: seq<ReferenceInfo> := [];
    assert TagsOf(repo) == Ok(ts);
    TwoBranchesMap(main, feature);
    ForkedSort();
    assert DefaultCommitIndex(history) == map[];
    var ctx := Context(repo, C0, DefaultCommitIndex(history), ReferenceMap([main, feature], ts));
    ForkedResolve(ctx);
    LinesOfTwo(ResolverOf(ctx), C0, feature, main, Named(Branch("main"), C0));
    DescribeUnfolds(repo, None, Ok(""), "main", history, [main, feature], ts);
  }

  /** `describe` once every setup step has succeeded. */
  lemma DescribeUnfolds(repo: Repo, argument: Option<string>, config: Result<string, GitError>,
                        name: string, cs: seq<Oid>, bs: seq<ReferenceInfo>, ts: seq<ReferenceInfo>)
    requires BranchDefaultName(argument, config) == Ok(name) && name in repo.localBranchTips
    requires CommitsSince(repo, repo.localBranchTips[name]) == Ok(cs)
    requires Branches(repo) == Ok(bs) && TagsOf(repo) == Ok(ts)
    ensures var tip := repo.localBranchTips[name];
      DescribeSpec(repo, argument, config) ==
      LinesOf(ResolverOf(Context(repo, tip, DefaultCommitIndex(cs), ReferenceMap(bs, ts))), tip, Sort(bs))
  {
  }

  /** `feature` sorts strictly before `main`, so it is not after it either. */
  lemma LessAsymmetricHere(a: ReferenceInfo, b: ReferenceInfo)
    requires Less(a, b)
    ensures !LessEq(b, a)
  {
    LessIrreflexive(a);
    if Less(b, a) {
      LessTransitive(a, b, a);
    }
  }
}
