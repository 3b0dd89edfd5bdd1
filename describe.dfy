/**
 * The `describe` command: for every local branch other than the default one,
 * in sorted order, decide which reference it was forked from. A branch either
 * has no parent, sits "detached" on the default branch's history at a
 * particular commit, or hangs off a named branch or tag.
 *
 * Opening the repository, reading the configuration file and writing the
 * coloured output are left to the caller; this module computes what each
 * output line says and where the command stops.
 */
module Describe {
  import opened Results
  import opened Git2
  import opened Errors
  import opened GitUtils

  // ------------------------------------------------------- the default branch

  /**
   * `CommonArgs::branch_default_name`: the name given on the command line, or
   * else the configured `init.defaultBranch`, with `main` standing in for an
   * empty setting. A failed configuration lookup is passed on.
   */
  function BranchDefaultName(argument: Option<string>, config: Result<string, GitError>): (r: Result<string, GitError>)
    ensures argument.Some? ==> r == Ok(argument.value)
    ensures argument.None? ==> (r.Err? <==> config.Err?)
    ensures r.Err? ==> config == Err(r.error)
    ensures argument.None? && r.Ok? ==> r.value != "" && (r.value == config.value || (config.value == "" && r.value == "main"))
    ensures r.Ok? && r.value == "" ==> argument == Some("")
  {
    match argument
    case Some(name) => Ok(name)
    case None =>
      match config
      case Err(e) => Err(e)
      case Ok(value) => if value == "" then Ok("main") else Ok(value)
  }

  /** The commits of a list paired with their positions, as `enumerate` yields them. */
  function Indexed(cs: seq<Oid>): (ps: seq<(Oid, nat)>)
    ensures |ps| == |cs| && forall i :: 0 <= i < |cs| ==> ps[i] == (cs[i], i)
  {
    if cs == [] then [] else Indexed(cs[..|cs| - 1]) + [(cs[|cs| - 1], |cs| - 1)]
  }

  /**
   * `branch_default_commits`: each commit of the default branch's history
   * mapped to its position in the walk; a repeated commit keeps its last
   * position.
   */
  function DefaultCommitIndex(cs: seq<Oid>): (m: map<Oid, nat>)
    ensures forall o :: o in m <==> o in cs
    ensures forall i :: 0 <= i < |cs| && (forall j :: i < j < |cs| ==> cs[j] != cs[i]) ==> cs[i] in m && m[cs[i]] == i
  {
    IndexedKeys(cs);
    IndexedLast(cs);
    CollectMap(Indexed(cs))
  }

  /** The keys of the enumeration are the listed commits. */
  lemma IndexedKeys(cs: seq<Oid>)
    ensures forall o :: o in KeysOf(Indexed(cs)) <==> o in cs
  {
    var ps := Indexed(cs);
    forall o | o in cs ensures o in KeysOf(ps) {
      var i :| 0 <= i < |cs| && cs[i] == o;
      assert ps[i].0 == o;
    }
  }

  /** A commit that does not occur again is the last pair with its key. */
  lemma IndexedLast(cs: seq<Oid>)
    ensures forall i :: 0 <= i < |cs| && (forall j :: i < j < |cs| ==> cs[j] != cs[i]) ==> LastWithKey(Indexed(cs), i)
  {
    var ps := Indexed(cs);
    assert forall i :: 0 <= i < |cs| ==> ps[i].0 == cs[i];
  }

  /**
   * On a well-formed history the index holds exactly the commits after the
   * default tip, each at its position in `commits_since`.
   */
  lemma DefaultCommitIndexOfHistory(repo: Repo, tip: Oid)
    requires Valid(repo) && CommitsSince(repo, tip).Ok?
    ensures forall o :: o in DefaultCommitIndex(CommitsSince(repo, tip).value) <==>
      exists i :: 1 <= i < |repo.walks[tip]| && repo.walks[tip][i] == Ok(o)
    ensures forall i :: 1 <= i < |repo.walks[tip]| ==>
      && repo.walks[tip][i].Ok?
      && repo.walks[tip][i].value in DefaultCommitIndex(CommitsSince(repo, tip).value)
      && DefaultCommitIndex(CommitsSince(repo, tip).value)[repo.walks[tip][i].value] == i - 1
    ensures tip !in DefaultCommitIndex(CommitsSince(repo, tip).value)
  {
    CommitsSinceShape(repo, tip);
    var w, cs := repo.walks[tip], CommitsSince(repo, tip).value;
    HistoryKeys(w, cs);
    HistoryPositions(w, cs);
  }

  /** The index of a walk's tail has the tail's commits as keys. */
  lemma HistoryKeys(w: Walk, cs: seq<Oid>)
    requires |cs| == |w| - 1 && forall i :: 0 <= i < |cs| ==> w[i + 1] == Ok(cs[i])
    ensures forall o :: o in DefaultCommitIndex(cs) <==> exists i :: 1 <= i < |w| && w[i] == Ok(o)
  {
    forall o ensures o in cs <==> exists i :: 1 <= i < |w| && w[i] == Ok(o) {
      if o in cs {
        var k :| 0 <= k < |cs| && cs[k] == o;
        assert w[k + 1] == Ok(o);
      }
      if exists i :: 1 <= i < |w| && w[i] == Ok(o) {
        var i :| 1 <= i < |w| && w[i] == Ok(o);
        assert cs[i - 1] == o;
      }
    }
  }

  /** In the index of a walk's tail without repeats, each commit sits at its place in the tail. */
  lemma HistoryPositions(w: Walk, cs: seq<Oid>)
    requires |cs| == |w| - 1 && forall i :: 0 <= i < |cs| ==> w[i + 1] == Ok(cs[i])
    requires forall i, j :: 0 <= i < j < |cs| ==> cs[i] != cs[j]
    ensures forall i :: 1 <= i < |w| ==>
      && w[i].Ok? && w[i].value in DefaultCommitIndex(cs) && DefaultCommitIndex(cs)[w[i].value] == i - 1
  {
    forall i | 1 <= i < |w|
      ensures w[i].Ok? && w[i].value in DefaultCommitIndex(cs) && DefaultCommitIndex(cs)[w[i].value] == i - 1
    {
      assert w[i] == Ok(cs[i - 1]);
    }
  }

  // ------------------------------------------------------- the reference map

  function BranchEntries(bs: seq<ReferenceInfo>): (ps: seq<(Oid, ReferenceName)>)
    ensures |ps| == |bs| && forall i :: 0 <= i < |bs| ==> ps[i] == (bs[i].oid, Branch(bs[i].name))
  {
    if bs == [] then [] else BranchEntries(bs[..|bs| - 1]) + [(bs[|bs| - 1].oid, Branch(bs[|bs| - 1].name))]
  }

  function TagEntries(ts: seq<ReferenceInfo>): (ps: seq<(Oid, ReferenceName)>)
    ensures |ps| == |ts| && forall i :: 0 <= i < |ts| ==> ps[i] == (ts[i].oid, Tag(ts[i].name))
  {
    if ts == [] then [] else TagEntries(ts[..|ts| - 1]) + [(ts[|ts| - 1].oid, Tag(ts[|ts| - 1].name))]
  }

  /** The oids of a list of references. */
  function OidsOf(rs: seq<ReferenceInfo>): set<Oid>
  {
    set r | r in rs :: r.oid
  }

  /** The entries the reference map is collected from have exactly the branch and tag oids as keys. */
  lemma EntriesKeys(branches: seq<ReferenceInfo>, tags: seq<ReferenceInfo>)
    ensures KeysOf(BranchEntries(branches) + TagEntries(tags)) == OidsOf(branches) + OidsOf(tags)
  {
    var be, te := BranchEntries(branches), TagEntries(tags);
    var ps := be + te;
    forall k | k in KeysOf(ps) ensures k in OidsOf(branches) + OidsOf(tags) {
      var i :| 0 <= i < |ps| && ps[i].0 == k;
      if i < |be| {
        assert ps[i] == be[i] && branches[i] in branches;
      } else {
        assert ps[i] == te[i - |be|] && tags[i - |be|] in tags;
      }
    }
    forall k | k in OidsOf(branches) + OidsOf(tags) ensures k in KeysOf(ps) {
      if k in OidsOf(branches) {
        var b :| b in branches && b.oid == k;
        var i :| 0 <= i < |branches| && branches[i] == b;
        assert ps[i] == be[i];
      } else {
        var t :| t in tags && t.oid == k;
        var i :| 0 <= i < |tags| && tags[i] == t;
        assert ps[|be| + i] == te[i];
      }
    }
  }

  /** The entry of the last tag at a commit is the last entry with that key. */
  lemma TagEntryIsLast(branches: seq<ReferenceInfo>, tags: seq<ReferenceInfo>, i: int)
    requires 0 <= i < |tags| && forall j :: i < j < |tags| ==> tags[j].oid != tags[i].oid
    ensures var ps := BranchEntries(branches) + TagEntries(tags);
      0 <= |branches| + i < |ps| && ps[|branches| + i] == (tags[i].oid, Tag(tags[i].name)) && LastWithKey(ps, |branches| + i)
  {
    var be, te := BranchEntries(branches), TagEntries(tags);
    var ps := be + te;
    var k := |be| + i;
    assert forall j :: |be| <= j < |ps| ==> ps[j] == te[j - |be|];
  }

  /** The entry of a branch no later branch or tag shares is the last entry with that key. */
  lemma BranchEntryIsLast(branches: seq<ReferenceInfo>, tags: seq<ReferenceInfo>, i: int)
    requires 0 <= i < |branches| && forall j :: i < j < |branches| ==> branches[j].oid != branches[i].oid
    requires branches[i].oid !in OidsOf(tags)
    ensures var ps := BranchEntries(branches) + TagEntries(tags);
      0 <= i < |ps| && ps[i] == (branches[i].oid, Branch(branches[i].name)) && LastWithKey(ps, i)
  {
    var be, te := BranchEntries(branches), TagEntries(tags);
    var ps := be + te;
    assert ps[i] == be[i];
    forall j | i < j < |ps| ensures ps[j].0 != ps[i].0 {
      if j < |be| {
        assert ps[j] == be[j];
      } else {
        assert ps[j] == te[j - |be|] && tags[j - |be|] in tags;
      }
    }
  }

  /**
   * `reference_map`: branches, then tags, collected into a map. Its keys are
   * the oids of all branches and tags. A tag's entry survives whatever branch
   * shares its commit (the last such tag wins); a branch's entry survives
   * only when no later branch and no tag shares its commit.
   */
  function ReferenceMap(branches: seq<ReferenceInfo>, tags: seq<ReferenceInfo>): (m: map<Oid, ReferenceName>)
    ensures m.Keys == OidsOf(branches) + OidsOf(tags)
    ensures forall i :: 0 <= i < |tags| && (forall j :: i < j < |tags| ==> tags[j].oid != tags[i].oid) ==>
      m[tags[i].oid] == Tag(tags[i].name)
    ensures forall i :: (&& 0 <= i < |branches|
                         && (forall j :: i < j < |branches| ==> branches[j].oid != branches[i].oid)
                         && branches[i].oid !in OidsOf(tags)) ==>
      m[branches[i].oid] == Branch(branches[i].name)
  {
    EntriesKeys(branches, tags);
    var m := CollectMap(BranchEntries(branches) + TagEntries(tags));
    forall i | 0 <= i < |tags| && (forall j :: i < j < |tags| ==> tags[j].oid != tags[i].oid)
      ensures m[tags[i].oid] == Tag(tags[i].name)
    {
      TagEntryIsLast(branches, tags, i);
    }
    forall i | (&& 0 <= i < |branches|
                && (forall j :: i < j < |branches| ==> branches[j].oid != branches[i].oid)
                && branches[i].oid !in OidsOf(tags))
      ensures m[branches[i].oid] == Branch(branches[i].name)
    {
      BranchEntryIsLast(branches, tags, i);
    }
    m
  }

  // ------------------------------------------------------- one branch

  /** What `describe` prints after a branch's name. */
  datatype Resolution =
    | NoParent
      /** On the default branch's history, at `commit`. */
    | Detached(commit: Oid)
      /** Forked from the branch or tag `parent`, which points at `commit`. */
    | Named(parent: ReferenceName, commit: Oid)

  /** What the per-branch decisions need. */
  datatype Context = Context(
    repo: Repo,
    defaultTip: Oid,
    defaultCommits: map<Oid, nat>,
    referenceMap: map<Oid, ReferenceName>)

  /**
   * `main_commit`: for a parent on the default history, the first commit
   * between the branch and the parent that is itself on the default history,
   * else the parent; for any other parent, nothing. A failure of
   * `commits_to` is the `unwrap` that panics.
   */
  function MainCommit(ctx: Context, branch: Oid, parent: Oid): (r: Result<Option<Oid>, GitError>)
    ensures r.Ok? && r.value.Some? ==> parent in ctx.defaultCommits && r.value.value in ctx.defaultCommits
    ensures r.Ok? && r.value.None? <==> parent !in ctx.defaultCommits
    ensures r.Err? ==> parent in ctx.defaultCommits && branch !in ctx.repo.walks
  {
    if parent in ctx.defaultCommits then
      if branch == parent then Ok(Some(parent))
      else
        match CommitsTo(ctx.repo, branch, parent)
        case Err(e) => Err(e)
        case Ok(cs) =>
          match Find(cs, ctx.defaultCommits.Keys)
          case Some(c) => Ok(Some(c))
          case None => Ok(Some(parent))
    else Ok(None)
  }

  /**
   * The decision for one branch: no parent for the zero id, detached on the
   * default history when `main_commit` finds a commit, and otherwise the
   * reference the parent is a key of. An error is an `unwrap` that panics.
   */
  function Resolve(ctx: Context, info: ReferenceInfo): Result<Resolution, GitError>
  {
    match ParentOf(ctx.repo, info.oid, ctx.referenceMap.Keys)
    case Err(e) => Err(e)
    case Ok(p) =>
      if IsZero(p) then Ok(NoParent)
      else
        match MainCommit(ctx, info.oid, p)
        case Err(e) => Err(e)
        case Ok(Some(c)) => Ok(Detached(c))
        case Ok(None) =>
          IsZeroIsZero(p);
          ParentIsKey(ctx.repo, info.oid, ctx.referenceMap.Keys);
          Ok(Named(ctx.referenceMap[p], p))
  }

  /** A branch has no parent exactly when no commit after its tip is a branch or tag. */
  lemma NoParentIff(ctx: Context, info: ReferenceInfo)
    requires Valid(ctx.repo) && info.oid in ctx.repo.walks
    ensures Resolve(ctx, info) == Ok(NoParent) <==>
      forall i :: 1 <= i < |ctx.repo.walks[info.oid]| ==>
        ctx.repo.walks[info.oid][i].Ok? && ctx.repo.walks[info.oid][i].value !in ctx.referenceMap
  {
    var keys := ctx.referenceMap.Keys;
    ParentZeroIff(ctx.repo, info.oid, keys);
    var r := ParentOf(ctx.repo, info.oid, keys);
    if r.Ok? {
      IsZeroIsZero(r.value);
    }
  }

  /**
   * A named parent is the first commit after the branch's tip that carries a
   * branch or tag; it is not on the default history, it is not the branch's
   * own tip, and the name is the one the reference map holds for it.
   */
  lemma NamedIsFirstReferenced(ctx: Context, info: ReferenceInfo, name: ReferenceName, p: Oid)
    requires Valid(ctx.repo) && Resolve(ctx, info) == Ok(Named(name, p))
    ensures p !in ctx.defaultCommits && p != info.oid
    ensures p in ctx.referenceMap && name == ctx.referenceMap[p]
    ensures exists i :: FirstHitAt(ctx.repo.walks[info.oid], ctx.referenceMap.Keys, i) && ctx.repo.walks[info.oid][i] == Ok(p)
  {
    var keys := ctx.referenceMap.Keys;
    IsZeroIsZero(p);
    ParentIsNotTip(ctx.repo, info.oid, keys);
    ParentIsFirstReferenced(ctx.repo, info.oid, keys);
  }

  /**
   * A detached branch is reported at the first commit after its tip that lies
   * on the default history: either a commit before the parent, or the parent
   * itself when none of those is on it.
   */
  lemma DetachedIsNearestDefault(ctx: Context, info: ReferenceInfo, c: Oid)
    requires Valid(ctx.repo) && Resolve(ctx, info) == Ok(Detached(c))
    ensures c in ctx.defaultCommits
    ensures exists i :: FirstHitAt(ctx.repo.walks[info.oid], ctx.defaultCommits.Keys, i) && ctx.repo.walks[info.oid][i] == Ok(c)
  {
    var keys := ctx.referenceMap.Keys;
    var w := ctx.repo.walks[info.oid];
    var p := ParentOf(ctx.repo, info.oid, keys).value;
    IsZeroIsZero(p);
    ParentIsNotTip(ctx.repo, info.oid, keys);
    ParentIsFirstReferenced(ctx.repo, info.oid, keys);
    var k :| FirstHitAt(w, keys, k) && w[k] == Ok(p);
    assert CommitsTo(ctx.repo, info.oid, p) == Ok(TakeUntil(Skip1(w), p));
    NearestDefault(w, keys, p, k, ctx.defaultCommits.Keys);
  }

  /**
   * Searching the commits strictly between a branch's tip and its first
   * referenced commit `p` (at `k`) for one of `dk` finds the first commit of
   * `dk` after the tip; finding none means `p` is the first one, if it is in `dk`.
   */
  lemma NearestDefault(w: Walk, keys: set<Oid>, p: Oid, k: int, dk: set<Oid>)
    requires FirstHitAt(w, keys, k) && w[k] == Ok(p) && p in keys
    ensures var found := Find(TakeUntil(Skip1(w), p), dk);
      && (found.Some? ==> exists i :: FirstHitAt(w, dk, i) && w[i] == Ok(found.value))
      && (found.None? && p in dk ==> FirstHitAt(w, dk, k))
  {
    var items := Skip1(w);
    var cs := TakeUntil(items, p);
    // Before `k` the walk holds other commits than `p`, so `take_while` stops right at `k`.
    forall j | 0 <= j < k - 1 ensures items[j].Ok? && items[j].value != p {
      assert items[j] == w[1..][j];
    }
    assert items[k - 1] == Ok(p);
    assert |cs| == k - 1;
    match Find(cs, dk)
    case Some(d) =>
      var m :| 0 <= m < |cs| && cs[m] == d && d in dk && forall j :: 0 <= j < m ==> cs[j] !in dk;
      assert FirstHitAt(w, dk, m + 1) by {
        forall j | 0 <= j < m ensures w[1..][j].Ok? && w[1..][j].value !in dk {
          assert items[j] == Ok(cs[j]);
        }
      }
      assert w[m + 1] == items[m];
    case None =>
      forall j | 0 <= j < k - 1 ensures w[1..][j].Ok? && w[1..][j].value !in dk {
        assert items[j] == Ok(cs[j]);
      }
  }

  // ------------------------------------------------------- the whole command

  /** One output line: the branch and what was found for it. */
  datatype Line = Line(branch: ReferenceInfo, resolution: Resolution)

  /** Why `describe` stopped early. */
  datatype Failure =
    | DefaultNameUnavailable(git: GitError)
    | DefaultBranchNotFound(name: string)
    | DefaultCommitsUnavailable(git: GitError)
    | BranchesUnavailable(error: Error)
    | TagsUnavailable(error: Error)
      /** An `unwrap` panicked while describing `branch`. */
    | Panicked(branch: string, git: GitError)

  /** The lines written, and the failure that ended the command, if any. */
  datatype Report = Report(lines: seq<Line>, failure: Option<Failure>)

  /** The branches that get a line: all but those on the default tip. */
  function NonDefault(bs: seq<ReferenceInfo>, tip: Oid): seq<ReferenceInfo>
  {
    if bs == [] then []
    else if bs[0].oid == tip then NonDefault(bs[1..], tip)
    else [bs[0]] + NonDefault(bs[1..], tip)
  }

  /** Exactly the branches off the default tip remain. */
  lemma {:induction false} NonDefaultMembers(bs: seq<ReferenceInfo>, tip: Oid)
    ensures forall b :: b in NonDefault(bs, tip) <==> b in bs && b.oid != tip
  {
    if bs != [] {
      NonDefaultMembers(bs[1..], tip);
      assert bs == [bs[0]] + bs[1..];
    }
  }

  /** Dropping branches keeps the rest in order. */
  lemma {:induction false} NonDefaultSorted(bs: seq<ReferenceInfo>, tip: Oid)
    requires Sorted(bs)
    ensures Sorted(NonDefault(bs, tip))
  {
    if bs != [] {
      assert Sorted(bs[1..]) by {
        forall i, j | 0 <= i < j < |bs[1..]| ensures LessEq(bs[1..][i], bs[1..][j]) {
          assert bs[1..][i] == bs[i + 1] && bs[1..][j] == bs[j + 1];
        }
      }
      NonDefaultSorted(bs[1..], tip);
      if bs[0].oid != tip {
        HeadBelowRest(bs);
        NonDefaultMembers(bs[1..], tip);
        ConsSorted(bs[0], NonDefault(bs[1..], tip));
      }
    }
  }

  /** The decision for each branch, as one function. */
  function ResolverOf(ctx: Context): ReferenceInfo -> Result<Resolution, GitError>
  {
    b => Resolve(ctx, b)
  }

  /**
   * The loop over the sorted branches: the branch on the default tip is
   * passed over, every other one gets its line, and a panic ends the loop.
   */
  function LinesOf(resolve: ReferenceInfo -> Result<Resolution, GitError>, tip: Oid, bs: seq<ReferenceInfo>): Report
  {
    if bs == [] then Report([], None)
    else if bs[0].oid == tip then LinesOf(resolve, tip, bs[1..])
    else
      match resolve(bs[0])
      case Err(e) => Report([], Some(Panicked(bs[0].name, e)))
      case Ok(res) =>
        var rest := LinesOf(resolve, tip, bs[1..]);
        Report([Line(bs[0], res)] + rest.lines, rest.failure)
  }

  /**
   * The loop writes one line per branch off the default tip, in order, each
   * with that branch's resolution; only a panic cuts the list short, and then
   * the failing branch is the next one.
   */
  lemma {:induction false} LinesFollowBranches(resolve: ReferenceInfo -> Result<Resolution, GitError>, tip: Oid, bs: seq<ReferenceInfo>)
    ensures |LinesOf(resolve, tip, bs).lines| <= |NonDefault(bs, tip)|
    ensures forall i :: 0 <= i < |LinesOf(resolve, tip, bs).lines| ==>
      && LinesOf(resolve, tip, bs).lines[i].branch == NonDefault(bs, tip)[i]
      && resolve(LinesOf(resolve, tip, bs).lines[i].branch) == Ok(LinesOf(resolve, tip, bs).lines[i].resolution)
    ensures LinesOf(resolve, tip, bs).failure.None? <==> |LinesOf(resolve, tip, bs).lines| == |NonDefault(bs, tip)|
    ensures LinesOf(resolve, tip, bs).failure.Some? ==>
      var b := NonDefault(bs, tip)[|LinesOf(resolve, tip, bs).lines|];
      resolve(b).Err? && LinesOf(resolve, tip, bs).failure == Some(Panicked(b.name, resolve(b).error))
  {
    if bs != [] {
      LinesFollowBranches(resolve, tip, bs[1..]);
      var rest := LinesOf(resolve, tip, bs[1..]);
      var nd := NonDefault(bs[1..], tip);
      if bs[0].oid != tip {
        assert NonDefault(bs, tip) == [bs[0]] + nd;
        if resolve(bs[0]).Ok? {
          var lines := [Line(bs[0], resolve(bs[0]).value)] + rest.lines;
          assert forall i :: 1 <= i < |lines| ==> lines[i] == rest.lines[i - 1];
        }
      }
    }
  }

  /** Every step of the command, in the order the source takes them. */
  function DescribeSpec(repo: Repo, argument: Option<string>, config: Result<string, GitError>): Report
  {
    match BranchDefaultName(argument, config)
    case Err(e) => Report([], Some(DefaultNameUnavailable(e)))
    case Ok(name) =>
      if name !in repo.localBranchTips then Report([], Some(DefaultBranchNotFound(name)))
      else
        var tip := repo.localBranchTips[name];
        match CommitsSince(repo, tip)
        case Err(e) => Report([], Some(DefaultCommitsUnavailable(e)))
        case Ok(cs) =>
          match Branches(repo)
          case Err(e) => Report([], Some(BranchesUnavailable(e)))
          case Ok(bs) =>
            match TagsOf(repo)
            case Err(e) => Report([], Some(TagsUnavailable(e)))
            case Ok(ts) =>
              var ctx := Context(repo, tip, DefaultCommitIndex(cs), ReferenceMap(bs, ts));
              LinesOf(ResolverOf(ctx), tip, Sort(bs))
  }

  /**
   * The lines of `describe` come in ascending (name, oid) order, none of them
   * for a branch on the default tip, each for one of the branches; with no
   * failure there is one for every branch off the default tip.
   */
  lemma SortedLines(resolve: ReferenceInfo -> Result<Resolution, GitError>, tip: Oid, bs: seq<ReferenceInfo>)
    ensures var lines := LinesOf(resolve, tip, Sort(bs)).lines;
      && (forall i :: 0 <= i < |lines| ==> lines[i].branch.oid != tip && lines[i].branch in bs)
      && (forall i, j :: 0 <= i < j < |lines| ==> LessEq(lines[i].branch, lines[j].branch))
      && (LinesOf(resolve, tip, Sort(bs)).failure.None? ==>
            forall b :: b in bs && b.oid != tip ==> exists i :: 0 <= i < |lines| && lines[i].branch == b)
  {
    var sorted := Sort(bs);
    var lines := LinesOf(resolve, tip, sorted).lines;
    LinesFollowBranches(resolve, tip, sorted);
    NonDefaultSorted(sorted, tip);
    NonDefaultMembers(sorted, tip);
    var nd := NonDefault(sorted, tip);
    forall i | 0 <= i < |lines| ensures lines[i].branch.oid != tip && lines[i].branch in bs {
      assert lines[i].branch in nd;
      assert lines[i].branch in multiset(sorted);
    }
    if LinesOf(resolve, tip, sorted).failure.None? {
      forall b | b in bs && b.oid != tip ensures exists i :: 0 <= i < |lines| && lines[i].branch == b {
        assert b in multiset(bs);
        assert b in nd;
        var i :| 0 <= i < |nd| && nd[i] == b;
        assert lines[i].branch == b;
      }
    }
  }

  /**
   * Once every setup step of `describe` has succeeded, its report is the loop
   * over the sorted branches with the context the setup built: the lines are
   * in ascending (name, oid) order, each for a branch off the default tip,
   * and with no failure every such branch has one.
   */
  lemma DescribeSortedLines(repo: Repo, argument: Option<string>, config: Result<string, GitError>)
    requires BranchDefaultName(argument, config).Ok? && BranchDefaultName(argument, config).value in repo.localBranchTips
    requires CommitsSince(repo, repo.localBranchTips[BranchDefaultName(argument, config).value]).Ok?
    requires Branches(repo).Ok? && TagsOf(repo).Ok?
    ensures var tip := repo.localBranchTips[BranchDefaultName(argument, config).value];
      var bs := Branches(repo).value;
      var ctx := Context(repo, tip, DefaultCommitIndex(CommitsSince(repo, tip).value), ReferenceMap(bs, TagsOf(repo).value));
      var report := DescribeSpec(repo, argument, config);
      && report == LinesOf(ResolverOf(ctx), tip, Sort(bs))
      && (forall i :: 0 <= i < |report.lines| ==> report.lines[i].branch.oid != tip && report.lines[i].branch in bs)
      && (forall i, j :: 0 <= i < j < |report.lines| ==> LessEq(report.lines[i].branch, report.lines[j].branch))
      && (report.failure.None? ==>
            forall b :: b in bs && b.oid != tip ==> exists i :: 0 <= i < |report.lines| && report.lines[i].branch == b)
  {
    var tip := repo.localBranchTips[BranchDefaultName(argument, config).value];
    var bs := Branches(repo).value;
    var ctx := Context(repo, tip, DefaultCommitIndex(CommitsSince(repo, tip).value), ReferenceMap(bs, TagsOf(repo).value));
    SortedLines(ResolverOf(ctx), tip, bs);
  }

  /** The body of the loop for one branch: its parent, then `main_commit`, then the line. */
  method DescribeBranch(ctx: Context, branch: ReferenceInfo) returns (r: Result<Resolution, GitError>)
    ensures r == Resolve(ctx, branch)
  {
    var parent := Parent(branch, ctx.repo, ctx.referenceMap);
    if parent.Err? {
      return Err(parent.error);
    }
    var p := parent.value;
    if IsZero(p) {
      return Ok(NoParent);
    }
    match MainCommit(ctx, branch.oid, p)
    case Err(e) =>
      // The walk from the branch already succeeded, so `commits_to` cannot fail.
      assert false;
    case Ok(Some(c)) =>
      return Ok(Detached(c));
    case Ok(None) =>
      IsZeroIsZero(p);
      ParentIsKey(ctx.repo, branch.oid, ctx.referenceMap.Keys);
      return Ok(Named(ctx.referenceMap[p], p));
  }

  /** The loop over the sorted branches. */
  method DescribeBranches(ctx: Context, sorted: seq<ReferenceInfo>) returns (report: Report)
    ensures report == LinesOf(ResolverOf(ctx), ctx.defaultTip, sorted)
  {
    var lines: seq<Line> := [];
    var i := 0;
    while i < |sorted|
      invariant 0 <= i <= |sorted|
      invariant LinesOf(ResolverOf(ctx), ctx.defaultTip, sorted) ==
        Report(lines + LinesOf(ResolverOf(ctx), ctx.defaultTip, sorted[i..]).lines,
               LinesOf(ResolverOf(ctx), ctx.defaultTip, sorted[i..]).failure)
    {
      var branch := sorted[i];
      assert sorted[i..][1..] == sorted[i + 1..];
      if branch.oid == ctx.defaultTip {
        i := i + 1;
        continue;
      }
      var resolution := DescribeBranch(ctx, branch);
      if resolution.Err? {
        return Report(lines, Some(Panicked(branch.name, resolution.error)));
      }
      lines := lines + [Line(branch, resolution.value)];
      i := i + 1;
    }
    assert sorted[i..] == [];
    return Report(lines, None);
  }

  /** `describe`: the setup steps in order, each failure ending the command, then the loop. */
  method Describe(repo: Repo, argument: Option<string>, config: Result<string, GitError>) returns (report: Report)
    ensures report == DescribeSpec(repo, argument, config)
  {
    var nameResult := BranchDefaultName(argument, config);
    if nameResult.Err? {
      return Report([], Some(DefaultNameUnavailable(nameResult.error)));
    }
    var name := nameResult.value;
    if name !in repo.localBranchTips {
      return Report([], Some(DefaultBranchNotFound(name)));
    }
    var tip := repo.localBranchTips[name];
    var defaultHistory := CommitsSince(repo, tip);
    if defaultHistory.Err? {
      return Report([], Some(DefaultCommitsUnavailable(defaultHistory.error)));
    }
    var defaultCommits := DefaultCommitIndex(defaultHistory.value);
    var branches := Branches(repo);
    if branches.Err? {
      return Report([], Some(BranchesUnavailable(branches.error)));
    }
    var tags := Tags(repo);
    if tags.Err? {
      return Report([], Some(TagsUnavailable(tags.error)));
    }
    var referenceMap := ReferenceMap(branches.value, tags.value);
    var ctx := Context(repo, tip, defaultCommits, referenceMap);
    report := DescribeBranches(ctx, Sort(branches.value));
  }
}
