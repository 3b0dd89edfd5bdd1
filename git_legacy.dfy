/**
 * The earlier version of the parent search: one map from commits to
 * references, in which every commit of the default branch's history is marked
 * as the default branch, and a per-branch text "<reference> (<commit>)" naming
 * the first commit below the branch that the map knows.
 */
module GitLegacy {
  import opened Bytes
  import opened Results
  import opened Utf8
  import opened Git2

  /** `BranchError`: a git failure, or a conversion failure the code never raises. */
  datatype BranchError = Git(git: GitError) | ConversionError(oid: Oid)

  // ------------------------------------------------------- references

  datatype Reference = Tag(name: string) | Branch(name: string) | Default

  const TagsPrefix := "refs/tags/"
  const HeadsPrefix := "refs/heads/"
  const DefaultName := "refs/default"

  /** `Display for Reference`. */
  function Display(r: Reference): (s: string)
    ensures |s| >= |TagsPrefix|
  {
    match r
    case Tag(t) => TagsPrefix + t
    case Branch(b) => HeadsPrefix + b
    case Default => DefaultName
  }

  /** Reads a displayed reference back. */
  function ParseReference(s: string): Option<Reference>
  {
    if s == DefaultName then Some(Default)
    else if |s| >= |HeadsPrefix| && s[..|HeadsPrefix|] == HeadsPrefix then Some(Branch(s[|HeadsPrefix|..]))
    else if |s| >= |TagsPrefix| && s[..|TagsPrefix|] == TagsPrefix then Some(Tag(s[|TagsPrefix|..]))
    else None
  }

  /** The displayed form names the reference: reading it back gives it again. */
  lemma DisplayRoundTrip(r: Reference)
    ensures ParseReference(Display(r)) == Some(r)
  {
    var s := Display(r);
    match r
    case Tag(t) =>
      assert s[..|TagsPrefix|] == TagsPrefix;
      assert s != DefaultName by { assert s[5] == 't'; }
      assert !(|s| >= |HeadsPrefix| && s[..|HeadsPrefix|] == HeadsPrefix) by { assert s[5] == 't'; }
      assert s[|TagsPrefix|..] == t;
    case Branch(b) =>
      assert s[..|HeadsPrefix|] == HeadsPrefix;
      assert s != DefaultName by { assert s[5] == 'h'; }
      assert s[|HeadsPrefix|..] == b;
    case Default =>
  }

  // ------------------------------------------------------- the reference map

  /** One item of `references()` after `filter_map`: branches and tags kept, others dropped, errors kept. */
  function Kept(item: Result<RefEntry, GitError>): seq<Result<(Oid, Reference), BranchError>>
  {
    match item
    case Err(e) => [Err(Git(e))]
    case Ok(r) =>
      match r.kind
      case LocalBranch => [Ok((r.oid, Branch(r.shorthand)))]
      case TagReference => [Ok((r.oid, Tag(r.shorthand)))]
      case OtherReference => []
  }

  /** `filter_map` over the references. */
  function FilterReferences(items: seq<Result<RefEntry, GitError>>): seq<Result<(Oid, Reference), BranchError>>
  {
    if items == [] then [] else FilterReferences(items[..|items| - 1]) + Kept(items[|items| - 1])
  }

  lemma {:induction false} FilterReferencesAppend(a: seq<Result<RefEntry, GitError>>, b: seq<Result<RefEntry, GitError>>)
    ensures FilterReferences(a + b) == FilterReferences(a) + FilterReferences(b)
  {
    if b != [] {
      var ab := a + b;
      assert ab[..|ab| - 1] == a + b[..|b| - 1];
      FilterReferencesAppend(a, b[..|b| - 1]);
    } else {
      assert a + b == a;
    }
  }

  /** A kept entry comes from a branch or tag of the same commit. */
  lemma {:induction false} FilterReferencesFrom(items: seq<Result<RefEntry, GitError>>, k: int)
    requires 0 <= k < |FilterReferences(items)| && FilterReferences(items)[k].Ok?
    ensures exists i :: (&& 0 <= i < |items| && items[i].Ok?
                         && items[i].value.kind != OtherReference
                         && items[i].value.oid == FilterReferences(items)[k].value.0)
  {
    var init := items[..|items| - 1];
    var last := items[|items| - 1];
    if k < |FilterReferences(init)| {
      FilterReferencesFrom(init, k);
      var i :| 0 <= i < |init| && init[i].Ok? && init[i].value.kind != OtherReference && init[i].value.oid == FilterReferences(init)[k].value.0;
      assert items[i] == init[i];
    } else {
      assert FilterReferences(items)[k] == Kept(last)[k - |FilterReferences(init)|];
    }
  }

  /** The value a branch or tag entry contributes. */
  function ReferenceOf(r: RefEntry): Reference
  {
    if r.kind == LocalBranch then Branch(r.shorthand) else Tag(r.shorthand)
  }

  /** A commit of the default branch's walk, marked `Default`. */
  function DefaultEntry(item: Result<Oid, GitError>): (e: Result<(Oid, Reference), BranchError>)
    ensures e.Ok? <==> item.Ok?
    ensures e.Ok? ==> e.value == (item.value, Default)
  {
    match item
    case Ok(c) => Ok((c, Default))
    case Err(e) => Err(Git(e))
  }

  /** The default branch's walk, every commit marked `Default`. */
  function DefaultEntries(w: Walk): (ps: seq<Result<(Oid, Reference), BranchError>>)
    ensures |ps| == |w| && forall i :: 0 <= i < |w| ==> ps[i] == DefaultEntry(w[i])
  {
    if w == [] then [] else DefaultEntries(w[..|w| - 1]) + [DefaultEntry(w[|w| - 1])]
  }

  /**
   * `reference_map`: the branches and tags of `references()`, then every
   * commit of the default branch's walk as `Default`, collected into one map
   * (the first error wins, a later entry overwrites an earlier one).
   */
  function ReferenceMap(repo: Repo, tip: Oid): Result<map<Oid, Reference>, BranchError>
  {
    match Revwalk(repo, tip)
    case Err(e) => Err(Git(e))
    case Ok(w) =>
      match repo.references
      case Err(e) => Err(Git(e))
      case Ok(refs) =>
        match Collect(FilterReferences(refs) + DefaultEntries(w))
        case Err(e) => Err(e)
        case Ok(ps) => Ok(CollectMap(ps))
  }

  /** Every key has a last pair in the sequence. */
  lemma LastOfKey<K, V>(ps: seq<(K, V)>, i: int)
    requires 0 <= i < |ps|
    ensures exists j :: i <= j < |ps| && ps[j].0 == ps[i].0 && LastWithKey(ps, j)
    decreases |ps| - i
  {
    if !LastWithKey(ps, i) {
      var j :| i < j < |ps| && ps[j].0 == ps[i].0;
      LastOfKey(ps, j);
    }
  }

  /** The filter of one item is that item's contribution. */
  lemma FilterReferencesSingle(item: Result<RefEntry, GitError>)
    ensures FilterReferences([item]) == Kept(item)
  {
    assert [item][..0] == [];
  }

  /** The filter keeps an item's contribution in its place. */
  lemma FilterReferencesSplit(refs: seq<Result<RefEntry, GitError>>, i: int)
    requires 0 <= i < |refs|
    ensures FilterReferences(refs) == FilterReferences(refs[..i]) + Kept(refs[i]) + FilterReferences(refs[i + 1..])
  {
    SplitAt(refs, i);
    FilterReferencesSingle(refs[i]);
    FilterReferencesAppend(refs[..i], [refs[i]]);
    FilterReferencesAppend(refs[..i + 1], refs[i + 1..]);
  }

  /** A sequence cut around its `i`th element. */
  lemma SplitAt<T>(s: seq<T>, i: int)
    requires 0 <= i < |s|
    ensures s[..i + 1] == s[..i] + [s[i]] && s == s[..i + 1] + s[i + 1..]
  {
  }

  /** Collecting two lists one after the other lines the values up with both. */
  lemma CollectConcat<T, E>(fs: seq<Result<T, E>>, ds: seq<Result<T, E>>, ps: seq<T>)
    requires Collect(fs + ds) == Ok(ps)
    ensures |ps| == |fs| + |ds|
    ensures forall j :: 0 <= j < |fs| ==> fs[j] == Ok(ps[j])
    ensures forall j :: 0 <= j < |ds| ==> ds[j] == Ok(ps[|fs| + j])
  {
    var all := fs + ds;
    assert forall j :: 0 <= j < |fs| ==> all[j] == fs[j];
    assert forall j :: 0 <= j < |ds| ==> all[|fs| + j] == ds[j];
  }

  /** Collecting succeeds only when no reference item failed. */
  lemma CollectedReferencesOk(refs: seq<Result<RefEntry, GitError>>, ds: seq<Result<(Oid, Reference), BranchError>>, ps: seq<(Oid, Reference)>)
    requires Collect(FilterReferences(refs) + ds) == Ok(ps)
    ensures forall i :: 0 <= i < |refs| ==> refs[i].Ok?
  {
    CollectConcat(FilterReferences(refs), ds, ps);
    forall i | 0 <= i < |refs| ensures refs[i].Ok? {
      FilterReferencesSplit(refs, i);
      var k := |FilterReferences(refs[..i])|;
      assert Kept(refs[i]) != [] ==> FilterReferences(refs)[k] == Kept(refs[i])[0];
    }
  }

  /** The default entries come last, so a commit of the default history maps to `Default`. */
  lemma DefaultEntriesWin(fs: seq<Result<(Oid, Reference), BranchError>>, w: Walk, ps: seq<(Oid, Reference)>, c: Oid)
    requires Collect(fs + DefaultEntries(w)) == Ok(ps)
    requires c in Commits(w)
    ensures c in CollectMap(ps) && CollectMap(ps)[c] == Default
  {
    var ds := DefaultEntries(w);
    CollectConcat(fs, ds, ps);
    var i :| 0 <= i < |w| && w[i].Ok? && w[i].value == c;
    assert ps[|fs| + i].0 == c;
    LastOfKey(ps, |fs| + i);
    var j :| |fs| + i <= j < |ps| && ps[j].0 == c && LastWithKey(ps, j);
    assert ds[j - |fs|] == Ok(ps[j]);
  }

  /** A key of pairs lined up with the filtered references, then the default history, but outside that history, is a reference's. */
  lemma KeyFromReferences(refs: seq<Result<RefEntry, GitError>>, w: Walk, ps: seq<(Oid, Reference)>, c: Oid)
    requires |FilterReferences(refs)| <= |ps| && forall j :: 0 <= j < |FilterReferences(refs)| ==> FilterReferences(refs)[j] == Ok(ps[j])
    requires forall j :: |FilterReferences(refs)| <= j < |ps| ==> ps[j].0 in Commits(w)
    requires c in KeysOf(ps) && c !in Commits(w)
    ensures exists i :: 0 <= i < |refs| && refs[i].Ok? && refs[i].value.kind != OtherReference && refs[i].value.oid == c
  {
    var k :| 0 <= k < |ps| && ps[k].0 == c;
    FilterReferencesFrom(refs, k);
  }

  /** Every pair collected from the default entries is at a commit of the default history. */
  lemma DefaultPairsInHistory(fs: seq<Result<(Oid, Reference), BranchError>>, w: Walk, ps: seq<(Oid, Reference)>)
    requires |ps| == |fs| + |w|
    requires forall j :: 0 <= j < |DefaultEntries(w)| ==> DefaultEntries(w)[j] == Ok(ps[|fs| + j])
    ensures forall j :: |fs| <= j < |ps| ==> ps[j].0 in Commits(w)
  {
    var ds := DefaultEntries(w);
    forall j | |fs| <= j < |ps| ensures ps[j].0 in Commits(w) {
      assert ds[j - |fs|] == Ok(ps[j]);
      assert w[j - |fs|].Ok? && w[j - |fs|].value == ps[j].0;
    }
  }

  /** The pair kept for reference `i` is the last one with its commit. */
  lemma KeptIsLast(refs: seq<Result<RefEntry, GitError>>, w: Walk, ps: seq<(Oid, Reference)>, i: int) returns (k: int)
    requires Collect(FilterReferences(refs) + DefaultEntries(w)) == Ok(ps)
    requires 0 <= i < |refs| && refs[i].Ok? && refs[i].value.kind != OtherReference && refs[i].value.oid !in Commits(w)
    requires forall j :: i < j < |refs| && refs[j].Ok? && refs[j].value.kind != OtherReference ==> refs[j].value.oid != refs[i].value.oid
    ensures 0 <= k < |ps| && ps[k] == (refs[i].value.oid, ReferenceOf(refs[i].value)) && LastWithKey(ps, k)
  {
    var r := refs[i].value;
    var fs, ds := FilterReferences(refs), DefaultEntries(w);
    CollectConcat(fs, ds, ps);
    var before, kept, after := FilterReferences(refs[..i]), Kept(refs[i]), FilterReferences(refs[i + 1..]);
    FilterReferencesSplit(refs, i);
    assert kept == [Ok((r.oid, ReferenceOf(r)))];
    k := |before|;
    ConcatMiddle(before, kept, after);
    assert ps[k] == (r.oid, ReferenceOf(r));
    LaterEntriesDiffer(refs, w, i, after, ds);
    NoLaterKey(fs, before, kept, after, ds, ps, r.oid);
  }

  /** Neither a later reference nor a default entry is at the commit of reference `i`. */
  lemma LaterEntriesDiffer(refs: seq<Result<RefEntry, GitError>>, w: Walk, i: int,
                            after: seq<Result<(Oid, Reference), BranchError>>, ds: seq<Result<(Oid, Reference), BranchError>>)
    requires 0 <= i < |refs| && refs[i].Ok? && refs[i].value.oid !in Commits(w)
    requires forall j :: i < j < |refs| && refs[j].Ok? && refs[j].value.kind != OtherReference ==> refs[j].value.oid != refs[i].value.oid
    requires after == FilterReferences(refs[i + 1..]) && ds == DefaultEntries(w)
    ensures forall a :: 0 <= a < |after| && after[a].Ok? ==> after[a].value.0 != refs[i].value.oid
    ensures forall d :: 0 <= d < |ds| && ds[d].Ok? ==> ds[d].value.0 != refs[i].value.oid
  {
    forall a | 0 <= a < |after| && after[a].Ok? ensures after[a].value.0 != refs[i].value.oid {
      LaterKeptDiffers(refs, i, a);
    }
    forall d | 0 <= d < |ds| && ds[d].Ok? ensures ds[d].value.0 != refs[i].value.oid {
      assert ds[d] == DefaultEntry(w[d]);
    }
  }

  /**
   * When the values of `fs`, that is `before + kept + after`, and then of
   * `ds` are collected into `ps`, and no entry of `after` or `ds` has key
   * `key`, then no pair after the one from `kept` has that key either.
   */
  lemma NoLaterKey<K, V, E>(fs: seq<Result<(K, V), E>>, before: seq<Result<(K, V), E>>, kept: seq<Result<(K, V), E>>,
                            after: seq<Result<(K, V), E>>, ds: seq<Result<(K, V), E>>, ps: seq<(K, V)>, key: K)
    requires fs == before + kept + after
    requires |kept| == 1 && |ps| == |fs| + |ds|
    requires forall j :: 0 <= j < |fs| ==> fs[j] == Ok(ps[j])
    requires forall j :: 0 <= j < |ds| ==> ds[j] == Ok(ps[|fs| + j])
    requires forall a :: 0 <= a < |after| && after[a].Ok? ==> after[a].value.0 != key
    requires forall d :: 0 <= d < |ds| && ds[d].Ok? ==> ds[d].value.0 != key
    ensures forall j :: |before| < j < |ps| ==> ps[j].0 != key
  {
    forall j | |before| < j < |ps| ensures ps[j].0 != key {
      if j < |fs| {
        ConcatLast(before, kept, after, j);
        assert after[j - |before| - 1] == Ok(ps[j]);
      } else {
        assert ds[j - |fs|] == Ok(ps[j]);
      }
    }
  }

  /** The middle one of three concatenated sequences starts right after the first. */
  lemma ConcatMiddle<T>(x: seq<T>, y: seq<T>, z: seq<T>)
    requires |y| > 0
    ensures (x + y + z)[|x|] == y[0]
  {
  }

  /** An index past the first two of three concatenated sequences lands in the third. */
  lemma ConcatLast<T>(x: seq<T>, y: seq<T>, z: seq<T>, j: int)
    requires |x| + |y| <= j < |x| + |y| + |z|
    ensures (x + y + z)[j] == z[j - |x| - |y|]
  {
  }

  /** An entry kept after reference `i` is at another commit, when no later branch or tag shares it. */
  lemma LaterKeptDiffers(refs: seq<Result<RefEntry, GitError>>, i: int, a: int)
    requires 0 <= i < |refs| && refs[i].Ok?
    requires forall j :: i < j < |refs| && refs[j].Ok? && refs[j].value.kind != OtherReference ==> refs[j].value.oid != refs[i].value.oid
    requires 0 <= a < |FilterReferences(refs[i + 1..])| && FilterReferences(refs[i + 1..])[a].Ok?
    ensures FilterReferences(refs[i + 1..])[a].value.0 != refs[i].value.oid
  {
    var tail := refs[i + 1..];
    FilterReferencesFrom(tail, a);
    var x :| 0 <= x < |tail| && tail[x].Ok? && tail[x].value.kind != OtherReference && tail[x].value.oid == FilterReferences(tail)[a].value.0;
    assert tail[x] == refs[i + 1 + x];
  }

  /**
   * The map holds every commit of the default branch's history, tip
   * included, as `Default`, whatever branch or tag sits there.
   */
  lemma ReferenceMapDefault(repo: Repo, tip: Oid)
    requires ReferenceMap(repo, tip).Ok?
    ensures forall c :: c in Commits(repo.walks[tip]) ==>
      c in ReferenceMap(repo, tip).value && ReferenceMap(repo, tip).value[c] == Default
  {
    var w := repo.walks[tip];
    var refs := repo.references.value;
    var ps := Collect(FilterReferences(refs) + DefaultEntries(w)).value;
    forall c | c in Commits(w) ensures c in CollectMap(ps) && CollectMap(ps)[c] == Default {
      DefaultEntriesWin(FilterReferences(refs), w, ps, c);
    }
  }

  /** The map is built only when no reference failed, and every key off the default history is a branch or tag there. */
  lemma ReferenceMapOthers(repo: Repo, tip: Oid)
    requires ReferenceMap(repo, tip).Ok?
    ensures forall i :: 0 <= i < |repo.references.value| ==> repo.references.value[i].Ok?
    ensures forall c :: c in ReferenceMap(repo, tip).value && c !in Commits(repo.walks[tip]) ==>
      exists i :: (&& 0 <= i < |repo.references.value| && repo.references.value[i].Ok?
                   && repo.references.value[i].value.kind != OtherReference
                   && repo.references.value[i].value.oid == c)
  {
    var w := repo.walks[tip];
    var refs := repo.references.value;
    var ps := Collect(FilterReferences(refs) + DefaultEntries(w)).value;
    CollectedReferencesOk(refs, DefaultEntries(w), ps);
    var fs := FilterReferences(refs);
    CollectConcat(fs, DefaultEntries(w), ps);
    DefaultPairsInHistory(fs, w, ps);
    forall c | c in CollectMap(ps) && c !in Commits(w)
      ensures exists i :: 0 <= i < |refs| && refs[i].Ok? && refs[i].value.kind != OtherReference && refs[i].value.oid == c
    {
      KeyFromReferences(refs, w, ps, c);
    }
  }

  /** For a commit off the default history, the last branch or tag listed there is the one kept. */
  lemma ReferenceMapLastWins(repo: Repo, tip: Oid, i: int)
    requires ReferenceMap(repo, tip).Ok?
    requires 0 <= i < |repo.references.value| && repo.references.value[i].Ok?
    requires repo.references.value[i].value.kind != OtherReference
    requires repo.references.value[i].value.oid !in Commits(repo.walks[tip])
    requires forall j :: (&& i < j < |repo.references.value| && repo.references.value[j].Ok?
                          && repo.references.value[j].value.kind != OtherReference) ==>
      repo.references.value[j].value.oid != repo.references.value[i].value.oid
    ensures repo.references.value[i].value.oid in ReferenceMap(repo, tip).value
    ensures ReferenceMap(repo, tip).value[repo.references.value[i].value.oid] == ReferenceOf(repo.references.value[i].value)
  {
    var w := repo.walks[tip];
    var refs := repo.references.value;
    var ps := Collect(FilterReferences(refs) + DefaultEntries(w)).value;
    var k := KeptIsLast(refs, w, ps, i);
    assert ps[k].0 in KeysOf(ps);
    assert LastWithKey(ps, k);
  }

  // ------------------------------------------------------- commit lists

  /** `branch_commit_list`: every commit the walk from `tip` visits, or the first failure. */
  function BranchCommitList(repo: Repo, tip: Oid): (r: Result<set<Oid>, GitError>)
    ensures r.Ok? ==> tip in repo.walks && r.value == Commits(repo.walks[tip])
    ensures r.Ok? ==> forall i :: 0 <= i < |repo.walks[tip]| ==> repo.walks[tip][i].Ok?
  {
    match Revwalk(repo, tip)
    case Err(e) => Err(e)
    case Ok(w) =>
      match Collect(w)
      case Err(e) => Err(e)
      case Ok(cs) =>
        assert Commits(w) == set c | c in cs by {
          forall c | c in Commits(w) ensures c in cs {
            var i :| 0 <= i < |w| && w[i].Ok? && w[i].value == c;
            assert cs[i] == c;
          }
          forall c | c in cs ensures c in Commits(w) {
            var i :| 0 <= i < |cs| && cs[i] == c;
            assert w[i] == Ok(c);
          }
        }
        Ok(set c | c in cs)
  }

  /** When the walk exists but listing fails, the error is the walk's first one. */
  lemma BranchCommitListFirstError(repo: Repo, tip: Oid) returns (i: nat)
    requires BranchCommitList(repo, tip).Err? && tip in repo.walks
    ensures i < |repo.walks[tip]| && repo.walks[tip][i] == Err(BranchCommitList(repo, tip).error)
    ensures forall j :: 0 <= j < i ==> repo.walks[tip][j].Ok?
  {
    i := FirstError(repo.walks[tip]);
  }

  /** On a well-formed walk the list includes the branch's own tip. */
  lemma BranchCommitListHasTip(repo: Repo, tip: Oid)
    requires Valid(repo) && BranchCommitList(repo, tip).Ok?
    ensures tip in BranchCommitList(repo, tip).value
  {
    assert repo.walks[tip][0] == Ok(tip);
  }

  // ------------------------------------------------------- the parent text

  /** `format!("{} ({})", m, oid)`. */
  function ParentText(r: Reference, c: Oid): (s: string)
    ensures s != ""
  {
    Display(r) + " (" + Hex(c) + ")"
  }

  /** The text names one reference and one commit: different pairs give different texts. */
  lemma ParentTextInjective(r1: Reference, c1: Oid, r2: Reference, c2: Oid)
    requires ParentText(r1, c1) == ParentText(r2, c2)
    ensures r1 == r2 && c1 == c2
  {
    var s := ParentText(r1, c1);
    var n := |s|;
    var h1, h2 := Hex(c1), Hex(c2);
    assert s == Display(r1) + " (" + h1 + ")";
    assert s == Display(r2) + " (" + h2 + ")";
    assert |Display(r1)| == n - 43 == |Display(r2)|;
    assert s[n - 41..n - 1] == h1;
    assert s[n - 41..n - 1] == h2;
    HexInjective(c1, c2);
    assert s[..n - 43] == Display(r1);
    assert s[..n - 43] == Display(r2);
    DisplayRoundTrip(r1);
    DisplayRoundTrip(r2);
  }

  /** Every item before `i` is a commit that is the branch's own or not in the map. */
  predicate PassesBefore(items: Walk, own: Oid, m: map<Oid, Reference>, i: int)
    requires 0 <= i <= |items|
  {
    forall j :: 0 <= j < i ==> items[j].Ok? && (items[j].value == own || items[j].value !in m)
  }

  /**
   * The loop of `find_parent`: the text for the first commit, other than the
   * branch's own, that the map knows; the first error; or the empty string.
   */
  function FindParentIn(items: Walk, own: Oid, m: map<Oid, Reference>): Result<string, GitError>
  {
    if items == [] then Ok("")
    else
      match items[0]
      case Err(e) => Err(e)
      case Ok(c) =>
        if c != own && c in m then Ok(ParentText(m[c], c))
        else FindParentIn(items[1..], own, m)
  }

  /**
   * `find_parent` gives the empty string exactly when every commit of the
   * walk is the branch's own or unknown to the map; otherwise it gives the
   * text of the first known one, or the first error.
   */
  lemma {:induction false} FindParentInFirst(items: Walk, own: Oid, m: map<Oid, Reference>)
    ensures FindParentIn(items, own, m) == Ok("") <==> PassesBefore(items, own, m, |items|)
    ensures var r := FindParentIn(items, own, m);
      r.Ok? && r.value != "" ==>
        exists i :: (&& 0 <= i < |items| && items[i].Ok? && items[i].value != own && items[i].value in m
                     && r.value == ParentText(m[items[i].value], items[i].value)
                     && PassesBefore(items, own, m, i))
    ensures var r := FindParentIn(items, own, m);
      r.Err? ==> exists i :: 0 <= i < |items| && items[i] == Err(r.error) && PassesBefore(items, own, m, i)
  {
    if items != [] && items[0].Ok? && !(items[0].value != own && items[0].value in m) {
      FindParentInFirst(items[1..], own, m);
      var r := FindParentIn(items, own, m);
      assert forall i :: 1 <= i < |items| ==> items[i] == items[1..][i - 1];
      assert forall i :: 1 <= i <= |items| ==> PassesBefore(items[1..], own, m, i - 1) ==> PassesBefore(items, own, m, i);
      if r.Ok? && r.value != "" {
        var i :| (&& 0 <= i < |items[1..]| && items[1..][i].Ok? && items[1..][i].value != own && items[1..][i].value in m
                  && r.value == ParentText(m[items[1..][i].value], items[1..][i].value)
                  && PassesBefore(items[1..], own, m, i));
        assert items[i + 1] == items[1..][i];
      }
    }
  }

  /** What `find_parent` returns for a branch at `tip`. */
  function FindParentOf(repo: Repo, tip: Oid, m: map<Oid, Reference>): Result<string, GitError>
  {
    match Revwalk(repo, tip)
    case Err(e) => Err(e)
    case Ok(w) => FindParentIn(w, tip, m)
  }

  /** `find_parent`: walks the branch's history, skipping its own commit wherever it appears. */
  method FindParent(repo: Repo, tip: Oid, m: map<Oid, Reference>) returns (r: Result<string, GitError>)
    ensures r == FindParentOf(repo, tip, m)
  {
    if tip !in repo.walks {
      return Err(ObjectNotFound);
    }
    var w := repo.walks[tip];
    var i := 0;
    while i < |w|
      invariant 0 <= i <= |w|
      invariant FindParentOf(repo, tip, m) == FindParentIn(w[i..], tip, m)
    {
      assert w[i..][1..] == w[i + 1..];
      match w[i]
      case Err(e) =>
        return Err(e);
      case Ok(c) =>
        if c != tip && c in m {
          return Ok(ParentText(m[c], c));
        }
      i := i + 1;
    }
    return Ok("");
  }

  /** Once every earlier item has been passed over, the first known commit decides. */
  lemma {:induction false} FindParentInAt(items: Walk, own: Oid, m: map<Oid, Reference>, i: int)
    requires 0 <= i < |items| && PassesBefore(items, own, m, i)
    requires items[i].Ok? && items[i].value != own && items[i].value in m
    ensures FindParentIn(items, own, m) == Ok(ParentText(m[items[i].value], items[i].value))
  {
    if i > 0 {
      assert forall j :: 1 <= j < |items| ==> items[j] == items[1..][j - 1];
      FindParentInAt(items[1..], own, m, i - 1);
    }
  }

  /**
   * With the map `reference_map` builds, a branch forked from the default
   * history is described by the first commit below its tip that is on that
   * history or carries a reference: the default branch's history is all
   * `Default`, so no branch or tag deeper down is ever reached.
   */
  lemma FindParentStopsAtDefault(repo: Repo, tip: Oid, defaultTip: Oid, i: int)
    requires Valid(repo) && ReferenceMap(repo, defaultTip).Ok? && tip in repo.walks
    requires 1 <= i < |repo.walks[tip]| && repo.walks[tip][i].Ok? && repo.walks[tip][i].value in Commits(repo.walks[defaultTip])
    requires forall j :: 1 <= j < i ==> repo.walks[tip][j].Ok? && repo.walks[tip][j].value !in ReferenceMap(repo, defaultTip).value
    ensures FindParentOf(repo, tip, ReferenceMap(repo, defaultTip).value) == Ok(ParentText(Default, repo.walks[tip][i].value))
  {
    var w := repo.walks[tip];
    var m := ReferenceMap(repo, defaultTip).value;
    ReferenceMapDefault(repo, defaultTip);
    assert WalkFrom(w, tip);
    PassesToFirstHit(w, tip, m, i);
    FindParentInAt(w, tip, m, i);
  }

  /** In a walk from `own`, commits below it that the map lacks are passed over up to `i`. */
  lemma PassesToFirstHit(w: Walk, own: Oid, m: map<Oid, Reference>, i: int)
    requires WalkFrom(w, own) && 1 <= i < |w| && w[i].Ok?
    requires forall j :: 1 <= j < i ==> w[j].Ok? && w[j].value !in m
    ensures PassesBefore(w, own, m, i) && w[i].value != own
  {
    assert w[0].Ok? && w[0].value == own;
  }

  // ------------------------------------------------------- build

  /** `find_branch` failing on an unknown name. */
  const BranchNotFound := GitError("cannot locate local branch")

  /** Where `build` ends: the mappings it made, the error it returned, or a panic of an `unwrap`. */
  datatype BuildOutcome = Built(mappings: map<string, string>) | Failed(error: BranchError) | Panicked

  /**
   * The loop of `build` over the local branches: a failed item ends it, a
   * branch at the default tip is skipped, a name that is not UTF-8 panics,
   * and every other branch records its parent text under its name.
   */
  function Mappings(repo: Repo, tip: Oid, m: map<Oid, Reference>, items: seq<Result<RawReference, GitError>>, acc: map<string, string>): BuildOutcome
  {
    if items == [] then Built(acc)
    else
      match items[0]
      case Err(e) => Failed(Git(e))
      case Ok(b) =>
        if b.oid == tip then Mappings(repo, tip, m, items[1..], acc)
        else
          match Decode(b.nameBytes)
          case Err(_) => Panicked
          case Ok(name) =>
            match FindParentOf(repo, b.oid, m)
            case Err(e) => Failed(Git(e))
            case Ok(text) => Mappings(repo, tip, m, items[1..], acc[name := text])
  }

  /** `build` before its printing loop. */
  function BuildSpec(repo: Repo, defaultName: string): BuildOutcome
  {
    if defaultName !in repo.localBranchTips then Failed(Git(BranchNotFound))
    else
      var tip := repo.localBranchTips[defaultName];
      match ReferenceMap(repo, tip)
      case Err(e) => Failed(e)
      case Ok(m) =>
        match repo.localBranches
        case Err(e) => Failed(Git(e))
        case Ok(items) => Mappings(repo, tip, m, items, map[])
  }

  /** A branch `build` records: off the default tip, with a UTF-8 name. */
  predicate Recorded(b: RawReference, tip: Oid)
  {
    b.oid != tip && Decode(b.nameBytes).Ok?
  }

  /**
   * When the loop completes, every branch off the default tip has an entry
   * under its name, and every entry is the parent text of a branch of that
   * name (or was there before).
   */
  lemma MappingsComplete(repo: Repo, tip: Oid, m: map<Oid, Reference>, items: seq<Result<RawReference, GitError>>, acc: map<string, string>)
    requires Mappings(repo, tip, m, items, acc).Built?
    ensures var out := Mappings(repo, tip, m, items, acc).mappings;
      && (forall i :: 0 <= i < |items| ==> items[i].Ok?)
      && (forall i :: 0 <= i < |items| && items[i].value.oid != tip ==>
            Recorded(items[i].value, tip) && Decode(items[i].value.nameBytes).value in out)
      && (forall k :: k in out ==>
            || (k in acc && out[k] == acc[k])
            || exists i :: (&& 0 <= i < |items| && Recorded(items[i].value, tip)
                            && Decode(items[i].value.nameBytes).value == k
                            && FindParentOf(repo, items[i].value.oid, m) == Ok(out[k])))
  {
    MappingsCover(repo, tip, m, items, acc);
    MappingsSources(repo, tip, m, items, acc);
  }

  /** A completed loop saw only `Ok` items and recorded every branch off the default tip. */
  lemma {:induction false} MappingsCover(repo: Repo, tip: Oid, m: map<Oid, Reference>, items: seq<Result<RawReference, GitError>>, acc: map<string, string>)
    requires Mappings(repo, tip, m, items, acc).Built?
    ensures forall i :: 0 <= i < |items| ==> items[i].Ok?
    ensures forall i :: 0 <= i < |items| && items[i].value.oid != tip ==>
      Recorded(items[i].value, tip) && Decode(items[i].value.nameBytes).value in Mappings(repo, tip, m, items, acc).mappings
  {
    if items != [] {
      var b := items[0].value;
      assert forall i :: 1 <= i < |items| ==> items[i] == items[1..][i - 1];
      if b.oid == tip {
        MappingsCover(repo, tip, m, items[1..], acc);
      } else {
        var acc' := acc[Decode(b.nameBytes).value := FindParentOf(repo, b.oid, m).value];
        MappingsCover(repo, tip, m, items[1..], acc');
        MappingsKeep(repo, tip, m, items[1..], acc');
      }
    }
  }

  /** Some branch among `items` off the default tip is named `k` and has parent text `v`. */
  predicate HasSource(repo: Repo, tip: Oid, m: map<Oid, Reference>, items: seq<Result<RawReference, GitError>>, k: string, v: string)
  {
    exists i :: (&& 0 <= i < |items| && items[i].Ok? && Recorded(items[i].value, tip)
                 && Decode(items[i].value.nameBytes).value == k
                 && FindParentOf(repo, items[i].value.oid, m) == Ok(v))
  }

  /** A source among the later items is a source among all of them. */
  lemma HasSourceShift(repo: Repo, tip: Oid, m: map<Oid, Reference>, items: seq<Result<RawReference, GitError>>, k: string, v: string)
    requires items != [] && HasSource(repo, tip, m, items[1..], k, v)
    ensures HasSource(repo, tip, m, items, k, v)
  {
    var rest := items[1..];
    var i :| (&& 0 <= i < |rest| && rest[i].Ok? && Recorded(rest[i].value, tip)
              && Decode(rest[i].value.nameBytes).value == k
              && FindParentOf(repo, rest[i].value.oid, m) == Ok(v));
    assert items[i + 1] == rest[i];
  }

  /** Every entry of a completed loop was there before it or is the parent text of a branch with that name. */
  lemma {:induction false} MappingsSources(repo: Repo, tip: Oid, m: map<Oid, Reference>, items: seq<Result<RawReference, GitError>>, acc: map<string, string>)
    requires Mappings(repo, tip, m, items, acc).Built?
    ensures var out := Mappings(repo, tip, m, items, acc).mappings;
      forall k :: k in out ==> (k in acc && out[k] == acc[k]) || HasSource(repo, tip, m, items, k, out[k])
  {
    if items != [] {
      var b := items[0].value;
      if b.oid == tip {
        MappingsSources(repo, tip, m, items[1..], acc);
        forall k, v | HasSource(repo, tip, m, items[1..], k, v) ensures HasSource(repo, tip, m, items, k, v) {
          HasSourceShift(repo, tip, m, items, k, v);
        }
      } else {
        var name := Decode(b.nameBytes).value;
        var text := FindParentOf(repo, b.oid, m).value;
        var acc' := acc[name := text];
        MappingsSources(repo, tip, m, items[1..], acc');
        var out := Mappings(repo, tip, m, items[1..], acc').mappings;
        assert out == Mappings(repo, tip, m, items, acc).mappings;
        assert HasSource(repo, tip, m, items, name, text) by {
          assert Recorded(items[0].value, tip);
        }
        forall k | k in out ensures (k in acc && out[k] == acc[k]) || HasSource(repo, tip, m, items, k, out[k]) {
          if !(k in acc' && out[k] == acc'[k]) {
            HasSourceShift(repo, tip, m, items, k, out[k]);
          }
        }
      }
    }
  }

  /** Entries are only ever added or replaced, never removed. */
  lemma {:induction false} MappingsKeep(repo: Repo, tip: Oid, m: map<Oid, Reference>, items: seq<Result<RawReference, GitError>>, acc: map<string, string>)
    requires Mappings(repo, tip, m, items, acc).Built?
    ensures acc.Keys <= Mappings(repo, tip, m, items, acc).mappings.Keys
  {
    if items != [] {
      var b := items[0].value;
      if b.oid == tip {
        MappingsKeep(repo, tip, m, items[1..], acc);
      } else {
        MappingsKeep(repo, tip, m, items[1..], acc[Decode(b.nameBytes).value := FindParentOf(repo, b.oid, m).value]);
      }
    }
  }

  /**
   * `build` records exactly one parent text per local branch off the default
   * tip, under the branch's name, and nothing else.
   */
  lemma BuildRecordsEveryBranch(repo: Repo, defaultName: string)
    requires BuildSpec(repo, defaultName).Built?
    ensures var tip := repo.localBranchTips[defaultName];
      var items := repo.localBranches.value;
      var out := BuildSpec(repo, defaultName).mappings;
      && (forall i :: 0 <= i < |items| && items[i].Ok? && items[i].value.oid != tip ==>
            Decode(items[i].value.nameBytes).Ok? && Decode(items[i].value.nameBytes).value in out)
      && (forall k :: k in out ==>
            exists i :: (&& 0 <= i < |items| && items[i].Ok? && Recorded(items[i].value, tip)
                         && Decode(items[i].value.nameBytes).value == k
                         && FindParentOf(repo, items[i].value.oid, ReferenceMap(repo, tip).value) == Ok(out[k])))
  {
    var tip := repo.localBranchTips[defaultName];
    MappingsComplete(repo, tip, ReferenceMap(repo, tip).value, repo.localBranches.value, map[]);
  }

  /** `build`'s loop, filling the mutable `mappings` map. */
  method Build(repo: Repo, defaultName: string) returns (outcome: BuildOutcome)
    ensures outcome == BuildSpec(repo, defaultName)
  {
    if defaultName !in repo.localBranchTips {
      return Failed(Git(BranchNotFound));
    }
    var tip := repo.localBranchTips[defaultName];
    var remoteMap := ReferenceMap(repo, tip);
    if remoteMap.Err? {
      return Failed(remoteMap.error);
    }
    var m := remoteMap.value;
    if repo.localBranches.Err? {
      return Failed(Git(repo.localBranches.error));
    }
    outcome := RecordMappings(repo, tip, m, repo.localBranches.value);
  }

  /** One step of the loop of `build`, at item `i`. */
  lemma MappingsAt(repo: Repo, tip: Oid, m: map<Oid, Reference>, items: seq<Result<RawReference, GitError>>, i: int, acc: map<string, string>)
    requires 0 <= i < |items|
    ensures var out := Mappings(repo, tip, m, items[i..], acc);
      match items[i]
      case Err(e) => out == Failed(Git(e))
      case Ok(b) =>
        if b.oid == tip then out == Mappings(repo, tip, m, items[i + 1..], acc)
        else if Decode(b.nameBytes).Err? then out == Panicked
        else if FindParentOf(repo, b.oid, m).Err? then out == Failed(Git(FindParentOf(repo, b.oid, m).error))
        else out == Mappings(repo, tip, m, items[i + 1..], acc[Decode(b.nameBytes).value := FindParentOf(repo, b.oid, m).value])
  {
    assert items[i..][0] == items[i] && items[i..][1..] == items[i + 1..];
  }

  /** The loop of `build` over the local branches, from an empty mapping. */
  method RecordMappings(repo: Repo, tip: Oid, m: map<Oid, Reference>, items: seq<Result<RawReference, GitError>>)
    returns (outcome: BuildOutcome)
    ensures outcome == Mappings(repo, tip, m, items, map[])
  {
    var mappings: map<string, string> := map[];
    var i := 0;
    while i < |items|
      invariant 0 <= i <= |items|
      invariant Mappings(repo, tip, m, items, map[]) == Mappings(repo, tip, m, items[i..], mappings)
    {
      MappingsAt(repo, tip, m, items, i, mappings);
      if items[i].Err? {
        return Failed(Git(items[i].error));
      }
      var b := items[i].value;
      if b.oid != tip {
        var name := Decode(b.nameBytes);
        if name.Err? {
          return Panicked;
        }
        var text := FindParent(repo, b.oid, m);
        if text.Err? {
          return Failed(Git(text.error));
        }
        mappings := mappings[name.value := text.value];
      }
      i := i + 1;
    }
    assert items[i..] == [];
    return Built(mappings);
  }
}
