/**
 * The reference index and the ancestor search behind `describe`: reference
 * names and their display form, `ReferenceInfo` with its derived ordering and
 * its construction from raw name bytes, the enumeration of branches and tags,
 * the parent search over a revision walk, and the two commit lists.
 */
module GitUtils {
  import opened Bytes
  import opened Results
  import opened Utf8
  import opened Git2
  import opened Errors

  // ---------------------------------------------------------------- names

  /** The name a commit is known by in the reference map. */
  datatype ReferenceName = Branch(name: string) | Tag(name: string)

  const HeadsPrefix := "refs/heads/"
  const TagsPrefix := "refs/tags/"

  /** The `Display` form: the full reference path. */
  function Display(r: ReferenceName): string
  {
    match r
    case Tag(tag) => TagsPrefix + tag
    case Branch(branch) => HeadsPrefix + branch
  }

  /** Reads a full reference path back into a name. */
  function ParseReferenceName(s: string): Option<ReferenceName>
  {
    if |s| >= |HeadsPrefix| && s[..|HeadsPrefix|] == HeadsPrefix then Some(Branch(s[|HeadsPrefix|..]))
    else if |s| >= |TagsPrefix| && s[..|TagsPrefix|] == TagsPrefix then Some(Tag(s[|TagsPrefix|..]))
    else None
  }

  /** The display form can be read back, so different names display differently. */
  lemma DisplayRoundTrip(r: ReferenceName)
    ensures ParseReferenceName(Display(r)) == Some(r)
  {
    var s := Display(r);
    if r.Tag? {
      assert s[..|TagsPrefix|] == TagsPrefix && s[|TagsPrefix|..] == r.name;
      if |s| >= |HeadsPrefix| {
        assert s[..|HeadsPrefix|][5] == 't' && HeadsPrefix[5] == 'h';
      }
    } else {
      assert s[..|HeadsPrefix|] == HeadsPrefix && s[|HeadsPrefix|..] == r.name;
    }
  }

  // ------------------------------------------------------ reference infos

  /** A branch or tag: its decoded name and the commit it points at. */
  datatype ReferenceInfo = ReferenceInfo(name: string, oid: Oid)

  /**
   * The derived `Ord`: by name, then by oid. Rust compares strings by their
   * UTF-8 bytes and oids by their raw bytes.
   */
  predicate Less(a: ReferenceInfo, b: ReferenceInfo)
  {
    LexLess(Encode(a.name), Encode(b.name)) || (a.name == b.name && OidLess(a.oid, b.oid))
  }

  predicate LessEq(a: ReferenceInfo, b: ReferenceInfo)
  {
    a == b || Less(a, b)
  }

  /** `Less` is a strict total order. */
  lemma LessIrreflexive(a: ReferenceInfo)
    ensures !Less(a, a)
  {
    LexLessIrreflexive(Encode(a.name));
    LexLessIrreflexive(a.oid.bytes);
  }

  lemma LessTransitive(a: ReferenceInfo, b: ReferenceInfo, c: ReferenceInfo)
    requires Less(a, b) && Less(b, c)
    ensures Less(a, c)
  {
    if a.name == b.name && b.name == c.name {
      LexLessIrreflexive(Encode(a.name));
      LexLessTransitive(a.oid.bytes, b.oid.bytes, c.oid.bytes);
    } else if a.name == b.name {
      assert LexLess(Encode(b.name), Encode(c.name));
    } else if b.name == c.name {
      assert LexLess(Encode(a.name), Encode(b.name));
    } else {
      LexLessTransitive(Encode(a.name), Encode(b.name), Encode(c.name));
    }
  }

  lemma LessTotal(a: ReferenceInfo, b: ReferenceInfo)
    requires a != b
    ensures Less(a, b) || Less(b, a)
  {
    if a.name != b.name {
      if Encode(a.name) == Encode(b.name) {
        EncodeInjective(a.name, b.name);
      }
      LexLessTotal(Encode(a.name), Encode(b.name));
    } else {
      LexLessTotal(a.oid.bytes, b.oid.bytes);
    }
  }

  /** `ReferenceInfo::from`: decodes the name as UTF-8 and pairs it with the oid. */
  function From(oid: Oid, nameBytes: seq<Byte>): (r: Result<ReferenceInfo, Error>)
    ensures r.Ok? <==> WellFormed(nameBytes)
    ensures r.Ok? ==> r.value.oid == oid && Encode(r.value.name) == nameBytes
    ensures r.Err? ==> r.error.Utf8Error? && r.error.validUpTo < |nameBytes|
    ensures r.Err? ==> WellFormed(nameBytes[..r.error.validUpTo])
    ensures r.Err? ==> SequenceLength(nameBytes[r.error.validUpTo..]) == 0
  {
    match Decode(nameBytes)
    case Ok(name) => Ok(ReferenceInfo(name, oid))
    case Err(validUpTo) => Err(Utf8Error(validUpTo))
  }

  /** A name that came from a string decodes back to that same string. */
  lemma FromEncodedName(oid: Oid, name: string)
    ensures From(oid, Encode(name)) == Ok(ReferenceInfo(name, oid))
  {
    DecodeEncode(name);
  }

  /** `ReferenceInfo::from_branch` on one item of the branch enumeration. */
  function FromBranch(item: Result<RawReference, GitError>): Result<ReferenceInfo, Error>
  {
    match item
    case Err(e) => Err(Git(e))
    case Ok(raw) => From(raw.oid, raw.nameBytes)
  }

  function FromBranches(items: seq<Result<RawReference, GitError>>): (rs: seq<Result<ReferenceInfo, Error>>)
    ensures |rs| == |items| && forall i :: 0 <= i < |items| ==> rs[i] == FromBranch(items[i])
  {
    if items == [] then [] else [FromBranch(items[0])] + FromBranches(items[1..])
  }

  /**
   * `branches`: every local branch in enumeration order, or the first failure
   * (of the enumeration, of an item, or of a name's decoding).
   */
  function Branches(repo: Repo): (r: Result<seq<ReferenceInfo>, Error>)
    ensures repo.localBranches.Err? ==> r == Err(Git(repo.localBranches.error))
    ensures r.Ok? ==> repo.localBranches.Ok? && |r.value| == |repo.localBranches.value|
    ensures r.Ok? ==> forall i :: 0 <= i < |r.value| ==>
      && repo.localBranches.value[i].Ok?
      && From(repo.localBranches.value[i].value.oid, repo.localBranches.value[i].value.nameBytes) == Ok(r.value[i])
  {
    match repo.localBranches
    case Err(e) => Err(Git(e))
    case Ok(items) => Collect(FromBranches(items))
  }

  /** When `branches` fails after the enumeration started, it reports the first item that fails. */
  lemma BranchesFirstFailure(repo: Repo) returns (i: nat)
    requires Branches(repo).Err? && repo.localBranches.Ok?
    ensures i < |repo.localBranches.value| && FromBranch(repo.localBranches.value[i]) == Err(Branches(repo).error)
    ensures forall j :: 0 <= j < i ==> FromBranch(repo.localBranches.value[j]).Ok?
  {
    i := FirstError(FromBranches(repo.localBranches.value));
  }

  function FromTags(entries: seq<RawReference>): (rs: seq<Result<ReferenceInfo, Error>>)
    ensures |rs| == |entries| && forall i :: 0 <= i < |entries| ==> rs[i] == From(entries[i].oid, entries[i].nameBytes)
  {
    if entries == [] then [] else [From(entries[0].oid, entries[0].nameBytes)] + FromTags(entries[1..])
  }

  /** What `tags` returns: every tag in enumeration order, or the first failure. */
  function TagsOf(repo: Repo): (r: Result<seq<ReferenceInfo>, Error>)
    ensures repo.tags.Err? ==> r == Err(Git(repo.tags.error))
    ensures r.Ok? ==> repo.tags.Ok? && |r.value| == |repo.tags.value|
    ensures r.Ok? ==> forall i :: 0 <= i < |r.value| ==>
      From(repo.tags.value[i].oid, repo.tags.value[i].nameBytes) == Ok(r.value[i])
  {
    match repo.tags
    case Err(e) => Err(Git(e))
    case Ok(entries) => Collect(FromTags(entries))
  }

  /** When `tags` fails after the iteration started, it reports the first tag whose name does not decode. */
  lemma TagsFirstFailure(repo: Repo) returns (i: nat)
    requires TagsOf(repo).Err? && repo.tags.Ok?
    ensures i < |repo.tags.value| && From(repo.tags.value[i].oid, repo.tags.value[i].nameBytes) == Err(TagsOf(repo).error)
    ensures forall j :: 0 <= j < i ==> From(repo.tags.value[j].oid, repo.tags.value[j].nameBytes).Ok?
  {
    i := FirstError(FromTags(repo.tags.value));
  }

  /**
   * `tags`: the callback handed to `tag_foreach` decodes each tag and pushes
   * it, and on the first failure records the error and asks to stop; once an
   * error is recorded it ignores whatever it is still given. No partial list
   * escapes on failure.
   */
  method Tags(repo: Repo) returns (r: Result<seq<ReferenceInfo>, Error>)
    ensures r == TagsOf(repo)
  {
    if repo.tags.Err? {
      return Err(Git(repo.tags.error));
    }
    var entries := repo.tags.value;
    var results := FromTags(entries);
    var tags: seq<ReferenceInfo> := [];
    var err: Option<Error> := None;
    var i := 0;
    while i < |entries|
      invariant 0 <= i <= |entries|
      invariant err.None? ==> Collect(results[..i]) == Ok(tags)
      invariant err.Some? ==> Collect(results[..i]) == Err(err.value)
    {
      PrefixSnoc(results, i);
      CollectSnoc(results[..i], results[i]);
      if err.None? {
        match From(entries[i].oid, entries[i].nameBytes)
        case Ok(info) =>
          tags := tags + [info];
        case Err(e) =>
          err := Some(e);
      }
      i := i + 1;
    }
    assert results[..i] == results;
    if err.Some? {
      r := Err(err.value);
    } else {
      r := Ok(tags);
    }
  }

  /** A prefix one longer is the prefix and the next element. */
  lemma PrefixSnoc<T>(s: seq<T>, i: int)
    requires 0 <= i < |s|
    ensures s[..i + 1] == s[..i] + [s[i]]
  {
  }

  // ------------------------------------------------------- the parent search

  /** `skip(1)`: the walk without the commit it was started from. */
  function Skip1<T>(w: seq<T>): (r: seq<T>)
    ensures |w| > 0 ==> r == w[1..]
    ensures |w| == 0 ==> r == []
  {
    if w == [] then [] else w[1..]
  }

  /** Every item before index `i` is a commit that is not a key. */
  predicate PassesBefore(items: Walk, keys: set<Oid>, i: int)
    requires 0 <= i <= |items|
  {
    forall j :: 0 <= j < i ==> items[j].Ok? && items[j].value !in keys
  }

  /**
   * The loop of `parent` over the walk's remaining items: the first commit that
   * is a key, the first error (propagated by `?`), or the zero id at the end.
   */
  function FirstKey(items: Walk, keys: set<Oid>): (r: Result<Oid, GitError>)
    ensures r.Ok? ==>
      || (r.value == Zero && PassesBefore(items, keys, |items|))
      || exists i :: 0 <= i < |items| && items[i] == Ok(r.value) && r.value in keys && PassesBefore(items, keys, i)
    ensures r.Err? ==>
      exists i :: 0 <= i < |items| && items[i] == Err(r.error) && PassesBefore(items, keys, i)
  {
    if items == [] then Ok(Zero)
    else match items[0]
      case Err(e) => Err(e)
      case Ok(o) =>
        if o in keys then Ok(o)
        else
          var r := FirstKey(items[1..], keys);
          assert forall i :: 1 <= i <= |items| ==> PassesBefore(items[1..], keys, i - 1) ==> PassesBefore(items, keys, i);
          assert forall i :: 1 <= i < |items| ==> items[i] == items[1..][i - 1];
          r
  }

  /** What `ReferenceInfo::parent` returns for a branch at `oid`. */
  function ParentOf(repo: Repo, oid: Oid, keys: set<Oid>): Result<Oid, GitError>
  {
    match Revwalk(repo, oid)
    case Err(e) => Err(e)
    case Ok(w) => FirstKey(Skip1(w), keys)
  }

  /** A parent other than zero is always a key, so looking it up cannot fail. */
  lemma ParentIsKey(repo: Repo, oid: Oid, keys: set<Oid>)
    requires ParentOf(repo, oid, keys).Ok? && ParentOf(repo, oid, keys).value != Zero
    ensures ParentOf(repo, oid, keys).value in keys
  {
    var w := repo.walks[oid];
    var p := ParentOf(repo, oid, keys).value;
    var i :| 0 <= i < |Skip1(w)| && Skip1(w)[i] == Ok(p) && p in keys && PassesBefore(Skip1(w), keys, i);
  }

  /** `ReferenceInfo::parent`: walks the branch's history past its tip. */
  method Parent(info: ReferenceInfo, repo: Repo, referenceMap: map<Oid, ReferenceName>) returns (r: Result<Oid, GitError>)
    ensures r == ParentOf(repo, info.oid, referenceMap.Keys)
  {
    if info.oid !in repo.walks {
      return Err(ObjectNotFound);
    }
    var commits := Skip1(repo.walks[info.oid]);
    var i := 0;
    while i < |commits|
      invariant 0 <= i <= |commits|
      invariant ParentOf(repo, info.oid, referenceMap.Keys) == FirstKey(commits[i..], referenceMap.Keys)
    {
      assert commits[i..][1..] == commits[i + 1..];
      match commits[i]
      case Err(e) =>
        return Err(e);
      case Ok(oid) =>
        if oid in referenceMap {
          return Ok(oid);
        }
      i := i + 1;
    }
    return Ok(Zero);
  }

  /** The first item of the walk after its start, with the items before it all passed over. */
  predicate FirstHitAt(w: Walk, keys: set<Oid>, i: int)
  {
    1 <= i < |w| && PassesBefore(w[1..], keys, i - 1)
  }

  /** `parent` never returns the branch's own tip. */
  lemma ParentIsNotTip(repo: Repo, oid: Oid, keys: set<Oid>)
    requires Valid(repo) && ParentOf(repo, oid, keys).Ok?
    ensures ParentOf(repo, oid, keys).value != oid
  {
    var w := repo.walks[oid];
    var p := ParentOf(repo, oid, keys).value;
    if p != Zero {
      var i :| 0 <= i < |Skip1(w)| && Skip1(w)[i] == Ok(p) && p in keys && PassesBefore(Skip1(w), keys, i);
      assert w[i + 1] == Ok(p);
    }
  }

  /**
   * A parent other than zero is the first commit after the tip, in walk order,
   * that is a key of the reference map; every commit between them is no key.
   */
  lemma ParentIsFirstReferenced(repo: Repo, oid: Oid, keys: set<Oid>)
    requires Valid(repo) && ParentOf(repo, oid, keys).Ok? && ParentOf(repo, oid, keys).value != Zero
    ensures ParentOf(repo, oid, keys).value in keys
    ensures exists i :: FirstHitAt(repo.walks[oid], keys, i) && repo.walks[oid][i] == ParentOf(repo, oid, keys)
  {
    var w := repo.walks[oid];
    var p := ParentOf(repo, oid, keys).value;
    var i :| 0 <= i < |Skip1(w)| && Skip1(w)[i] == Ok(p) && PassesBefore(Skip1(w), keys, i);
    assert FirstHitAt(w, keys, i + 1) && w[i + 1] == Ok(p);
  }

  /**
   * `parent` returns the zero id exactly when no commit after the tip is a key
   * (and the walk fails nowhere).
   */
  lemma ParentZeroIff(repo: Repo, oid: Oid, keys: set<Oid>)
    requires Valid(repo) && oid in repo.walks
    ensures ParentOf(repo, oid, keys) == Ok(Zero) <==>
      forall i :: 1 <= i < |repo.walks[oid]| ==> repo.walks[oid][i].Ok? && repo.walks[oid][i].value !in keys
  {
    var w := repo.walks[oid];
    var items := Skip1(w);
    var r := FirstKey(items, keys);
    assert forall i :: 1 <= i < |w| ==> w[i] == items[i - 1];
  }

  // ------------------------------------------------------- commit lists

  /** `commits_since`: the walk from `oid` without `oid` itself, or the first failure. */
  function CommitsSince(repo: Repo, oid: Oid): (r: Result<seq<Oid>, GitError>)
    ensures r.Ok? ==> oid in repo.walks && |r.value| == |Skip1(repo.walks[oid])|
    ensures r.Ok? ==> forall i :: 0 <= i < |r.value| ==> Skip1(repo.walks[oid])[i] == Ok(r.value[i])
  {
    match Revwalk(repo, oid)
    case Err(e) => Err(e)
    case Ok(w) => Collect(Skip1(w))
  }

  /** When the walk exists but `commits_since` fails, it reports the walk's first error after `oid`. */
  lemma CommitsSinceFirstError(repo: Repo, oid: Oid) returns (i: nat)
    requires CommitsSince(repo, oid).Err? && oid in repo.walks
    ensures i < |Skip1(repo.walks[oid])| && Skip1(repo.walks[oid])[i] == Err(CommitsSince(repo, oid).error)
    ensures forall j :: 0 <= j < i ==> Skip1(repo.walks[oid])[j].Ok?
  {
    i := FirstError(Skip1(repo.walks[oid]));
  }

  /** On a well-formed walk, `commits_since` lists distinct commits, one fewer than the walk, without `oid`. */
  lemma CommitsSinceShape(repo: Repo, oid: Oid)
    requires Valid(repo) && CommitsSince(repo, oid).Ok?
    ensures |CommitsSince(repo, oid).value| == |repo.walks[oid]| - 1
    ensures forall i :: 0 <= i < |CommitsSince(repo, oid).value| ==> repo.walks[oid][i + 1] == Ok(CommitsSince(repo, oid).value[i])
    ensures oid !in CommitsSince(repo, oid).value
    ensures forall i, j :: 0 <= i < j < |CommitsSince(repo, oid).value| ==>
      CommitsSince(repo, oid).value[i] != CommitsSince(repo, oid).value[j]
  {
    var w := repo.walks[oid];
    var cs := CommitsSince(repo, oid).value;
    forall i | 0 <= i < |cs| ensures w[i + 1] == Ok(cs[i]) {
      assert Skip1(w)[i] == w[i + 1];
    }
    forall i, j | 0 <= i < j < |cs| ensures cs[i] != cs[j] {
      assert w[i + 1] == Ok(cs[i]) && w[j + 1] == Ok(cs[j]);
    }
  }

  /**
   * `take_while(|oid| oid.is_ok() && oid != to)` collected: the leading
   * commits up to, not including, `to` or the first error.
   */
  function TakeUntil(items: Walk, to: Oid): (r: seq<Oid>)
    ensures |r| <= |items|
    ensures forall i :: 0 <= i < |r| ==> items[i] == Ok(r[i]) && r[i] != to
    ensures |r| == |items| || items[|r|].Err? || items[|r|] == Ok(to)
  {
    if items == [] || items[0].Err? || items[0] == Ok(to) then []
    else
      var rest := TakeUntil(items[1..], to);
      assert forall i :: 1 <= i < |items| ==> items[i] == items[1..][i - 1];
      [items[0].value] + rest
  }

  /** `commits_to`: the commits strictly between `from` and the first occurrence of `to`. */
  function CommitsTo(repo: Repo, from: Oid, to: Oid): Result<seq<Oid>, GitError>
  {
    match Revwalk(repo, from)
    case Err(e) => Err(e)
    case Ok(w) => Ok(TakeUntil(Skip1(w), to))
  }

  /**
   * `commits_to` lists the walk after `from` up to `to` or the first error,
   * without `to`; a walk error ends it silently instead of being reported.
   * When `to` does not occur and no error does, it is the whole tail.
   */
  lemma CommitsToShape(repo: Repo, from: Oid, to: Oid)
    requires from in repo.walks
    ensures CommitsTo(repo, from, to).Ok?
    ensures to !in CommitsTo(repo, from, to).value
    ensures forall i :: 0 <= i < |CommitsTo(repo, from, to).value| ==>
      repo.walks[from][i + 1] == Ok(CommitsTo(repo, from, to).value[i])
    ensures (forall i :: 1 <= i < |repo.walks[from]| ==> repo.walks[from][i].Ok? && repo.walks[from][i].value != to)
      ==> |CommitsTo(repo, from, to).value| == |Skip1(repo.walks[from])|
  {
    var w := repo.walks[from];
    var cs := CommitsTo(repo, from, to).value;
    forall i | 0 <= i < |cs| ensures w[i + 1] == Ok(cs[i]) {
      assert Skip1(w)[i] == w[i + 1];
    }
    if |cs| < |Skip1(w)| {
      assert Skip1(w)[|cs|] == w[|cs| + 1];
    }
  }

  // ------------------------------------------------------------ sorting

  predicate Sorted(s: seq<ReferenceInfo>)
  {
    forall i, j :: 0 <= i < j < |s| ==> LessEq(s[i], s[j])
  }

  /** Inserts `x` before the first element it does not follow. */
  function Insert(x: ReferenceInfo, s: seq<ReferenceInfo>): seq<ReferenceInfo>
  {
    if s == [] || LessEq(x, s[0]) then [x] + s else [s[0]] + Insert(x, s[1..])
  }

  lemma {:induction false} InsertSortedPermutation(x: ReferenceInfo, s: seq<ReferenceInfo>)
    requires Sorted(s)
    ensures Sorted(Insert(x, s)) && multiset(Insert(x, s)) == multiset(s) + multiset{x}
  {
    if s == [] {
    } else if LessEq(x, s[0]) {
      HeadBelowRest(s);
      forall y | y in s ensures LessEq(x, y) {
        if x != s[0] && s[0] != y { LessTransitive(x, s[0], y); }
      }
      ConsSorted(x, s);
    } else {
      LessTotal(x, s[0]);
      HeadBelowRest(s);
      InsertSortedPermutation(x, s[1..]);
      var rest := Insert(x, s[1..]);
      assert s == [s[0]] + s[1..];
      forall y | y in rest ensures LessEq(s[0], y) {
        assert y in multiset(rest);
        if y != x { assert y in multiset(s[1..]); }
      }
      ConsSorted(s[0], rest);
    }
  }

  /** The head of a sorted sequence is below everything after it. */
  lemma HeadBelowRest(s: seq<ReferenceInfo>)
    requires Sorted(s) && s != []
    ensures forall y | y in s[1..] :: LessEq(s[0], y)
  {
    forall y | y in s[1..] ensures LessEq(s[0], y) {
      var k :| 0 <= k < |s[1..]| && s[1..][k] == y;
      assert s[k + 1] == y;
    }
  }

  /** Putting a lower bound in front of a sorted sequence keeps it sorted. */
  lemma ConsSorted(h: ReferenceInfo, s: seq<ReferenceInfo>)
    requires Sorted(s) && forall y | y in s :: LessEq(h, y)
    ensures Sorted([h] + s)
  {
    var r := [h] + s;
    forall i, j | 0 <= i < j < |r| ensures LessEq(r[i], r[j]) {
      assert r[j] == s[j - 1] && r[j] in s;
      if i > 0 { assert r[i] == s[i - 1]; }
    }
  }

  /** `Vec::sort` on the branches: ascending by name, then oid, and a permutation. */
  function Sort(s: seq<ReferenceInfo>): (r: seq<ReferenceInfo>)
    ensures Sorted(r) && multiset(r) == multiset(s)
  {
    if s == [] then []
    else
      assert s == [s[0]] + s[1..];
      InsertSortedPermutation(s[0], Sort(s[1..]));
      Insert(s[0], Sort(s[1..]))
  }
}
