/**
 * What the tool sees of the git2 library, as values. A repository is what its
 * queries answer: the revision walk started at each commit, the local branch
 * found by name, and the enumerations of branches, tags and references.
 */
module Git2 {
  import opened Bytes
  import opened Results

  const OidSize := 20

  const ZeroBytes: seq<Byte> := [0, 0, 0, 0, 0, 0, 0, 0, 0, 0, 0, 0, 0, 0, 0, 0, 0, 0, 0, 0]

  type OidBytes = s: seq<Byte> | |s| == OidSize witness ZeroBytes

  /** A git object id: twenty raw bytes, compared bytewise. */
  datatype Oid = Oid(bytes: OidBytes)

  /** `Oid::zero()`. */
  const Zero: Oid := Oid(ZeroBytes)

  /** `Oid::is_zero`: every byte is zero. */
  predicate IsZero(o: Oid)
  {
    forall i :: 0 <= i < OidSize ==> o.bytes[i] == 0
  }

  lemma IsZeroIsZero(o: Oid)
    ensures IsZero(o) <==> o == Zero
  {
    if IsZero(o) {
      assert o.bytes == Zero.bytes;
    }
  }

  /** `Oid`'s ordering (`git_oid_cmp`, a `memcmp`). */
  predicate OidLess(a: Oid, b: Oid)
  {
    LexLess(a.bytes, b.bytes)
  }

  predicate IsHexDigit(c: char)
  {
    '0' <= c <= '9' || 'a' <= c <= 'f'
  }

  /** The lower-case hexadecimal digit of `n`. */
  function HexDigit(n: int): (c: char)
    requires 0 <= n < 16
    ensures IsHexDigit(c)
  {
    if n < 10 then ('0' as int + n) as char else ('a' as int + n - 10) as char
  }

  function DigitValue(c: char): (n: int)
    requires IsHexDigit(c)
    ensures 0 <= n < 16
  {
    if '0' <= c <= '9' then c as int - '0' as int else c as int - 'a' as int + 10
  }

  function HexOfBytes(b: seq<Byte>): (s: string)
    ensures |s| == 2 * |b|
    ensures forall i :: 0 <= i < |s| ==> IsHexDigit(s[i])
  {
    if b == [] then [] else [HexDigit(b[0] as int / 16), HexDigit(b[0] as int % 16)] + HexOfBytes(b[1..])
  }

  /** The `Display` form of an oid: forty lower-case hexadecimal digits. */
  function Hex(o: Oid): (s: string)
    ensures |s| == 2 * OidSize
    ensures forall i :: 0 <= i < |s| ==> IsHexDigit(s[i])
  {
    HexOfBytes(o.bytes)
  }

  /** Reads hexadecimal digit pairs back into bytes. */
  function BytesOfHex(s: string): seq<Byte>
    requires |s| % 2 == 0
    requires forall i :: 0 <= i < |s| ==> IsHexDigit(s[i])
  {
    if s == [] then []
    else [(DigitValue(s[0]) * 16 + DigitValue(s[1])) as Byte] + BytesOfHex(s[2..])
  }

  /** The hexadecimal form loses nothing: reading it back gives the bytes. */
  lemma {:induction false} HexRoundTrip(b: seq<Byte>)
    ensures BytesOfHex(HexOfBytes(b)) == b
  {
    if b != [] {
      var h := HexOfBytes(b);
      var hi, lo := b[0] as int / 16, b[0] as int % 16;
      assert DigitValue(h[0]) == hi && DigitValue(h[1]) == lo;
      assert h[2..] == HexOfBytes(b[1..]);
      HexRoundTrip(b[1..]);
    }
  }

  lemma HexInjective(a: Oid, b: Oid)
    requires Hex(a) == Hex(b)
    ensures a == b
  {
    HexRoundTrip(a.bytes);
    HexRoundTrip(b.bytes);
  }

  /** A `git2::Error`, reduced to its message. */
  datatype GitError = GitError(message: string)

  const ObjectNotFound := GitError("object not found")

  /** The items a revision walk yields, in its native order. */
  type Walk = seq<Result<Oid, GitError>>

  /** A branch or tag as git2 hands it over: its target and its raw name. */
  datatype RawReference = RawReference(oid: Oid, nameBytes: seq<Byte>)

  /** The kinds of entry `Repository::references` yields. */
  datatype RefKind = LocalBranch | TagReference | OtherReference

  /** A reference from `Repository::references`: its kind, resolved target and shorthand name. */
  datatype RefEntry = RefEntry(kind: RefKind, oid: Oid, shorthand: string)

  datatype Repo = Repo(
    /** The walk `revwalk()` + `push(oid)` produces, for each commit that can be pushed. */
    walks: map<Oid, Walk>,
    /** `find_branch(name, BranchType::Local)`: the tip of each local branch, by name. */
    localBranchTips: map<string, Oid>,
    /** `branches(Some(BranchType::Local))`, each item with its name bytes, or the failure. */
    localBranches: Result<seq<Result<RawReference, GitError>>, GitError>,
    /** The arguments `tag_foreach` passes to its callback, in order, or the failure. */
    tags: Result<seq<RawReference>, GitError>,
    /** `references()`, or the failure. */
    references: Result<seq<Result<RefEntry, GitError>>, GitError>
  )

  /** `repo.revwalk()` followed by `revwalk.push(start)`. */
  function Revwalk(repo: Repo, start: Oid): (r: Result<Walk, GitError>)
    ensures r.Ok? <==> start in repo.walks
    ensures r.Ok? ==> r.value == repo.walks[start]
    ensures Valid(repo) && r.Ok? ==> WalkFrom(r.value, start)
  {
    if start in repo.walks then Ok(repo.walks[start]) else Err(ObjectNotFound)
  }

  /** The commits a walk visits. */
  function Commits(w: Walk): set<Oid>
  {
    set i | 0 <= i < |w| && w[i].Ok? :: w[i].value
  }

  /**
   * What git's revision walk guarantees: it starts at the pushed commit, never
   * visits a commit twice, and never yields the zero id.
   */
  predicate WalkFrom(w: Walk, start: Oid)
  {
    && |w| > 0 && w[0] == Ok(start)
    && (forall i :: 0 <= i < |w| && w[i].Ok? ==> w[i].value != Zero)
    && (forall i, j :: 0 <= i < j < |w| && w[i].Ok? && w[j].Ok? ==> w[i].value != w[j].value)
  }

  predicate Valid(repo: Repo)
  {
    forall start :: start in repo.walks ==> WalkFrom(repo.walks[start], start)
  }
}
