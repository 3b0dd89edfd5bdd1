/**
 * Results and the collecting iterator adaptors the tool relies on:
 * collecting an iterator of `Result`s into a `Result` of a vector (which
 * stops at the first error), collecting key/value pairs into a hash map
 * (a later pair overwrites an earlier one), and `Iterator::find`.
 */
module Results {

  datatype Option<+T> = None | Some(value: T)

  datatype Result<+T, +E> = Ok(value: T) | Err(error: E)

  /** Collecting `Result`s into `Result<Vec<_>, _>`: all values, or the first error. */
  function Collect<T, E>(rs: seq<Result<T, E>>): (r: Result<seq<T>, E>)
    ensures r.Ok? <==> forall i :: 0 <= i < |rs| ==> rs[i].Ok?
    ensures r.Ok? ==> |r.value| == |rs| && forall i :: 0 <= i < |rs| ==> rs[i] == Ok(r.value[i])
  {
    if rs == [] then Ok([])
    else match rs[0]
      case Err(e) => Err(e)
      case Ok(x) =>
        match Collect(rs[1..])
        case Err(e) =>
          assert forall i :: 1 <= i < |rs| ==> rs[i] == rs[1..][i - 1];
          Err(e)
        case Ok(xs) =>
          assert forall i :: 1 <= i < |rs| ==> rs[i] == rs[1..][i - 1];
          Ok([x] + xs)
  }

  /** Collecting one more item: the first error stays first. */
  lemma CollectSnoc<T, E>(rs: seq<Result<T, E>>, x: Result<T, E>)
    ensures Collect(rs + [x]) ==
      match Collect(rs)
      case Err(e) => Err(e)
      case Ok(vs) => (match x case Ok(v) => Ok(vs + [v]) case Err(e) => Err(e))
  {
    var all := rs + [x];
    assert forall i :: 0 <= i < |rs| ==> all[i] == rs[i];
    match Collect(rs)
    case Err(e) =>
      var i := FirstError(rs);
      CollectFirstError(all, i);
    case Ok(vs) =>
      if x.Err? {
        CollectFirstError(all, |rs|);
      } else {
        assert Collect(all).Ok?;
        var ws := Collect(all).value;
        assert forall i :: 0 <= i < |all| ==> ws[i] == (vs + [x.value])[i];
        assert ws == vs + [x.value];
      }
  }

  /** The error that `Collect` reports is the first one. */
  lemma {:induction false} CollectFirstError<T, E>(rs: seq<Result<T, E>>, i: nat)
    requires i < |rs| && rs[i].Err? && forall j :: 0 <= j < i ==> rs[j].Ok?
    ensures Collect(rs) == Err(rs[i].error)
  {
    if i > 0 {
      assert forall j :: 0 <= j < i - 1 ==> rs[1..][j] == rs[j + 1];
      CollectFirstError(rs[1..], i - 1);
    }
  }

  /** A failed collection failed at a first error, and reports that error. */
  lemma {:induction false} FirstError<T, E>(rs: seq<Result<T, E>>) returns (i: nat)
    requires Collect(rs).Err?
    ensures i < |rs| && rs[i].Err? && (forall j :: 0 <= j < i ==> rs[j].Ok?)
    ensures Collect(rs) == Err(rs[i].error)
  {
    if rs[0].Err? {
      i := 0;
    } else {
      var k := FirstError(rs[1..]);
      i := k + 1;
      assert forall j :: 1 <= j < i ==> rs[j] == rs[1..][j - 1];
    }
  }

  /** The keys of a sequence of pairs. */
  function KeysOf<K, V>(ps: seq<(K, V)>): set<K>
  {
    set i | 0 <= i < |ps| :: ps[i].0
  }

  /** Pair `i` is the last one in `ps` with its key. */
  predicate LastWithKey<K(==), V>(ps: seq<(K, V)>, i: int)
    requires 0 <= i < |ps|
  {
    forall j :: i < j < |ps| ==> ps[j].0 != ps[i].0
  }

  /**
   * Collecting pairs into a `HashMap`: each pair is inserted in turn, so on a
   * repeated key the last pair wins.
   */
  function CollectMap<K, V>(ps: seq<(K, V)>): (m: map<K, V>)
    ensures m.Keys == KeysOf(ps)
    ensures forall i :: 0 <= i < |ps| && LastWithKey(ps, i) ==> m[ps[i].0] == ps[i].1
  {
    if ps == [] then map[]
    else
      var init := ps[..|ps| - 1];
      var last := ps[|ps| - 1];
      KeysOfSnoc(ps);
      LastPairsWin(ps, CollectMap(init));
      CollectMap(init)[last.0 := last.1]
  }

  /** The keys of a nonempty list are those of all but its last pair, plus the last pair's. */
  lemma KeysOfSnoc<K, V>(ps: seq<(K, V)>)
    requires ps != []
    ensures KeysOf(ps) == KeysOf(ps[..|ps| - 1]) + {ps[|ps| - 1].0}
  {
    var init := ps[..|ps| - 1];
    forall k | k in KeysOf(ps) ensures k in KeysOf(init) + {ps[|ps| - 1].0} {
      var i :| 0 <= i < |ps| && ps[i].0 == k;
      if i < |init| { assert init[i].0 == k; }
    }
    forall k | k in KeysOf(init) ensures k in KeysOf(ps) {
      var i :| 0 <= i < |init| && init[i].0 == k;
      assert ps[i].0 == k;
    }
  }

  /**
   * If a map holds, for every key of a list's pairs but the final one, the
   * value of the last pair with that key, then inserting the final pair gives
   * the same for the whole list.
   */
  lemma LastPairsWin<K, V>(ps: seq<(K, V)>, m0: map<K, V>)
    requires ps != [] && forall i :: 0 <= i < |ps| - 1 ==> ps[i].0 in m0
    requires forall i :: 0 <= i < |ps| - 1 && LastWithKey(ps[..|ps| - 1], i) ==> m0[ps[i].0] == ps[i].1
    ensures forall i :: 0 <= i < |ps| && LastWithKey(ps, i) ==> m0[ps[|ps| - 1].0 := ps[|ps| - 1].1][ps[i].0] == ps[i].1
  {
    var init := ps[..|ps| - 1];
    forall i | 0 <= i < |ps| && LastWithKey(ps, i) ensures m0[ps[|ps| - 1].0 := ps[|ps| - 1].1][ps[i].0] == ps[i].1 {
      if i < |init| {
        assert LastWithKey(init, i);
      }
    }
  }

  /** `Iterator::find` over a sequence with membership in `keys` as the predicate. */
  function Find<T(==)>(s: seq<T>, keys: set<T>): (r: Option<T>)
    ensures r.Some? ==> exists i :: 0 <= i < |s| && s[i] == r.value && r.value in keys && forall j :: 0 <= j < i ==> s[j] !in keys
    ensures r.None? <==> forall i :: 0 <= i < |s| ==> s[i] !in keys
  {
    if s == [] then None
    else if s[0] in keys then Some(s[0])
    else
      var r := Find(s[1..], keys);
      assert forall i :: 1 <= i < |s| ==> s[i] == s[1..][i - 1];
      r
  }
}
