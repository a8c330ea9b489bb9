/** Sequence combinators shared by the model: the Rust iterator adaptors the
    source relies on (`flat_map`, `filter`, `nth(0)`) written as functions,
    with the facts about them that the rest of the model uses. */
module Seqs {

  datatype Option<T> = None | Some(value: T) {
    function GetOr(default: T): T {
      match this
      case Some(v) => v
      case None => default
    }
  }

  /** The first element of a sequence, as `Iterator::nth(0)` returns it. */
  function Head<T>(s: seq<T>): (r: Option<T>)
    ensures r.None? <==> s == []
    ensures r.Some? ==> r.value == s[0]
  {
    if s == [] then None else Some(s[0])
  }

  /** Concatenation of `f(x)` over `s`, in order. */
  function FlatMap<T, U>(s: seq<T>, f: T -> seq<U>): seq<U>
  {
    if s == [] then [] else f(s[0]) + FlatMap(s[1..], f)
  }

  lemma {:induction false} FlatMapAppend<T, U>(s: seq<T>, t: seq<T>, f: T -> seq<U>)
    ensures FlatMap(s + t, f) == FlatMap(s, f) + FlatMap(t, f)
  {
    if s == [] {
      assert s + t == t;
    } else {
      assert (s + t)[0] == s[0];
      assert (s + t)[1..] == s[1..] + t;
      FlatMapAppend(s[1..], t, f);
    }
  }

  lemma FlatMapSnoc<T, U>(s: seq<T>, x: T, f: T -> seq<U>)
    ensures FlatMap(s + [x], f) == FlatMap(s, f) + f(x)
  {
    FlatMapAppend(s, [x], f);
    assert FlatMap([x], f) == f(x) + FlatMap([x][1..], f);
    assert [x][1..] == [];
  }

  /** A flattening is empty exactly when every part is. */
  lemma {:induction false} FlatMapEmpty<T, U>(s: seq<T>, f: T -> seq<U>)
    ensures FlatMap(s, f) == [] <==> forall i | 0 <= i < |s| :: f(s[i]) == []
  {
    if s != [] {
      FlatMapEmpty(s[1..], f);
      assert forall i | 1 <= i < |s| :: s[i] == s[1..][i - 1];
    }
  }

  /** If nothing before position `k` contributes and `s[k]` does, the
      flattening starts with the first contribution of `s[k]`. */
  lemma FlatMapFirst<T, U>(s: seq<T>, k: nat, f: T -> seq<U>)
    requires k < |s|
    requires FlatMap(s[..k], f) == []
    requires f(s[k]) != []
    ensures FlatMap(s, f) != [] && FlatMap(s, f)[0] == f(s[k])[0]
  {
    assert s == s[..k] + s[k..];
    FlatMapAppend(s[..k], s[k..], f);
    assert s[k..][0] == s[k];
    assert FlatMap(s[k..], f) == f(s[k]) + FlatMap(s[k..][1..], f);
  }

  /** Every element of a flattening comes from some part, and back. */
  lemma {:induction false} FlatMapMember<T, U>(s: seq<T>, f: T -> seq<U>, y: U)
    ensures y in FlatMap(s, f) <==> exists i | 0 <= i < |s| :: y in f(s[i])
  {
    if s != [] {
      FlatMapMember(s[1..], f, y);
      if y in FlatMap(s[1..], f) {
        var i :| 0 <= i < |s[1..]| && y in f(s[1..][i]);
        assert y in f(s[i + 1]);
      }
      if exists i | 0 <= i < |s| :: y in f(s[i]) {
        var i :| 0 <= i < |s| && y in f(s[i]);
        if i > 0 {
          assert s[1..][i - 1] == s[i];
        }
      }
    }
  }

  lemma AppendAssoc<T>(a: seq<T>, b: seq<T>, c: seq<T>)
    ensures (a + b) + c == a + (b + c)
  {
  }

  /** Appending after the first element leaves the first element alone. */
  lemma SnocTail<T>(s: seq<T>, x: T)
    requires s != []
    ensures (s + [x])[0] == s[0] && (s + [x])[1..] == s[1..] + [x]
  {
  }

  /** The elements of `s` satisfying `p`, in their order in `s`. */
  function Filter<T>(s: seq<T>, p: T -> bool): (r: seq<T>)
    ensures |r| <= |s|
    ensures forall i | 0 <= i < |r| :: r[i] in s && p(r[i])
    ensures forall i | 0 <= i < |s| && p(s[i]) :: s[i] in r
  {
    if s == [] then []
    else
      var rest := Filter(s[1..], p);
      assert forall i | 1 <= i < |s| :: s[i] == s[1..][i - 1];
      if p(s[0]) then [s[0]] + rest else rest
  }

  /** `r` is the subsequence of `s` at the strictly increasing indices
      `idx`, which are exactly the indices where `p` holds: `r` keeps the
      kept elements in their order in `s` and with their multiplicity. */
  ghost predicate SelectedAt<T>(s: seq<T>, p: T -> bool, r: seq<T>, idx: seq<nat>)
  {
    && |idx| == |r|
    && (forall i, j | 0 <= i < j < |idx| :: idx[i] < idx[j])
    && (forall i | 0 <= i < |r| :: idx[i] < |s| && r[i] == s[idx[i]])
    && (forall k | 0 <= k < |s| :: p(s[k]) <==> k in idx)
  }

  /** The indices of `s` that `Filter` keeps, shifted by one. */
  function Shifted(idx: seq<nat>): (r: seq<nat>)
    ensures |r| == |idx|
    ensures forall i | 0 <= i < |idx| :: r[i] == idx[i] + 1
  {
    seq(|idx|, i requires 0 <= i < |idx| => idx[i] + 1)
  }

  lemma ShiftedMember(idx: seq<nat>, k: nat)
    ensures k + 1 in Shifted(idx) <==> k in idx
  {
    var shifted := Shifted(idx);
    if k + 1 in shifted {
      var i :| 0 <= i < |shifted| && shifted[i] == k + 1;
      assert idx[i] == k;
    }
    if k in idx {
      var i :| 0 <= i < |idx| && idx[i] == k;
      assert shifted[i] == k + 1;
    }
  }

  /** The indices for `s` built from those for `s[1..]`: shifted by one and
      preceded by `0` when `s[0]` is kept. */
  function ConsIndex(keepFirst: bool, rest: seq<nat>): seq<nat>
  {
    (if keepFirst then [0] else []) + Shifted(rest)
  }

  /** `ConsIndex` keeps the indices increasing. */
  lemma ConsIndexIncreasing(keepFirst: bool, rest: seq<nat>)
    requires forall i, j | 0 <= i < j < |rest| :: rest[i] < rest[j]
    ensures var idx := ConsIndex(keepFirst, rest);
      forall i, j | 0 <= i < j < |idx| :: idx[i] < idx[j]
  {
    var idx, head := ConsIndex(keepFirst, rest), if keepFirst then 1 else 0;
    assert forall i | head <= i < |idx| :: idx[i] == rest[i - head] + 1;
  }

  /** `ConsIndex` picks the elements of `Filter(s, p)` in order. */
  lemma ConsIndexPicks<T>(s: seq<T>, p: T -> bool, rest: seq<nat>)
    requires s != []
    requires |rest| == |Filter(s[1..], p)|
    requires forall i | 0 <= i < |rest| :: rest[i] < |s[1..]| && Filter(s[1..], p)[i] == s[1..][rest[i]]
    ensures var idx := ConsIndex(p(s[0]), rest);
      && |idx| == |Filter(s, p)|
      && (forall i | 0 <= i < |idx| :: idx[i] < |s| && Filter(s, p)[i] == s[idx[i]])
  {
    var idx, r, tail := ConsIndex(p(s[0]), rest), Filter(s, p), Filter(s[1..], p);
    var head := if p(s[0]) then 1 else 0;
    if p(s[0]) {
      assert r == [s[0]] + tail;
      assert forall i | 1 <= i < |r| :: r[i] == tail[i - 1];
    } else {
      assert r == tail;
    }
    forall i | head <= i < |idx|
      ensures idx[i] < |s| && r[i] == s[idx[i]]
    {
      assert idx[i] == rest[i - head] + 1;
      assert s[idx[i]] == s[1..][rest[i - head]];
    }
  }

  /** `ConsIndex` holds exactly the indices that `p` keeps. */
  lemma ConsIndexMembers<T>(s: seq<T>, p: T -> bool, rest: seq<nat>)
    requires s != []
    requires forall k | 0 <= k < |s[1..]| :: p(s[1..][k]) <==> k in rest
    ensures forall k | 0 <= k < |s| :: p(s[k]) <==> k in ConsIndex(p(s[0]), rest)
  {
    var idx := ConsIndex(p(s[0]), rest);
    forall k | 0 <= k < |s|
      ensures p(s[k]) <==> k in idx
    {
      if k == 0 {
        assert 0 !in Shifted(rest);
      } else {
        assert s[k] == s[1..][k - 1];
        ShiftedMember(rest, k - 1);
        assert k in idx <==> k in Shifted(rest);
      }
    }
  }

  /** `Filter(s, p)` is the subsequence of `s` at the indices where `p`
      holds, in increasing order. */
  lemma {:induction false} FilterIndices<T>(s: seq<T>, p: T -> bool) returns (idx: seq<nat>)
    ensures SelectedAt(s, p, Filter(s, p), idx)
  {
    if s == [] {
      idx := [];
    } else {
      var rest := FilterIndices(s[1..], p);
      ConsIndexIncreasing(p(s[0]), rest);
      ConsIndexPicks(s, p, rest);
      ConsIndexMembers(s, p, rest);
      idx := ConsIndex(p(s[0]), rest);
    }
  }

  /** Filtering commutes with concatenation: kept elements keep their order. */
  lemma {:induction false} FilterAppend<T>(s: seq<T>, t: seq<T>, p: T -> bool)
    ensures Filter(s + t, p) == Filter(s, p) + Filter(t, p)
  {
    if s == [] {
      assert s + t == t;
    } else {
      assert (s + t)[0] == s[0];
      assert (s + t)[1..] == s[1..] + t;
      FilterAppend(s[1..], t, p);
    }
  }

  /** A filter that keeps everything is the identity. */
  lemma {:induction false} FilterAll<T>(s: seq<T>, p: T -> bool)
    requires forall i | 0 <= i < |s| :: p(s[i])
    ensures Filter(s, p) == s
  {
    if s != [] {
      assert forall i | 0 <= i < |s[1..]| :: s[1..][i] == s[i + 1];
      FilterAll(s[1..], p);
    }
  }

  /** Filters with predicates that agree on `s` agree. */
  lemma {:induction false} FilterCongruent<T>(s: seq<T>, p: T -> bool, q: T -> bool)
    requires forall i | 0 <= i < |s| :: p(s[i]) == q(s[i])
    ensures Filter(s, p) == Filter(s, q)
  {
    if s != [] {
      assert forall i | 0 <= i < |s[1..]| :: s[1..][i] == s[i + 1];
      FilterCongruent(s[1..], p, q);
    }
  }

  /** Both predicates hold. */
  function And<T>(p: T -> bool, q: T -> bool): T -> bool
  {
    x => p(x) && q(x)
  }

  /** Filtering twice is filtering once by both predicates. */
  lemma {:induction false} FilterFilter<T>(s: seq<T>, p: T -> bool, q: T -> bool)
    ensures Filter(Filter(s, p), q) == Filter(s, And(p, q))
  {
    if s != [] {
      FilterFilter(s[1..], p, q);
      if p(s[0]) {
        var rest := Filter(s[1..], p);
        assert ([s[0]] + rest)[0] == s[0];
        assert ([s[0]] + rest)[1..] == rest;
      }
    }
  }

  /** The first element that `p` keeps: `filter(p).nth(0)`. */
  ghost predicate IsFirstMatch<T>(s: seq<T>, p: T -> bool, k: int)
  {
    0 <= k < |s| && p(s[k]) && forall j | 0 <= j < k :: !p(s[j])
  }

  lemma {:induction false} HeadOfFilter<T>(s: seq<T>, p: T -> bool)
    ensures Head(Filter(s, p)).None? <==> forall k | 0 <= k < |s| :: !p(s[k])
    ensures Head(Filter(s, p)).Some? ==>
              exists k :: IsFirstMatch(s, p, k) && s[k] == Head(Filter(s, p)).value
  {
    if s != [] {
      HeadOfFilter(s[1..], p);
      assert forall k | 1 <= k < |s| :: s[k] == s[1..][k - 1];
      if p(s[0]) {
        assert IsFirstMatch(s, p, 0);
      } else if Head(Filter(s[1..], p)).Some? {
        var k :| IsFirstMatch(s[1..], p, k) && s[1..][k] == Head(Filter(s[1..], p)).value;
        assert IsFirstMatch(s, p, k + 1);
      }
    }
  }
}
