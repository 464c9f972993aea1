/** The array pipeline steps the services use: `find`/`findIndex`,
    `filter`, `reverse` and `slice(0, n)`. */
module Seqs {
  import opened Text

  /** `findIndex`: the first position whose element satisfies `p`. */
  function FindFirst<T>(s: seq<T>, p: T -> bool): (r: Option<nat>)
    ensures r.Some? ==> r.value < |s| && p(s[r.value])
    ensures r.Some? ==> forall j :: 0 <= j < r.value ==> !p(s[j])
    ensures r.None? ==> forall j :: 0 <= j < |s| ==> !p(s[j])
  {
    if s == [] then None
    else if p(s[0]) then Some(0)
    else match FindFirst(s[1..], p)
      case None => None
      case Some(i) => Some(i + 1)
  }

  /** `findIndex` returns the first position satisfying `p`. */
  lemma FindFirstIsFirst<T>(s: seq<T>, p: T -> bool, k: nat)
    requires k < |s| && p(s[k])
    requires forall j :: 0 <= j < k ==> !p(s[j])
    ensures FindFirst(s, p) == Some(k)
  {
  }

  /** Two tests that agree on every element find the same position. */
  lemma FindFirstSame<T>(s: seq<T>, p: T -> bool, q: T -> bool)
    requires forall i :: 0 <= i < |s| ==> p(s[i]) == q(s[i])
    ensures FindFirst(s, p) == FindFirst(s, q)
  {
    match FindFirst(s, p)
    case None =>
    case Some(k) => FindFirstIsFirst(s, q, k);
  }

  /** The value an `Option` holds, as a set of at most one element. */
  function Found<U>(o: Option<U>): set<U> {
    match o
    case Some(u) => {u}
    case None => {}
  }

  /** The set of the values `f` yields over `s`, ignoring `None`. */
  function Collect<T, U(==,!new)>(s: seq<T>, f: T -> Option<U>): (r: set<U>)
    ensures forall u :: u in r <==> exists i :: 0 <= i < |s| && f(s[i]) == Some(u)
  {
    if s == [] then {}
    else
      var init := s[..|s| - 1];
      var r := Collect(init, f) + Found(f(s[|s| - 1]));
      assert forall i :: 0 <= i < |init| ==> init[i] == s[i];
      r
  }

  /** Collecting one more element of a prefix adds what `f` yields for it. */
  lemma CollectPrefix<T, U(!new)>(s: seq<T>, f: T -> Option<U>, i: nat)
    requires i < |s|
    ensures Collect(s[..i + 1], f) == Collect(s[..i], f) + Found(f(s[i]))
  {
    assert s[..i + 1][..i] == s[..i];
  }

  /** Collecting over a concatenation is the union of the two parts. */
  lemma CollectConcat<T, U(!new)>(s: seq<T>, t: seq<T>, f: T -> Option<U>)
    ensures Collect(s + t, f) == Collect(s, f) + Collect(t, f)
  {
    assert forall i :: 0 <= i < |s| ==> (s + t)[i] == s[i];
    assert forall i :: 0 <= i < |t| ==> (s + t)[|s| + i] == t[i];
    forall u ensures u in Collect(s + t, f) <==> u in Collect(s, f) + Collect(t, f) {
      if u in Collect(s + t, f) {
        var i :| 0 <= i < |s + t| && f((s + t)[i]) == Some(u);
        if i >= |s| {
          assert (s + t)[i] == t[i - |s|];
        }
      }
    }
  }

  /** The map that setting `key(x) := val(x)` for each `x` of `s` in turn
      builds, skipping the elements whose key is `None`: every key is
      present and holds the value of its last writer. */
  function ToMap<T, K(==,!new), V>(s: seq<T>, key: T -> Option<K>, val: T -> V): (m: map<K, V>)
    ensures forall i :: 0 <= i < |s| && key(s[i]).Some? ==> key(s[i]).value in m
    ensures forall k :: k in m ==> exists i :: 0 <= i < |s| && key(s[i]) == Some(k)
    ensures forall i :: 0 <= i < |s| && key(s[i]).Some? && (forall j :: i < j < |s| ==> key(s[j]) != key(s[i])) ==>
      m[key(s[i]).value] == val(s[i])
  {
    if s == [] then map[]
    else
      var init, last := s[..|s| - 1], s[|s| - 1];
      var m0 := ToMap(init, key, val);
      var m := if key(last).Some? then m0[key(last).value := val(last)] else m0;
      assert forall i :: 0 <= i < |init| ==> init[i] == s[i];
      m
  }

  /** Setting one more entry at the end. */
  lemma ToMapAppend<T, K(!new), V>(s: seq<T>, x: T, key: T -> Option<K>, val: T -> V)
    ensures ToMap(s + [x], key, val) == if key(x).Some? then ToMap(s, key, val)[key(x).value := val(x)] else ToMap(s, key, val)
  {
    assert (s + [x])[..|s|] == s;
  }

  /** `filter`, keeping the order of the input. */
  function Filter<T>(s: seq<T>, p: T -> bool): (r: seq<T>)
    ensures |r| <= |s|
    ensures forall i :: 0 <= i < |r| ==> r[i] in s && p(r[i])
    ensures forall i :: 0 <= i < |s| && p(s[i]) ==> s[i] in r
  {
    if s == [] then []
    else (if p(s[0]) then [s[0]] else []) + Filter(s[1..], p)
  }

  /** Filtering a longer sequence filters the prefix, then the new element. */
  lemma {:induction false} FilterAppend<T>(s: seq<T>, x: T, p: T -> bool)
    ensures Filter(s + [x], p) == Filter(s, p) + (if p(x) then [x] else [])
  {
    if s == [] {
      assert [x][1..] == [];
    } else {
      assert (s + [x])[1..] == s[1..] + [x];
      FilterAppend(s[1..], x, p);
    }
  }

  /** `reverse`. */
  function Reverse<T>(s: seq<T>): (r: seq<T>)
    ensures |r| == |s|
    ensures forall k :: 0 <= k < |s| ==> r[k] == s[|s| - 1 - k]
  {
    if s == [] then [] else Reverse(s[1..]) + [s[0]]
  }

  /** `slice(0, n)`, which clamps `n` to the length. */
  function Take<T>(s: seq<T>, n: nat): (r: seq<T>)
    ensures |r| == if |s| <= n then |s| else n
    ensures r == s[..|r|]
  {
    if |s| <= n then s else s[..n]
  }
}
