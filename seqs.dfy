/** Generic list helpers shared by the models: an Option type, order-preserving
    filtering, find-first, and key-addressed replacement and removal (the way a
    store of named records is updated or deleted by name). */
module Seqs {

  datatype Option<+T> = None | Some(value: T)

  /** The elements of `s` that satisfy `p`, in their original order. Its
      properties are lemmas rather than postconditions, so that a proof about
      several filtered lists sees only the facts it asks for. */
  function Filter<T>(s: seq<T>, p: T -> bool): seq<T>
  {
    if s == [] then []
    else (if p(s[0]) then [s[0]] else []) + Filter(s[1..], p)
  }

  /** Filtering only drops elements, and keeps only those satisfying `p`. */
  lemma {:induction false} FilterSound<T>(s: seq<T>, p: T -> bool)
    ensures |Filter(s, p)| <= |s|
    ensures forall i :: 0 <= i < |Filter(s, p)| ==> Filter(s, p)[i] in s && p(Filter(s, p)[i])
  {
    if s != [] {
      FilterSound(s[1..], p);
    }
  }

  /** Nothing that satisfies `p` is dropped by filtering. */
  lemma {:induction false} FilterComplete<T>(s: seq<T>, p: T -> bool)
    ensures forall i :: 0 <= i < |s| && p(s[i]) ==> s[i] in Filter(s, p)
  {
    if s != [] {
      FilterComplete(s[1..], p);
      assert forall i :: 1 <= i < |s| ==> s[i] == s[1..][i - 1];
    }
  }

  /** Filtering distributes over concatenation: the result keeps list order. */
  lemma {:induction false} FilterConcat<T>(a: seq<T>, b: seq<T>, p: T -> bool)
    ensures Filter(a + b, p) == Filter(a, p) + Filter(b, p)
  {
    if a == [] {
      assert a + b == b;
    } else {
      var ab := a + b;
      assert ab[0] == a[0];
      assert ab[1..] == a[1..] + b;
      FilterConcat(a[1..], b, p);
      var head := if p(a[0]) then [a[0]] else [];
      calc {
        Filter(ab, p);
        head + Filter(ab[1..], p);
        head + (Filter(a[1..], p) + Filter(b, p));
        (head + Filter(a[1..], p)) + Filter(b, p);
        Filter(a, p) + Filter(b, p);
      }
    }
  }

  /** A list whose every element satisfies `p` passes through unchanged. */
  lemma {:induction false} FilterKeepsAll<T>(s: seq<T>, p: T -> bool)
    requires forall i :: 0 <= i < |s| ==> p(s[i])
    ensures Filter(s, p) == s
  {
    if s != [] {
      FilterKeepsAll(s[1..], p);
    }
  }

  /** The index of the first element of `s` that satisfies `p`, if any. */
  function FindFirst<T>(s: seq<T>, p: T -> bool): (r: Option<nat>)
    ensures r.Some? ==> r.value < |s| && p(s[r.value])
    ensures r.Some? ==> forall j :: 0 <= j < r.value ==> !p(s[j])
    ensures r.None? <==> forall j :: 0 <= j < |s| ==> !p(s[j])
  {
    if s == [] then None
    else if p(s[0]) then Some(0)
    else match FindFirst(s[1..], p)
      case None => None
      case Some(k) => Some(k + 1)
  }

  /** No element of `s` has key `k`. */
  ghost predicate KeyAbsent<T>(s: seq<T>, k: string, key: T -> string)
  {
    s == [] || (key(s[0]) != k && KeyAbsent(s[1..], k, key))
  }

  lemma {:induction false} KeyAbsentAll<T>(s: seq<T>, k: string, key: T -> string)
    ensures KeyAbsent(s, k, key) <==> forall j :: 0 <= j < |s| ==> key(s[j]) != k
  {
    if s != [] {
      KeyAbsentAll(s[1..], k, key);
      assert forall j :: 1 <= j < |s| ==> s[j] == s[1..][j - 1];
    }
  }

  /** No two elements of `s` share a key (stated element by element, so that
      callers see one quantifier at a time). */
  ghost predicate DistinctKeys<T>(s: seq<T>, key: T -> string)
  {
    s == [] || (KeyAbsent(s[1..], key(s[0]), key) && DistinctKeys(s[1..], key))
  }

  /** The same, stated over all pairs of positions. */
  ghost predicate PairwiseDistinct<T>(s: seq<T>, key: T -> string)
  {
    forall i, j :: 0 <= i < j < |s| ==> key(s[i]) != key(s[j])
  }

  lemma {:induction false} DistinctKeysPairwise<T>(s: seq<T>, key: T -> string)
    ensures DistinctKeys(s, key) <==> PairwiseDistinct(s, key)
  {
    if s != [] {
      DistinctKeysPairwise(s[1..], key);
      KeyAbsentAll(s[1..], key(s[0]), key);
      if PairwiseDistinct(s, key) {
        assert forall i, j :: 0 <= i < j < |s[1..]| ==> s[1..][i] == s[i + 1] && s[1..][j] == s[j + 1];
      }
      if DistinctKeys(s, key) {
        forall i, j | 0 <= i < j < |s| ensures key(s[i]) != key(s[j]) {
          assert s[j] == s[1..][j - 1];
          if i > 0 {
            assert s[i] == s[1..][i - 1];
          }
        }
      }
    }
  }

  /** Two positions of a distinct-keyed list hold different keys. */
  lemma DistinctAt<T>(s: seq<T>, i: nat, j: nat, key: T -> string)
    requires DistinctKeys(s, key)
    requires i < |s| && j < |s| && i != j
    ensures key(s[i]) != key(s[j])
  {
    DistinctKeysPairwise(s, key);
  }

  /** Appending is associative. */
  lemma AppendAssoc<T>(a: seq<T>, b: seq<T>, c: seq<T>)
    ensures a + b + c == a + (b + c)
  {
  }

  /** Replacing an element by one with the same key keeps keys distinct. */
  lemma DistinctUpdate<T>(s: seq<T>, i: nat, x: T, key: T -> string)
    requires DistinctKeys(s, key)
    requires i < |s| && key(x) == key(s[i])
    ensures DistinctKeys(s[i := x], key)
  {
    DistinctKeysPairwise(s, key);
    DistinctKeysPairwise(s[i := x], key);
  }

  /** Distinctness depends only on the keys. */
  lemma DistinctSameKeys<T>(s: seq<T>, t: seq<T>, key: T -> string)
    requires DistinctKeys(s, key)
    requires |s| == |t| && forall j :: 0 <= j < |s| ==> key(s[j]) == key(t[j])
    ensures DistinctKeys(t, key)
  {
    DistinctKeysPairwise(s, key);
    DistinctKeysPairwise(t, key);
  }

  /** Appending an element with a new key keeps keys distinct. */
  lemma DistinctAppend<T>(s: seq<T>, x: T, key: T -> string)
    requires DistinctKeys(s, key)
    requires forall i :: 0 <= i < |s| ==> key(s[i]) != key(x)
    ensures DistinctKeys(s + [x], key)
  {
    DistinctKeysPairwise(s, key);
    DistinctKeysPairwise(s + [x], key);
  }

  /** `s` with every element whose key is `key(x)` replaced by `x`. */
  function Put<T>(s: seq<T>, x: T, key: T -> string): (r: seq<T>)
    ensures |r| == |s|
    ensures forall i :: 0 <= i < |s| ==> r[i] == if key(s[i]) == key(x) then x else s[i]
  {
    if s == [] then []
    else [if key(s[0]) == key(x) then x else s[0]] + Put(s[1..], x, key)
  }

  /** With distinct keys, putting a record under an existing key replaces
      exactly the one record at that key's position. */
  lemma PutAt<T>(s: seq<T>, i: nat, x: T, key: T -> string)
    requires DistinctKeys(s, key)
    requires i < |s| && key(x) == key(s[i])
    ensures Put(s, x, key) == s[i := x]
  {
    DistinctKeysPairwise(s, key);
  }

  /** `s` without the elements whose key is `k`. */
  function RemoveKey<T>(s: seq<T>, k: string, key: T -> string): seq<T>
  {
    Filter(s, y => key(y) != k)
  }

  /** With distinct keys, removing the key of the first element removes that
      element and nothing else. */
  lemma RemoveHead<T>(s: seq<T>, key: T -> string)
    requires DistinctKeys(s, key)
    requires s != []
    ensures RemoveKey(s, key(s[0]), key) == s[1..]
  {
    var k := key(s[0]);
    var p := y => key(y) != k;
    KeyAbsentAll(s[1..], k, key);
    FilterKeepsAll(s[1..], p);
    assert Filter(s, p) == Filter(s[1..], p);
  }

  /** Filtering keeps keys distinct: it only drops elements. */
  lemma {:induction false} FilterDistinct<T>(s: seq<T>, p: T -> bool, key: T -> string)
    requires DistinctKeys(s, key)
    ensures DistinctKeys(Filter(s, p), key)
  {
    if s != [] {
      var rest := Filter(s[1..], p);
      FilterDistinct(s[1..], p, key);
      FilterSound(s[1..], p);
      if p(s[0]) {
        var r := Filter(s, p);
        assert r == [s[0]] + rest;
        assert r[1..] == rest;
        KeyAbsentAll(s[1..], key(s[0]), key);
        KeyAbsentAll(rest, key(s[0]), key);
        forall j | 0 <= j < |rest| ensures key(rest[j]) != key(s[0]) {
          var m :| 0 <= m < |s[1..]| && s[1..][m] == rest[j];
          assert key(s[1..][m]) != key(s[0]);
        }
        assert r[0] == s[0];
        assert KeyAbsent(r[1..], key(r[0]), key);
        assert DistinctKeys(r[1..], key);
      } else {
        assert Filter(s, p) == rest;
      }
    }
  }

  /** Removing, by key, the next unvisited element of a distinct-keyed list
      from "filtered prefix + unvisited suffix" drops exactly that element. */
  lemma RemoveNext<T>(all: seq<T>, i: nat, p: T -> bool, key: T -> string)
    requires DistinctKeys(all, key)
    requires i < |all|
    ensures RemoveKey(Filter(all[..i], p) + all[i..], key(all[i]), key) == Filter(all[..i], p) + all[i + 1..]
  {
    DistinctKeysPairwise(all, key);
    var k := key(all[i]);
    var q := y => key(y) != k;
    var f := Filter(all[..i], p);
    FilterSound(all[..i], p);
    FilterConcat(f, all[i..], q);
    forall j | 0 <= j < |f| ensures q(f[j]) {
      var m :| 0 <= m < i && all[m] == f[j];
    }
    FilterKeepsAll(f, q);
    assert DistinctKeys(all[i..], key) by {
      DistinctKeysPairwise(all[i..], key);
    }
    RemoveHead(all[i..], key);
    assert all[i..][1..] == all[i + 1..];
  }

  /** Filtering one more element of a prefix. */
  lemma FilterStep<T>(s: seq<T>, i: nat, p: T -> bool)
    requires i < |s|
    ensures Filter(s[..i + 1], p) == Filter(s[..i], p) + (if p(s[i]) then [s[i]] else [])
  {
    assert s[..i + 1] == s[..i] + [s[i]];
    FilterConcat(s[..i], [s[i]], p);
    assert [s[i]][1..] == [];
  }

  /** One step of a loop that walks `all` and deletes, by key, every element
      failing `keep` from a list that starts out as `all`: the list is always
      "filtered visited prefix + unvisited suffix". */
  lemma FilterLoopStep<T>(all: seq<T>, i: nat, keep: T -> bool, key: T -> string, cur: seq<T>)
    requires DistinctKeys(all, key)
    requires i < |all|
    requires cur == Filter(all[..i], keep) + all[i..]
    ensures !keep(all[i]) ==> RemoveKey(cur, key(all[i]), key) == Filter(all[..i + 1], keep) + all[i + 1..]
    ensures keep(all[i]) ==> cur == Filter(all[..i + 1], keep) + all[i + 1..]
  {
    if keep(all[i]) {
      FilterLoopKept(all, i, keep, cur);
    } else {
      FilterLoopDropped(all, i, keep, key, cur);
    }
  }

  /** The dropped case of FilterLoopStep: that element is removed. */
  lemma FilterLoopDropped<T>(all: seq<T>, i: nat, keep: T -> bool, key: T -> string, cur: seq<T>)
    requires DistinctKeys(all, key)
    requires i < |all| && !keep(all[i])
    requires cur == Filter(all[..i], keep) + all[i..]
    ensures RemoveKey(cur, key(all[i]), key) == Filter(all[..i + 1], keep) + all[i + 1..]
  {
    RemoveNext(all, i, keep, key);
    FilterStep(all, i, keep);
    assert Filter(all[..i], keep) + [] == Filter(all[..i], keep);
  }

  /** The kept case of FilterLoopStep: the list is unchanged. */
  lemma FilterLoopKept<T>(all: seq<T>, i: nat, keep: T -> bool, cur: seq<T>)
    requires i < |all| && keep(all[i])
    requires cur == Filter(all[..i], keep) + all[i..]
    ensures cur == Filter(all[..i + 1], keep) + all[i + 1..]
  {
    FilterStep(all, i, keep);
    assert all[i..] == [all[i]] + all[i + 1..];
    assert Filter(all[..i], keep) + [all[i]] + all[i + 1..] == Filter(all[..i], keep) + ([all[i]] + all[i + 1..]);
  }

  /** When the loop of FilterLoopStep has visited every element, the list is
      the filtered list, and its keys are still distinct. */
  lemma FilterLoopDone<T>(all: seq<T>, keep: T -> bool, key: T -> string, cur: seq<T>)
    requires DistinctKeys(all, key)
    requires cur == Filter(all[..|all|], keep) + all[|all|..]
    ensures cur == Filter(all, keep)
    ensures DistinctKeys(cur, key)
  {
    assert all[..|all|] == all && all[|all|..] == [];
    FilterDistinct(all, keep, key);
  }
}
