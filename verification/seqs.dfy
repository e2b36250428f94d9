/**
 Sequence vocabulary shared by the list view, the caught store and the
 encounter aggregator: order-preserving subsequences, and "first occurrence
 wins" de-duplication by a key, which is what both `new Set(array)` and the
 encounter panel's `seen`-set loop compute.
 */
module Seqs {

  /** `a` can be obtained from `b` by deleting elements, keeping the order of
      the rest. */
  predicate IsSubseq<T(==)>(a: seq<T>, b: seq<T>)
    decreases |b|
  {
    if a == [] then true
    else if b == [] then false
    else if a[0] == b[0] then IsSubseq(a[1..], b[1..])
    else IsSubseq(a, b[1..])
  }

  /** Every element of a subsequence comes from the sequence it was taken from. */
  lemma {:induction false} SubseqElements<T>(a: seq<T>, b: seq<T>)
    requires IsSubseq(a, b)
    ensures forall x :: x in a ==> x in b
    decreases |b|
  {
    if a != [] && b != [] {
      if a[0] == b[0] {
        SubseqElements(a[1..], b[1..]);
        forall x | x in a ensures x in b {
          if x != a[0] {
            assert x in a[1..];
          }
        }
      } else {
        SubseqElements(a, b[1..]);
      }
    }
  }

  /** No element occurs twice. */
  predicate Distinct<T(==)>(s: seq<T>) {
    forall i, j :: 0 <= i < j < |s| ==> s[i] != s[j]
  }

  /** No two elements share a key. */
  predicate DistinctKeys<T, K(==)>(s: seq<T>, key: T -> K) {
    forall i, j :: 0 <= i < j < |s| ==> key(s[i]) != key(s[j])
  }

  /** The keys occurring in `s`. */
  function Keys<T, K>(s: seq<T>, key: T -> K): (ks: set<K>)
    ensures forall i :: 0 <= i < |s| ==> key(s[i]) in ks
    ensures forall k :: k in ks ==> exists i :: 0 <= i < |s| && key(s[i]) == k
  {
    set i | 0 <= i < |s| :: key(s[i])
  }

  /** The position of the first element of `s` with key `k`, or `|s|` when
      there is none. */
  function FirstPos<T, K(==)>(s: seq<T>, key: T -> K, k: K): (p: nat)
    ensures p <= |s|
    ensures p < |s| ==> key(s[p]) == k
    ensures forall j :: 0 <= j < p ==> key(s[j]) != k
    decreases |s|
  {
    if s == [] then 0 else if key(s[0]) == k then 0 else 1 + FirstPos(s[1..], key, k)
  }

  /** `x` is the first element of `s` whose key is `key(x)`. */
  predicate IsFirstWithKey<T(==), K(==)>(x: T, s: seq<T>, key: T -> K) {
    exists i :: 0 <= i < |s| && s[i] == x && forall j :: 0 <= j < i ==> key(s[j]) != key(x)
  }

  /** A single pass that keeps an element only when its key is not yet in
      the set of keys met so far, starting from the keys in `seen`. */
  function DedupFrom<T(==), K(==)>(s: seq<T>, key: T -> K, seen: set<K>): (r: seq<T>)
    ensures |r| <= |s|
    ensures forall i :: 0 <= i < |r| ==> key(r[i]) !in seen
    decreases |s|
  {
    if s == [] then []
    else if key(s[0]) in seen then DedupFrom(s[1..], key, seen)
    else [s[0]] + DedupFrom(s[1..], key, seen + {key(s[0])})
  }

  /** The de-duplicated rows keep the input order. */
  lemma {:induction false} DedupFromSubseq<T, K>(s: seq<T>, key: T -> K, seen: set<K>)
    ensures IsSubseq(DedupFrom(s, key, seen), s)
    decreases |s|
  {
    if s != [] {
      if key(s[0]) in seen {
        DedupFromSubseq(s[1..], key, seen);
        SubseqOfTail(DedupFrom(s[1..], key, seen), s);
      } else {
        DedupFromSubseq(s[1..], key, seen + {key(s[0])});
        var r := DedupFrom(s, key, seen);
        assert r[0] == s[0] && r[1..] == DedupFrom(s[1..], key, seen + {key(s[0])});
      }
    }
  }

  /** Helper: a subsequence of the tail is a subsequence of the whole. */
  lemma {:induction false} SubseqOfTail<T>(a: seq<T>, s: seq<T>)
    requires s != []
    requires IsSubseq(a, s[1..])
    ensures IsSubseq(a, s)
    decreases |s|, 0
  {
    if a != [] && a[0] == s[0] {
      SubseqDropHead(a, s[1..]);
    }
  }

  /** Helper: dropping the head of a subsequence keeps it a subsequence. */
  lemma {:induction false} SubseqDropHead<T>(a: seq<T>, b: seq<T>)
    requires a != []
    requires IsSubseq(a, b)
    ensures IsSubseq(a[1..], b)
    decreases |b|, 1
  {
    if a[0] == b[0] {
      if b[1..] != [] {
        SubseqOfTail(a[1..], b);
      } else {
        assert a[1..] == [];
      }
    } else {
      SubseqDropHead(a, b[1..]);
      SubseqOfTail(a[1..], b);
    }
  }

  /** No key is kept twice, and a key in `seen` is never kept. */
  lemma {:induction false} DedupFromDistinct<T, K>(s: seq<T>, key: T -> K, seen: set<K>)
    ensures DistinctKeys(DedupFrom(s, key, seen), key)
    decreases |s|
  {
    if s != [] {
      if key(s[0]) in seen {
        DedupFromDistinct(s[1..], key, seen);
      } else {
        var rest := DedupFrom(s[1..], key, seen + {key(s[0])});
        DedupFromDistinct(s[1..], key, seen + {key(s[0])});
        var r := [s[0]] + rest;
        forall i, j | 0 <= i < j < |r| ensures key(r[i]) != key(r[j]) {
          if i > 0 {
            assert r[i] == rest[i - 1] && r[j] == rest[j - 1];
          } else {
            assert r[j] == rest[j - 1];
          }
        }
      }
    }
  }

  /** Every key of the input that is not in `seen` is kept. */
  lemma {:induction false} DedupFromCovers<T, K>(s: seq<T>, key: T -> K, seen: set<K>)
    ensures forall i :: 0 <= i < |s| && key(s[i]) !in seen ==>
              key(s[i]) in Keys(DedupFrom(s, key, seen), key)
    decreases |s|
  {
    if s != [] {
      var r := DedupFrom(s, key, seen);
      var seen' := if key(s[0]) in seen then seen else seen + {key(s[0])};
      var rest := DedupFrom(s[1..], key, seen');
      DedupFromCovers(s[1..], key, seen');
      assert key(s[0]) !in seen ==> r == [s[0]] + rest;
      assert key(s[0]) in seen ==> r == rest;
      forall i | 0 <= i < |s| && key(s[i]) !in seen
        ensures key(s[i]) in Keys(r, key)
      {
        if key(s[i]) == key(s[0]) {
          assert key(r[0]) == key(s[i]);
        } else {
          assert s[1..][i - 1] == s[i];
          var k :| 0 <= k < |rest| && key(rest[k]) == key(s[i]);
          if key(s[0]) in seen {
            assert key(r[k]) == key(s[i]);
          } else {
            assert key(r[k + 1]) == key(s[i]);
          }
        }
      }
    }
  }

  /** Each kept element is the first element of the input carrying its key:
      first occurrence wins. */
  lemma {:induction false} DedupFromFirst<T, K>(s: seq<T>, key: T -> K, seen: set<K>)
    ensures forall i :: 0 <= i < |DedupFrom(s, key, seen)| ==>
              IsFirstWithKey(DedupFrom(s, key, seen)[i], s, key)
    decreases |s|
  {
    if s != [] {
      var r := DedupFrom(s, key, seen);
      if key(s[0]) in seen {
        DedupFromFirst(s[1..], key, seen);
        assert r == DedupFrom(s[1..], key, seen);
        FirstWithKeyShift(r, s, key);
      } else {
        var rest := DedupFrom(s[1..], key, seen + {key(s[0])});
        DedupFromFirst(s[1..], key, seen + {key(s[0])});
        FirstWithKeyShift(rest, s, key);
        assert r == [s[0]] + rest;
        forall i | 0 <= i < |r| ensures IsFirstWithKey(r[i], s, key) {
          if i > 0 {
            assert r[i] == rest[i - 1];
          } else {
            assert s[0] == r[0];
          }
        }
      }
    }
  }

  /** Helper: an element that is first-with-its-key in the tail, and whose key
      differs from the head's, is first-with-its-key in the whole. */
  lemma FirstWithKeyShift<T, K>(rest: seq<T>, s: seq<T>, key: T -> K)
    requires s != []
    requires forall i :: 0 <= i < |rest| ==> IsFirstWithKey(rest[i], s[1..], key)
    requires forall i :: 0 <= i < |rest| ==> key(rest[i]) != key(s[0])
    ensures forall i :: 0 <= i < |rest| ==> IsFirstWithKey(rest[i], s, key)
  {
    forall i | 0 <= i < |rest| ensures IsFirstWithKey(rest[i], s, key) {
      var p :| 0 <= p < |s[1..]| && s[1..][p] == rest[i] &&
               forall j :: 0 <= j < p ==> key(s[1..][j]) != key(rest[i]);
      assert s[p + 1] == rest[i];
      forall j | 0 <= j < p + 1 ensures key(s[j]) != key(rest[i]) {
        if j > 0 {
          assert s[j] == s[1..][j - 1];
        }
      }
    }
  }

  /** The kept elements appear in the order in which their keys first
      appear in the input. */
  lemma {:induction false} DedupFromOrder<T, K>(s: seq<T>, key: T -> K, seen: set<K>)
    ensures forall i, j :: 0 <= i < j < |DedupFrom(s, key, seen)| ==>
              FirstPos(s, key, key(DedupFrom(s, key, seen)[i])) < FirstPos(s, key, key(DedupFrom(s, key, seen)[j]))
    decreases |s|
  {
    if s != [] {
      var r := DedupFrom(s, key, seen);
      var seen' := if key(s[0]) in seen then seen else seen + {key(s[0])};
      var rest := DedupFrom(s[1..], key, seen');
      DedupFromOrder(s[1..], key, seen');
      forall i | 0 <= i < |rest|
        ensures FirstPos(s, key, key(rest[i])) == 1 + FirstPos(s[1..], key, key(rest[i]))
      {
        assert key(rest[i]) !in seen';
        assert key(s[0]) != key(rest[i]);
      }
      if key(s[0]) in seen {
        assert r == rest;
      } else {
        assert r == [s[0]] + rest;
        assert FirstPos(s, key, key(r[0])) == 0;
        forall i, j | 0 <= i < j < |r|
          ensures FirstPos(s, key, key(r[i])) < FirstPos(s, key, key(r[j]))
        {
          assert r[j] == rest[j - 1];
          if i > 0 {
            assert r[i] == rest[i - 1];
          }
        }
      }
    }
  }

  /** First-occurrence de-duplication by key. */
  function DedupBy<T(==), K(==)>(s: seq<T>, key: T -> K): (r: seq<T>)
    ensures IsSubseq(r, s)
    ensures DistinctKeys(r, key)
    ensures Keys(r, key) == Keys(s, key)
    ensures forall i :: 0 <= i < |r| ==> IsFirstWithKey(r[i], s, key)
    ensures forall i, j :: 0 <= i < j < |r| ==> FirstPos(s, key, key(r[i])) < FirstPos(s, key, key(r[j]))
  {
    var r := DedupFrom(s, key, {});
    DedupFromSubseq(s, key, {});
    DedupFromDistinct(s, key, {});
    DedupFromCovers(s, key, {});
    DedupFromFirst(s, key, {});
    DedupFromOrder(s, key, {});
    SubseqKeys(r, s, key);
    r
  }

  /** Helper: the keys of a subsequence are keys of the sequence. */
  lemma SubseqKeys<T, K>(r: seq<T>, s: seq<T>, key: T -> K)
    requires IsSubseq(r, s)
    ensures Keys(r, key) <= Keys(s, key)
  {
    SubseqElements(r, s);
    forall k | k in Keys(r, key) ensures k in Keys(s, key) {
      var i :| 0 <= i < |r| && key(r[i]) == k;
      assert r[i] in s;
      var j :| 0 <= j < |s| && s[j] == r[i];
      assert key(s[j]) == k;
    }
  }

  /** De-duplicating a sequence that has no repeated key gives it back unchanged. */
  lemma {:induction false} DedupDistinct<T, K>(s: seq<T>, key: T -> K, seen: set<K>)
    requires DistinctKeys(s, key)
    requires forall i :: 0 <= i < |s| ==> key(s[i]) !in seen
    ensures DedupFrom(s, key, seen) == s
    decreases |s|
  {
    if s != [] {
      assert forall i :: 0 <= i < |s[1..]| ==> key(s[1..][i]) !in seen + {key(s[0])} by {
        forall i | 0 <= i < |s[1..]| ensures key(s[1..][i]) !in seen + {key(s[0])} {
          assert s[1..][i] == s[i + 1];
        }
      }
      DedupDistinct(s[1..], key, seen + {key(s[0])});
    }
  }

  /** A subsequence of a sequence without repeats has none. */
  lemma {:induction false} SubseqDistinct<T>(a: seq<T>, b: seq<T>)
    requires IsSubseq(a, b) && Distinct(b)
    ensures Distinct(a)
    decreases |b|
  {
    if a != [] && b != [] {
      if a[0] == b[0] {
        SubseqDistinct(a[1..], b[1..]);
        SubseqElements(a[1..], b[1..]);
        forall i, j | 0 <= i < j < |a| ensures a[i] != a[j] {
          if i == 0 {
            assert a[j] == a[1..][j - 1];
            assert a[j] in b[1..];
            var k :| 0 <= k < |b[1..]| && b[1..][k] == a[j];
            assert b[k + 1] == a[j];
          } else {
            assert a[i] == a[1..][i - 1] && a[j] == a[1..][j - 1];
          }
        }
      } else {
        SubseqDistinct(a, b[1..]);
      }
    }
  }
}
