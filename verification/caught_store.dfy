/**
 The caught set: a JavaScript `Set` of dex ids kept in `localStorage` as a
 JSON array. A `Set` iterates in insertion order, so it is modelled as a
 sequence of distinct ids in that order; `Array.from(set)` writes exactly
 that sequence. The stored text is reduced to what `JSON.parse` makes of it.
 */
module CaughtStore {
  import opened Seqs

  /** The number of species in the dex. */
  const Total: nat := 1025

  /** What `JSON.parse(localStorage.getItem(LS_KEY) || "[]")` yields: nothing
      stored, text that does not parse (or does not give an iterable), or an
      array of ids. */
  datatype Stored = Absent | Unparsable | IdArray(ids: seq<int>)

  /** A caught set: distinct ids in insertion order. */
  predicate Valid(c: seq<int>) {
    Distinct(c)
  }

  function Id(x: int): int {
    x
  }

  /** `loadCaught()`: `new Set(array)` keeps the first occurrence of each id;
      a missing value is the empty array and a failure is the empty set. */
  function Load(st: Stored): (c: seq<int>)
    ensures Valid(c)
    ensures st.IdArray? ==> IsSubseq(c, st.ids) && forall x :: x in c <==> x in st.ids
    ensures st.IdArray? ==> forall i, j :: 0 <= i < j < |c| ==> FirstPos(st.ids, Id, c[i]) < FirstPos(st.ids, Id, c[j])
    ensures !st.IdArray? ==> c == []
  {
    match st
    case IdArray(ids) =>
      var c := DedupBy(ids, Id);
      forall i, j | 0 <= i < j < |c| ensures c[i] != c[j] {
        assert Id(c[i]) != Id(c[j]);
      }
      forall x ensures x in c <==> x in ids {
        if x in ids {
          var i :| 0 <= i < |ids| && ids[i] == x;
          assert Id(ids[i]) in Keys(ids, Id);
        }
        if x in c {
          var i :| 0 <= i < |c| && c[i] == x;
          assert Id(c[i]) in Keys(c, Id);
        }
      }
      assert forall i :: 0 <= i < |c| ==> Id(c[i]) == c[i];
      c
    case _ => []
  }

  /** `saveCaught(set)`: the ids in iteration order. */
  function Save(c: seq<int>): (st: Stored)
    ensures st.IdArray? && st.ids == c
  {
    IdArray(c)
  }

  /** What is written is what is read back. */
  lemma LoadSave(c: seq<int>)
    requires Valid(c)
    ensures Load(Save(c)) == c
  {
    assert DistinctKeys(c, Id) by {
      forall i, j | 0 <= i < j < |c| ensures Id(c[i]) != Id(c[j]) {
      }
    }
    DedupDistinct(c, Id, {});
  }

  /** `set.delete(id)`: the other ids keep their order. */
  function Remove(c: seq<int>, id: int): (r: seq<int>)
    ensures IsSubseq(r, c)
    ensures forall x :: x in r <==> x in c && x != id
    decreases |c|
  {
    if c == [] then []
    else
      var rest := Remove(c[1..], id);
      if c[0] == id then
        SubseqOfTail(rest, c);
        rest
      else
        assert c == [c[0]] + c[1..];
        [c[0]] + rest
  }

  /** Removing an id keeps a caught set valid. */
  lemma {:induction false} RemoveValid(c: seq<int>, id: int)
    requires Valid(c)
    ensures Valid(Remove(c, id))
    decreases |c|
  {
    if c != [] {
      RemoveValid(c[1..], id);
      var rest := Remove(c[1..], id);
      if c[0] != id {
        forall j | 0 <= j < |rest| ensures rest[j] != c[0] {
          assert rest[j] in rest;
        }
        var r := [c[0]] + rest;
        forall i, j | 0 <= i < j < |r| ensures r[i] != r[j] {
          if i > 0 {
            assert r[i] == rest[i - 1];
          }
          assert r[j] == rest[j - 1];
        }
      }
    }
  }

  /** Removing an id that was just appended gives the set back in its order. */
  lemma {:induction false} RemoveAppended(c: seq<int>, id: int)
    requires id !in c
    ensures Remove(c + [id], id) == c
    decreases |c|
  {
    if c == [] {
      assert Remove([id][1..], id) == [];
    } else {
      assert (c + [id])[1..] == c[1..] + [id];
      RemoveAppended(c[1..], id);
      assert c == [c[0]] + c[1..];
    }
  }

  /** The catch button: remove `id` when it is caught, else add it at the end. */
  function Toggle(c: seq<int>, id: int): (r: seq<int>)
    requires Valid(c)
    ensures Valid(r)
    ensures id in r <==> id !in c
    ensures forall x :: x != id ==> (x in r <==> x in c)
  {
    if id in c then
      RemoveValid(c, id);
      Remove(c, id)
    else
      c + [id]
  }

  /** Toggling twice restores membership; from "not caught" it restores the
      set exactly, order included. */
  lemma ToggleTwice(c: seq<int>, id: int)
    requires Valid(c)
    ensures forall x :: x in Toggle(Toggle(c, id), id) <==> x in c
    ensures id !in c ==> Toggle(Toggle(c, id), id) == c
  {
    if id !in c {
      RemoveAppended(c, id);
    }
  }

  /** The caught-set part of a catch-button click: the id is
      `currentIndex + 1`; the new set is written whole. */
  datatype Click = Click(caught: seq<int>, stored: Stored, nowCaught: bool)

  function CatchClick(c: seq<int>, currentIndex: int): (k: Click)
    requires Valid(c)
    ensures Valid(k.caught)
    ensures k.nowCaught <==> currentIndex + 1 !in c
    ensures k.nowCaught <==> currentIndex + 1 in k.caught
    ensures forall x :: x != currentIndex + 1 ==> (x in k.caught <==> x in c)
    ensures Load(k.stored) == k.caught
  {
    var id := currentIndex + 1;
    var c2 := Toggle(c, id);
    LoadSave(c2);
    Click(c2, Save(c2), id in c2)
  }

  /** `setCaughtUI(id)`: the button label. */
  function ButtonLabel(c: seq<int>, id: int): (s: string)
    ensures s == "RELEASE" <==> id in c
    ensures s == "CATCH" <==> id !in c
  {
    if id in c then "RELEASE" else "CATCH"
  }

  /** `updateProgress()`: `caught.size` and `TOTAL - caught.size`. */
  datatype Progress = Progress(caughtCount: int, missingCount: int)

  function ProgressOf(c: seq<int>): Progress {
    Progress(|c|, Total - |c|)
  }

  /** The ids `1..n`. */
  function Range(n: nat): (r: set<int>)
    ensures |r| == n
    ensures forall i :: i in r <==> 1 <= i <= n
    decreases n
  {
    if n == 0 then {} else Range(n - 1) + {n}
  }

  /** The ids of the dex. */
  function DexIds(): set<int> {
    Range(Total)
  }

  predicate InDex(c: seq<int>) {
    forall i :: 0 <= i < |c| ==> 1 <= c[i] <= Total
  }

  lemma {:induction false} DistinctSize(c: seq<int>)
    requires Valid(c)
    ensures |set x | x in c| == |c|
    decreases |c|
  {
    if c != [] {
      var t := c[..|c| - 1];
      assert Valid(t);
      DistinctSize(t);
      assert c == t + [c[|c| - 1]];
      assert (set x | x in c) == (set x | x in t) + {c[|c| - 1]};
      assert c[|c| - 1] !in t;
    }
  }

  /** Distinct ids drawn from `1..n`: as many of `1..n` are in `c` as `c`
      is long, and the rest of `1..n` are not in `c`. */
  lemma CountsWithin(c: seq<int>, n: nat)
    requires Valid(c)
    requires forall i :: 0 <= i < |c| ==> 1 <= c[i] <= n
    ensures |set x | x in Range(n) && x in c| == |c|
    ensures |set x | x in Range(n) && x !in c| == n - |c|
    ensures |c| <= n
  {
    var caughtIds := set x | x in c;
    var dex := Range(n);
    DistinctSize(c);
    assert (set x | x in dex && x in c) == caughtIds;
    assert (set x | x in dex && x !in c) == dex - caughtIds;
    assert caughtIds <= dex;
    assert |dex - caughtIds| == |dex| - |caughtIds| by {
      assert dex == (dex - caughtIds) + caughtIds;
    }
  }

  /** When every caught id is a dex id, the two counters are the number of
      dex ids caught and the number not caught; both are non-negative and
      they add up to the dex size. */
  lemma ProgressCounts(c: seq<int>)
    requires Valid(c) && InDex(c)
    ensures var p := ProgressOf(c);
      && p.caughtCount == |set x | x in DexIds() && x in c|
      && p.missingCount == |set x | x in DexIds() && x !in c|
      && 0 <= p.missingCount <= Total
      && p.caughtCount + p.missingCount == Total
  {
    CountsWithin(c, Total);
  }

  /** Whatever ids are stored, the caught counter is the number of distinct
      caught ids and the two counters add up to the dex size. */
  lemma ProgressAlways(c: seq<int>)
    requires Valid(c)
    ensures ProgressOf(c).caughtCount == |set x | x in c|
    ensures ProgressOf(c).caughtCount + ProgressOf(c).missingCount == Total
  {
    DistinctSize(c);
  }

  /** A stored array with repeats loads as its ids in first-occurrence order. */
  lemma LoadRepeatsExample()
    ensures Load(IdArray([1, 2, 1])) == [1, 2]
  {
    var s := [1, 2, 1];
    assert s[1..] == [2, 1] && s[1..][1..] == [1] && s[1..][1..][1..] == [];
    assert DedupFrom([1], Id, {1, 2}) == [];
    assert DedupFrom([2, 1], Id, {1}) == [2];
    assert DedupBy(s, Id) == [1, 2];
  }

  /** Catching or releasing a dex id keeps every caught id a dex id. */
  lemma ToggleInDex(c: seq<int>, id: int)
    requires Valid(c) && InDex(c) && 1 <= id <= Total
    ensures InDex(Toggle(c, id))
  {
    var r := Toggle(c, id);
    forall i | 0 <= i < |r| ensures 1 <= r[i] <= Total {
      assert r[i] in r;
      if r[i] != id {
        assert r[i] in c;
      }
    }
  }
}
