/**
 The list view's filter: `rebuildList` keeps, in index order, the entries
 that pass the caught/missing mode test and the search query test.
 */
module ListFilter {
  import opened Seqs
  import Text
  import Whitespace

  /** One element of `dexIndex`. */
  datatype Entry = Entry(id: nat, name: string)

  /** The segment buttons' `data-filter` values. */
  datatype FilterMode = All | CaughtOnly | MissingOnly

  /** `dexIndex`: the i-th name of the index payload gets id i + 1. */
  function BuildIndex(names: seq<string>): (ix: seq<Entry>)
    ensures |ix| == |names|
    ensures forall i :: 0 <= i < |ix| ==> ix[i].id == i + 1 && ix[i].name == names[i]
  {
    seq(|names|, i requires 0 <= i < |names| => Entry(i + 1, names[i]))
  }

  /** Ids are unique in the index, so a list filtered from it repeats no
      entry and an id query picks at most one entry of it. */
  lemma BuildIndexDistinct(names: seq<string>, mode: FilterMode, caught: seq<int>, q: string)
    ensures Distinct(BuildIndex(names))
    ensures Distinct(RebuildList(BuildIndex(names), caught, mode, q))
    ensures forall n: nat, i, j :: 0 <= i < j < |names|
              && Text.Decimal(BuildIndex(names)[i].id) == Text.Decimal(n)
              ==> Text.Decimal(BuildIndex(names)[j].id) != Text.Decimal(n)
  {
    var ix := BuildIndex(names);
    RebuildListDistinct(ix, caught, mode, q);
    forall n: nat, i, j | 0 <= i < j < |names| && Text.Decimal(ix[i].id) == Text.Decimal(n)
      ensures Text.Decimal(ix[j].id) != Text.Decimal(n)
    {
      IdQueryExact(ix[i], n);
      IdQueryExact(ix[j], n);
    }
  }

  /** `(value || "").trim().toLowerCase()`, lower-casing ASCII letters:
      the input without its surrounding whitespace, character by character
      lower-cased. */
  function Query(raw: string): (q: string)
    ensures |q| <= |raw|
    ensures q == [] || (!Whitespace.IsSpace(q[0]) && !Whitespace.IsSpace(q[|q| - 1]))
    ensures exists i, j :: LowerSliceOf(q, raw, i, j)
  {
    QueryFacts(raw);
    Text.AsciiLower(Whitespace.Trim(raw))
  }

  /** Helper for `Query`. */
  lemma QueryFacts(raw: string)
    ensures var q := Text.AsciiLower(Whitespace.Trim(raw));
      && |q| <= |raw|
      && (q == [] || (!Whitespace.IsSpace(q[0]) && !Whitespace.IsSpace(q[|q| - 1])))
      && exists i, j :: LowerSliceOf(q, raw, i, j)
  {
    var t := Whitespace.Trim(raw);
    var i, j :| Whitespace.TrimmedAt(raw, i, j) && t == raw[i..j];
    LowerOfSlice(raw, i, j);
    assert LowerSliceOf(Text.AsciiLower(t), raw, i, j);
  }

  /** `q` is `raw[i..j]` lower-cased character by character, and only
      whitespace lies outside `raw[i..j]`. */
  predicate LowerSliceOf(q: string, raw: string, i: int, j: int) {
    && Whitespace.TrimmedAt(raw, i, j)
    && |q| == j - i
    && forall k :: 0 <= k < |q| ==> q[k] == Text.LowerChar(raw[i + k])
  }

  /** Helper for `Query`: lower-casing a slice, position by position. */
  lemma LowerOfSlice(raw: string, i: int, j: int)
    requires 0 <= i <= j <= |raw|
    ensures var q := Text.AsciiLower(raw[i..j]);
      && |q| == j - i
      && (q != [] ==> q[0] == Text.LowerChar(raw[i]) && q[|q| - 1] == Text.LowerChar(raw[j - 1]))
      && forall k :: 0 <= k < |q| ==> q[k] == Text.LowerChar(raw[i + k])
  {
  }

  /** A query is its own query: it has nothing left to trim or lower-case. */
  lemma QueryIdempotent(raw: string)
    ensures Query(Query(raw)) == Query(raw)
  {
    var q := Query(raw);
    var t := Whitespace.Trim(raw);
    Whitespace.TrimNoEnds(q);
    Text.AsciiLowerIgnoresCase(t, t);
  }

  predicate PassesMode(mode: FilterMode, isCaught: bool) {
    match mode
    case All => true
    case CaughtOnly => isCaught
    case MissingOnly => !isCaught
  }

  /** Empty query, or the id written in decimal, or a substring of the name. */
  predicate MatchesQuery(e: Entry, q: string) {
    q == [] || Text.Decimal(e.id) == q || Text.Contains(e.name, q)
  }

  /** The `filter` callback. */
  predicate Keep(e: Entry, caught: seq<int>, mode: FilterMode, q: string) {
    PassesMode(mode, e.id in caught) && MatchesQuery(e, q)
  }

  /** `dexIndex.filter(...)`. */
  function RebuildList(index: seq<Entry>, caught: seq<int>, mode: FilterMode, q: string): (r: seq<Entry>)
    ensures IsSubseq(r, index)
    ensures forall e :: e in r <==> e in index && Keep(e, caught, mode, q)
    decreases |index|
  {
    if index == [] then []
    else
      var rest := RebuildList(index[1..], caught, mode, q);
      SubseqOfTail(rest, index);
      assert index == [index[0]] + index[1..];
      if Keep(index[0], caught, mode, q) then [index[0]] + rest else rest
  }

  /** The line under a row's name: the padded id and its caught state. */
  function SubLabel(e: Entry, caught: seq<int>): (s: string)
    ensures Text.StartsWith(s, "#" + Text.PadId(e.id) + " ")
    ensures e.id in caught <==> s[|s| - 6..] == "caught"
  {
    var state := if e.id in caught then "• caught" else "• missing";
    var s := "#" + Text.PadId(e.id) + " " + state;
    assert s[..|"#" + Text.PadId(e.id) + " "|] == "#" + Text.PadId(e.id) + " ";
    assert s[|s| - 6..] == state[|state| - 6..];
    s
  }

  // ---------------------------------------------------------------------
  // Properties.

  /** With an empty query an entry is kept exactly when it passes the mode
      test; with a non-empty one it must also match the id or contain the
      query at some position of its name. */
  lemma KeepCases(e: Entry, caught: seq<int>, mode: FilterMode, q: string)
    ensures q == [] ==> (Keep(e, caught, mode, q) <==> PassesMode(mode, e.id in caught))
    ensures q != [] ==> (Keep(e, caught, mode, q) <==>
              PassesMode(mode, e.id in caught)
              && (Text.Decimal(e.id) == q || exists i :: Text.OccursAt(e.name, q, i)))
  {
    Text.ContainsIff(e.name, q);
  }

  /** A query that is a decimal id matches exactly that entry's id. */
  lemma IdQueryExact(e: Entry, n: nat)
    ensures Text.Decimal(e.id) == Text.Decimal(n) <==> e.id == n
  {
    Text.DecimalInjective(e.id, n);
  }

  /** The "caught" and "missing" lists share no entry. */
  lemma CaughtMissingDisjoint(index: seq<Entry>, caught: seq<int>, q: string)
    ensures forall e :: !(e in RebuildList(index, caught, CaughtOnly, q)
                          && e in RebuildList(index, caught, MissingOnly, q))
  {
  }

  /** Filtering the "all" list by a mode gives that mode's list: the
      "caught" and "missing" lists are the two halves of the "all" list,
      each in index order, and their lengths add up to its length. */
  lemma {:induction false} ModesSplitAll(index: seq<Entry>, caught: seq<int>, q: string)
    ensures var all := RebuildList(index, caught, All, q);
      && RebuildList(all, caught, CaughtOnly, q) == RebuildList(index, caught, CaughtOnly, q)
      && RebuildList(all, caught, MissingOnly, q) == RebuildList(index, caught, MissingOnly, q)
      && |RebuildList(index, caught, CaughtOnly, q)| + |RebuildList(index, caught, MissingOnly, q)| == |all|
    decreases |index|
  {
    if index != [] {
      ModesSplitAll(index[1..], caught, q);
      var all := RebuildList(index, caught, All, q);
      var allTail := RebuildList(index[1..], caught, All, q);
      if Keep(index[0], caught, All, q) {
        assert all == [index[0]] + allTail;
        assert all[0] == index[0] && all[1..] == allTail;
      } else {
        assert all == allTail;
      }
    }
  }

  /** The "all" list with an empty query is the whole index. */
  lemma {:induction false} EmptyQueryAll(index: seq<Entry>, caught: seq<int>)
    ensures RebuildList(index, caught, All, "") == index
    decreases |index|
  {
    if index != [] {
      EmptyQueryAll(index[1..], caught);
      assert index == [index[0]] + index[1..];
    }
  }

  /** The list contains no entry twice when the index has none twice. */
  lemma RebuildListDistinct(index: seq<Entry>, caught: seq<int>, mode: FilterMode, q: string)
    requires Distinct(index)
    ensures Distinct(RebuildList(index, caught, mode, q))
  {
    SubseqDistinct(RebuildList(index, caught, mode, q), index);
  }
}
