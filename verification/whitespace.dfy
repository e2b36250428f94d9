/**
 Whitespace handling of the flavor-text picker:
 `.replace(/\f/g, " ").replace(/\s+/g, " ").trim()`.
 `\s` and `trim` use the same ECMAScript character class (WhiteSpace plus
 LineTerminator), written out below by code point. The main result is that
 the normalised text is exactly the input's words joined by single spaces.
 */
module Whitespace {

  /** ECMAScript WhiteSpace and LineTerminator code points (the `\s` class). */
  predicate IsSpace(c: char) {
    var n := c as int;
    (9 <= n <= 13) || n == 0x20 || n == 0xA0 || n == 0x1680 || (0x2000 <= n <= 0x200A)
    || n == 0x2028 || n == 0x2029 || n == 0x202F || n == 0x205F || n == 0x3000 || n == 0xFEFF
  }

  /** U+000C, the form feed that old game texts use as a line break. */
  const FormFeed: char := 12 as char

  /** `.replace(/\f/g, " ")`. */
  function ReplaceFormFeeds(s: string): (r: string)
    ensures |r| == |s|
    ensures forall i :: 0 <= i < |s| ==> r[i] != FormFeed
    ensures forall i :: 0 <= i < |s| && s[i] != FormFeed ==> r[i] == s[i]
  {
    seq(|s|, i requires 0 <= i < |s| => if s[i] == FormFeed then ' ' else s[i])
  }

  /** Number of whitespace characters at the start of `s`. */
  function LeadCount(s: string): (n: nat)
    ensures n <= |s|
    ensures forall i :: 0 <= i < n ==> IsSpace(s[i])
    ensures n < |s| ==> !IsSpace(s[n])
  {
    if s == [] || !IsSpace(s[0]) then 0 else 1 + LeadCount(s[1..])
  }

  /** Number of whitespace characters at the end of `s`. */
  function TrailCount(s: string): (n: nat)
    ensures n <= |s|
    ensures forall i :: |s| - n <= i < |s| ==> IsSpace(s[i])
    ensures n < |s| ==> !IsSpace(s[|s| - 1 - n])
  {
    if s == [] || !IsSpace(s[|s| - 1]) then 0 else 1 + TrailCount(s[..|s| - 1])
  }

  /** `.replace(/\s+/g, " ")`: every maximal run of whitespace becomes one space. */
  function CollapseRuns(s: string): (r: string)
    decreases |s|
  {
    if s == [] then []
    else if IsSpace(s[0]) then [' '] + CollapseRuns(s[1..][LeadCount(s[1..])..])
    else [s[0]] + CollapseRuns(s[1..])
  }

  /** `.trim()`: drops leading and trailing whitespace. */
  function Trim(s: string): (r: string)
    ensures r == [] || (!IsSpace(r[0]) && !IsSpace(r[|r| - 1]))
    ensures exists i, j :: TrimmedAt(s, i, j) && r == s[i..j]
  {
    var a := LeadCount(s);
    var t := s[a..];
    var b := TrailCount(t);
    assert TrimmedAt(s, a, a + |t| - b) by {
      forall k | a + |t| - b <= k < |s| ensures IsSpace(s[k]) {
        assert s[k] == t[k - a];
      }
    }
    assert t[..|t| - b] == s[a..a + |t| - b];
    t[..|t| - b]
  }

  /** Text that neither starts nor ends with whitespace is its own trim. */
  lemma TrimNoEnds(s: string)
    requires s == [] || (!IsSpace(s[0]) && !IsSpace(s[|s| - 1]))
    ensures Trim(s) == s
  {
    if s != [] {
      assert LeadCount(s) == 0;
      assert TrailCount(s) == 0;
    }
  }

  /** `s[i..j]` is what is left of `s` after dropping whitespace only. */
  predicate TrimmedAt(s: string, i: int, j: int) {
    && 0 <= i <= j <= |s|
    && (forall k :: 0 <= k < i ==> IsSpace(s[k]))
    && (forall k :: j <= k < |s| ==> IsSpace(s[k]))
  }

  /** The whole normalisation applied to a picked flavor text. */
  function Normalize(s: string): string {
    Trim(CollapseRuns(ReplaceFormFeeds(s)))
  }

  // ---------------------------------------------------------------------
  // Reference definition: the words of a text, joined by single spaces.

  /** Length of the run of non-whitespace characters at the start of `s`. */
  function WordLen(s: string): (n: nat)
    ensures n <= |s|
    ensures forall i :: 0 <= i < n ==> !IsSpace(s[i])
    ensures n < |s| ==> IsSpace(s[n])
  {
    if s == [] || IsSpace(s[0]) then 0 else 1 + WordLen(s[1..])
  }

  /** A word: a non-empty run of non-whitespace characters. */
  predicate IsWord(w: string) {
    |w| > 0 && forall i :: 0 <= i < |w| ==> !IsSpace(w[i])
  }

  /** The maximal runs of non-whitespace characters of `s`, in order. */
  function Words(s: string): (ws: seq<string>)
    ensures forall k :: 0 <= k < |ws| ==> IsWord(ws[k])
    decreases |s|
  {
    if s == [] then []
    else if IsSpace(s[0]) then Words(s[1..])
    else
      var n := WordLen(s);
      [s[..n]] + Words(s[n..])
  }

  /** The words separated by single spaces. */
  function Join(ws: seq<string>): string
    decreases |ws|
  {
    if ws == [] then [] else ws[0] + (if |ws| == 1 then [] else " " + Join(ws[1..]))
  }

  /** Text whose only whitespace is single spaces between non-space characters. */
  predicate WellSpaced(r: string) {
    && (r == [] || (!IsSpace(r[0]) && !IsSpace(r[|r| - 1])))
    && (forall i :: 0 <= i < |r| && IsSpace(r[i]) ==> r[i] == ' ')
    && (forall i :: 0 <= i < |r| - 1 ==> !(IsSpace(r[i]) && IsSpace(r[i + 1])))
  }

  // ---------------------------------------------------------------------
  // Proofs.

  /** Leading whitespace does not change the words. */
  lemma {:induction false} WordsSkipSpaces(s: string)
    ensures Words(s[LeadCount(s)..]) == Words(s)
    decreases |s|
  {
    if s != [] && IsSpace(s[0]) {
      WordsSkipSpaces(s[1..]);
      assert s[LeadCount(s)..] == s[1..][LeadCount(s[1..])..];
    }
  }

  /** Two texts with whitespace at the same places and the same other
      characters have the same words. */
  predicate SameShape(s: string, t: string) {
    && |s| == |t|
    && (forall i :: 0 <= i < |s| ==> (IsSpace(s[i]) <==> IsSpace(t[i])))
    && (forall i :: 0 <= i < |s| && !IsSpace(s[i]) ==> s[i] == t[i])
  }

  lemma {:induction false} WordLenSameShape(s: string, t: string)
    requires SameShape(s, t)
    ensures WordLen(s) == WordLen(t)
    ensures s[..WordLen(s)] == t[..WordLen(t)]
    decreases |s|
  {
    if s != [] && !IsSpace(s[0]) {
      assert SameShape(s[1..], t[1..]);
      WordLenSameShape(s[1..], t[1..]);
    }
  }

  lemma {:induction false} WordsSameShape(s: string, t: string)
    requires SameShape(s, t)
    ensures Words(s) == Words(t)
    decreases |s|
  {
    if s != [] {
      if IsSpace(s[0]) {
        assert SameShape(s[1..], t[1..]);
        WordsSameShape(s[1..], t[1..]);
      } else {
        WordLenSameShape(s, t);
        var n := WordLen(s);
        assert SameShape(s[n..], t[n..]);
        WordsSameShape(s[n..], t[n..]);
      }
    }
  }

  /** Replacing form feeds by spaces does not change the words. */
  lemma WordsReplaceFormFeeds(s: string)
    ensures Words(ReplaceFormFeeds(s)) == Words(s)
  {
    assert IsSpace(FormFeed);
    WordsSameShape(s, ReplaceFormFeeds(s));
  }

  /** A leading space before the words, when the text starts with whitespace. */
  function Lead(s: string): string {
    if s != [] && IsSpace(s[0]) then " " else []
  }

  /** A trailing space after the words, when the text has words and ends with
      whitespace. */
  function Trail(s: string): string {
    if Words(s) != [] && s != [] && IsSpace(s[|s| - 1]) then " " else []
  }

  /** Joining a word split as `[c] + rest` in front of further words. */
  lemma JoinConsChar(c: char, w: string, ws: seq<string>)
    ensures Join([[c] + w] + ws) == [c] + Join([w] + ws)
  {
  }

  /** The shape of the collapsed text: an optional space, the words joined by
      single spaces, an optional space. */
  lemma {:induction false} CollapseShape(s: string)
    ensures CollapseRuns(s) == Lead(s) + Join(Words(s)) + Trail(s)
    decreases |s|
  {
    if s == [] {
    } else if IsSpace(s[0]) {
      var u := s[1..][LeadCount(s[1..])..];
      CollapseShape(u);
      CollapseShapeSpace(s);
    } else {
      CollapseShape(s[1..]);
      if s[1..] == [] {
        assert Words(s) == [s[..1]] + Words([]);
      } else if IsSpace(s[1]) {
        CollapseShapeWordEnd(s);
      } else {
        CollapseShapeInWord(s);
      }
    }
  }

  /** `CollapseShape` when the text starts with whitespace. */
  lemma CollapseShapeSpace(s: string)
    requires s != [] && IsSpace(s[0])
    requires var u := s[1..][LeadCount(s[1..])..];
      CollapseRuns(u) == Lead(u) + Join(Words(u)) + Trail(u)
    ensures CollapseRuns(s) == Lead(s) + Join(Words(s)) + Trail(s)
  {
    var t := s[1..];
    var u := t[LeadCount(t)..];
    SpaceRunFacts(s);
    PrependSpace(CollapseRuns(s), CollapseRuns(u), Join(Words(s)), Trail(s));
  }

  /** Sequence bookkeeping for `CollapseShapeSpace`, over plain strings so
      that the recursive definitions stay folded. */
  lemma PrependSpace(cs: string, cu: string, j: string, tr: string)
    requires cs == [' '] + cu
    requires cu == [] + j + tr
    ensures cs == " " + j + tr
  {
  }

  /** Helper for `CollapseShapeSpace`: what skipping a leading run of
      whitespace keeps. */
  lemma SpaceRunFacts(s: string)
    requires s != [] && IsSpace(s[0])
    ensures var u := s[1..][LeadCount(s[1..])..];
      && CollapseRuns(s) == [' '] + CollapseRuns(u)
      && Lead(s) == " "
      && Lead(u) == []
      && Words(u) == Words(s)
      && Trail(u) == Trail(s)
  {
    var t := s[1..];
    var u := t[LeadCount(t)..];
    assert Words(u) == Words(s) by {
      WordsSkipSpaces(t);
    }
    assert Lead(u) == [] by {
      if u != [] {
        assert u[0] == t[LeadCount(t)];
      }
    }
    assert Trail(u) == Trail(s) by {
      if u != [] {
        assert u[|u| - 1] == s[|s| - 1];
      }
    }
  }

  /** `CollapseShape` when the text starts with a one-character word. */
  lemma CollapseShapeWordEnd(s: string)
    requires |s| >= 2 && !IsSpace(s[0]) && IsSpace(s[1])
    requires CollapseRuns(s[1..]) == Lead(s[1..]) + Join(Words(s[1..])) + Trail(s[1..])
    ensures CollapseRuns(s) == Lead(s) + Join(Words(s)) + Trail(s)
  {
    var t := s[1..];
    WordEndFacts(s);
    if Words(t) == [] {
      PrependCharLast(CollapseRuns(s), CollapseRuns(t), s[0], Join(Words(s)), Trail(s), Trail(t));
    } else {
      PrependCharWord(CollapseRuns(s), CollapseRuns(t), s[0], Join(Words(s)), Join(Words(t)), Trail(s));
    }
  }

  /** Helper for `CollapseShapeWordEnd`. */
  lemma WordEndFacts(s: string)
    requires |s| >= 2 && !IsSpace(s[0]) && IsSpace(s[1])
    ensures var t := s[1..];
      && CollapseRuns(s) == [s[0]] + CollapseRuns(t)
      && Lead(s) == []
      && Lead(t) == " "
      && (Words(t) != [] ==> Join(Words(s)) == [s[0]] + " " + Join(Words(t)) && Trail(s) == Trail(t))
      && (Words(t) == [] ==> Join(Words(s)) == [s[0]] && Trail(s) == " " && Trail(t) == [])
  {
    WordEndJoin(s);
    WordEndTrail(s);
  }

  lemma WordEndJoin(s: string)
    requires |s| >= 2 && !IsSpace(s[0]) && IsSpace(s[1])
    ensures Words(s[1..]) != [] ==> Join(Words(s)) == [s[0]] + " " + Join(Words(s[1..]))
    ensures Words(s[1..]) == [] ==> Join(Words(s)) == [s[0]]
  {
    OneCharWord(s);
    JoinFront([s[0]], Words(s[1..]));
  }

  lemma WordEndTrail(s: string)
    requires |s| >= 2 && !IsSpace(s[0]) && IsSpace(s[1])
    ensures Words(s[1..]) != [] ==> Trail(s) == Trail(s[1..])
    ensures Words(s[1..]) == [] ==> Trail(s) == " " && Trail(s[1..]) == []
  {
    var t := s[1..];
    OneCharWord(s);
    assert t[|t| - 1] == s[|s| - 1];
    if Words(t) == [] {
      NoWordsAllSpace(t);
    }
  }

  /** A one-character word in front of whitespace. */
  lemma OneCharWord(s: string)
    requires |s| >= 2 && !IsSpace(s[0]) && IsSpace(s[1])
    ensures Words(s) == [[s[0]]] + Words(s[1..])
  {
    assert WordLen(s) == 1;
    assert s[..1] == [s[0]];
  }

  /** Joining a word in front of further words. */
  lemma JoinFront(w: string, ws: seq<string>)
    ensures Join([w] + ws) == w + (if ws == [] then [] else " " + Join(ws))
  {
    assert ([w] + ws)[1..] == ws;
  }

  /** A text without words is all whitespace. */
  lemma {:induction false} NoWordsAllSpace(t: string)
    requires Words(t) == []
    ensures forall i :: 0 <= i < |t| ==> IsSpace(t[i])
    decreases |t|
  {
    if t != [] {
      NoWordsAllSpace(t[1..]);
      forall i | 0 < i < |t| ensures IsSpace(t[i]) {
        assert t[i] == t[1..][i - 1];
      }
    }
  }

  /** Sequence bookkeeping for a one-character word followed only by whitespace. */
  lemma PrependCharLast(cs: string, ct: string, c: char, js: string, trs: string, trt: string)
    requires cs == [c] + ct
    requires ct == " " + [] + trt
    requires js == [c] && trs == " " && trt == []
    ensures cs == [] + js + trs
  {
  }

  /** Sequence bookkeeping for a one-character word followed by more words. */
  lemma PrependCharWord(cs: string, ct: string, c: char, js: string, jt: string, tr: string)
    requires cs == [c] + ct
    requires ct == " " + jt + tr
    requires js == [c] + " " + jt
    ensures cs == [] + js + tr
  {
  }

  /** `CollapseShape` when the first word of the text is longer than one character. */
  lemma CollapseShapeInWord(s: string)
    requires |s| >= 2 && !IsSpace(s[0]) && !IsSpace(s[1])
    requires CollapseRuns(s[1..]) == Lead(s[1..]) + Join(Words(s[1..])) + Trail(s[1..])
    ensures CollapseRuns(s) == Lead(s) + Join(Words(s)) + Trail(s)
  {
    var t := s[1..];
    InWordFacts(s);
    PrependCharInWord(CollapseRuns(s), CollapseRuns(t), s[0], Join(Words(s)), Join(Words(t)), Trail(s));
  }

  /** Helper for `CollapseShapeInWord`. */
  lemma InWordFacts(s: string)
    requires |s| >= 2 && !IsSpace(s[0]) && !IsSpace(s[1])
    ensures var t := s[1..];
      && CollapseRuns(s) == [s[0]] + CollapseRuns(t)
      && Lead(s) == [] && Lead(t) == []
      && Join(Words(s)) == [s[0]] + Join(Words(t))
      && Trail(s) == Trail(t)
  {
    var t := s[1..];
    var n := WordLen(s);
    InWordWords(s);
    JoinConsChar(s[0], t[..n - 1], Words(t[n - 1..]));
    assert t[|t| - 1] == s[|s| - 1];
  }

  /** Helper for `InWordFacts`: the first word of `s` is `s[0]` followed by
      the first word of its tail. */
  lemma InWordWords(s: string)
    requires |s| >= 2 && !IsSpace(s[0]) && !IsSpace(s[1])
    ensures var t := s[1..];
      var n := WordLen(s);
      && 1 <= n <= |s|
      && Words(s) == [[s[0]] + t[..n - 1]] + Words(t[n - 1..])
      && Words(t) == [t[..n - 1]] + Words(t[n - 1..])
  {
    var t := s[1..];
    var n := WordLen(s);
    assert n == 1 + WordLen(t);
    assert s[n..] == t[n - 1..];
    assert s[..n] == [s[0]] + t[..n - 1];
  }

  /** Sequence bookkeeping for a character inside the first word. */
  lemma PrependCharInWord(cs: string, ct: string, c: char, js: string, jt: string, tr: string)
    requires cs == [c] + ct
    requires ct == [] + jt + tr
    requires js == [c] + jt
    ensures cs == [] + js + tr
  {
  }

  /** The joined words are empty or start and end with a non-space character. */
  lemma {:induction false} JoinEnds(ws: seq<string>)
    requires forall k :: 0 <= k < |ws| ==> IsWord(ws[k])
    ensures ws == [] <==> Join(ws) == []
    ensures Join(ws) != [] ==> !IsSpace(Join(ws)[0]) && !IsSpace(Join(ws)[|Join(ws)| - 1])
    decreases |ws|
  {
    if |ws| > 1 {
      JoinEnds(ws[1..]);
    }
  }

  /** Trimming removes exactly the optional spaces around the joined words. */
  lemma TrimAround(lead: string, j: string, trail: string)
    requires lead == [] || lead == " "
    requires trail == [] || trail == " "
    requires j == [] ==> trail == []
    requires j != [] ==> !IsSpace(j[0]) && !IsSpace(j[|j| - 1])
    ensures Trim(lead + j + trail) == j
  {
    var x := lead + j + trail;
    var a := LeadCount(x);
    if j == [] {
      assert x == lead;
    } else {
      assert x[|lead|] == j[0];
      assert a == |lead|;
      var t := x[a..];
      assert t == j + trail;
      assert t[|j| - 1] == j[|j| - 1];
      assert TrailCount(t) == |trail|;
    }
  }

  /** Normalising a text yields exactly its words joined by single spaces. */
  lemma NormalizeIsJoinedWords(s: string)
    ensures Normalize(s) == Join(Words(s))
  {
    var f := ReplaceFormFeeds(s);
    WordsReplaceFormFeeds(s);
    CollapseShape(f);
    JoinEnds(Words(f));
    TrimAround(Lead(f), Join(Words(f)), Trail(f));
  }

  /** Words joined by single spaces are well spaced. */
  lemma {:induction false} JoinWellSpaced(ws: seq<string>)
    requires forall k :: 0 <= k < |ws| ==> IsWord(ws[k])
    ensures WellSpaced(Join(ws))
    decreases |ws|
  {
    JoinEnds(ws);
    if |ws| > 1 {
      JoinWellSpaced(ws[1..]);
      JoinEnds(ws[1..]);
      var w := ws[0];
      var rest := Join(ws[1..]);
      var r := Join(ws);
      assert r == w + " " + rest;
      forall i | 0 <= i < |r| && IsSpace(r[i]) ensures r[i] == ' ' {
        if i > |w| {
          assert r[i] == rest[i - |w| - 1];
        }
      }
      forall i | 0 <= i < |r| - 1 ensures !(IsSpace(r[i]) && IsSpace(r[i + 1])) {
        if i > |w| {
          assert r[i] == rest[i - |w| - 1] && r[i + 1] == rest[i - |w|];
        } else if i == |w| {
          assert r[i + 1] == rest[0];
        } else if i == |w| - 1 {
          assert r[i] == w[|w| - 1];
        } else {
          assert r[i] == w[i];
        }
      }
    }
  }

  /** The normalised flavor text has no form feed, no run of two whitespace
      characters, no leading or trailing whitespace, and keeps every word of
      the input in order. */
  lemma NormalizeWellSpaced(s: string)
    ensures WellSpaced(Normalize(s))
    ensures FormFeed !in Normalize(s)
    ensures Normalize(s) == Join(Words(s))
  {
    NormalizeIsJoinedWords(s);
    JoinWellSpaced(Words(s));
    assert IsSpace(FormFeed);
  }
}
