/**
 The species text pickers of the detail card: `pickEnglishFlavor` and
 `pickEnglishGenus`, and the id/generation meta line. A species payload is
 reduced to the fields they read; a JSON field that is absent is `None`.
 */
module SpeciesText {
  import opened Basics
  import Whitespace
  import Text

  /** One element of `flavor_text_entries`: its `flavor_text` and its
      `language.name`. */
  datatype FlavorEntry = FlavorEntry(text: Option<string>, language: Option<string>)

  /** One element of `genera`: its `genus` and its `language.name`. */
  datatype GenusEntry = GenusEntry(genus: string, language: Option<string>)

  /** The fields of a species payload the card reads. */
  datatype Species = Species(
    flavorEntries: Option<seq<FlavorEntry>>,
    genera: Option<seq<GenusEntry>>,
    generation: Option<string>)

  const NoFlavorText: string := "No flavor text found."
  const NoGenus: string := "—"

  /** `e.language?.name === "en"`. */
  predicate IsEnglish(language: Option<string>) {
    language == Some("en")
  }

  /** `entries.filter(e => e.language?.name === "en")`. */
  function EnglishEntries(es: seq<FlavorEntry>): (en: seq<FlavorEntry>)
    ensures forall k :: 0 <= k < |en| ==> IsEnglish(en[k].language)
    ensures |en| <= |es|
  {
    if es == [] then []
    else if IsEnglish(es[0].language) then [es[0]] + EnglishEntries(es[1..])
    else EnglishEntries(es[1..])
  }

  /** `en[en.length - 1] || entries[0]`: the entry whose text is shown. */
  function PickEntry(es: seq<FlavorEntry>): Option<FlavorEntry> {
    var en := EnglishEntries(es);
    if en != [] then Some(en[|en| - 1])
    else if es != [] then Some(es[0])
    else None
  }

  /** `pickEnglishFlavor(species)`. */
  function PickFlavor(sp: Species): string {
    match PickEntry(sp.flavorEntries.OrDefault([]))
    case None => NoFlavorText
    case Some(e) => Whitespace.Normalize(e.text.OrDefault(""))
  }

  /** `pickEnglishGenus(species)`: `find` scans the genera from the left. */
  function FirstEnglishGenus(gs: seq<GenusEntry>): string {
    if gs == [] then NoGenus
    else if IsEnglish(gs[0].language) then gs[0].genus
    else FirstEnglishGenus(gs[1..])
  }

  function PickGenus(sp: Species): string {
    FirstEnglishGenus(sp.genera.OrDefault([]))
  }

  /** The meta line `#<pad3(id)> • <cap(generation or "unknown gen")>`. */
  function DexMeta(id: nat, sp: Species): (r: string)
    ensures var head := "#" + Text.PadId(id) + " • ";
      && |head| <= |r| && r[..|head|] == head
      && (sp.generation.None? || sp.generation == Some("") ==> r[|head|..] == "unknown gen")
      && (sp.generation.Some? && sp.generation.value != "" ==> r[|head|..] == Text.Cap(sp.generation.value))
  {
    var gen := match sp.generation case Some(g) => if g == "" then "unknown gen" else g
                                   case None => "unknown gen";
    "#" + Text.PadId(id) + " • " + Text.Cap(gen)
  }

  // ---------------------------------------------------------------------
  // Properties, stated against entry positions.

  /** The English entries of `es` are exactly its English elements, in order:
      the last one is the last English element of `es`. */
  lemma {:induction false} LastEnglishEntry(es: seq<FlavorEntry>)
    ensures EnglishEntries(es) != [] <==> exists i :: 0 <= i < |es| && IsEnglish(es[i].language)
    ensures EnglishEntries(es) != [] ==>
              exists i :: 0 <= i < |es| && IsEnglish(es[i].language)
                && es[i] == EnglishEntries(es)[|EnglishEntries(es)| - 1]
                && forall j :: i < j < |es| ==> !IsEnglish(es[j].language)
    decreases |es|
  {
    if es != [] {
      var tl := es[1..];
      LastEnglishEntry(tl);
      if exists i :: 0 <= i < |tl| && IsEnglish(tl[i].language) {
        var i :| 0 <= i < |tl| && IsEnglish(tl[i].language)
                 && tl[i] == EnglishEntries(tl)[|EnglishEntries(tl)| - 1]
                 && forall j :: i < j < |tl| ==> !IsEnglish(tl[j].language);
        assert es[i + 1] == tl[i];
        forall j | i + 1 < j < |es| ensures !IsEnglish(es[j].language) {
          assert es[j] == tl[j - 1];
        }
      } else {
        forall j | 0 < j < |es| ensures !IsEnglish(es[j].language) {
          assert es[j] == tl[j - 1];
        }
        if IsEnglish(es[0].language) {
          assert EnglishEntries(es) == [es[0]];
        }
      }
    }
  }

  /** The entry `pickEnglishFlavor` reads: the last English entry when there
      is one, else the first entry of any language, else none. */
  lemma PickEntryChoice(es: seq<FlavorEntry>)
    ensures (exists i :: 0 <= i < |es| && IsEnglish(es[i].language)) ==>
              exists i :: 0 <= i < |es| && IsEnglish(es[i].language)
                && (forall j :: i < j < |es| ==> !IsEnglish(es[j].language))
                && PickEntry(es) == Some(es[i])
    ensures (forall i :: 0 <= i < |es| ==> !IsEnglish(es[i].language)) && es != [] ==>
              PickEntry(es) == Some(es[0])
    ensures es == [] ==> PickEntry(es) == None
  {
    LastEnglishEntry(es);
  }

  /** `pickEnglishFlavor`: the normalised text of the last English entry when
      there is one, else of the first entry of any language, else exactly
      "No flavor text found.". */
  lemma PickFlavorChoice(sp: Species)
    ensures var es := sp.flavorEntries.OrDefault([]);
      && ((exists i :: 0 <= i < |es| && IsEnglish(es[i].language)) ==>
            exists i :: 0 <= i < |es| && IsEnglish(es[i].language)
              && (forall j :: i < j < |es| ==> !IsEnglish(es[j].language))
              && PickFlavor(sp) == Whitespace.Normalize(es[i].text.OrDefault("")))
      && ((forall i :: 0 <= i < |es| ==> !IsEnglish(es[i].language)) && es != [] ==>
            PickFlavor(sp) == Whitespace.Normalize(es[0].text.OrDefault("")))
      && (es == [] ==> PickFlavor(sp) == NoFlavorText)
  {
    var es := sp.flavorEntries.OrDefault([]);
    PickEntryChoice(es);
    if exists i :: 0 <= i < |es| && IsEnglish(es[i].language) {
      var i :| 0 <= i < |es| && IsEnglish(es[i].language)
               && (forall j :: i < j < |es| ==> !IsEnglish(es[j].language))
               && PickEntry(es) == Some(es[i]);
      assert PickFlavor(sp) == Whitespace.Normalize(es[i].text.OrDefault(""));
    }
  }

  /** The displayed flavor text is either the fixed message or well spaced:
      no form feed, no run of whitespace, nothing to trim. */
  lemma PickFlavorWellSpaced(sp: Species)
    ensures PickFlavor(sp) == NoFlavorText || Whitespace.WellSpaced(PickFlavor(sp))
  {
    match PickEntry(sp.flavorEntries.OrDefault([]))
    case None =>
    case Some(e) => Whitespace.NormalizeWellSpaced(e.text.OrDefault(""));
  }

  /** `pickEnglishGenus`: the genus of the first English entry, or "—". */
  lemma {:induction false} FirstEnglishGenusChoice(gs: seq<GenusEntry>)
    ensures (exists i :: 0 <= i < |gs| && IsEnglish(gs[i].language)) ==>
              exists i :: 0 <= i < |gs| && IsEnglish(gs[i].language)
                && (forall j :: 0 <= j < i ==> !IsEnglish(gs[j].language))
                && FirstEnglishGenus(gs) == gs[i].genus
    ensures (forall i :: 0 <= i < |gs| ==> !IsEnglish(gs[i].language)) ==>
              FirstEnglishGenus(gs) == NoGenus
    decreases |gs|
  {
    if gs != [] {
      var tl := gs[1..];
      FirstEnglishGenusChoice(tl);
      if !IsEnglish(gs[0].language) {
        if exists i :: 0 <= i < |gs| && IsEnglish(gs[i].language) {
          var i0 :| 0 <= i0 < |gs| && IsEnglish(gs[i0].language);
          assert IsEnglish(tl[i0 - 1].language);
          var i :| 0 <= i < |tl| && IsEnglish(tl[i].language)
                   && (forall j :: 0 <= j < i ==> !IsEnglish(tl[j].language))
                   && FirstEnglishGenus(tl) == tl[i].genus;
          assert gs[i + 1] == tl[i];
          forall j | 0 <= j < i + 1 ensures !IsEnglish(gs[j].language) {
            if j > 0 {
              assert gs[j] == tl[j - 1];
            }
          }
        }
        forall i | 0 <= i < |tl| ensures tl[i] == gs[i + 1] {
        }
      }
    }
  }

  /** The example of a French entry after an English one with a form feed. */
  lemma FlavorExample()
    ensures PickFlavor(Species(Some([
              FlavorEntry(Some("A." + [Whitespace.FormFeed] + "B."), Some("en")),
              FlavorEntry(Some("C."), Some("fr"))]), None, None)) == "A. B."
  {
    var x := "A." + [Whitespace.FormFeed] + "B.";
    var es := [FlavorEntry(Some(x), Some("en")), FlavorEntry(Some("C."), Some("fr"))];
    EnglishFirstOnly(es);
    FormFeedExample();
  }

  lemma EnglishFirstOnly(es: seq<FlavorEntry>)
    requires |es| == 2 && IsEnglish(es[0].language) && !IsEnglish(es[1].language)
    ensures PickEntry(es) == Some(es[0])
  {
    assert EnglishEntries(es[1..]) == [] by {
      assert es[1..][1..] == [];
    }
  }

  lemma FormFeedExample()
    ensures Whitespace.Normalize("A." + [Whitespace.FormFeed] + "B.") == "A. B."
  {
    ReplaceExample();
    CollapseExample();
    Whitespace.TrimNoEnds("A. B.");
  }

  lemma ReplaceExample()
    ensures Whitespace.ReplaceFormFeeds("A." + [Whitespace.FormFeed] + "B.") == "A. B."
  {
  }

  lemma CollapseExample()
    ensures Whitespace.CollapseRuns("A. B.") == "A. B."
  {
    var s := "A. B.";
    assert s[1..] == ". B." && s[1..][1..] == " B." && s[1..][1..][1..] == "B.";
    assert Whitespace.LeadCount("B.") == 0;
    CollapseNoSpace();
  }

  lemma CollapseNoSpace()
    ensures Whitespace.CollapseRuns("B.") == "B."
  {
    assert "B."[1..] == ".";
    assert "."[1..] == [];
  }
}
