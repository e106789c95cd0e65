/**
 * The `input` handler `setupSearch` installs: it normalises the query, then
 * shows or hides every rendered card and section in place. The page is
 * modelled by the text of each card, grouped by section in document order,
 * and by the visibility the handler writes (`display` 'flex' or 'none').
 */
module Search {
  import opened Strings
  import opened Profiles
  import opened Grouping
  import opened Rendering

  /** `e.target.value.toLowerCase().trim()`. */
  function SearchTerm(value: string): string {
    Trim(Lower(value))
  }

  /** Whether a card with this `textContent` is shown for a normalised term. */
  predicate CardShown(text: string, term: string) {
    term == "" || Includes(Lower(text), term)
  }

  /** Whether a section with these card texts is shown for a normalised term. */
  predicate SectionShown(cards: seq<string>, term: string) {
    term == "" || exists k :: 0 <= k < |cards| && CardShown(cards[k], term)
  }

  /** The per-section pass of the handler: each card is shown iff its
      lower-cased text contains the term, and the flag records whether any
      card of the section stayed visible. */
  method FilterSection(cards: seq<string>, term: string) returns (shown: seq<bool>, anyShown: bool)
    ensures |shown| == |cards|
    ensures forall k :: 0 <= k < |cards| ==> (shown[k] <==> Includes(Lower(cards[k]), term))
    ensures anyShown <==> exists k :: 0 <= k < |cards| && shown[k]
  {
    shown := [];
    anyShown := false;
    for k := 0 to |cards|
      invariant |shown| == k
      invariant forall m :: 0 <= m < k ==> (shown[m] <==> Includes(Lower(cards[m]), term))
      invariant anyShown <==> exists m :: 0 <= m < k && shown[m]
    {
      var cardText := Lower(cards[k]);
      if Includes(cardText, term) {
        shown := shown + [true];
        anyShown := true;
      } else {
        shown := shown + [false];
      }
    }
  }

  /** The rendered directory as the search sees it. */
  class SearchPage {
    /** Each section's card texts, in document order. */
    const sections: seq<seq<string>>
    /** The visibility of each section. */
    var sectionShown: seq<bool>
    /** The visibility of each card, section by section. */
    var cardShown: seq<seq<bool>>

    ghost predicate Valid()
      reads this
    {
      && |sectionShown| == |sections|
      && |cardShown| == |sections|
      && forall i :: 0 <= i < |sections| ==> |cardShown[i]| == |sections[i]|
    }

    /** A freshly rendered page: nothing hidden yet. */
    constructor (sections: seq<seq<string>>)
      ensures Valid() && this.sections == sections
      ensures forall i :: 0 <= i < |sections| ==> sectionShown[i]
      ensures forall i, k :: 0 <= i < |sections| && 0 <= k < |sections[i]| ==> cardShown[i][k]
    {
      this.sections := sections;
      sectionShown := seq(|sections|, _ => true);
      cardShown := seq(|sections|, i requires 0 <= i < |sections| => seq(|sections[i]|, _ => true));
    }

    /** One `input` event. The new visibility depends only on the query, not
        on what was visible before: a blank query shows every section and card;
        otherwise a card is shown iff its text contains the term and a section
        iff at least one of its cards is shown. */
    method OnInput(value: string)
      requires Valid()
      modifies this
      ensures Valid()
      ensures forall i :: 0 <= i < |sections| ==>
        sectionShown[i] == SectionShown(sections[i], SearchTerm(value))
      ensures forall i, k :: 0 <= i < |sections| && 0 <= k < |sections[i]| ==>
        cardShown[i][k] == CardShown(sections[i][k], SearchTerm(value))
    {
      var searchTerm := SearchTerm(value);
      if searchTerm == "" {
        sectionShown := seq(|sections|, _ => true);
        cardShown := seq(|sections|, i requires 0 <= i < |sections| => seq(|sections[i]|, _ => true));
        return;
      }
      for i := 0 to |sections|
        invariant Valid()
        invariant forall j :: 0 <= j < i ==> sectionShown[j] == SectionShown(sections[j], searchTerm)
        invariant forall j, k :: 0 <= j < i && 0 <= k < |sections[j]| ==>
          cardShown[j][k] == CardShown(sections[j][k], searchTerm)
      {
        var shown, sectionHasVisibleCards := FilterSection(sections[i], searchTerm);
        cardShown := cardShown[i := shown];
        sectionShown := sectionShown[i := sectionHasVisibleCards];
      }
    }
  }

  /** The card texts of a rendered directory, section by section. */
  function PageTexts(sections: seq<Section>): seq<seq<string>> {
    seq(|sections|, i requires 0 <= i < |sections| =>
      seq(|sections[i].cards|, k requires 0 <= k < |sections[i].cards| => CardText(sections[i].cards[k])))
  }

  // ---------------------------------------------------------------------------
  // Properties
  // ---------------------------------------------------------------------------

  lemma LowerKeepsSpaces(s: string)
    ensures AllSpace(Lower(s)) <==> AllSpace(s)
  {
    if AllSpace(Lower(s)) {
      forall k | 0 <= k < |s|
        ensures IsSpace(s[k])
      {
        assert IsSpace(Lower(s)[k]);
      }
    }
  }

  /** The term is empty exactly for a blank query (empty or whitespace only),
      and then every card and every section is shown, including a section
      without cards. */
  lemma BlankQueryShowsAll(value: string, cards: seq<string>)
    ensures SearchTerm(value) == "" <==> AllSpace(value)
    ensures AllSpace(value) ==> SectionShown(cards, SearchTerm(value))
    ensures AllSpace(value) ==> forall k :: 0 <= k < |cards| ==> CardShown(cards[k], SearchTerm(value))
  {
    TrimEmptyIff(Lower(value));
    LowerKeepsSpaces(value);
  }

  /** The term is already lower-cased and has no whitespace at either end, so
      matching against the lower-cased card text ignores ASCII case on both
      sides. */
  lemma TermIsNormalised(value: string)
    ensures Lower(SearchTerm(value)) == SearchTerm(value)
    ensures SearchTerm(value) == [] || (!IsSpace(SearchTerm(value)[0]) && !IsSpace(SearchTerm(value)[|SearchTerm(value)| - 1]))
  {
  }

  /** Matching ignores ASCII case on both sides: changing the case of letters
      in the card text or in the query never changes whether the card is
      shown. */
  lemma MatchIgnoresCase(text: string, text': string, value: string, value': string)
    requires SameUpToCase(text, text') && SameUpToCase(value, value')
    ensures SearchTerm(value) == SearchTerm(value')
    ensures CardShown(text, SearchTerm(value)) == CardShown(text', SearchTerm(value'))
  {
    LowerIgnoresCase(text, text');
    LowerIgnoresCase(value, value');
  }

  /** The page the search works on is the rendered directory: one section per
      entry, one text per row of the entry, each the text of that row's card. */
  lemma PageOfDirectory(ps: seq<Profile>)
    ensures var gs := Grouped(ps);
            && |PageTexts(RenderDirectory(gs))| == |gs|
            && (forall i :: 0 <= i < |gs| ==> |PageTexts(RenderDirectory(gs))[i]| == |gs[i].members|)
            && forall i, k :: 0 <= i < |gs| && 0 <= k < |gs[i].members| ==>
                 PageTexts(RenderDirectory(gs))[i][k] == CardText(RenderCard(gs[i].members[k]))
  {
  }

  /** The page load followed by one `input` event: the rows are grouped, the
      directory is rendered, the search is attached to it, and the query is
      typed. When the grouping throws, nothing is rendered and no section is
      there to show. Otherwise each area's section ends up shown exactly when
      the query is blank or one of that area's own rows has a matching card. */
  method SearchDirectory(ps: seq<Profile>, value: string) returns (shown: seq<bool>)
    ensures !NoInheritedArea(ps) ==> shown == []
    ensures NoInheritedArea(ps) ==> |shown| == |Grouped(ps)|
    ensures NoInheritedArea(ps) ==> forall i :: 0 <= i < |Grouped(ps)| ==>
      (shown[i] <==>
        (|| SearchTerm(value) == ""
         || exists k :: 0 <= k < |Grouped(ps)[i].members|
              && CardShown(CardText(RenderCard(Grouped(ps)[i].members[k])), SearchTerm(value))))
  {
    var r := GroupProfilesByArea(ps);
    var gs := if r.Some? then r.value else [];
    var page := new SearchPage(PageTexts(RenderDirectory(gs)));
    page.OnInput(value);
    PageOfDirectory(ps);
    shown := page.sectionShown;
  }

  /** With a non-empty term a section without any matching card is hidden, and
      one with a matching card is shown. */
  lemma SectionFollowsCards(cards: seq<string>, term: string)
    requires term != ""
    ensures SectionShown(cards, term) <==> exists k :: 0 <= k < |cards| && Includes(Lower(cards[k]), term)
    ensures cards == [] ==> !SectionShown(cards, term)
  {
  }

  /** Typing more only hides: if the new term contains the old one, a card
      shown for the new term was already shown for the old one. */
  lemma NarrowingOnlyHides(text: string, shorter: string, longer: string)
    requires Includes(longer, shorter)
    requires CardShown(text, longer)
    ensures CardShown(text, shorter)
  {
    if longer == "" {
      assert |shorter| == 0;
    } else {
      IncludesTransitive(Lower(text), longer, shorter);
    }
  }

  /** A term found in a card's name, native place or phone shows that card,
      since the card text holds all three. */
  lemma FieldMatchShowsCard(p: Profile, term: string)
    requires
      || Includes(Lower(RenderCard(p).name), term)
      || Includes(Lower(RenderCard(p).nativePlace), term)
      || Includes(Lower(RenderCard(p).phone), term)
    ensures CardShown(CardText(RenderCard(p)), term)
  {
    var c := RenderCard(p);
    var placeLine := PlaceLabel + " " + c.nativePlace;
    var phoneLine := PhoneLabel + " " + c.phone;
    LowerAppend(c.name, placeLine);
    LowerAppend(c.name + placeLine, phoneLine);
    LowerAppend(PlaceLabel + " ", c.nativePlace);
    LowerAppend(PhoneLabel + " ", c.phone);
    IncludesInConcat(Lower(PlaceLabel + " "), Lower(c.nativePlace), term);
    IncludesInConcat(Lower(PhoneLabel + " "), Lower(c.phone), term);
    IncludesInConcat(Lower(c.name), Lower(placeLine), term);
    IncludesInConcat(Lower(c.name + placeLine), Lower(phoneLine), term);
  }

  /** Matching runs over the whole card text, labels included: the term
      "मुळगाव" (the native-place label) shows every card. */
  lemma LabelMatchesEveryCard(p: Profile)
    ensures CardShown(CardText(RenderCard(p)), "मुळगाव")
  {
    var c := RenderCard(p);
    var placeLine := PlaceLabel + " " + c.nativePlace;
    assert Includes(PlaceLabel, "मुळगाव") by {
      assert PlaceLabel[0..|"मुळगाव"|] == "मुळगाव";
      assert OccursAt(PlaceLabel, "मुळगाव", 0);
    }
    assert Lower(PlaceLabel) == PlaceLabel;
    LowerAppend(c.name, placeLine);
    LowerAppend(c.name + placeLine, PhoneLabel + " " + c.phone);
    LowerAppend(PlaceLabel, " " + c.nativePlace);
    assert placeLine == PlaceLabel + (" " + c.nativePlace);
    IncludesInConcat(Lower(PlaceLabel), Lower(" " + c.nativePlace), "मुळगाव");
    IncludesInConcat(Lower(c.name), Lower(placeLine), "मुळगाव");
    IncludesInConcat(Lower(c.name + placeLine), Lower(PhoneLabel + " " + c.phone), "मुळगाव");
  }
}
