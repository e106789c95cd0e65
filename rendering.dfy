/**
 * What `displayProfiles`, `createAreaMenu` and the `null` branch of
 * `getImageUrl` decide without a browser: the section id of an area, the
 * single-item flag of a grid, the text and fallbacks of each card, the menu
 * count per area, and which section a menu click scrolls to.
 */
module Rendering {
  import opened Strings
  import opened Wrappers
  import opened Profiles
  import opened Grouping

  const Unknown: string := "Unknown"
  const NotAvailable: string := "N/A"
  const ProfileAlt: string := "Profile"
  const PlaceholderUrl: string := "https://via.placeholder.com/150?text=No+Image"
  const PlaceLabel: string := "मुळगाव:"
  const PhoneLabel: string := "मोबाईल नंबर:"

  /** Where a card's picture comes from: the placeholder, or the public URL
      the storage service gives for a stored path. */
  datatype ImageSource = Placeholder | StoredImage(path: string)

  /** A rendered profile card: image source and alt text, name line,
      native-place value and phone value. */
  datatype Card = Card(image: ImageSource, alt: string, name: string, nativePlace: string, phone: string)

  /** A rendered area section. */
  datatype Section = Section(id: string, heading: string, singleItem: bool, cards: seq<Card>)

  /** An entry of the area menu: the area name and its count badge. */
  datatype MenuItem = MenuItem(area: string, count: nat)

  /** `getImageUrl`: a falsy path gives the placeholder. */
  function ImageFor(image: Field): ImageSource {
    if Truthy(image) then StoredImage(image.text) else Placeholder
  }

  /** The URL an image source stands for, with the storage lookup supplied by
      the caller; the placeholder is the fixed no-image address. */
  function ImageUrl(src: ImageSource, publicUrl: string -> string): string {
    match src
    case Placeholder => PlaceholderUrl
    case StoredImage(path) => publicUrl(path)
  }

  function RenderCard(p: Profile): Card {
    Card(
      ImageFor(p.image),
      OrDefault(p.name, ProfileAlt),
      OrDefault(p.name, Unknown),
      OrDefault(p.nativePlace, NotAvailable),
      OrDefault(p.phone, NotAvailable))
  }

  /** The card's `textContent`: the name heading, then the native-place line
      (label, a space, the value), then the phone line (label, a space, the
      badge text). */
  function CardText(c: Card): string {
    c.name + (PlaceLabel + " " + c.nativePlace) + (PhoneLabel + " " + c.phone)
  }

  /** The id of an area's section, also used by the menu to find it. */
  function SectionId(area: string): (id: string)
    ensures |id| >= 5 && id[..5] == "area-"
    ensures NoSpace(id)
  {
    "area-" + Slug(area)
  }

  function RenderSection(g: Group): Section {
    Section(
      SectionId(g.area),
      g.area,
      |g.members| == 1,
      seq(|g.members|, k requires 0 <= k < |g.members| => RenderCard(g.members[k])))
  }

  /** `displayProfiles`: one section per entry, in entry order. */
  function RenderDirectory(gs: seq<Group>): seq<Section> {
    seq(|gs|, i requires 0 <= i < |gs| => RenderSection(gs[i]))
  }

  /** `createAreaMenu`: one item per entry, in entry order. */
  function AreaMenu(gs: seq<Group>): seq<MenuItem> {
    seq(|gs|, i requires 0 <= i < |gs| => MenuItem(gs[i].area, |gs[i].members|))
  }

  /** `document.getElementById` over the rendered sections: the first section
      in document order that carries the id. */
  function FindById(sections: seq<Section>, id: string): (r: Option<nat>)
    ensures r.Some? ==> r.value < |sections| && sections[r.value].id == id
                        && forall k :: 0 <= k < r.value ==> sections[k].id != id
    ensures r.None? ==> forall k :: 0 <= k < |sections| ==> sections[k].id != id
  {
    if sections == [] then None
    else if sections[0].id == id then Some(0)
    else match FindById(sections[1..], id)
      case None => None
      case Some(k) => Some(k + 1)
  }

  function SumCounts(menu: seq<MenuItem>): nat {
    if menu == [] then 0 else SumCounts(menu[..|menu| - 1]) + menu[|menu| - 1].count
  }

  // ---------------------------------------------------------------------------
  // Properties
  // ---------------------------------------------------------------------------

  /** Missing fields fall back: no image path gives the placeholder URL, no
      name gives "Unknown" (alt text "Profile"), no native place or phone gives
      "N/A"; present values are shown as they are, and no text of a card is
      ever empty. */
  lemma CardDefaults(p: Profile, publicUrl: string -> string)
    ensures !Truthy(p.image) ==> ImageUrl(RenderCard(p).image, publicUrl) == PlaceholderUrl
    ensures Truthy(p.image) ==> ImageUrl(RenderCard(p).image, publicUrl) == publicUrl(p.image.text)
    ensures RenderCard(p).name == (if Truthy(p.name) then p.name.text else "Unknown")
    ensures RenderCard(p).alt == (if Truthy(p.name) then p.name.text else "Profile")
    ensures RenderCard(p).nativePlace == (if Truthy(p.nativePlace) then p.nativePlace.text else "N/A")
    ensures RenderCard(p).phone == (if Truthy(p.phone) then p.phone.text else "N/A")
    ensures RenderCard(p).name != "" && RenderCard(p).alt != ""
    ensures RenderCard(p).nativePlace != "" && RenderCard(p).phone != ""
  {
  }

  /** The menu and the sections agree entry by entry: same area, and the
      count badge equals the number of cards in that area's grid, which is
      the number of rows in the entry; the grid is flagged single-item
      exactly when that number is 1. */
  lemma MenuMatchesSections(gs: seq<Group>)
    ensures |AreaMenu(gs)| == |RenderDirectory(gs)| == |gs|
    ensures forall i :: 0 <= i < |gs| ==>
      && AreaMenu(gs)[i].area == RenderDirectory(gs)[i].heading == gs[i].area
      && AreaMenu(gs)[i].count == |RenderDirectory(gs)[i].cards| == |gs[i].members|
      && (RenderDirectory(gs)[i].singleItem <==> AreaMenu(gs)[i].count == 1)
      && RenderDirectory(gs)[i].id == SectionId(gs[i].area)
  {
  }

  lemma {:induction false} SumCountsIsFlattenLength(gs: seq<Group>)
    ensures SumCounts(AreaMenu(gs)) == |Flatten(gs)|
  {
    if gs != [] {
      var init := gs[..|gs| - 1];
      assert AreaMenu(gs)[..|gs| - 1] == AreaMenu(init);
      SumCountsIsFlattenLength(init);
    }
  }

  /** For a fetched list, the count badges add up to the number of rows and
      every badge is at least 1. */
  lemma MenuCountsCoverProfiles(ps: seq<Profile>)
    ensures SumCounts(AreaMenu(Grouped(ps))) == |ps|
    ensures forall i :: 0 <= i < |AreaMenu(Grouped(ps))| ==> AreaMenu(Grouped(ps))[i].count >= 1
  {
    SumCountsIsFlattenLength(Grouped(ps));
    GroupingIsPartition(ps);
    GroupedKeys(ps);
  }

  /** Rows p1, p2 of one area and p3 of another give two sections in that
      order: the first with a grid of two cards, the second with one card and
      the single-item flag; the menu shows counts 2 and 1. */
  lemma TwoAreaScenario(p1: Profile, p2: Profile, p3: Profile)
    requires AreaOf(p1) == AreaOf(p2) != AreaOf(p3)
    ensures var gs := Grouped([p1, p2, p3]);
            && gs == [Group(AreaOf(p1), [p1, p2]), Group(AreaOf(p3), [p3])]
            && AreaMenu(gs) == [MenuItem(AreaOf(p1), 2), MenuItem(AreaOf(p3), 1)]
            && |RenderDirectory(gs)| == 2
            && !RenderDirectory(gs)[0].singleItem && |RenderDirectory(gs)[0].cards| == 2
            && RenderDirectory(gs)[1].singleItem && |RenderDirectory(gs)[1].cards| == 1
  {
    ScenarioKeys(p1, p2, p3);
    ScenarioMembers(p1, p2, p3);
  }

  lemma ScenarioKeys(p1: Profile, p2: Profile, p3: Profile)
    requires AreaOf(p1) == AreaOf(p2) != AreaOf(p3)
    ensures FirstSeen([p1, p2, p3]) == [AreaOf(p1), AreaOf(p3)]
  {
    var ps, two, one := [p1, p2, p3], [p1, p2], [p1];
    assert ps[..|ps| - 1] == two && two[..|two| - 1] == one && one[..|one| - 1] == [];
    assert FirstSeen(one) == [AreaOf(p1)];
    assert FirstSeen(two) == [AreaOf(p1)];
  }

  lemma ScenarioMembers(p1: Profile, p2: Profile, p3: Profile)
    requires AreaOf(p1) == AreaOf(p2) != AreaOf(p3)
    ensures Members([p1, p2, p3], AreaOf(p1)) == [p1, p2]
    ensures Members([p1, p2, p3], AreaOf(p3)) == [p3]
  {
    var a, b := AreaOf(p1), AreaOf(p3);
    var ps, two, one := [p1, p2, p3], [p1, p2], [p1];
    assert ps[..|ps| - 1] == two && two[..|two| - 1] == one && one[..|one| - 1] == [];
    assert Members(one, a) == [p1] && Members(one, b) == [];
    assert Members(two, a) == [p1, p2] && Members(two, b) == [];
  }

  /** A menu click looks up the id built from the item's label, which is the id
      its own section was rendered with; the lookup lands on that section
      exactly when no earlier area's name normalises to the same id. */
  lemma MenuClickFindsSection(gs: seq<Group>, i: nat)
    requires i < |gs|
    ensures FindById(RenderDirectory(gs), SectionId(AreaMenu(gs)[i].area)) == Some(i)
            <==> forall j :: 0 <= j < i ==> Slug(gs[j].area) != Slug(gs[i].area)
  {
    var sections := RenderDirectory(gs);
    var id := SectionId(gs[i].area);
    forall j | 0 <= j < i
      ensures sections[j].id == id <==> Slug(gs[j].area) == Slug(gs[i].area)
    {
      assert Slug(gs[j].area) == sections[j].id[5..];
      assert Slug(gs[i].area) == id[5..];
    }
    assert sections[i].id == id;
  }

  /** Two space-free words joined by a whitespace run give the id of the
      words joined by one hyphen. */
  lemma TwoWordId(left: string, run: string, right: string)
    requires NoSpace(left) && NoSpace(right)
    requires run != [] && AllSpace(run)
    ensures SectionId(left + run + right) == "area-" + left + "-" + right
  {
    SlugKeepsSpaceFree(left);
    SlugKeepsSpaceFree(right);
    SlugCollapsesRun(left, run, right);
  }

  lemma NorthZoneWords()
    ensures NoSpace("North") && NoSpace("Zone")
    ensures AllSpace(" ") && AllSpace("  ")
  {
  }

  /** For example, the area "North Zone" gets the id "area-North-Zone". */
  lemma NorthZoneId()
    ensures SectionId("North Zone") == "area-North-Zone"
  {
    assert "North Zone" == "North" + " " + "Zone";
    assert "area-" + "North" + "-" + "Zone" == "area-North-Zone";
    assert SectionId("North" + " " + "Zone") == "area-" + "North" + "-" + "Zone" by {
      NorthZoneWords();
      TwoWordId("North", " ", "Zone");
    }
  }

  /** Distinct areas can share an id: "North Zone" and "North  Zone" both give
      "area-North-Zone", and the second one's menu item scrolls to the first
      one's section. */
  lemma SlugCollision()
    ensures SectionId("North  Zone") == SectionId("North Zone")
    ensures var gs := [Group("North Zone", []), Group("North  Zone", [])];
            FindById(RenderDirectory(gs), SectionId(AreaMenu(gs)[1].area)) == Some(0)
  {
    var gs := [Group("North Zone", []), Group("North  Zone", [])];
    assert "North  Zone" == "North" + "  " + "Zone";
    assert "area-" + "North" + "-" + "Zone" == "area-North-Zone";
    assert SectionId("North" + "  " + "Zone") == "area-" + "North" + "-" + "Zone" by {
      NorthZoneWords();
      TwoWordId("North", "  ", "Zone");
    }
    assert SectionId("North Zone") == "area-North-Zone" by {
      NorthZoneId();
    }
    assert RenderDirectory(gs)[0].id == SectionId(AreaMenu(gs)[1].area);
  }
}
