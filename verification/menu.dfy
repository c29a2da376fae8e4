/** The per-display submenu the tray builds in `buildMenu`: the current-resolution caption, the
    "Most Used" and "Available" radio sections, and the save and restore items. */
module TrayMenu {
  import opened Wrappers
  import opened Seqs
  import opened Text
  import opened PlacerLines
  import opened PlacerParser
  import opened ResolutionUsage
  import opened Preferences

  const UnknownResolution := "Unknown"

  /** `display.currentResolution || 'Unknown'` */
  function CurrentLabel(d: Display): string {
    match d.currentResolution
    case Some(res) => if res != "" then res else UnknownResolution
    case None => UnknownResolution
  }

  datatype MenuItem =
    | Caption(text: string)                         // a disabled label
    | Separator
    | Radio(resolution: string, checked: bool)      // applies `resolution` when clicked
    | SaveCurrent(resolution: string)               // "Save Current as Preferred"
    | RestorePreferred(resolution: string)          // "Restore Preferred (…)"

  /** `createResolutionItem(resolution)` */
  function ResolutionItem(d: Display, res: string): MenuItem {
    Radio(res, res == CurrentLabel(d))
  }

  function ResolutionItems(d: Display, list: seq<string>): (items: seq<MenuItem>)
    ensures |items| == |list|
    ensures forall i :: 0 <= i < |list| ==> items[i] == ResolutionItem(d, list[i])
  {
    seq(|list|, i requires 0 <= i < |list| => ResolutionItem(d, list[i]))
  }

  /** The most-used resolutions the display still supports, in most-used order. */
  function MostUsedSection(d: Display, mostUsed: seq<string>): seq<string> {
    Filter(mostUsed, res => res in d.resolutions)
  }

  /** The display's other resolutions, in the order the listing gave them. */
  function AvailableSection(d: Display, mostUsed: seq<string>): seq<string> {
    Filter(d.resolutions, res => res !in mostUsed)
  }

  /** A section: its caption, its items and a separator, or nothing when it has no items. */
  function Section(title: string, items: seq<MenuItem>): seq<MenuItem> {
    if |items| > 0 then [Caption(title)] + items + [Separator] else []
  }

  /** The submenu of one display, given the store it reads. */
  function DisplaySubmenu(d: Display, p: Prefs): seq<MenuItem> {
    SubmenuOf(d, GetMostUsedResolutions(p.resolutionUsageCount, d.persistentId, MostUsedLimit), RestoreTarget(p, d.persistentId))
  }

  /** The submenu for a given most-used list and restore target. */
  function SubmenuOf(d: Display, mostUsed: seq<string>, restore: Option<string>): seq<MenuItem> {
    SubmenuHead(d) + SubmenuSections(d, mostUsed) + SubmenuTail(d, restore)
  }

  function SubmenuHead(d: Display): seq<MenuItem> {
    [Caption("Current: " + CurrentLabel(d)), Separator]
  }

  function SubmenuSections(d: Display, mostUsed: seq<string>): seq<MenuItem> {
    Section("Most Used Resolutions", ResolutionItems(d, MostUsedSection(d, mostUsed)))
      + Section("Available Resolutions", ResolutionItems(d, AvailableSection(d, mostUsed)))
  }

  /** The save item, then the restore item when `savedResolution` is truthy. */
  function SubmenuTail(d: Display, restore: Option<string>): seq<MenuItem> {
    [SaveCurrent(CurrentLabel(d))] + match restore case Some(saved) => [RestorePreferred(saved)] case None => []
  }

  /** The resolutions of the radio items of a menu, in order. */
  function Radios(items: seq<MenuItem>): seq<string> {
    if |items| == 0 then []
    else (if items[0].Radio? then [items[0].resolution] else []) + Radios(items[1..])
  }

  // ----- Properties -----

  /** The two sections split the display's resolutions: the first holds those also on the
      most-used list, the second the rest, and together they hold each supported resolution
      exactly once. */
  lemma SectionsPartition(d: Display, mostUsed: seq<string>)
    requires NoDups(d.resolutions) && NoDups(mostUsed)
    ensures forall res :: res in MostUsedSection(d, mostUsed) <==> res in d.resolutions && res in mostUsed
    ensures forall res :: res in AvailableSection(d, mostUsed) <==> res in d.resolutions && res !in mostUsed
    ensures NoDups(MostUsedSection(d, mostUsed) + AvailableSection(d, mostUsed))
    ensures multiset(MostUsedSection(d, mostUsed) + AvailableSection(d, mostUsed)) == multiset(d.resolutions)
  {
    var first, second := MostUsedSection(d, mostUsed), AvailableSection(d, mostUsed);
    FilterNoDups(mostUsed, res => res in d.resolutions);
    FilterNoDups(d.resolutions, res => res !in mostUsed);
    NoDupsAppend(first, second);
    SameElementsSameMultiset(first + second, d.resolutions);
  }

  /** A resolution item is checked exactly when its resolution is the display's current one: a
      resolution string never equals the `Unknown` placeholder. */
  lemma CheckedIffCurrent(d: Display, res: string)
    requires IsResolutionText(res)
    ensures ResolutionItem(d, res).checked <==> d.currentResolution == Some(res)
  {
    ResolutionStartsWithDigit(res);
    assert !IsDigit(UnknownResolution[0]);
  }

  /** The radio items of the submenu are the two sections, one after the other. */
  lemma SubmenuRadios(d: Display, p: Prefs)
    ensures var mostUsed := GetMostUsedResolutions(p.resolutionUsageCount, d.persistentId, MostUsedLimit);
      Radios(DisplaySubmenu(d, p)) == MostUsedSection(d, mostUsed) + AvailableSection(d, mostUsed)
  {
    SubmenuOfRadios(d, GetMostUsedResolutions(p.resolutionUsageCount, d.persistentId, MostUsedLimit), RestoreTarget(p, d.persistentId));
  }

  lemma SubmenuOfRadios(d: Display, mostUsed: seq<string>, restore: Option<string>)
    ensures Radios(SubmenuOf(d, mostUsed, restore)) == MostUsedSection(d, mostUsed) + AvailableSection(d, mostUsed)
  {
    var head, sections, tail := SubmenuHead(d), SubmenuSections(d, mostUsed), SubmenuTail(d, restore);
    RadiosAppend(head + sections, tail);
    RadiosAppend(head, sections);
    var items1 := ResolutionItems(d, MostUsedSection(d, mostUsed));
    var items2 := ResolutionItems(d, AvailableSection(d, mostUsed));
    RadiosAppend(Section("Most Used Resolutions", items1), Section("Available Resolutions", items2));
    SectionRadios("Most Used Resolutions", d, MostUsedSection(d, mostUsed));
    SectionRadios("Available Resolutions", d, AvailableSection(d, mostUsed));
    NoRadios(head);
    NoRadios(tail);
  }

  lemma {:induction false} RadiosAppend(a: seq<MenuItem>, b: seq<MenuItem>)
    ensures Radios(a + b) == Radios(a) + Radios(b)
    decreases |a|
  {
    if |a| > 0 {
      assert (a + b)[1..] == a[1..] + b;
      RadiosAppend(a[1..], b);
    } else {
      assert a + b == b;
    }
  }

  lemma {:induction false} NoRadios(items: seq<MenuItem>)
    requires forall i :: 0 <= i < |items| ==> !items[i].Radio?
    ensures Radios(items) == []
    decreases |items|
  {
    if |items| > 0 {
      NoRadios(items[1..]);
    }
  }

  lemma {:induction false} ItemsRadios(d: Display, list: seq<string>)
    ensures Radios(ResolutionItems(d, list)) == list
    decreases |list|
  {
    if |list| > 0 {
      assert ResolutionItems(d, list)[1..] == ResolutionItems(d, list[1..]);
      ItemsRadios(d, list[1..]);
    }
  }

  lemma SectionRadios(title: string, d: Display, list: seq<string>)
    ensures Radios(Section(title, ResolutionItems(d, list))) == list
  {
    var items := ResolutionItems(d, list);
    ItemsRadios(d, list);
    if |items| > 0 {
      RadiosAppend([Caption(title)], items);
      RadiosAppend([Caption(title)] + items, [Separator]);
    }
  }

  /** With a duplicate-free resolution list, at most one radio item of the submenu is checked, and
      it is the one for the current resolution. */
  lemma AtMostOneChecked(d: Display, p: Prefs)
    requires NoDups(d.resolutions) && WellFormedPrefs(p)
    ensures var radios := Radios(DisplaySubmenu(d, p));
      forall i, j :: 0 <= i < |radios| && 0 <= j < |radios| && radios[i] == CurrentLabel(d) && radios[j] == CurrentLabel(d) ==> i == j
  {
    var mostUsed := GetMostUsedResolutions(p.resolutionUsageCount, d.persistentId, MostUsedLimit);
    MostUsedProperties(p.resolutionUsageCount, d.persistentId, MostUsedLimit);
    SectionsPartition(d, mostUsed);
    SubmenuRadios(d, p);
  }

  /** The submenu opens with the current resolution (or `Unknown`), offers to save exactly that,
      and offers a restore exactly when a non-empty resolution is saved for the display. */
  lemma SubmenuSaveRestore(d: Display, p: Prefs)
    ensures DisplaySubmenu(d, p)[0] == Caption("Current: " + CurrentLabel(d))
    ensures SaveCurrent(CurrentLabel(d)) in DisplaySubmenu(d, p)
    ensures forall res :: RestorePreferred(res) in DisplaySubmenu(d, p) <==> RestoreTarget(p, d.persistentId) == Some(res)
  {
    SubmenuOfSaveRestore(d, GetMostUsedResolutions(p.resolutionUsageCount, d.persistentId, MostUsedLimit), RestoreTarget(p, d.persistentId));
  }

  lemma SubmenuOfSaveRestore(d: Display, mostUsed: seq<string>, restore: Option<string>)
    ensures SubmenuOf(d, mostUsed, restore)[0] == Caption("Current: " + CurrentLabel(d))
    ensures SaveCurrent(CurrentLabel(d)) in SubmenuOf(d, mostUsed, restore)
    ensures forall res :: RestorePreferred(res) in SubmenuOf(d, mostUsed, restore) <==> restore == Some(res)
  {
    var body := SubmenuHead(d) + SubmenuSections(d, mostUsed);
    var tail := SubmenuTail(d, restore);
    SectionsHaveOnlyRadios(d, mostUsed);
    assert SubmenuOf(d, mostUsed, restore) == body + tail;
    assert SubmenuOf(d, mostUsed, restore)[|body|] == tail[0];
    forall res ensures RestorePreferred(res) in body + tail <==> RestorePreferred(res) in tail {
      assert RestorePreferred(res) !in body;
    }
  }

  /** Between the head and the tail there are only captions, separators and radio items. */
  lemma SectionsHaveOnlyRadios(d: Display, mostUsed: seq<string>)
    ensures forall it :: it in SubmenuHead(d) + SubmenuSections(d, mostUsed) ==> it.Caption? || it.Separator? || it.Radio?
  {
    var items1 := ResolutionItems(d, MostUsedSection(d, mostUsed));
    var items2 := ResolutionItems(d, AvailableSection(d, mostUsed));
    assert forall it :: it in items1 ==> it.Radio?;
    assert forall it :: it in items2 ==> it.Radio?;
  }
}
