/** The page's navigable sections, the tracker that records which one is in
    the middle band of the viewport, and the navbar's presentation
    predicates. Intersection geometry is the browser's: each observer
    notification is a batch of entries, each naming an observed element and
    whether it intersects the band. */
module Sections {
  import opened Wrappers

  datatype Section = Section(id: string, caption: string)

  /** The six sections, in page order. */
  const AllSections: seq<Section> := [
    Section("hero", "Home"),
    Section("about", "Chi Sono"),
    Section("skills", "Competenze"),
    Section("experience", "Esperienza"),
    Section("projects", "Progetti"),
    Section("contact", "Contatti")
  ]

  const InitialSection := "hero"

  /** Scroll offset past which the navbar takes its scrolled look. */
  const ScrolledThreshold: real := 50.0

  /** The id is one of the section ids. */
  predicate IsSectionId(id: string) {
    exists i :: 0 <= i < |AllSections| && AllSections[i].id == id
  }

  /** No two sections share an id. */
  lemma SectionIdsDistinct()
    ensures forall i, j :: 0 <= i < j < |AllSections| ==> AllSections[i].id != AllSections[j].id
  {
  }

  /** One IntersectionObserver entry: the observed element's id and whether it intersects. */
  datatype ObserverEntry = ObserverEntry(targetId: string, isIntersecting: bool)

  /** The active section after one notification batch: the id of the last
      intersecting entry, or `current` when none intersects. */
  function AfterBatch(current: string, entries: seq<ObserverEntry>): (r: string)
    ensures r == current || exists i :: 0 <= i < |entries| && entries[i].isIntersecting && entries[i].targetId == r
    decreases |entries|
  {
    if entries == [] then current
    else
      var last := entries[|entries| - 1];
      if last.isIntersecting then last.targetId else AfterBatch(current, entries[..|entries| - 1])
  }

  /** The last intersecting entry of a batch wins. */
  lemma {:induction false} LastIntersectingWins(current: string, entries: seq<ObserverEntry>, i: int)
    requires 0 <= i < |entries| && entries[i].isIntersecting
    requires forall j :: i < j < |entries| ==> !entries[j].isIntersecting
    ensures AfterBatch(current, entries) == entries[i].targetId
    decreases |entries|
  {
    if i < |entries| - 1 {
      LastIntersectingWins(current, entries[..|entries| - 1], i);
    }
  }

  /** A batch in which nothing intersects leaves the active section alone. */
  lemma {:induction false} NoIntersectionKeeps(current: string, entries: seq<ObserverEntry>)
    requires forall j :: 0 <= j < |entries| ==> !entries[j].isIntersecting
    ensures AfterBatch(current, entries) == current
    decreases |entries|
  {
    if entries != [] {
      NoIntersectionKeeps(current, entries[..|entries| - 1]);
    }
  }

  /** Every entry concerns one of the observed section elements. */
  predicate OnlySections(entries: seq<ObserverEntry>) {
    forall j :: 0 <= j < |entries| ==> IsSectionId(entries[j].targetId)
  }

  /** The active section after a series of batches. */
  function AfterBatches(current: string, batches: seq<seq<ObserverEntry>>): string
    decreases |batches|
  {
    if batches == [] then current
    else AfterBatches(AfterBatch(current, batches[0]), batches[1..])
  }

  lemma {:induction false} AfterBatchStaysInSections(current: string, entries: seq<ObserverEntry>)
    requires IsSectionId(current) && OnlySections(entries)
    ensures IsSectionId(AfterBatch(current, entries))
    decreases |entries|
  {
    if entries != [] && !entries[|entries| - 1].isIntersecting {
      AfterBatchStaysInSections(current, entries[..|entries| - 1]);
    }
  }

  /** When only the section elements are observed, the active section is
      always one of the six ids, starting from "hero". */
  lemma {:induction false} ActiveAlwaysASection(batches: seq<seq<ObserverEntry>>)
    requires forall b :: 0 <= b < |batches| ==> OnlySections(batches[b])
    ensures IsSectionId(AfterBatches(InitialSection, batches))
  {
    assert AllSections[0].id == InitialSection;
    AfterBatchesStaysInSections(InitialSection, batches);
  }

  lemma {:induction false} AfterBatchesStaysInSections(current: string, batches: seq<seq<ObserverEntry>>)
    requires IsSectionId(current)
    requires forall b :: 0 <= b < |batches| ==> OnlySections(batches[b])
    ensures IsSectionId(AfterBatches(current, batches))
    decreases |batches|
  {
    if batches != [] {
      AfterBatchStaysInSections(current, batches[0]);
      AfterBatchesStaysInSections(AfterBatch(current, batches[0]), batches[1..]);
    }
  }

  /** `useActiveSection`'s state. */
  class ActiveSectionTracker {
    var active: string

    constructor ()
      ensures active == InitialSection
    {
      active := InitialSection;
    }

    /** The observer callback: walk the batch in order, overwriting the
        active id with every intersecting entry's id. */
    method OnEntries(entries: seq<ObserverEntry>)
      modifies this
      ensures active == AfterBatch(old(active), entries)
    {
      for i := 0 to |entries|
        invariant active == AfterBatch(old(active), entries[..i])
      {
        assert entries[..i + 1][..i] == entries[..i];
        if entries[i].isIntersecting {
          active := entries[i].targetId;
        }
      }
      assert entries[..|entries|] == entries;
    }
  }

  /** The navbar's scroll listener: the scrolled look applies strictly past 50 pixels. */
  predicate Scrolled(scrollY: real) {
    scrollY > ScrolledThreshold
  }

  /** The navbar's class. `lastScrollY` is the offset seen at the most
      recent scroll event, None before the first one: the `scrolled` state
      starts false and only a scroll event changes it. */
  function NavbarClass(lastScrollY: Option<real>): (c: string)
    ensures lastScrollY.None? ==> c == "navbar"
    ensures lastScrollY.Some? && Scrolled(lastScrollY.value) ==> c == "navbar navbar-scrolled"
    ensures lastScrollY.Some? && !Scrolled(lastScrollY.value) ==> c == "navbar"
  {
    var scrolled := match lastScrollY case None => false case Some(y) => Scrolled(y);
    "navbar" + (if scrolled then " navbar-scrolled" else "")
  }

  /** A link's class: "active" exactly for the active section's id. */
  function LinkClass(active: string, id: string): (c: string)
    ensures c == "active" <==> active == id
    ensures c != "active" ==> c == ""
  {
    if active == id then "active" else ""
  }

  /** How many of the given sections' links carry the "active" class. */
  function ActiveLinkCount(sections: seq<Section>, active: string): nat
    decreases |sections|
  {
    if sections == [] then 0
    else (if LinkClass(active, sections[0].id) == "active" then 1 else 0) + ActiveLinkCount(sections[1..], active)
  }

  lemma {:induction false} ActiveLinkCountOf(sections: seq<Section>, active: string)
    requires forall i, j :: 0 <= i < j < |sections| ==> sections[i].id != sections[j].id
    ensures ActiveLinkCount(sections, active) <= 1
    ensures ActiveLinkCount(sections, active) == 1 <==> exists i :: 0 <= i < |sections| && sections[i].id == active
    decreases |sections|
  {
    if sections != [] {
      var rest := sections[1..];
      ActiveLinkCountOf(rest, active);
      if sections[0].id == active {
        assert forall i :: 0 <= i < |rest| ==> rest[i].id != active by {
          forall i | 0 <= i < |rest| ensures rest[i].id != active {
            assert rest[i] == sections[i + 1];
          }
        }
      } else {
        if exists i :: 0 <= i < |sections| && sections[i].id == active {
          var i :| 0 <= i < |sections| && sections[i].id == active;
          assert rest[i - 1].id == active;
        }
        if exists i :: 0 <= i < |rest| && rest[i].id == active {
          var i :| 0 <= i < |rest| && rest[i].id == active;
          assert sections[i + 1].id == active;
        }
      }
    }
  }

  /** At most one navbar link is marked active, and exactly one when the
      active id is a section id. */
  lemma AtMostOneActiveLink(active: string)
    ensures ActiveLinkCount(AllSections, active) <= 1
    ensures ActiveLinkCount(AllSections, active) == 1 <==> IsSectionId(active)
  {
    SectionIdsDistinct();
    ActiveLinkCountOf(AllSections, active);
  }
}
