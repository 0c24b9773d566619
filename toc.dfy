/** The desktop table of contents (components/Toc.tsx): a scroll spy that
    keeps the active heading and writes it to the URL hash. Browser events
    arrive as method calls carrying the numbers the handlers read; the
    observer's root margin and the layout that produces those numbers are
    not modelled. */
module Toc {
  import opened Text
  import opened Docs

  /** One intersection-observer entry: the observed heading's id, whether it
      intersects the root, and the top of its bounding box. */
  datatype ObserverEntry = ObserverEntry(id: string, isIntersecting: bool, top: int)

  /** The entry the observer callback picks: among the intersecting entries,
      the one with the smallest top, and of several with that top the
      earliest, as a stable sort by top puts first. */
  function Topmost(entries: seq<ObserverEntry>): (r: Option<nat>)
    ensures r.None? <==> forall i :: 0 <= i < |entries| ==> !entries[i].isIntersecting
    ensures r.Some? ==>
              && r.value < |entries| && entries[r.value].isIntersecting
              && (forall i :: 0 <= i < |entries| && entries[i].isIntersecting ==> entries[r.value].top <= entries[i].top)
              && (forall i :: 0 <= i < r.value && entries[i].isIntersecting ==> entries[r.value].top < entries[i].top)
  {
    if |entries| == 0 then None
    else
      var n := |entries| - 1;
      var r := Topmost(entries[..n]);
      assert forall i :: 0 <= i < n ==> entries[..n][i] == entries[i];
      if !entries[n].isIntersecting then r
      else if r.None? || entries[n].top < entries[r.value].top then Some(n)
      else r
  }

  /** The hash after the hash-sync effect: `#` and the active id, unless the
      active id is empty or the hash already says so. */
  function SyncedHash(activeId: string, hash: string): (h: string)
    ensures activeId != "" ==> h == "#" + activeId
    ensures activeId == "" ==> h == hash
  {
    if activeId != "" && hash != "#" + activeId then "#" + activeId else hash
  }

  /** Running the hash sync again changes nothing. */
  lemma SyncedHashIdempotent(activeId: string, hash: string)
    ensures SyncedHash(activeId, SyncedHash(activeId, hash)) == SyncedHash(activeId, hash)
  {
  }

  /** How near the bottom of the page counts as the bottom, in pixels. */
  const BottomMargin: int := 100

  /** The page is scrolled to within 100 pixels of its bottom: at most that
      much of it lies below the viewport. */
  function AtBottom(innerHeight: int, scrollY: int, scrollHeight: int): (b: bool)
    ensures b <==> scrollHeight - (scrollY + innerHeight) <= BottomMargin
  {
    innerHeight + scrollY >= scrollHeight - 100
  }

  /** The indentation class of an entry: none for level 2, `pl-3` for level 3, `pl-6` otherwise. */
  function Indent(level: int): (c: string)
    ensures level == 2 ==> c == ""
    ensures level == 3 ==> c == "pl-3"
    ensures level != 2 && level != 3 ==> c == "pl-6"
  {
    if level == 2 then "" else if level == 3 then "pl-3" else "pl-6"
  }

  /** A mounted `Toc`: its items, the active id and the location hash. */
  class TocSpy {
    const items: seq<TocItem>
    var activeId: string
    var hash: string
    /** Whether the mount effect installed the scroll listener and the observer. */
    const listening: bool

    /** Mounting: no active id; the mount effect returns early without items,
        so the listeners are installed exactly when there are items; the hash
        sync that runs on mount sees an empty id and does nothing. */
    constructor(items: seq<TocItem>, hash: string)
      ensures this.items == items && activeId == "" && this.hash == hash
      ensures listening <==> |items| > 0
    {
      this.items := items;
      activeId := "";
      this.hash := hash;
      listening := |items| != 0;
    }

    /** `setActiveId`, followed by the hash-sync effect when the value changed. */
    method SetActiveId(id: string)
      modifies this
      ensures activeId == id
      ensures hash == if id != old(activeId) then SyncedHash(id, old(hash)) else old(hash)
      ensures id != old(activeId) ==> HashInSync()
    {
      if id != activeId {
        activeId := id;
        hash := SyncedHash(activeId, hash);
      }
    }

    /** `handleScroll`: at the bottom of the page, with at least one item, the
        last item becomes active; otherwise nothing happens. */
    method OnScroll(innerHeight: int, scrollY: int, scrollHeight: int)
      modifies this
      ensures listening && AtBottom(innerHeight, scrollY, scrollHeight) && |items| > 0 ==>
                activeId == items[|items| - 1].id
                && hash == if activeId != old(activeId) then SyncedHash(activeId, old(hash)) else old(hash)
      ensures !(listening && AtBottom(innerHeight, scrollY, scrollHeight) && |items| > 0) ==>
                activeId == old(activeId) && hash == old(hash)
    {
      if listening && AtBottom(innerHeight, scrollY, scrollHeight) && |items| > 0 {
        SetActiveId(items[|items| - 1].id);
      }
    }

    /** The observer callback: the topmost intersecting entry becomes active;
        a batch without an intersecting entry changes nothing. */
    method OnIntersect(entries: seq<ObserverEntry>)
      modifies this
      ensures listening && Topmost(entries).Some? ==>
                activeId == entries[Topmost(entries).value].id
                && hash == if activeId != old(activeId) then SyncedHash(activeId, old(hash)) else old(hash)
      ensures !(listening && Topmost(entries).Some?) ==>
                activeId == old(activeId) && hash == old(hash)
    {
      if listening {
        match Topmost(entries)
        case None =>
        case Some(k) => SetActiveId(entries[k].id);
      }
    }

    /** `handleClick`: when the heading's element exists it becomes active at
        once; otherwise nothing changes. */
    method OnClick(id: string, elementExists: bool)
      modifies this
      ensures elementExists ==>
                activeId == id && hash == if id != old(activeId) then SyncedHash(id, old(hash)) else old(hash)
      ensures !elementExists ==> activeId == old(activeId) && hash == old(hash)
    {
      if elementExists {
        SetActiveId(id);
      }
    }

    /** The hash names the active id, when there is one. */
    predicate HashInSync()
      reads this
    {
      activeId != "" ==> hash == "#" + activeId
    }
  }

  /** A topmost entry wins over every other intersecting entry: either it is
      strictly higher, or it is as high and comes first. */
  lemma TopmostBeatsOthers(entries: seq<ObserverEntry>, i: nat)
    requires i < |entries| && entries[i].isIntersecting
    ensures Topmost(entries).Some?
    ensures var k := Topmost(entries).value;
            k == i || entries[k].top < entries[i].top || (entries[k].top == entries[i].top && k < i)
  {
  }

  /** Only the intersecting entries matter: dropping a non-intersecting entry
      at the end does not change the choice. */
  lemma TopmostIgnoresHidden(entries: seq<ObserverEntry>, hidden: ObserverEntry)
    requires !hidden.isIntersecting
    ensures Topmost(entries + [hidden]) == Topmost(entries)
  {
    assert (entries + [hidden])[..|entries|] == entries;
  }

  /** With a single intersecting entry, that entry is chosen. */
  lemma TopmostSingle(entries: seq<ObserverEntry>, i: nat)
    requires i < |entries| && entries[i].isIntersecting
    requires forall j :: 0 <= j < |entries| && j != i ==> !entries[j].isIntersecting
    ensures Topmost(entries) == Some(i)
  {
  }
}
