/** The operations of the shared-memory registry on its three tables.  The lock of the source
    makes each of them one step. */
module ShmRegistry {
  import opened Arith
  import opened Options
  import opened ShmState

  const TWO_64 := 0x1_0000_0000_0000_0000

  function PagesFor(length: nat, pageSize: nat): nat
    requires 0 < pageSize
  {
    (length + (pageSize - 1)) % TWO_64 / pageSize
  }

  predicate Usable(page: Page, node: nat) {
    page.addr != 0 && !page.inUse && page.node == node
  }

  function UsableBelow(pages: seq<Page>, node: nat, n: nat): nat
    requires n <= |pages|
  {
    if n == 0 then 0 else UsableBelow(pages, node, n - 1) + if Usable(pages[n - 1], node) then 1 else 0
  }

  lemma {:induction false} UsableGrows(pages: seq<Page>, node: nat, n: nat, m: nat)
    requires n <= m <= |pages|
    ensures UsableBelow(pages, node, n) <= UsableBelow(pages, node, m)
    decreases m
  {
    if n < m {
      UsableGrows(pages, node, n, m - 1);
    }
  }

  class Registry {
    const pageSize: nat
    const pages: array<Page>
    const entries: array<Entry>
    const mappings: array<Mapping>
    ghost var owner: seq<int>

    ghost predicate Valid()
      reads this, pages, entries, mappings
    {
      0 < pageSize && Inv(pages[..], entries[..], mappings[..], owner)
    }

    ghost predicate Exact()
      reads entries, mappings
    {
      RefcountsExact(entries[..], mappings[..])
    }

    /** The zeroed tables, with the pages that were set up. */
    constructor (pageSize: nat, pageInfo: seq<Page>, maxEntries: nat, maxMappings: nat)
      requires 0 < pageSize && forall p :: 0 <= p < |pageInfo| ==> !pageInfo[p].inUse
      ensures Valid() && this.pageSize == pageSize && pages[..] == pageInfo
      ensures fresh(pages) && fresh(entries) && fresh(mappings)
      ensures entries.Length == maxEntries && mappings.Length == maxMappings
    {
      this.pageSize := pageSize;
      pages := new Page[|pageInfo|](i requires 0 <= i < |pageInfo| => pageInfo[i]);
      entries := new Entry[maxEntries](_ => CLEARED);
      mappings := new Mapping[maxMappings](_ => UNMAPPED);
      owner := seq(|pageInfo|, _ => NOBODY);
      new;
      forall e | 0 <= e < maxEntries
        ensures entries[..][e].refcount == Count(mappings[..], e)
      {
        CountZeroIff(mappings[..], e);
      }
    }

    method FindFreeEntry() returns (e: nat)
      ensures e <= entries.Length
      ensures forall x :: 0 <= x < e ==> entries[x].live
      ensures e < entries.Length ==> !entries[e].live
    {
      e := 0;
      while e < entries.Length && entries[e].live
        invariant e <= entries.Length && forall x :: 0 <= x < e ==> entries[x].live
      {
        e := e + 1;
      }
    }

    /** The first pages of a node that are set up and free, up to as many as wanted. */
    method PickPages(node: nat, wanted: nat) returns (ids: seq<nat>)
      ensures Distinct(ids) && |ids| <= wanted
      ensures forall j :: 0 <= j < |ids| ==> ids[j] < pages.Length && Usable(pages[ids[j]], node)
      ensures |ids| == wanted <==> UsableBelow(pages[..], node, pages.Length) >= wanted
    {
      ids := [];
      var p := 0;
      while p < pages.Length && |ids| != wanted
        invariant p <= pages.Length && |ids| <= wanted
        invariant |ids| == UsableBelow(pages[..], node, p)
        invariant Distinct(ids)
        invariant forall j :: 0 <= j < |ids| ==> ids[j] < p && Usable(pages[ids[j]], node)
      {
        if Usable(pages[p], node) {
          ids := ids + [p];
        }
        p := p + 1;
      }
      UsableGrows(pages[..], node, p, pages.Length);
    }

    method SetInUse(ids: seq<nat>, inUse: bool)
      requires forall j :: 0 <= j < |ids| ==> ids[j] < pages.Length
      modifies pages
      ensures pages[..] == Marked(old(pages[..]), ids, inUse)
    {
      var i := 0;
      while i < |ids|
        invariant i <= |ids| && pages[..] == Marked(old(pages[..]), ids[..i], inUse)
      {
        pages[ids[i]] := pages[ids[i]].(inUse := inUse);
        MarkOneMore(old(pages[..]), ids, i, inUse);
        i := i + 1;
      }
      assert ids[..i] == ids;
    }

    /** Write the entry and take its pages. */
    method TakePages(e: nat, length: nat, ids: seq<nat>)
      requires Valid() && e < entries.Length && !entries[e].live
      requires Distinct(ids) && forall j :: 0 <= j < |ids| ==> ids[j] < pages.Length && !pages[ids[j]].inUse
      modifies this, pages, entries
      ensures Valid()
      ensures entries[..] == old(entries[..])[e := Entry(true, 0, false, length, ids)]
      ensures pages[..] == Marked(old(pages[..]), ids, true)
    {
      AllocKeeps(pages[..], entries[..], mappings[..], owner, e, ids, length);
      assert EntryOk(owner, e, entries[..][e]);
      entries[e] := entries[e].(live := true, length := length, pageIds := ids);
      SetInUse(ids, true);
      owner := Handed(owner, ids, e);
    }

    /** A new entry on free pages of the node, unless there is no free entry or too few pages. */
    method Alloc(length: nat, node: nat) returns (r: Option<nat>, ghost ids: seq<nat>)
      requires Valid()
      modifies this, pages, entries
      ensures Valid()
      ensures r.None? <==>
                || (forall e :: 0 <= e < entries.Length ==> old(entries[e].live))
                || old(UsableBelow(pages[..], node, pages.Length)) < PagesFor(length, pageSize)
      ensures r.None? ==> pages[..] == old(pages[..]) && entries[..] == old(entries[..])
      ensures r.Some? ==>
                && r.value < entries.Length && !old(entries[r.value].live)
                && entries[..] == old(entries[..])[r.value := Entry(true, 0, false, length, ids)]
                && pages[..] == Marked(old(pages[..]), ids, true)
                && |ids| == PagesFor(length, pageSize)
                && forall j :: 0 <= j < |ids| ==> ids[j] < pages.Length && Usable(old(pages[..])[ids[j]], node)
    {
      ids := [];
      var e := FindFreeEntry();
      if e == entries.Length {
        return None, [];
      }
      var numPages := PagesFor(length, pageSize);
      var picked := PickPages(node, numPages);
      if |picked| != numPages {
        return None, [];
      }
      TakePages(e, length, picked);
      return Some(e), picked;
    }

    /** Remove an entry that is scheduled for it and that nothing maps. */
    method CheckRemove(e: nat)
      requires e < entries.Length && |owner| == pages.Length
      requires forall j :: 0 <= j < |entries[e].pageIds| ==> entries[e].pageIds[j] < pages.Length
      modifies this, pages, entries
      ensures var en := old(entries[e]);
              if en.refcount == 0 && en.toRemove
              then && pages[..] == Marked(old(pages[..]), en.pageIds, false)
                   && entries[..] == old(entries[..])[e := CLEARED]
                   && owner == Handed(old(owner), en.pageIds, NOBODY)
              else pages[..] == old(pages[..]) && entries[..] == old(entries[..]) && owner == old(owner)
    {
      if entries[e].refcount == 0 && entries[e].toRemove {
        SetInUse(entries[e].pageIds, false);
        owner := Handed(owner, entries[e].pageIds, NOBODY);
        entries[e] := CLEARED;
      }
    }

    /** Mark an entry for removal, and remove it at once if nothing maps it. */
    method ScheduleRemove(e: nat) returns (ok: bool)
      requires Valid() && e < entries.Length
      modifies this, pages, entries
      ensures Valid() && ok == old(entries[e].live)
      ensures !ok ==> entries[..] == old(entries[..])
      ensures ok && old(entries[e].refcount) > 0 ==>
                entries[..] == old(entries[..])[e := old(entries[e]).(toRemove := true)]
      ensures ok && old(entries[e].refcount) == 0 ==> entries[..] == old(entries[..])[e := CLEARED]
    {
      if !entries[e].live {
        return false;
      }
      ghost var was, en := entries[..], entries[e].(toRemove := true);
      ScheduleKeeps(pages[..], entries[..], mappings[..], owner, e);
      entries[e] := entries[e].(toRemove := true);
      assert entries[..] == was[e := en];
      CheckRemove(e);
      assert was[e := en][e := CLEARED] == was[e := CLEARED];
      return true;
    }

    /** The first mapping slot with an address; an address of 0 finds a free slot. */
    method FindMapping(addr: nat) returns (i: nat)
      ensures i <= mappings.Length
      ensures forall k :: 0 <= k < i ==> mappings[k].addr != addr
      ensures i < mappings.Length ==> mappings[i].addr == addr
    {
      i := 0;
      while i < mappings.Length && mappings[i].addr != addr
        invariant i <= mappings.Length && forall k :: 0 <= k < i ==> mappings[k].addr != addr
      {
        i := i + 1;
      }
    }

    /** The requests that may be mapped, given a free slot and pages that can be mapped. */
    predicate Mappable(e: nat, ptr: nat, offset: nat, length: nat)
      requires e < entries.Length && 0 < pageSize
      reads entries
    {
      && ptr % pageSize == 0 && offset % pageSize == 0
      && entries[e].live && SeemsInside(offset, length, entries[e].length)
    }

    /** The record of a mapping: a part of an entry in whole pages. */
    function Mapped(e: nat, ptr: nat, offset: nat, length: nat): Mapping
      requires 0 < pageSize
    {
      Mapping(ptr, e, length, offset / pageSize, PagesFor(length, pageSize))
    }

    /** Map part of an entry.  The counts stay exact unless a null address was mapped. */
    method Map(e: nat, ptr: nat, offset: nat, length: nat, mmapOk: bool) returns (ok: bool)
      requires Valid() && e < entries.Length
      modifies entries, mappings
      ensures ok == (old(Mappable(e, ptr, offset, length)) && mmapOk &&
                     exists k :: 0 <= k < mappings.Length && old(mappings[k].addr) == 0)
      ensures !ok ==> entries[..] == old(entries[..]) && mappings[..] == old(mappings[..])
      ensures Exact() <==> !ok || ptr != 0
      ensures !ok || ptr != 0 ==> Valid()
      ensures ok ==>
                && entries[..] == old(entries[..])[e := old(entries[e]).(refcount := old(entries[e].refcount) + 1)]
                && exists i :: 0 <= i < mappings.Length && old(mappings[i].addr) == 0 &&
                               mappings[..] == old(mappings[..])[i := Mapped(e, ptr, offset, length)]
    {
      if !Mappable(e, ptr, offset, length) {
        return false;
      }
      var i := FindMapping(0);
      if i == mappings.Length || !mmapOk {
        return false;
      }
      MapKeeps(pages[..], entries[..], mappings[..], owner, i, Mapped(e, ptr, offset, length));
      entries[e] := entries[e].(refcount := entries[e].refcount + 1);
      mappings[i] := Mapped(e, ptr, offset, length);
      return true;
    }

    /** Remove the mapping at an address, and its entry with it if that was scheduled.  The counts
        stay exact unless a null address found a free slot. */
    method Unmap(ptr: nat) returns (ok: bool)
      requires Valid() && 0 < entries.Length && mappings.Length < TWO_64
      modifies this, pages, entries, mappings
      ensures ok == exists k :: 0 <= k < mappings.Length && old(mappings[k].addr) == ptr
      ensures !ok ==> entries[..] == old(entries[..]) && mappings[..] == old(mappings[..])
      ensures Exact() <==> !ok || ptr != 0
      ensures !ok || ptr != 0 ==> Valid()
      ensures ok ==>
                exists i :: 0 <= i < mappings.Length && old(mappings[i].addr) == ptr &&
                            old(mappings[i].entryId) < entries.Length &&
                            mappings[..] == old(mappings[..])[i := UNMAPPED] &&
                            entries[..] == Unreferenced(old(entries[..]), old(mappings[i].entryId))
    {
      var i := FindMapping(ptr);
      if i == mappings.Length {
        return false;
      }
      var e := mappings[i].entryId;
      assert MappingOk(entries[..], mappings[..][i]);
      if ptr != 0 {
        UnmapKeeps(pages[..], entries[..], mappings[..], owner, i);
      } else {
        UnmapNullBreaks(entries[..], mappings[..], i);
      }
      assert EntryOk(owner, e, entries[..][e]);
      ghost var was := entries[..];
      entries[e] := entries[e].(refcount := Decrement(entries[e].refcount));
      assert entries[..] == was[e := was[e].(refcount := Decrement(was[e].refcount))];
      CheckRemove(e);
      assert entries[..] == Unreferenced(was, e);
      mappings[i] := UNMAPPED;
      return true;
    }
  }

  lemma MapKeeps(pages: seq<Page>, entries: seq<Entry>, ms: seq<Mapping>, owner: seq<int>, i: nat, m: Mapping)
    requires Inv(pages, entries, ms, owner) && m.entryId < |entries| && entries[m.entryId].live
    requires i < |ms| && ms[i].addr == 0
    ensures var e := m.entryId;
            var entries' := entries[e := entries[e].(refcount := entries[e].refcount + 1)];
            && (m.addr != 0 ==> Inv(pages, entries', ms[i := m], owner))
            && (m.addr == 0 ==> !RefcountsExact(entries', ms[i := m]))
  {
    var e := m.entryId;
    var en := entries[e].(refcount := entries[e].refcount + 1);
    assert MappingOk(entries, ms[i]);
    if m.addr != 0 {
      RecountKeeps(pages, entries, ms, owner, e, i, en, m);
    } else {
      CountUpdate(ms, i, m, e);
      assert entries[e := en][e].refcount != Count(ms[i := m], e);
    }
  }

  /** The test on a part of an entry, with the sum in 64 bits. */
  predicate SeemsInside(offset: nat, length: nat, whole: nat) {
    offset <= whole && (offset + length) % TWO_64 <= whole
  }

  /** The pages that are recorded for a part are pages of the entry. */
  predicate PagesInside(offset: nat, length: nat, whole: nat, pageSize: nat)
    requires 0 < pageSize
  {
    offset / pageSize + PagesFor(length, pageSize) <= PagesFor(whole, pageSize)
  }

  /** Rounding a length up to pages leaves the 64-bit range, and then gives no page. */
  predicate TooLong(length: nat, pageSize: nat) {
    length + pageSize > TWO_64
  }

  /** A part that passes the test is made of pages of the entry exactly if its end did not wrap
      around, except where rounding up to pages wraps. */
  lemma {:induction false} PartInsideIff(offset: nat, length: nat, whole: nat, pageSize: nat)
    requires 0 < pageSize <= TWO_64 && offset % pageSize == 0 && length < TWO_64 && whole < TWO_64
    requires SeemsInside(offset, length, whole)
    ensures PagesInside(offset, length, whole, pageSize) <==>
              if TooLong(whole, pageSize) then offset == 0 && (length == 0 || TooLong(length, pageSize))
              else offset + length < TWO_64 || TooLong(length, pageSize)
  {
    PagesForCases(length, pageSize);
    PagesForCases(whole, pageSize);
    if TooLong(whole, pageSize) {
      FirstPage(offset, pageSize);
    } else if TooLong(length, pageSize) {
      Quotients(offset, whole + (pageSize - 1), pageSize);
    } else {
      SumWraps(offset, length, whole);
      RoundedUp(offset, length, whole, pageSize);
    }
  }

  lemma {:induction false} FirstPage(offset: nat, pageSize: nat)
    requires 0 < pageSize && offset % pageSize == 0
    ensures 0 <= offset / pageSize && (offset / pageSize == 0 <==> offset == 0)
  {
    var k := offset / pageSize;
    assert offset == pageSize * k;
    Quotients(0, offset, pageSize);
    DivModUnique(0, pageSize, 0, 0);
  }

  lemma SumWraps(offset: nat, length: nat, whole: nat)
    requires SeemsInside(offset, length, whole)
    ensures offset + length < TWO_64 ==> offset + length <= whole
  {
  }

  /** The case without wrapping in the rounding. */
  lemma {:induction false} RoundedUp(offset: nat, length: nat, whole: nat, pageSize: nat)
    requires 0 < pageSize && offset % pageSize == 0
    requires offset + length < TWO_64 ==> offset + length <= whole
    requires whole + pageSize <= TWO_64
    ensures offset / pageSize + (length + (pageSize - 1)) / pageSize <= (whole + (pageSize - 1)) / pageSize <==>
            offset + length < TWO_64
  {
    SumOfPages(offset, length + (pageSize - 1), pageSize);
    if offset + length < TWO_64 {
      Quotients(offset + (length + (pageSize - 1)), whole + (pageSize - 1), pageSize);
    } else {
      QuotientsDiffer(whole + (pageSize - 1), offset + (length + (pageSize - 1)), pageSize);
    }
  }

  lemma PagesForCases(length: nat, pageSize: nat)
    requires 0 < pageSize <= TWO_64 && length < TWO_64
    ensures TooLong(length, pageSize) ==> PagesFor(length, pageSize) == 0
    ensures !TooLong(length, pageSize) ==> PagesFor(length, pageSize) == (length + (pageSize - 1)) / pageSize
    ensures PagesFor(length, pageSize) == 0 <==> length == 0 || TooLong(length, pageSize)
  {
    if TooLong(length, pageSize) {
      DivModUnique(length + (pageSize - 1) - TWO_64, pageSize, 0, length + (pageSize - 1) - TWO_64);
    } else if length == 0 {
      DivModUnique(pageSize - 1, pageSize, 0, pageSize - 1);
    } else {
      Quotients(pageSize, length + (pageSize - 1), pageSize);
      DivModUnique(pageSize, pageSize, 1, 0);
    }
  }

  lemma {:induction false} QuotientsDiffer(a: nat, b: nat, n: nat)
    requires 0 < n && a + n <= b
    ensures a / n < b / n
  {
    AddMultiple(a, 1, n);
    Quotients(a + n, b, n);
  }

  /** A part of 2^64 - 2 MiB bytes from 2 MiB on passes the test in an entry of 4 MiB. */
  lemma WrappedPartPasses()
    ensures var mib := 0x10_0000;
      && SeemsInside(2 * mib, TWO_64 - 2 * mib, 4 * mib)
      && !PagesInside(2 * mib, TWO_64 - 2 * mib, 4 * mib, 2 * mib)
  {
    PartInsideIff(0x20_0000, TWO_64 - 0x20_0000, 0x40_0000, 0x20_0000);
  }

  lemma {:induction false} SumOfPages(offset: nat, rest: nat, pageSize: nat)
    requires 0 < pageSize && offset % pageSize == 0
    ensures (offset + rest) / pageSize == offset / pageSize + rest / pageSize
  {
    var k := offset / pageSize;
    assert offset == pageSize * k;
    AddMultiple(rest, k, pageSize);
  }

  lemma Quotients(a: nat, b: nat, n: nat)
    requires 0 < n && a <= b
    ensures a / n <= b / n
  {
    MultipleLe(a / n, n, a);
    MultipleLe(a / n, n, b);
  }

  function Decrement(refcount: nat): nat {
    (refcount + TWO_64 - 1) % TWO_64
  }

  lemma {:induction false} CountAtMost(ms: seq<Mapping>, e: nat)
    ensures Count(ms, e) <= |ms|
  {
    if ms != [] {
      CountAtMost(ms[..|ms| - 1], e);
    }
  }

  /** What unmapping leaves of the entries, before the slot is cleared. */
  function Unreferenced(entries: seq<Entry>, e: nat): seq<Entry>
    requires e < |entries|
  {
    var en := entries[e].(refcount := Decrement(entries[e].refcount));
    entries[e := if en.refcount == 0 && en.toRemove then CLEARED else en]
  }

  lemma UnmapKeeps(pages: seq<Page>, entries: seq<Entry>, ms: seq<Mapping>, owner: seq<int>, i: nat)
    requires Inv(pages, entries, ms, owner) && i < |ms| < TWO_64 && ms[i].addr != 0
    ensures var e := ms[i].entryId;
            && e < |entries|
            && var en := entries[e].(refcount := Decrement(entries[e].refcount));
               if en.refcount == 0 && en.toRemove
               then Inv(Marked(pages, en.pageIds, false), Unreferenced(entries, e), ms[i := UNMAPPED],
                        Handed(owner, en.pageIds, NOBODY))
               else Inv(pages, Unreferenced(entries, e), ms[i := UNMAPPED], owner)
  {
    assert MappingOk(entries, ms[i]);
    var e := ms[i].entryId;
    CountUpdate(ms, i, UNMAPPED, e);
    CountAtMost(ms, e);
    var en := entries[e].(refcount := entries[e].refcount - 1);
    assert Decrement(entries[e].refcount) == en.refcount;
    RecountKeeps(pages, entries, ms, owner, e, i, en, UNMAPPED);
    if en.refcount == 0 && en.toRemove {
      RemoveKeeps(pages, entries[e := en], ms[i := UNMAPPED], owner, e);
      assert entries[e := en][e := CLEARED] == entries[e := CLEARED];
    }
  }

  /** Unmapping a null address takes a reference from entry 0 that no mapping held. */
  lemma UnmapNullBreaks(entries: seq<Entry>, ms: seq<Mapping>, i: nat)
    requires RefcountsExact(entries, ms) && 0 < |entries| && i < |ms| < TWO_64 && ms[i] == UNMAPPED
    ensures !RefcountsExact(Unreferenced(entries, 0), ms[i := UNMAPPED])
  {
    CountAtMost(ms, 0);
    assert ms[i := UNMAPPED] == ms;
    assert Unreferenced(entries, 0)[0].refcount != Count(ms, 0);
  }

  /** The two outcomes of scheduling a removal. */
  lemma ScheduleKeeps(pages: seq<Page>, entries: seq<Entry>, ms: seq<Mapping>, owner: seq<int>, e: nat)
    requires Inv(pages, entries, ms, owner) && e < |entries| && entries[e].live
    ensures forall j :: 0 <= j < |entries[e].pageIds| ==> entries[e].pageIds[j] < |pages|
    ensures Core(pages, entries[e := entries[e].(toRemove := true)], ms, owner)
    ensures entries[e].refcount > 0 ==> Inv(pages, entries[e := entries[e].(toRemove := true)], ms, owner)
    ensures entries[e].refcount == 0 ==>
              Inv(Marked(pages, entries[e].pageIds, false), entries[e := CLEARED], ms,
                  Handed(owner, entries[e].pageIds, NOBODY))
  {
    var entries' := entries[e := entries[e].(toRemove := true)];
    assert EntryOk(owner, e, entries[e]);
    forall x | 0 <= x < |entries'|
      ensures EntryOk(owner, x, entries'[x])
    {
      assert EntryOk(owner, x, entries[x]);
    }
    forall p | 0 <= p < |pages|
      ensures PageOk(entries', p, pages[p], owner[p])
    {
      assert PageOk(entries, p, pages[p], owner[p]);
    }
    forall k | 0 <= k < |ms|
      ensures MappingOk(entries', ms[k])
    {
      assert MappingOk(entries, ms[k]);
    }
    if entries[e].refcount == 0 {
      RemoveKeeps(pages, entries, ms, owner, e);
    }
  }

  lemma MarkOneMore(pages: seq<Page>, ids: seq<nat>, i: nat, inUse: bool)
    requires i < |ids| && ids[i] < |pages|
    ensures Marked(pages, ids[..i + 1], inUse)
         == Marked(pages, ids[..i], inUse)[ids[i] := pages[ids[i]].(inUse := inUse)]
  {
  }
}
