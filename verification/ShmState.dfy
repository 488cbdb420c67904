/** The books of the shared-memory registry: which pages are in use, which entries own them, and
    how many mappings refer to an entry. */
module ShmState {
  /** An address of zero stands for a page that was never mapped, an entry without pages, or a
      free mapping slot, as NULL does in the source. */
  datatype Page = Page(addr: nat, node: nat, inUse: bool)
  datatype Entry = Entry(live: bool, refcount: nat, toRemove: bool, length: nat, pageIds: seq<nat>)
  datatype Mapping = Mapping(addr: nat, entryId: nat, length: nat, pageOffset: nat, numPages: nat)

  const CLEARED := Entry(false, 0, false, 0, [])
  const UNMAPPED := Mapping(0, 0, 0, 0, 0)
  const NOBODY := -1

  function Count(ms: seq<Mapping>, e: nat): nat {
    if ms == [] then 0
    else Count(ms[..|ms| - 1], e) + if Refers(ms[|ms| - 1], e) then 1 else 0
  }

  predicate Refers(m: Mapping, e: nat) {
    m.addr != 0 && m.entryId == e
  }

  lemma {:induction false} CountUpdate(ms: seq<Mapping>, i: nat, m: Mapping, e: nat)
    requires i < |ms|
    ensures Count(ms[i := m], e)
         == Count(ms, e) + (if Refers(m, e) then 1 else 0) - if Refers(ms[i], e) then 1 else 0
    decreases |ms|
  {
    var last := |ms| - 1;
    if i == last {
      assert ms[i := m][..last] == ms[..last];
    } else {
      assert ms[i := m][..last] == ms[..last][i := m];
      CountUpdate(ms[..last], i, m, e);
    }
  }

  lemma {:induction false} CountZeroIff(ms: seq<Mapping>, e: nat)
    ensures Count(ms, e) == 0 <==> forall i :: 0 <= i < |ms| ==> !Refers(ms[i], e)
  {
    if ms != [] {
      var front := ms[..|ms| - 1];
      CountZeroIff(front, e);
      assert forall i :: 0 <= i < |front| ==> front[i] == ms[i];
    }
  }

  // ---------------------------------------------------------------- the invariant

  ghost predicate Distinct(ids: seq<nat>) {
    forall j, l :: 0 <= j < l < |ids| ==> ids[j] != ids[l]
  }

  /** An entry owns its pages, each once; one without pages is all zero. */
  ghost predicate EntryOk(owner: seq<int>, e: int, en: Entry) {
    && (!en.live ==> en == CLEARED)
    && Distinct(en.pageIds)
    && forall j :: 0 <= j < |en.pageIds| ==> en.pageIds[j] < |owner| && owner[en.pageIds[j]] == e
  }

  /** A page is in use exactly when a live entry owns it. */
  ghost predicate PageOk(entries: seq<Entry>, p: nat, page: Page, o: int) {
    && (page.inUse <==> o != NOBODY)
    && (o != NOBODY ==> 0 <= o < |entries| && entries[o].live && p in entries[o].pageIds)
  }

  ghost predicate MappingOk(entries: seq<Entry>, m: Mapping) {
    if m.addr == 0 then m == UNMAPPED else m.entryId < |entries| && entries[m.entryId].live
  }

  ghost predicate RefcountsExact(entries: seq<Entry>, ms: seq<Mapping>) {
    forall e :: 0 <= e < |entries| ==> entries[e].refcount == Count(ms, e)
  }

  /** Everything but that a scheduled entry without mappings is gone. */
  ghost predicate Core(pages: seq<Page>, entries: seq<Entry>, ms: seq<Mapping>, owner: seq<int>) {
    && |owner| == |pages|
    && RefcountsExact(entries, ms)
    && (forall e :: 0 <= e < |entries| ==> EntryOk(owner, e, entries[e]))
    && (forall p {:trigger PageOk(entries, p, pages[p], owner[p])} ::
          0 <= p < |pages| ==> PageOk(entries, p, pages[p], owner[p]))
    && (forall i :: 0 <= i < |ms| ==> MappingOk(entries, ms[i]))
  }

  /** No entry waits for its removal without a mapping that holds it. */
  ghost predicate Settled(entries: seq<Entry>) {
    forall e :: 0 <= e < |entries| && entries[e].toRemove ==> entries[e].refcount > 0
  }

  ghost predicate Inv(pages: seq<Page>, entries: seq<Entry>, ms: seq<Mapping>, owner: seq<int>) {
    Core(pages, entries, ms, owner) && Settled(entries)
  }

  ghost predicate Owns(entries: seq<Entry>, e: int, p: nat) {
    0 <= e < |entries| && entries[e].live && p in entries[e].pageIds
  }

  /** What the invariant says of pages: none has two owners, and one is in use exactly when it has
      an owner. */
  lemma PagesAreOwnedOnce(pages: seq<Page>, entries: seq<Entry>, ms: seq<Mapping>, owner: seq<int>, p: nat)
    requires Core(pages, entries, ms, owner) && p < |pages|
    ensures pages[p].inUse <==> exists e :: Owns(entries, e, p)
    ensures forall e, f :: Owns(entries, e, p) && Owns(entries, f, p) ==> e == f
  {
    assert PageOk(entries, p, pages[p], owner[p]);
    if owner[p] != NOBODY {
      assert Owns(entries, owner[p], p);
    }
    forall e | Owns(entries, e, p)
      ensures owner[p] == e
    {
      assert EntryOk(owner, e, entries[e]);
    }
  }

  /** A mapped entry is there: it is not removed under its mappings. */
  lemma MappedEntryIsLive(pages: seq<Page>, entries: seq<Entry>, ms: seq<Mapping>, owner: seq<int>, e: nat)
    requires Core(pages, entries, ms, owner) && e < |entries|
    ensures !entries[e].live ==> forall i :: 0 <= i < |ms| ==> !Refers(ms[i], e)
  {
  }

  // ---------------------------------------------------------------- the steps

  /** The pages with the flag of some of them set or cleared. */
  function Marked(pages: seq<Page>, ids: seq<nat>, inUse: bool): (r: seq<Page>)
    ensures |r| == |pages|
    ensures forall p :: 0 <= p < |r| ==> r[p] == if p in ids then pages[p].(inUse := inUse) else pages[p]
  {
    seq(|pages|, p requires 0 <= p < |pages| => if p in ids then pages[p].(inUse := inUse) else pages[p])
  }

  ghost function Handed(owner: seq<int>, ids: seq<nat>, e: int): (r: seq<int>)
    ensures |r| == |owner|
    ensures forall p :: 0 <= p < |r| ==> r[p] == if p in ids then e else owner[p]
  {
    seq(|owner|, p requires 0 <= p < |owner| => if p in ids then e else owner[p])
  }

  /** A new entry on free pages. */
  lemma AllocKeeps(pages: seq<Page>, entries: seq<Entry>, ms: seq<Mapping>, owner: seq<int>, e: nat,
                   ids: seq<nat>, length: nat)
    requires Inv(pages, entries, ms, owner) && e < |entries| && !entries[e].live
    requires Distinct(ids) && forall j :: 0 <= j < |ids| ==> ids[j] < |pages| && !pages[ids[j]].inUse
    ensures Inv(Marked(pages, ids, true), entries[e := Entry(true, 0, false, length, ids)], ms, Handed(owner, ids, e))
  {
    var entries' := entries[e := Entry(true, 0, false, length, ids)];
    var pages', owner' := Marked(pages, ids, true), Handed(owner, ids, e);
    assert EntryOk(owner, e, entries[e]);
    forall p | p in ids
      ensures p < |owner| && owner[p] == NOBODY
    {
      assert PageOk(entries, p, pages[p], owner[p]);
    }
    forall x | 0 <= x < |entries'|
      ensures EntryOk(owner', x, entries'[x])
    {
      assert EntryOk(owner, x, entries[x]);
    }
    forall p | 0 <= p < |pages'|
      ensures PageOk(entries', p, pages'[p], owner'[p])
    {
      assert PageOk(entries, p, pages[p], owner[p]);
    }
    forall i | 0 <= i < |ms|
      ensures MappingOk(entries', ms[i])
    {
      assert MappingOk(entries, ms[i]);
    }
  }

  /** Giving back the pages of an entry that no mapping refers to. */
  lemma RemoveKeeps(pages: seq<Page>, entries: seq<Entry>, ms: seq<Mapping>, owner: seq<int>, e: nat)
    requires Core(pages, entries, ms, owner) && e < |entries| && entries[e].refcount == 0
    ensures Core(Marked(pages, entries[e].pageIds, false), entries[e := CLEARED], ms,
                 Handed(owner, entries[e].pageIds, NOBODY))
  {
    var ids := entries[e].pageIds;
    var entries' := entries[e := CLEARED];
    var pages', owner' := Marked(pages, ids, false), Handed(owner, ids, NOBODY);
    assert EntryOk(owner, e, entries[e]);
    forall x | 0 <= x < |entries'|
      ensures EntryOk(owner', x, entries'[x])
    {
      assert EntryOk(owner, x, entries[x]);
    }
    forall p | 0 <= p < |pages'|
      ensures PageOk(entries', p, pages'[p], owner'[p])
    {
      assert PageOk(entries, p, pages[p], owner[p]);
    }
    CountZeroIff(ms, e);
    forall i | 0 <= i < |ms|
      ensures MappingOk(entries', ms[i])
    {
      assert MappingOk(entries, ms[i]) && !Refers(ms[i], e);
    }
  }

  /** Changing one mapping and the count of one entry. */
  lemma RecountKeeps(pages: seq<Page>, entries: seq<Entry>, ms: seq<Mapping>, owner: seq<int>, e: nat, i: nat,
                     en: Entry, m: Mapping)
    requires Core(pages, entries, ms, owner) && e < |entries| && i < |ms| && entries[e].live
    requires en == entries[e].(refcount := en.refcount, toRemove := en.toRemove)
    requires m == UNMAPPED || (m.addr != 0 && m.entryId == e)
    requires Refers(ms[i], e) || ms[i] == UNMAPPED
    requires en.refcount - entries[e].refcount == (if m == UNMAPPED then 0 else 1) - if ms[i] == UNMAPPED then 0 else 1
    ensures Core(pages, entries[e := en], ms[i := m], owner)
  {
    var entries', ms' := entries[e := en], ms[i := m];
    forall x | 0 <= x < |entries'|
      ensures EntryOk(owner, x, entries'[x]) && entries'[x].refcount == Count(ms', x)
    {
      assert EntryOk(owner, x, entries[x]);
      CountUpdate(ms, i, m, x);
    }
    forall p | 0 <= p < |pages|
      ensures PageOk(entries', p, pages[p], owner[p])
    {
      assert PageOk(entries, p, pages[p], owner[p]);
    }
    forall k | 0 <= k < |ms'|
      ensures MappingOk(entries', ms'[k])
    {
      assert MappingOk(entries, ms[k]);
    }
  }
}
