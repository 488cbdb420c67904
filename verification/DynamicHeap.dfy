/** The segregated-fit heap: boundary tags and free-list links live in the managed words,
    chunks are split on allocation and joined with free neighbours on release.

    The region is an array of 64-bit words at address `base`.  A pointer stored in a word
    is an address; a tag holds the chunk size in bytes and the status in bit 63. */
module DynamicHeap {
  import opened SizeClasses
  import opened HeapLayout

  const STATUS := 0x8000_0000_0000_0000

  function Tag(words: nat, occupied: bool): nat {
    8 * words + if occupied then STATUS else 0
  }

  function TagSize(w: nat): nat {
    w % STATUS
  }

  function Occupied(w: nat): bool {
    w / STATUS == 1
  }

  function Ptr(base: nat, i: int): int {
    if i == NIL then 0 else base + 8 * i
  }

  // ---------------------------------------------------------------- what the words mean

  ghost predicate TagOk(mem: seq<int>, L: Layout, s: int) {
    && s in L.size && 0 <= s && 4 <= L.size[s] && s + L.size[s] <= |mem|
    && mem[s] == Tag(L.size[s], s !in L.free)
    && mem[s + L.size[s] - 1] == mem[s]
  }

  ghost predicate LinkOk(base: nat, mem: seq<int>, L: Layout, s: int) {
    && s in L.prev && s in L.next && 0 <= s && s + 3 < |mem|
    && mem[s + 1] == Ptr(base, L.prev[s])
    && mem[s + 2] == Ptr(base, L.next[s])
  }

  /** The words encode the layout; the chunks in `open` are being rebuilt, their tags are
      not to be relied on. */
  ghost predicate Encodes(base: nat, mem: seq<int>, heads: seq<int>, L: Layout, open: set<int>) {
    && |heads| == |L.head|
    && (forall s {:trigger TagOk(mem, L, s)} :: s in L.size && s !in open ==> TagOk(mem, L, s))
    && (forall s {:trigger LinkOk(base, mem, L, s)} :: s in L.free ==> LinkOk(base, mem, L, s))
    && (forall c :: 0 <= c < |heads| ==> heads[c] == Ptr(base, L.head[c]))
  }

  /** The k words at s are the same before and after. */
  ghost predicate SameWords(m: seq<int>, m': seq<int>, s: int, k: nat) {
    && 0 <= s && s + k <= |m| == |m'|
    && m[s..s + k] == m'[s..s + k]
  }

  /** Every chunk of `live` holds the same words before and after. */
  ghost predicate WordsKept(live: map<int, nat>, m: seq<int>, m': seq<int>) {
    forall s {:trigger SameWords(m, m', s, live[s])} :: s in live ==> SameWords(m, m', s, live[s])
  }

  /** The words of a chunk that belong to its owner. */
  function Inside(m: seq<int>, s: int, k: nat): seq<int> {
    if 0 <= s && 2 <= k && s + k <= |m| then m[s + 1..s + k - 1] else []
  }

  function Payloads(live: map<int, nat>, m: seq<int>): map<int, seq<int>> {
    map s | s in live :: Inside(m, s, live[s])
  }

  lemma InsideKept(m: seq<int>, m': seq<int>, s: int, k: nat)
    requires SameWords(m, m', s, k)
    ensures Inside(m, s, k) == Inside(m', s, k)
  {
    if 2 <= k {
      var a, a' := m[s + 1..s + k - 1], m'[s + 1..s + k - 1];
      forall j | 0 <= j < |a|
        ensures a[j] == a'[j]
      {
        assert m[s..s + k][1 + j] == m'[s..s + k][1 + j];
      }
    }
  }

  lemma PayloadsKept(live: map<int, nat>, m: seq<int>, m': seq<int>)
    requires WordsKept(live, m, m')
    ensures Payloads(live, m) == Payloads(live, m')
  {
    forall s | s in live
      ensures Inside(m, s, live[s]) == Inside(m', s, live[s])
    {
      assert SameWords(m, m', s, live[s]);
      InsideKept(m, m', s, live[s]);
    }
  }

  lemma GetPayload(live: map<int, nat>, m: seq<int>, m': seq<int>, s: int, k: nat)
    requires WordsKept(live, m, m') && s !in live
    ensures Payloads(live[s := k], m') == Payloads(live, m)[s := Inside(m', s, k)]
  {
    PayloadsKept(live, m, m');
  }

  lemma StorePayload(live: map<int, nat>, m: seq<int>, s: int, i: nat, x: int)
    requires s in live && 0 <= s && i + 2 < live[s] && s + live[s] <= |m|
    requires WordsKept(live - {s}, m, m[s + 1 + i := x])
    ensures Payloads(live, m[s + 1 + i := x]) == Payloads(live, m)[s := Inside(m, s, live[s])[i := x]]
  {
    PayloadsKept(live - {s}, m, m[s + 1 + i := x]);
    assert forall t :: t in live && t != s ==> t in live - {s} && Payloads(live - {s}, m)[t] == Payloads(live, m)[t];
    forall t | t in live && t != s
      ensures Inside(m[s + 1 + i := x], t, live[t]) == Inside(m, t, live[t])
    {
      assert Payloads(live - {s}, m)[t] == Payloads(live - {s}, m[s + 1 + i := x])[t];
    }
    assert Inside(m[s + 1 + i := x], s, live[s]) == Inside(m, s, live[s])[i := x];
  }

  lemma WordsKeptTransitive(live: map<int, nat>, m: seq<int>, m1: seq<int>, m2: seq<int>)
    requires WordsKept(live, m, m1) && WordsKept(live, m1, m2)
    ensures WordsKept(live, m, m2)
  {
    forall s | s in live
      ensures SameWords(m, m2, s, live[s])
    {
      assert SameWords(m, m1, s, live[s]) && SameWords(m1, m2, s, live[s]);
    }
  }

  lemma KeptAsIs(L: Layout, m: seq<int>, s: int)
    requires Tiling(|m|, L.size, L.left)
    ensures WordsKept(Live(L) - {s}, m, m)
  {
    forall t | t in Live(L) - {s}
      ensures SameWords(m, m, t, (Live(L) - {s})[t])
    {
      assert ChunkOk(|m|, L.size, L.left, t);
    }
  }

  lemma KeptOfMore(more: map<int, nat>, live: map<int, nat>, m: seq<int>, m': seq<int>)
    requires WordsKept(more, m, m') && forall s :: s in live ==> s in more && more[s] == live[s]
    ensures WordsKept(live, m, m')
  {
  }

  // ---------------------------------------------------------------- writes and what they keep

  /** The words a push on a free list writes. */
  function PushWords(base: nat, m: seq<int>, s: nat, k: nat, h: int): seq<int>
    requires 4 <= k && s + k <= |m| && (h == NIL || 0 <= h < |m| - 1)
  {
    var m1 := m[s := Tag(k, false)][s + k - 1 := Tag(k, false)][s + 1 := 0][s + 2 := Ptr(base, h)];
    if h == NIL then m1 else m1[h + 1 := Ptr(base, s)]
  }

  /** The words an unlink writes. */
  function UnlinkWords(base: nat, m: seq<int>, p: int, q: int): seq<int>
    requires (p == NIL || 0 <= p < |m| - 2) && (q == NIL || 0 <= q < |m| - 1)
  {
    var m1 := if p == NIL then m else m[p + 2 := Ptr(base, q)];
    if q == NIL then m1 else m1[q + 1 := Ptr(base, p)]
  }

  lemma PushEncodes(base: nat, m: seq<int>, heads: seq<int>, L: Layout, open: set<int>, s: int)
    requires WellFormed(|m|, L) && Encodes(base, m, heads, L, open)
    requires s in L.size && s !in L.free
    requires ChunkOk(|m|, L.size, L.left, s)
    requires var h := L.head[Class(L, s)]; h == NIL || (h in L.free && ChunkOk(|m|, L.size, L.left, h))
    ensures var h := L.head[Class(L, s)];
            Encodes(base, PushWords(base, m, s, L.size[s], h), heads[Class(L, s) := Ptr(base, s)], Link(L, s),
                    open - {s})
  {
    var h, L' := L.head[Class(L, s)], Link(L, s);
    var m' := PushWords(base, m, s, L.size[s], h);
    assert h != NIL ==> Apart(L.size, s, h) && Apart(L.size, h, s);
    forall t | t in L.size && t !in open - {s}
      ensures TagOk(m', L', t)
    {
      if t != s {
        assert TagOk(m, L, t) && Apart(L.size, s, t) && Apart(L.size, t, s);
        assert h != NIL ==> Apart(L.size, h, t) && Apart(L.size, t, h);
      }
    }
    forall t | t in L'.free
      ensures LinkOk(base, m', L', t)
    {
      if t != s {
        assert LinkOk(base, m, L, t) && Apart(L.size, s, t) && Apart(L.size, t, s);
        assert ChunkOk(|m|, L.size, L.left, t);
        assert h != NIL ==> Apart(L.size, h, t) && Apart(L.size, t, h);
      }
    }
  }

  /** A push changes no allocated chunk but the one it takes. */
  lemma PushKeeps(base: nat, m: seq<int>, L: Layout, s: int, h: int)
    requires WellFormed(|m|, L)
    requires s in L.size && s !in L.free && ChunkOk(|m|, L.size, L.left, s)
    requires h == NIL || (h in L.free && ChunkOk(|m|, L.size, L.left, h))
    ensures WordsKept(Live(L) - {s}, m, PushWords(base, m, s, L.size[s], h))
  {
    forall t | t in Live(L) - {s}
      ensures SameWords(m, PushWords(base, m, s, L.size[s], h), t, (Live(L) - {s})[t])
    {
      assert ChunkOk(|m|, L.size, L.left, t) && Apart(L.size, s, t) && Apart(L.size, t, s);
      assert h != NIL ==> Apart(L.size, h, t) && Apart(L.size, t, h);
    }
  }

  lemma UnlinkEncodes(base: nat, m: seq<int>, heads: seq<int>, L: Layout, open: set<int>, s: int)
    requires WellFormed(|m|, L) && Encodes(base, m, heads, L, open) && s in L.free
    requires var p, q := L.prev[s], L.next[s];
             && (p == NIL || (p in L.free && p != s && ChunkOk(|m|, L.size, L.left, p)))
             && (q == NIL || (q in L.free && q != s && ChunkOk(|m|, L.size, L.left, q)))
    ensures var p, q := L.prev[s], L.next[s];
            && Encodes(base, UnlinkWords(base, m, p, q),
                       if p == NIL then heads[Class(L, s) := Ptr(base, q)] else heads, Unlink(L, s), open + {s})
  {
    var p, q, L' := L.prev[s], L.next[s], Unlink(L, s);
    var m' := UnlinkWords(base, m, p, q);
    forall t | t in L.size && t !in open + {s}
      ensures TagOk(m', L', t)
    {
      assert TagOk(m, L, t);
      assert p != NIL ==> Apart(L.size, p, t) && Apart(L.size, t, p);
      assert q != NIL ==> Apart(L.size, q, t) && Apart(L.size, t, q);
    }
    forall t | t in L'.free
      ensures LinkOk(base, m', L', t)
    {
      assert LinkOk(base, m, L, t) && ChunkOk(|m|, L.size, L.left, t);
      assert p != NIL ==> Apart(L.size, p, t) && Apart(L.size, t, p);
      assert q != NIL ==> Apart(L.size, q, t) && Apart(L.size, t, q);
    }
  }

  /** An unlink changes no allocated chunk. */
  lemma UnlinkKeeps(base: nat, m: seq<int>, L: Layout, p: int, q: int)
    requires WellFormed(|m|, L)
    requires p == NIL || (p in L.free && ChunkOk(|m|, L.size, L.left, p))
    requires q == NIL || (q in L.free && ChunkOk(|m|, L.size, L.left, q))
    ensures WordsKept(Live(L), m, UnlinkWords(base, m, p, q))
  {
    forall t | t in Live(L)
      ensures SameWords(m, UnlinkWords(base, m, p, q), t, Live(L)[t])
    {
      assert ChunkOk(|m|, L.size, L.left, t);
      assert p != NIL ==> Apart(L.size, p, t) && Apart(L.size, t, p);
      assert q != NIL ==> Apart(L.size, q, t) && Apart(L.size, t, q);
    }
  }

  /** Splitting a chunk under construction leaves the meaning of all other words alone. */
  lemma SplitEncodes(base: nat, m: seq<int>, heads: seq<int>, L: Layout, open: set<int>, s: int, k: nat)
    requires Encodes(base, m, heads, L, open) && s in L.size && s in open && k <= L.size[s] && s + k !in L.size
    ensures Encodes(base, m, heads, Split(L, s, k), open + {s + k})
  {
    var L' := Split(L, s, k);
    forall t | t in L'.size && t !in open + {s + k}
      ensures TagOk(m, L', t)
    {
      assert TagOk(m, L, t);
    }
    forall t | t in L'.free
      ensures LinkOk(base, m, L', t)
    {
      assert LinkOk(base, m, L, t);
    }
  }

  lemma MergeEncodes(base: nat, m: seq<int>, heads: seq<int>, L: Layout, open: set<int>, s: int)
    requires Encodes(base, m, heads, L, open) && s in L.size && s + L.size[s] in L.size
    requires s in open && s + L.size[s] in open
    ensures Encodes(base, m, heads, Merge(L, s), open - {s + L.size[s]})
  {
    var L' := Merge(L, s);
    forall t | t in L'.size && t !in open - {s + L.size[s]}
      ensures TagOk(m, L', t)
    {
      assert TagOk(m, L, t);
    }
    forall t | t in L'.free
      ensures LinkOk(base, m, L', t)
    {
      assert LinkOk(base, m, L, t);
    }
  }

  /** The layout after the free right neighbour of s, just unlinked, has been joined to s. */
  lemma JoinRight(base: nat, m: seq<int>, heads: seq<int>, L: Layout, s: int) returns (L2: Layout)
    requires WellFormed(|m|, L) && s in L.size && s !in L.free && s + L.size[s] in L.free
    requires s in L.left ==> L.left[s] !in L.free
    requires Encodes(base, m, heads, Unlink(L, s + L.size[s]), {s} + {s + L.size[s]})
    ensures WellFormed(|m|, L2) && Encodes(base, m, heads, L2, {s})
    ensures s in L2.size && L2.size[s] == L.size[s] + L.size[s + L.size[s]]
    ensures s !in L2.free && s + L2.size[s] !in L2.free
    ensures s in L2.left ==> L2.left[s] !in L2.free
    ensures Live(L2) - {s} == Live(L) - {s}
  {
    var t := s + L.size[s];
    var L1 := Unlink(L, t);
    AbsorbRight(|m|, L, s);
    MergeEncodes(base, m, heads, L1, {s} + {t}, s);
    L2 := Merge(L1, s);
    assert {s} + {t} - {t} == {s};
  }

  /** What the tag word behind a chunk tells. */
  lemma RightNeighbour(m: seq<int>, L: Layout, s: int)
    requires WellFormed(|m|, L) && s in L.size
    requires forall t {:trigger TagOk(m, L, t)} :: t in L.size && t != s ==> TagOk(m, L, t)
    ensures var t := s + L.size[s];
      && 0 <= t <= |m| && (t == |m| ==> t !in L.free)
      && (t < |m| ==>
            && t in L.size && t != s && 0 <= m[t]
            && (Occupied(m[t]) <==> t !in L.free) && TagSize(m[t]) / 8 == L.size[t])
  {
    assert ChunkOk(|m|, L.size, L.left, s);
    var t := s + L.size[s];
    assert t in L.size ==> ChunkOk(|m|, L.size, L.left, t);
    assert t < |m| ==> TagOk(m, L, t);
  }

  /** The layout after s has been joined to its free left neighbour, just unlinked. */
  lemma JoinLeft(base: nat, m: seq<int>, heads: seq<int>, L: Layout, s: int) returns (L2: Layout)
    requires WellFormed(|m|, L) && s in L.size && s in L.left && s !in L.free && L.left[s] in L.free
    requires Encodes(base, m, heads, Unlink(L, L.left[s]), {s} + {L.left[s]})
    ensures var p := L.left[s];
            && WellFormed(|m|, L2) && Encodes(base, m, heads, L2, {p})
            && p in L2.size && L2.size[p] == L.size[p] + L.size[s] && p !in L2.free
            && (p in L2.left ==> L2.left[p] !in L2.free)
            && Live(L2) - {p} == Live(L) - {s}
  {
    var p := L.left[s];
    var L1 := Unlink(L, p);
    AbsorbLeft(|m|, L, s);
    MergeEncodes(base, m, heads, L1, {s} + {p}, p);
    L2 := Merge(L1, p);
    assert {s} + {p} - {s} == {p};
  }

  /** Tagging a chunk under construction as occupied, and writing its first word, ends the
      construction. */
  lemma OccupyEncodes(base: nat, m: seq<int>, heads: seq<int>, L: Layout, s: int, x: int)
    requires WellFormed(|m|, L) && Encodes(base, m, heads, L, {s})
    requires s in L.size && s !in L.free && ChunkOk(|m|, L.size, L.left, s)
    ensures var k := L.size[s];
            var m' := m[s := Tag(k, true)][s + k - 1 := Tag(k, true)][s + 1 := x];
            Encodes(base, m', heads, L, {})
  {
    var k := L.size[s];
    var m' := m[s := Tag(k, true)][s + k - 1 := Tag(k, true)][s + 1 := x];
    forall t | t in L.size
      ensures TagOk(m', L, t)
    {
      if t != s {
        assert TagOk(m, L, t) && Apart(L.size, s, t) && Apart(L.size, t, s);
      }
    }
    forall t | t in L.free
      ensures LinkOk(base, m', L, t)
    {
      assert LinkOk(base, m, L, t) && ChunkOk(|m|, L.size, L.left, t) && Apart(L.size, s, t) && Apart(L.size, t, s);
    }
  }

  lemma OccupyKeeps(m: seq<int>, L: Layout, s: int, x: int)
    requires WellFormed(|m|, L)
    requires s in L.size && ChunkOk(|m|, L.size, L.left, s)
    ensures var k := L.size[s];
            WordsKept(Live(L) - {s}, m, m[s := Tag(k, true)][s + k - 1 := Tag(k, true)][s + 1 := x])
  {
    var k := L.size[s];
    var m' := m[s := Tag(k, true)][s + k - 1 := Tag(k, true)][s + 1 := x];
    forall t | t in Live(L) - {s}
      ensures SameWords(m, m', t, (Live(L) - {s})[t])
    {
      assert ChunkOk(|m|, L.size, L.left, t) && Apart(L.size, s, t) && Apart(L.size, t, s);
    }
  }

  /** The size from which on a free chunk is considered for a request: the last class
      does not tell sizes above its own apart. */
  function Floor(request: nat): nat {
    var top := MIN_SIZE + (NUM_CLASSES - 1) * CLASS_INCREMENT;
    if request <= top then request else top
  }

  /** A request above the last class's size meets a smaller chunk at the head of that class. */
  predicate BlockedByHead(L: Layout, request: nat)
    requires |L.head| == NUM_CLASSES
  {
    var h := L.head[NUM_CLASSES - 1];
    && MIN_SIZE + (NUM_CLASSES - 1) * CLASS_INCREMENT < request
    && h in L.size && 8 * L.size[h] < request
  }

  /** Below the last class, no free chunk that fits is smaller. */
  ghost predicate BestFit(L: Layout, s: int, request: nat) {
    && s in L.size
    && (Class(L, s) < NUM_CLASSES - 1 ==>
          forall t :: t in L.free && t in L.size && request <= 8 * L.size[t] ==> L.size[s] <= L.size[t])
  }

  /** A free chunk is in a class that was searched, or is too small for the request. */
  lemma ClassSearched(n: nat, L: Layout, request: nat, c: nat, s: int)
    requires WellFormed(n, L) && MIN_SIZE <= request <= MAX_SIZE && request % 8 == 0 && s in L.free
    requires ClassRoundUp(request) <= c <= NUM_CLASSES
    requires forall d :: ClassRoundUp(request) <= d < c ==> L.head[d] == NIL
    ensures s in L.size && MIN_SIZE <= 8 * L.size[s] <= MAX_SIZE
    ensures Class(L, s) < ClassRoundUp(request) || c <= Class(L, s)
    ensures Floor(request) <= 8 * L.size[s] <==> ClassRoundUp(request) <= Class(L, s)
  {
    assert ChunkOk(n, L.size, L.left, s);
    HeadExists(L, s);
    ClassFits(8 * L.size[s], Floor(request));
  }

  /** The head of the first class that is not empty is a best fit. */
  lemma HeadDecides(n: nat, L: Layout, request: nat, c: nat)
    requires WellFormed(n, L) && MIN_SIZE <= request <= MAX_SIZE && request % 8 == 0
    requires ClassRoundUp(request) <= c < NUM_CLASSES && L.head[c] != NIL
    requires forall d :: ClassRoundUp(request) <= d < c ==> L.head[d] == NIL
    ensures L.head[c] in L.free && Class(L, L.head[c]) == c && BestFit(L, L.head[c], request)
  {
    assert HeadOk(L, c);
    var h := L.head[c];
    ClassSearched(n, L, request, c, h);
    forall t | t in L.free && t in L.size && request <= 8 * L.size[t] && Class(L, h) < NUM_CLASSES - 1
      ensures L.size[h] <= L.size[t]
    {
      ClassSearched(n, L, request, c, t);
      ClassOrder(8 * L.size[h], 8 * L.size[t]);
    }
  }

  /** Only in the last class can the head be smaller than the request. */
  lemma HeadBlocks(n: nat, L: Layout, request: nat, c: nat)
    requires WellFormed(n, L) && MIN_SIZE <= request <= MAX_SIZE && request % 8 == 0
    requires ClassRoundUp(request) <= c < NUM_CLASSES && L.head[c] in L.free && Class(L, L.head[c]) == c
    ensures 8 * L.size[L.head[c]] < request <==> BlockedByHead(L, request)
  {
    var h := L.head[c];
    assert ChunkOk(n, L.size, L.left, h);
    ClassFits(8 * L.size[h], Floor(request));
  }

  /** What it means that the classes from the request's up to c are empty and c is not. */
  lemma SearchDecides(n: nat, L: Layout, request: nat, c: nat)
    requires WellFormed(n, L) && MIN_SIZE <= request <= MAX_SIZE && request % 8 == 0
    requires ClassRoundUp(request) <= c <= NUM_CLASSES
    requires forall d :: ClassRoundUp(request) <= d < c ==> L.head[d] == NIL
    requires c < NUM_CLASSES ==> L.head[c] != NIL
    ensures c == NUM_CLASSES <==> forall s :: s in L.free ==> 8 * L.size[s] < Floor(request)
    ensures c < NUM_CLASSES ==>
              && L.head[c] in L.free && BestFit(L, L.head[c], request)
              && (8 * L.size[L.head[c]] < request <==> BlockedByHead(L, request))
    ensures c == NUM_CLASSES ==> !BlockedByHead(L, request)
  {
    forall s | s in L.free
      ensures Floor(request) <= 8 * L.size[s] <==> c <= Class(L, s)
    {
      ClassSearched(n, L, request, c, s);
    }
    if c < NUM_CLASSES {
      HeadDecides(n, L, request, c);
      HeadBlocks(n, L, request, c);
    } else {
      assert NIL in L.size ==> ChunkOk(n, L.size, L.left, NIL);
    }
  }

  /** The chunk size, in bytes, that serves an item. */
  function Request(itemSize: nat): nat {
    RoundUp8(itemSize) + OVERHEAD
  }

  /** The words taken from a free chunk of k words by a request for `need` words. */
  function Taken(k: nat, need: nat): nat {
    if need + 4 <= k then need else k
  }

  /** The chunks, and the free ones, after a request for `need` words took the free chunk at s. */
  function SizesTaken(size: map<int, nat>, s: int, need: nat): map<int, nat>
    requires s in size
  {
    if need + 4 <= size[s] then size[s := need][s + need := size[s] - need] else size
  }

  function FreeTaken(size: map<int, nat>, free: set<int>, s: int, need: nat): set<int>
    requires s in size
  {
    if need + 4 <= size[s] then free - {s} + {s + need} else free - {s}
  }

  /** The allocations while the rest of the chunk at s, cut off, is not filed yet. */
  lemma CutLive(n: nat, L: Layout, s: int, need: nat)
    requires WellFormed(n, L) && s in L.free && 4 <= need && need + 4 <= L.size[s] && s + need !in L.size
    ensures Live(Split(Unlink(L, s), s, need)) == Live(L)[s := need][s + need := L.size[s] - need]
  {
    UnlinkLive(L, s);
    SplitLive(Unlink(L, s), s, need);
  }

  /** The chunks once the rest is filed. */
  lemma CutDone(n: nat, L: Layout, s: int, need: nat, L2: Layout, m: seq<int>, m': seq<int>)
    requires WellFormed(n, L) && s in L.free && 4 <= need && need + 4 <= L.size[s] && s + need !in L.size
    requires L2 == Split(Unlink(L, s), s, need) && WordsKept(Live(L2) - {s + need}, m, m')
    ensures Live(Link(L2, s + need)) == Live(L)[s := need] && WordsKept(Live(L), m, m')
    ensures Link(L2, s + need).size == SizesTaken(L.size, s, need)
    ensures Link(L2, s + need).free == FreeTaken(L.size, L.free, s, need)
  {
    CutLive(n, L, s, need);
    LinkLive(L2, s + need);
    KeptOfMore(Live(L2) - {s + need}, Live(L), m, m');
  }

  /** A chunk that may go on a free list: neither neighbour is free. */
  ghost predicate Fileable(L: Layout, s: int, k: nat) {
    && s in L.size && L.size[s] == k && s + k !in L.free
    && (s in L.left ==> L.left[s] !in L.free)
  }

  /** The layout after the chunk at s, just unlinked, has been cut after `need` words. */
  lemma CutOff(base: nat, m: seq<int>, heads: seq<int>, L: Layout, s: int, need: nat) returns (L2: Layout)
    requires WellFormed(|m|, L) && s in L.free && 4 <= need && need + 4 <= L.size[s]
    requires Encodes(base, m, heads, Unlink(L, s), {s})
    ensures WellFormed(|m|, L2) && Encodes(base, m, heads, L2, {s, s + need})
    ensures L2 == Split(Unlink(L, s), s, need)
    ensures s + need !in L.size && Fileable(L2, s + need, L.size[s] - need)
  {
    var L1 := Unlink(L, s);
    UnlinkWellFormed(|m|, L, s);
    assert EndsAtAllocated(L.size, L.free, s) && ChunkOk(|m|, L.size, L.left, s);
    SplitWellFormed(|m|, L1, s, need);
    SplitEncodes(base, m, heads, L1, {s}, s, need);
    assert {s} + {s + need} == {s, s + need};
    L2 := Split(L1, s, need);
  }

  lemma StoreEncodes(base: nat, m: seq<int>, heads: seq<int>, L: Layout, s: int, i: nat, x: int)
    requires WellFormed(|m|, L) && Encodes(base, m, heads, L, {})
    requires s in Live(L) && i + 2 < L.size[s] && ChunkOk(|m|, L.size, L.left, s)
    ensures Encodes(base, m[s + 1 + i := x], heads, L, {})
    ensures WordsKept(Live(L) - {s}, m, m[s + 1 + i := x])
  {
    var m' := m[s + 1 + i := x];
    forall t | t in L.size
      ensures TagOk(m', L, t)
    {
      assert TagOk(m, L, t) && Apart(L.size, s, t) && Apart(L.size, t, s);
    }
    forall t | t in L.free
      ensures LinkOk(base, m', L, t)
    {
      assert LinkOk(base, m, L, t) && ChunkOk(|m|, L.size, L.left, t) && Apart(L.size, s, t) && Apart(L.size, t, s);
    }
    forall t | t in Live(L) - {s}
      ensures SameWords(m, m', t, (Live(L) - {s})[t])
    {
      assert ChunkOk(|m|, L.size, L.left, t) && Apart(L.size, s, t) && Apart(L.size, t, s);
    }
  }

  /** How a search of the free lists ends; TooSmall is the failed assertion of a request
      that meets a smaller chunk at the head of the open-ended last class. */
  datatype Search = NoSpace | TooSmall | Found(start: nat, words: nat)

  /** The free chunk at h is the first of its class and covers the k words at s. */
  ghost predicate HeadCovers(L: Layout, h: int, s: int, k: nat) {
    && |L.head| == NUM_CLASSES && h in L.free && h in L.size && L.head[Class(L, h)] == h
    && h <= s && s + k <= h + L.size[h]
  }

  ghost predicate AtHead(L: Layout, s: int, k: nat) {
    exists h :: HeadCovers(L, h, s, k)
  }

  datatype Outcome = InsufficientSpace | AssertionFailed | Allocated(offset: nat)

  class Heap {
    const base: nat
    const mem: array<int>
    const freeHead: array<int>
    ghost var L: Layout

    ghost predicate ValidExcept(open: set<int>)
      reads this, mem, freeHead
    {
      && 0 < base
      && mem != freeHead
      && WellFormed(mem.Length, L)
      && open !! L.free
      && Encodes(base, mem[..], freeHead[..], L, open)
    }

    ghost predicate Valid()
      reads this, mem, freeHead
    {
      ValidExcept({})
    }

    constructor (base: nat, words: nat)
      requires 0 < base && 4 <= words && 8 * words <= MAX_SIZE
      ensures Valid() && fresh(mem) && fresh(freeHead)
      ensures this.base == base && mem.Length == words
      ensures L.size == map[0 := words] && L.free == {0}
    {
      this.base := base;
      mem := new int[words];
      freeHead := new int[NUM_CLASSES];
      new;
      Reset();
    }

    /** Make the whole region one free chunk, whatever it held before. */
    method Reset()
      requires 0 < base && mem != freeHead && freeHead.Length == NUM_CLASSES
      requires 4 <= mem.Length && 8 * mem.Length <= MAX_SIZE
      modifies this`L, mem, freeHead
      ensures Valid()
      ensures L.size == map[0 := mem.Length] && L.free == {0}
    {
      for c := 0 to NUM_CLASSES
        invariant forall d :: 0 <= d < c ==> freeHead[d] == 0
      {
        freeHead[c] := 0;
      }
      L := Whole(mem.Length);
      WholeWellFormed(mem.Length);
      InsertFreeChunk(0, mem.Length, {0});
    }

    /** Write the tags and links of a chunk that goes in front of the chunk at h. */
    method WriteFree(s: nat, k: nat, h: int, ghost hi: int)
      requires 4 <= k && s + k <= mem.Length && (hi == NIL || 0 <= hi < mem.Length - 1)
      requires 0 < base && h == Ptr(base, hi)
      modifies mem
      ensures mem[..] == PushWords(base, old(mem[..]), s, k, hi)
    {
      mem[s] := Tag(k, false);
      mem[s + k - 1] := Tag(k, false);
      mem[s + 1] := 0;
      mem[s + 2] := h;
      if h != 0 {
        mem[(h - base) / 8 + 1] := base + 8 * s;
      }
    }

    /** Push a chunk on the list of its class and tag it free. */
    method InsertFreeChunk(s: nat, k: nat, ghost open: set<int>)
      requires ValidExcept(open) && s in open
      requires Fileable(L, s, k)
      modifies this`L, mem, freeHead
      ensures ValidExcept(open - {s})
      ensures L == Link(old(L), s)
      ensures WordsKept(Live(old(L)) - {s}, old(mem[..]), mem[..])
    {
      ghost var L0, m0 := L, mem[..];
      assert ChunkOk(mem.Length, L.size, L.left, s);
      var c := ClassRoundDown(8 * k);
      var h := freeHead[c];
      assert HeadOk(L, c);
      assert h != 0 ==> ChunkOk(mem.Length, L.size, L.left, L.head[c]);
      PushEncodes(base, mem[..], freeHead[..], L, open, s);
      PushKeeps(base, mem[..], L, s, L.head[c]);
      WriteFree(s, k, h, L.head[c]);
      freeHead[c] := base + 8 * s;
      L := Link(L0, s);
      LinkWellFormed(mem.Length, L0, s);
    }

    /** Take a chunk out of its free list; its tags stay as they are. */
    method RemoveFreeChunk(s: nat, k: nat, ghost open: set<int>)
      requires ValidExcept(open)
      requires s in L.free && L.size[s] == k
      modifies this`L, mem, freeHead
      ensures ValidExcept(open + {s})
      ensures L == Unlink(old(L), s)
      ensures WordsKept(Live(old(L)), old(mem[..]), mem[..])
    {
      ghost var L0, m0 := L, mem[..];
      ghost var p0, q0 := L.prev[s], L.next[s];
      assert ChunkOk(mem.Length, L.size, L.left, s) && LinkOk(base, mem[..], L, s);
      assert PrevOk(L, s) && NextOk(L, s);
      assert p0 != NIL ==> ChunkOk(mem.Length, L.size, L.left, p0);
      assert q0 != NIL ==> ChunkOk(mem.Length, L.size, L.left, q0) && PrevOk(L, q0);
      UnlinkEncodes(base, mem[..], freeHead[..], L, open, s);
      UnlinkKeeps(base, mem[..], L, p0, q0);
      UnlinkWellFormed(mem.Length, L, s);
      var p, q := mem[s + 1], mem[s + 2];
      if p != 0 {
        var pi := (p - base) / 8;
        mem[pi + 2] := q;
      } else {
        var c := ClassRoundDown(8 * k);
        assert freeHead[c] == base + 8 * s;
        freeHead[c] := q;
      }
      if q != 0 {
        var qi := (q - base) / 8;
        mem[qi + 1] := p;
      }
      assert mem[..] == UnlinkWords(base, m0, p0, q0);
      L := Unlink(L0, s);
    }

    /** Join a chunk under construction with its left neighbour if that one is free. */
    method CoalesceLeft(s: nat, k: nat) returns (s': nat, k': nat)
      requires ValidExcept({s})
      requires s in L.size && L.size[s] == k
      modifies this`L, mem, freeHead
      ensures ValidExcept({s'}) && s' in L.size && L.size[s'] == k'
      ensures s' <= s && s' + k' == s + k
      ensures s' in L.left ==> L.left[s'] !in L.free
      ensures Live(L) - {s'} == old(Live(L)) - {s}
      ensures WordsKept(old(Live(L)) - {s}, old(mem[..]), mem[..])
    {
      s', k' := s, k;
      KeptAsIs(L, mem[..], s);
      assert ChunkOk(mem.Length, L.size, L.left, s);
      if s == 0 {
        assert 0 in L.left ==> BoundaryOk(L.size, L.left, 0) && ChunkOk(mem.Length, L.size, L.left, L.left[0]);
        return;
      }
      ghost var p := L.left[s];
      assert BoundaryOk(L.size, L.left, s);
      assert ChunkOk(mem.Length, L.size, L.left, p) && TagOk(mem[..], L, p);
      if Occupied(mem[s - 1]) {
        return;
      }
      var adj := TagSize(mem[s - 1]) / 8;
      var left := s - adj;
      assert left == p && mem[left] == mem[left + adj - 1];
      RemoveFreeChunk(left, adj, {s});
      L := JoinLeft(base, mem[..], freeHead[..], old(L), s);
      s', k' := left, k + adj;
      KeptOfMore(old(Live(L)), old(Live(L)) - {s}, old(mem[..]), mem[..]);
    }

    /** Join a chunk under construction with its right neighbour if that one is free. */
    method CoalesceRight(s: nat, k: nat) returns (k': nat)
      requires ValidExcept({s})
      requires s in L.size && L.size[s] == k
      requires s in L.left ==> L.left[s] !in L.free
      modifies this`L, mem, freeHead
      ensures ValidExcept({s}) && s in L.size && L.size[s] == k' && k <= k'
      ensures (s in L.left ==> L.left[s] !in L.free) && s + k' !in L.free
      ensures Live(L) - {s} == old(Live(L)) - {s}
      ensures WordsKept(old(Live(L)) - {s}, old(mem[..]), mem[..])
    {
      k' := k;
      KeptAsIs(L, mem[..], s);
      var t := s + k;
      RightNeighbour(mem[..], L, s);
      if t == mem.Length || Occupied(mem[t]) {
        return;
      }
      var adj := TagSize(mem[t]) / 8;
      RemoveFreeChunk(t, adj, {s});
      L := JoinRight(base, mem[..], freeHead[..], old(L), s);
      k' := k + adj;
      KeptOfMore(old(Live(L)), old(Live(L)) - {s}, old(mem[..]), mem[..]);
    }

    /** Release an allocation: join with free neighbours and file the result, which becomes the
        head of its class. */
    method Deallocate(offset: nat)
      requires Valid()
      requires offset % 8 == 0 && offset / 8 - 1 in Live(L)
      modifies this`L, mem, freeHead
      ensures Valid()
      ensures Live(L) == old(Live(L)) - {offset / 8 - 1}
      ensures AtHead(L, offset / 8 - 1, old(Live(L))[offset / 8 - 1])
      ensures WordsKept(Live(L), old(mem[..]), mem[..])
    {
      var s := offset / 8 - 1;
      ghost var kept := Live(L) - {s};
      assert ChunkOk(mem.Length, L.size, L.left, s) && TagOk(mem[..], L, s);
      assert Occupied(mem[s]);
      var k := TagSize(mem[s]) / 8;
      OpenChunk(s);
      var s1, k1 := CoalesceLeft(s, k);
      ghost var m1 := mem[..];
      var k2 := CoalesceRight(s1, k1);
      ghost var m2 := mem[..];
      LinkLive(L, s1);
      InsertFreeChunk(s1, k2, {s1});
      assert HeadCovers(L, s1, s, k);
      WordsKeptTransitive(kept, old(mem[..]), m1, m2);
      WordsKeptTransitive(kept, old(mem[..]), m2, mem[..]);
    }

    /** Take the head chunk of the first non-empty class that can serve the request. */
    method RemoveFromHead(request: nat) returns (r: Search)
      requires Valid()
      requires MIN_SIZE <= request <= MAX_SIZE && request % 8 == 0
      modifies this`L, mem, freeHead
      ensures r.NoSpace? <==> forall s :: s in old(L.free) ==> 8 * old(L.size)[s] < Floor(request)
      ensures r.TooSmall? <==> BlockedByHead(old(L), request)
      ensures !r.Found? ==> L == old(L) && mem[..] == old(mem[..]) && freeHead[..] == old(freeHead[..])
      ensures r.Found? ==>
        && r.start in old(L.free) && old(L.size)[r.start] == r.words
        && request <= 8 * r.words
        && BestFit(old(L), r.start, request)
        && L == Unlink(old(L), r.start)
        && ValidExcept({r.start})
        && WordsKept(old(Live(L)), old(mem[..]), mem[..])
    {
      RoundUpInRange(request);
      var lo := ClassRoundUp(request);
      var c := lo;
      while c < NUM_CLASSES && freeHead[c] == 0
        invariant lo <= c <= NUM_CLASSES
        invariant forall d :: lo <= d < c ==> L.head[d] == NIL
      {
        assert HeadOk(L, c);
        assert L.head[c] != NIL ==> ChunkOk(mem.Length, L.size, L.left, L.head[c]);
        c := c + 1;
      }
      SearchDecides(mem.Length, L, request, c);
      if c == NUM_CLASSES {
        return NoSpace;
      }
      ghost var h := L.head[c];
      assert HeadOk(L, c) && ChunkOk(mem.Length, L.size, L.left, h) && TagOk(mem[..], L, h);
      var s := (freeHead[c] - base) / 8;
      assert s == h && !Occupied(mem[s]);
      var k := TagSize(mem[s]) / 8;
      assert mem[s] == mem[s + k - 1];
      if 8 * k < request {
        return TooSmall;
      }
      RemoveFreeChunk(s, k, {});
      r := Found(s, k);
    }

    /** Cut a chunk taken from the free lists down to what is needed and file the rest. */
    method GiveBackRest(s: nat, k: nat, need: nat, ghost L0: Layout)
      requires WellFormed(mem.Length, L0) && s in L0.free && L0.size[s] == k && L == Unlink(L0, s)
      requires ValidExcept({s}) && 4 <= need && need + 4 <= k
      modifies this`L, mem, freeHead
      ensures ValidExcept({s})
      ensures Live(L) == Live(L0)[s := need]
      ensures L.size == SizesTaken(L0.size, s, need) && L.free == FreeTaken(L0.size, L0.free, s, need)
      ensures WordsKept(Live(L0), old(mem[..]), mem[..])
    {
      L := CutOff(base, mem[..], freeHead[..], L0, s, need);
      ghost var L2 := L;
      InsertFreeChunk(s + need, k - need, {s, s + need});
      assert {s, s + need} - {s + need} == {s};
      CutDone(mem.Length, L0, s, need, L2, old(mem[..]), mem[..]);
    }

    /** Tag a chunk as allocated and store the item size in its first word. */
    method MarkOccupied(s: nat, k: nat, itemSize: nat)
      requires ValidExcept({s}) && s in L.size && s !in L.free && L.size[s] == k
      modifies mem
      ensures Valid()
      ensures 4 <= k && s + k <= mem.Length && mem[s + 1] == itemSize
      ensures WordsKept(Live(L) - {s}, old(mem[..]), mem[..])
    {
      assert ChunkOk(mem.Length, L.size, L.left, s);
      OccupyEncodes(base, mem[..], freeHead[..], L, s, itemSize);
      OccupyKeeps(mem[..], L, s, itemSize);
      mem[s] := Tag(k, true);
      mem[s + k - 1] := Tag(k, true);
      mem[s + 1] := itemSize;
    }

    /** Serve a request from the first class that can, giving back what is left over if it
        can stand as a chunk of its own. */
    method Allocate(itemSize: nat) returns (r: Outcome)
      requires Valid()
      requires 9 <= itemSize < 0x1_0000_0000
      modifies this`L, mem, freeHead
      ensures Valid()
      ensures r.InsufficientSpace? <==> forall s :: s in old(L.free) ==> 8 * old(L.size)[s] < Floor(Request(itemSize))
      ensures r.AssertionFailed? <==> BlockedByHead(old(L), Request(itemSize))
      ensures !r.Allocated? ==> L == old(L) && mem[..] == old(mem[..]) && freeHead[..] == old(freeHead[..])
      ensures r.Allocated? ==>
        var s, need := r.offset / 8 - 1, Request(itemSize) / 8;
        && r.offset % 8 == 0
        && s in old(L.free) && BestFit(old(L), s, Request(itemSize))
        && need <= old(L.size)[s]
        && Live(L) == old(Live(L))[s := Taken(old(L.size)[s], need)]
        && L.size == SizesTaken(old(L.size), s, need) && L.free == FreeTaken(old(L.size), old(L.free), s, need)
        && itemSize <= 8 * (Live(L)[s] - 2)
        && 0 <= s && s + 1 < mem.Length && mem[s + 1] == itemSize
        && WordsKept(old(Live(L)), old(mem[..]), mem[..])
    {
      RequestInRange(itemSize);
      var need := Request(itemSize) / 8;
      var found := RemoveFromHead(Request(itemSize));
      match found {
        case NoSpace => return InsufficientSpace;
        case TooSmall => return AssertionFailed;
        case Found(s, k) =>
          ghost var m1 := mem[..];
          Settle(s, k, need, itemSize, old(L));
          WordsKeptTransitive(old(Live(L)), old(mem[..]), m1, mem[..]);
          r := Allocated(8 * s + 8);
      }
    }

    /** Turn a chunk taken from the free lists into an allocation. */
    method Settle(s: nat, k: nat, need: nat, itemSize: nat, ghost L0: Layout)
      requires WellFormed(mem.Length, L0) && s in L0.free && L0.size[s] == k && L == Unlink(L0, s)
      requires ValidExcept({s}) && 4 <= need <= k
      modifies this`L, mem, freeHead
      ensures Valid() && Live(L) == Live(L0)[s := Taken(k, need)]
      ensures L.size == SizesTaken(L0.size, s, need) && L.free == FreeTaken(L0.size, L0.free, s, need)
      ensures s + 1 < mem.Length && mem[s + 1] == itemSize
      ensures WordsKept(Live(L0), old(mem[..]), mem[..])
    {
      var kept := k;
      if 4 <= k - need {
        GiveBackRest(s, k, need, L0);
        kept := need;
      } else {
        UnlinkLive(L0, s);
        KeptAsIs(L, mem[..], s);
        KeptOfMore(Live(L) - {s}, Live(L0), mem[..], mem[..]);
      }
      assert Live(L) == Live(L0)[s := kept] && s in Live(L);
      ghost var m2 := mem[..];
      MarkOccupied(s, kept, itemSize);
      KeptOfMore(Live(L) - {s}, Live(L0), m2, mem[..]);
      WordsKeptTransitive(Live(L0), old(mem[..]), m2, mem[..]);
    }

    /** An allocated chunk may be put under construction at any time. */
    lemma OpenChunk(s: int)
      requires Valid() && s !in L.free
      ensures ValidExcept({s})
    {
    }

    /** The owner of an allocation stores a word in its payload. */
    method Store(s: nat, i: nat, x: int)
      requires Valid() && s in Live(L) && i + 2 < Live(L)[s]
      modifies mem
      ensures Valid()
      ensures s + 1 + i < mem.Length && mem[..] == old(mem[..])[s + 1 + i := x]
      ensures WordsKept(Live(L) - {s}, old(mem[..]), mem[..])
    {
      assert ChunkOk(mem.Length, L.size, L.left, s);
      StoreEncodes(base, mem[..], freeHead[..], L, s, i, x);
      mem[s + 1 + i] := x;
    }

    /** The payload of an allocated chunk, its length taken from the tag. */
    method Read(s: nat) returns (payload: seq<int>)
      requires Valid() && s in Live(L)
      ensures payload == Inside(mem[..], s, Live(L)[s]) && |payload| + 2 == Live(L)[s]
      ensures 0 < |payload| && s + 1 < mem.Length && payload[0] == mem[s + 1]
    {
      assert ChunkOk(mem.Length, L.size, L.left, s) && TagOk(mem[..], L, s);
      var k := TagSize(mem[s]) / 8;
      payload := mem[s + 1..s + k - 1];
    }

    /** What the owners of the allocations see: the payload words of each. */
    ghost function Contents(): map<int, seq<int>>
      reads this, mem
    {
      Payloads(Live(L), mem[..])
    }
  }

  /** One step of a program that uses the heap; an offset names an allocation of its own. */
  datatype Action = Get(itemSize: nat) | Release(offset: nat) | Write(offset: nat, index: nat, word: int)

  /** What the program sees of an action: the outcome of a request, with the words that the new
      allocation was found to hold. */
  datatype Result = Got(outcome: Outcome, payload: seq<int>) | Performed

  /** The allocation an offset names, if it names one. */
  predicate Names(m: map<int, seq<int>>, offset: nat) {
    8 <= offset && offset % 8 == 0 && offset / 8 - 1 in m
  }

  /** The allocations and what they hold, as the program has it from its own actions. */
  function After(m: map<int, seq<int>>, a: Action, r: Result): map<int, seq<int>> {
    match a
    case Get(_) =>
      if r.Got? && r.outcome.Allocated? then m[r.outcome.offset / 8 - 1 := r.payload] else m
    case Release(offset) => if Names(m, offset) then m - {offset / 8 - 1} else m
    case Write(offset, index, word) =>
      if Names(m, offset) && index < |m[offset / 8 - 1]|
      then m[offset / 8 - 1 := m[offset / 8 - 1][index := word]]
      else m
  }

  function Replay(program: seq<Action>, results: seq<Result>): map<int, seq<int>>
    requires |results| == |program|
  {
    if program == [] then map[]
    else
      var last := |program| - 1;
      After(Replay(program[..last], results[..last]), program[last], results[last])
  }

  lemma ReplayOneMore(program: seq<Action>, results: seq<Result>, a: Action, r: Result)
    requires |results| == |program|
    ensures Replay(program + [a], results + [r]) == After(Replay(program, results), a, r)
  {
    assert (program + [a])[..|program|] == program && (results + [r])[..|program|] == results;
  }

  /** A request is answered as the layout demands. */
  ghost predicate GetOk(L: Layout, itemSize: nat, r: Result) {
    && r.Got? && |L.head| == NUM_CLASSES && L.free <= L.size.Keys
    && (r.outcome.InsufficientSpace? <==> forall s :: s in L.free ==> 8 * L.size[s] < Floor(Request(itemSize)))
    && (r.outcome.AssertionFailed? <==> BlockedByHead(L, Request(itemSize)))
    && (r.outcome.Allocated? ==>
          var s := r.outcome.offset / 8 - 1;
          && 8 <= r.outcome.offset && r.outcome.offset % 8 == 0
          && s in L.free && BestFit(L, s, Request(itemSize))
          && |r.payload| + 2 == Taken(L.size[s], Request(itemSize) / 8)
          && 0 < |r.payload| && itemSize <= 8 * |r.payload| && r.payload[0] == itemSize)
  }

  /** The allocated chunks are those of the program's own account. */
  ghost predicate SameChunks(L: Layout, m: map<int, seq<int>>) {
    Live(L) == map s | s in m :: |m[s]| + 2
  }

  method PerformGet(heap: Heap, itemSize: nat, ghost m: map<int, seq<int>>) returns (r: Result)
    requires heap.Valid() && 9 <= itemSize < 0x1_0000_0000
    requires m == heap.Contents()
    modifies heap`L, heap.mem, heap.freeHead
    ensures heap.Valid() && GetOk(old(heap.L), itemSize, r)
    ensures heap.Contents() == After(m, Get(itemSize), r)
  {
    ghost var L0 := heap.L;
    var got := heap.Allocate(itemSize);
    if !got.Allocated? {
      return Got(got, []);
    }
    var s := got.offset / 8 - 1;
    assert s in Live(heap.L);
    var payload := heap.Read(s);
    GetPayload(Live(L0), old(heap.mem[..]), heap.mem[..], s, Live(heap.L)[s]);
    r := Got(got, payload);
  }

  method PerformRelease(heap: Heap, offset: nat, mine: map<int, seq<int>>)
    requires heap.Valid() && mine == heap.Contents()
    modifies heap`L, heap.mem, heap.freeHead
    ensures heap.Valid() && heap.Contents() == After(mine, Release(offset), Performed)
  {
    if Names(mine, offset) {
      heap.Deallocate(offset);
      PayloadsKept(Live(heap.L), old(heap.mem[..]), heap.mem[..]);
    }
  }

  method PerformWrite(heap: Heap, offset: nat, i: nat, x: int, mine: map<int, seq<int>>)
    requires heap.Valid() && mine == heap.Contents()
    modifies heap.mem
    ensures heap.Valid() && heap.Contents() == After(mine, Write(offset, i, x), Performed)
  {
    if Names(mine, offset) {
      var s := offset / 8 - 1;
      if i < |mine[s]| {
        assert ChunkOk(heap.mem.Length, heap.L.size, heap.L.left, s);
        heap.Store(s, i, x);
        StorePayload(Live(heap.L), old(heap.mem[..]), s, i, x);
      }
    }
  }

  /** One action.  The program keeps `mine` to know which offsets are its own. */
  method Perform(heap: Heap, a: Action, mine: map<int, seq<int>>) returns (r: Result)
    requires heap.Valid() && (a.Get? ==> 9 <= a.itemSize < 0x1_0000_0000)
    requires mine == heap.Contents()
    modifies heap`L, heap.mem, heap.freeHead
    ensures heap.Valid() && (a.Get? ==> GetOk(old(heap.L), a.itemSize, r))
    ensures heap.Contents() == After(mine, a, r)
  {
    match a
    case Get(itemSize) => r := PerformGet(heap, itemSize, mine);
    case Release(offset) =>
      PerformRelease(heap, offset, mine);
      r := Performed;
    case Write(offset, index, word) =>
      PerformWrite(heap, offset, index, word, mine);
      r := Performed;
  }

  lemma ContentsChunks(n: nat, L: Layout, m: seq<int>)
    requires WellFormed(n, L) && |m| == n
    ensures SameChunks(L, Payloads(Live(L), m))
  {
    forall s | s in Live(L)
      ensures |Inside(m, s, Live(L)[s])| + 2 == Live(L)[s]
    {
      assert ChunkOk(n, L.size, L.left, s);
    }
  }

  /** A run as the program sees it: the heap is well formed at every moment, each request is
      answered as the layout at that moment demands, and the allocated chunks are those that
      replaying the actions gives. */
  ghost predicate RunOk(n: nat, program: seq<Action>, results: seq<Result>, layouts: seq<Layout>) {
    && |results| == |program| && |layouts| == |program| + 1
    && (forall t {:trigger layouts[t]} :: 0 <= t <= |program| ==> WellFormed(n, layouts[t]))
    && (forall t {:trigger program[t]} :: 0 <= t < |program| && program[t].Get? ==>
                                            GetOk(layouts[t], program[t].itemSize, results[t]))
    && (forall t {:trigger layouts[t]} :: 0 <= t <= |program| ==>
                                            SameChunks(layouts[t], Replay(program[..t], results[..t])))
  }

  lemma RunOneMore(n: nat, program: seq<Action>, results: seq<Result>, layouts: seq<Layout>,
                   a: Action, r: Result, L: Layout)
    requires RunOk(n, program, results, layouts) && WellFormed(n, L)
    requires a.Get? ==> GetOk(layouts[|program|], a.itemSize, r)
    requires SameChunks(L, After(Replay(program, results), a, r))
    ensures RunOk(n, program + [a], results + [r], layouts + [L])
  {
    var k := |program|;
    var p, rs, ls := program + [a], results + [r], layouts + [L];
    forall t | 0 <= t <= k + 1
      ensures SameChunks(ls[t], Replay(p[..t], rs[..t]))
    {
      if t <= k {
        assert p[..t] == program[..t] && rs[..t] == results[..t] && ls[t] == layouts[t];
      } else {
        assert p[..t] == p && rs[..t] == rs;
        ReplayOneMore(program, results, a, r);
      }
    }
  }

  /** One more action of a run. */
  method RunStep(heap: Heap, ghost program: seq<Action>, results: seq<Result>, ghost layouts: seq<Layout>,
                 a: Action, mine: map<int, seq<int>>)
    returns (mine': map<int, seq<int>>, results': seq<Result>, ghost layouts': seq<Layout>)
    requires heap.Valid() && RunOk(heap.mem.Length, program, results, layouts) && layouts[|program|] == heap.L
    requires mine == heap.Contents() == Replay(program, results)
    requires a.Get? ==> 9 <= a.itemSize < 0x1_0000_0000
    modifies heap`L, heap.mem, heap.freeHead
    ensures heap.Valid() && RunOk(heap.mem.Length, program + [a], results', layouts')
    ensures layouts' == layouts + [heap.L]
    ensures mine' == heap.Contents() == Replay(program + [a], results')
  {
    var r := Perform(heap, a, mine);
    ReplayOneMore(program, results, a, r);
    ContentsChunks(heap.mem.Length, heap.L, heap.mem[..]);
    RunOneMore(heap.mem.Length, program, results, layouts, a, r, heap.L);
    mine', results', layouts' := After(mine, a, r), results + [r], layouts + [heap.L];
  }

  /** Any program that allocates, releases and writes its own allocations: at the end, and at every
      moment, the heap holds exactly what replaying the program's actions and the answers it got
      gives, and with nothing left allocated the heap is one free chunk again. */
  method RunProgram(heap: Heap, program: seq<Action>) returns (results: seq<Result>, ghost layouts: seq<Layout>)
    requires heap.Valid() && heap.Contents() == map[]
    requires forall r :: r in program && r.Get? ==> 9 <= r.itemSize < 0x1_0000_0000
    modifies heap`L, heap.mem, heap.freeHead
    ensures heap.Valid() && RunOk(heap.mem.Length, program, results, layouts)
    ensures layouts[0] == old(heap.L) && layouts[|program|] == heap.L
    ensures heap.Contents() == Replay(program, results)
    ensures heap.Contents() == map[] ==> heap.L.size == map[0 := heap.mem.Length] && heap.L.free == {0}
  {
    results, layouts := [], [heap.L];
    var mine: map<int, seq<int>> := map[];
    ContentsChunks(heap.mem.Length, heap.L, heap.mem[..]);
    assert program[..0] == [];
    for step := 0 to |program|
      invariant heap.Valid() && RunOk(heap.mem.Length, program[..step], results, layouts)
      invariant layouts[0] == old(heap.L) && layouts[step] == heap.L
      invariant mine == heap.Contents() == Replay(program[..step], results)
    {
      assert program[step] in program && program[..step + 1] == program[..step] + [program[step]];
      mine, results, layouts := RunStep(heap, program[..step], results, layouts, program[step], mine);
    }
    assert program[..|program|] == program;
    if heap.Contents() == map[] {
      NothingAllocated(heap);
    }
  }

  lemma NothingAllocated(heap: Heap)
    requires heap.Valid() && heap.Contents() == map[]
    ensures heap.L.size == map[0 := heap.mem.Length] && heap.L.free == {0}
  {
    assert heap.Contents().Keys == Live(heap.L).Keys;
    forall s | s in heap.L.size
      ensures s in heap.L.free
    {
      assert s !in Live(heap.L);
    }
    AllFreeIsOneChunk(heap.mem.Length, heap.L);
  }

  // ---------------------------------------------------------------- a request that fails despite space

  /** Two released chunks of 320 and 280 bytes between allocations of 32 bytes. */
  lemma TwoReleased(n: nat, L: Layout)
    requires WellFormed(n, L) && Live(L) == map[40 := 4, 79 := 4] && AtHead(L, 44, 35)
    ensures BlockedByHead(L, 288) && 0 in L.free && L.size[0] == 40
  {
    var h :| HeadCovers(L, h, 44, 35);
    assert 40 in Live(L) && 79 in Live(L) && h !in Live(L);
    assert Apart(L.size, 40, h) && Apart(L.size, h, 40) && Apart(L.size, h, 79);
    assert h == 44 && L.size[h] == 35;
    assert 0 !in Live(L) && Apart(L.size, 0, 40) && Apart(L.size, 0, 79) && ChunkOk(n, L.size, L.left, 0);
    assert EndsAtAllocated(L.size, L.free, 0) && ChunkOk(n, L.size, L.left, 40);
    assert L.size[0] in Live(L);
  }

  /** For every heap that has room, a run of calls after which a request fails its assertion
      although a free chunk is large enough: two chunks released in this order leave the smaller
      one at the head of the last class, where the request meets it. */
  method BlockedDespiteSpace(heap: Heap) returns (r: Outcome)
    requires heap.Valid() && 87 <= heap.mem.Length
    requires heap.L.size == map[0 := heap.mem.Length] && heap.L.free == {0}
    modifies heap`L, heap.mem, heap.freeHead
    ensures heap.Valid() && r == AssertionFailed
    ensures 0 in heap.L.free && Request(272) <= 8 * heap.L.size[0]
  {
    FourTaken(heap);
    ReleaseTwo(heap);
    TwoReleased(heap.mem.Length, heap.L);
    r := heap.Allocate(272);
  }

  method FourTaken(heap: Heap)
    requires heap.Valid() && 87 <= heap.mem.Length
    requires heap.L.size == map[0 := heap.mem.Length] && heap.L.free == {0}
    modifies heap`L, heap.mem, heap.freeHead
    ensures heap.Valid() && Live(heap.L) == map[0 := 40, 40 := 4, 44 := 35, 79 := 4]
  {
    TakeAt(heap, 304, 0, map[]);
    TakeAt(heap, 16, 40, map[0 := 40]);
    TakeAt(heap, 264, 44, map[0 := 40, 40 := 4]);
    TakeAt(heap, 16, 79, map[0 := 40, 40 := 4, 44 := 35]);
  }

  lemma ReleasedMaps()
    ensures map[0 := 40, 40 := 4, 44 := 35, 79 := 4] - {0} == map[40 := 4, 44 := 35, 79 := 4]
    ensures map[40 := 4, 44 := 35, 79 := 4] - {44} == map[40 := 4, 79 := 4]
  {
  }

  method ReleaseTwo(heap: Heap)
    requires heap.Valid() && Live(heap.L) == map[0 := 40, 40 := 4, 44 := 35, 79 := 4]
    modifies heap`L, heap.mem, heap.freeHead
    ensures heap.Valid() && Live(heap.L) == map[40 := 4, 79 := 4] && AtHead(heap.L, 44, 35)
  {
    ReleasedMaps();
    heap.Deallocate(8);
    heap.Deallocate(360);
  }

  /** A request that takes the front of the one free chunk at the end of the heap. */
  method TakeAt(heap: Heap, itemSize: nat, e: nat, ghost live: map<int, nat>)
    requires heap.Valid() && 9 <= itemSize <= 304
    requires e + Request(itemSize) / 8 + 4 <= heap.mem.Length
    requires heap.L.free == {e} && e in heap.L.size && heap.L.size[e] == heap.mem.Length - e && Live(heap.L) == live
    modifies heap`L, heap.mem, heap.freeHead
    ensures heap.Valid()
    ensures var e' := e + Request(itemSize) / 8;
            && heap.L.free == {e'} && e' in heap.L.size && heap.L.size[e'] == heap.mem.Length - e'
            && Live(heap.L) == live[e := Request(itemSize) / 8]
  {
    ghost var L0 := heap.L;
    assert HeadOk(L0, NUM_CLASSES - 1);
    assert NIL in L0.size ==> ChunkOk(heap.mem.Length, L0.size, L0.left, NIL);
    var r := heap.Allocate(itemSize);
  }
}
