/** The fill of the Maglev table: backends take turns, each claiming its most preferred slot
    that is still free, until the table is full. */
module MaglevTable {
  import opened MaglevRow
  import opened Murmur

  /** How many slots a backend has. */
  function Count(table: seq<int>, b: int): nat {
    if table == [] then 0
    else Count(table[..|table| - 1], b) + if table[|table| - 1] == b then 1 else 0
  }

  /** How many slots are taken. */
  function Taken(table: seq<int>): nat {
    if table == [] then 0
    else Taken(table[..|table| - 1]) + if table[|table| - 1] >= 0 then 1 else 0
  }

  lemma {:induction false} CountUpdate(table: seq<int>, c: nat, v: int, b: int)
    requires c < |table|
    ensures Count(table[c := v], b) == Count(table, b) - (if table[c] == b then 1 else 0) + (if v == b then 1 else 0)
  {
    var n := |table| - 1;
    if c < n {
      assert table[c := v][..n] == table[..n][c := v];
      CountUpdate(table[..n], c, v, b);
    } else {
      assert table[c := v][..n] == table[..n];
    }
  }

  lemma {:induction false} TakenUpdate(table: seq<int>, c: nat, v: int)
    requires c < |table|
    ensures Taken(table[c := v]) == Taken(table) - (if table[c] >= 0 then 1 else 0) + (if v >= 0 then 1 else 0)
  {
    var n := |table| - 1;
    if c < n {
      assert table[c := v][..n] == table[..n][c := v];
      TakenUpdate(table[..n], c, v);
    } else {
      assert table[c := v][..n] == table[..n];
    }
  }

  lemma {:induction false} TakenAll(table: seq<int>)
    requires forall c :: 0 <= c < |table| ==> table[c] >= 0
    ensures Taken(table) == |table|
  {
    if table != [] {
      TakenAll(table[..|table| - 1]);
    }
  }

  lemma {:induction false} EmptyTable(table: seq<int>, b: int)
    requires (forall c :: 0 <= c < |table| ==> table[c] == -1) && b >= 0
    ensures Taken(table) == 0 && Count(table, b) == 0
  {
    if table != [] {
      EmptyTable(table[..|table| - 1], b);
    }
  }

  /** Rows that the source's code can read: one entry for each table index, in range. */
  ghost predicate RowsOk(rows: seq<seq<int>>, m: nat) {
    forall i :: 0 <= i < |rows| ==> |rows[i]| == m && forall j :: 0 <= j < m ==> 0 <= rows[i][j] < m
  }

  ghost predicate AllPermutations(rows: seq<seq<int>>, m: nat) {
    forall i :: 0 <= i < |rows| ==> IsPermutation(rows[i], m)
  }

  /** Every slot has a backend. */
  ghost predicate Assigned(table: seq<int>, n: nat) {
    forall c :: 0 <= c < |table| ==> 0 <= table[c] < n
  }

  /** No backend has two slots more than another. */
  ghost predicate Balanced(table: seq<int>, n: nat) {
    forall a, b :: 0 <= a < n && 0 <= b < n ==> Count(table, a) <= Count(table, b) + 1
  }

  /** The entries of a row before its next position are taken. */
  ghost predicate Used(table: seq<int>, row: seq<int>, next: nat) {
    forall j :: 0 <= j < next && j < |row| ==> 0 <= row[j] < |table| && table[row[j]] >= 0
  }

  /** The backends whose rows are not permutations. */
  ghost function Improper(rows: seq<seq<int>>, m: nat): set<nat> {
    set b: nat | b < |rows| && !IsPermutation(rows[b], m)
  }

  /** No backend has more than one slot and `slack` above a backend whose row is a permutation. */
  ghost predicate NearlyBalanced(table: seq<int>, rows: seq<seq<int>>, slack: nat) {
    forall a, b :: 0 <= a < |rows| && 0 <= b < |rows| && IsPermutation(rows[b], |table|) ==>
                     Count(table, a) <= Count(table, b) + 1 + slack
  }

  /** After k full rounds and i turns, with `lost` slots claimed twice: no backend has more slots
      than it had turns, and one whose row is a permutation has at most `lost` fewer. */
  ghost predicate Shares(table: seq<int>, rows: seq<seq<int>>, lost: nat, k: nat, i: nat) {
    forall b {:trigger Count(table, b)} :: 0 <= b < |rows| ==>
      && Count(table, b) <= k + (if b < i then 1 else 0)
      && (IsPermutation(rows[b], |table|) ==> k + (if b < i then 1 else 0) <= Count(table, b) + lost)
  }

  /** While a slot is free, only a row that is not a permutation can run out. */
  lemma FreeSlotAhead(table: seq<int>, row: seq<int>, m: nat)
    requires |table| == m && IsPermutation(row, m) && Taken(table) < m
    ensures !Used(table, row, m)
  {
    if Used(table, row, m) {
      forall c | 0 <= c < m
        ensures table[c] >= 0
      {
        assert c in row;
        var j :| 0 <= j < m && row[j] == c;
      }
      TakenAll(table);
    }
  }

  /** A turn: walk the row from `next` to the first free slot and claim it.  If the row runs
      out, its last slot is claimed although it is taken. */
  method Turn(table: array<int>, row: seq<int>, next: nat, backend: nat)
    returns (next': nat, ghost c: nat, ghost free: bool)
    requires |row| == table.Length && next < table.Length
    requires forall j :: 0 <= j < |row| ==> 0 <= row[j] < table.Length
    modifies table
    ensures c < table.Length && table[..] == old(table[..])[c := backend]
    ensures free <==> old(table[c]) < 0
    ensures next < next' <= table.Length + 1 && (free <==> next' <= table.Length)
    ensures row[if free then next' - 1 else |row| - 1] == c
    ensures forall j :: next <= j < next' - 1 ==> old(table[row[j]]) >= 0
  {
    next' := next;
    var slot := row[next'];
    while table[slot] >= 0
      invariant next <= next' < table.Length && slot == row[next']
      invariant forall j :: next <= j < next' ==> table[row[j]] >= 0
      decreases table.Length - next'
    {
      next' := next' + 1;
      if next' >= table.Length {
        break;
      }
      slot := row[next'];
    }
    c, free := slot, table[slot] < 0;
    table[slot] := backend;
    next' := next' + 1;
  }

  /** The state of the fill: `spent` are the backends that claimed a taken slot, which each did
      when its row ran out. */
  ghost predicate FillOk(table: seq<int>, rows: seq<seq<int>>, next: seq<nat>, spent: set<nat>, k: nat, i: nat) {
    && |next| == |rows|
    && Shares(table, rows, |spent|, k, i)
    && spent <= Improper(rows, |table|)
    && (forall b :: b in spent ==> b < |next| && next[b] > |table|)
    && (forall b {:trigger next[b]} :: 0 <= b < |rows| ==> Used(table, rows[b], next[b]))
  }

  /** Claimed slots stay claimed. */
  lemma UsedStays(table: seq<int>, row: seq<int>, next: nat, c: nat, i: nat)
    requires c < |table| && Used(table, row, next)
    ensures Used(table[c := i], row, next)
  {
  }

  /** A turn of backend i that claims a free slot. */
  lemma FreeTurn(table: seq<int>, rows: seq<seq<int>>, next: seq<nat>, spent: set<nat>, k: nat, i: nat,
                 c: nat, next': nat)
    requires FillOk(table, rows, next, spent, k, i) && i < |rows| && c < |table| && table[c] < 0
    requires next[i] < next' <= |table| == |rows[i]| && rows[i][next' - 1] == c
    requires forall j :: next[i] <= j < next' - 1 ==> 0 <= rows[i][j] < |table| && table[rows[i][j]] >= 0
    ensures FillOk(table[c := i], rows, next[i := next'], spent, k, i + 1)
    ensures Taken(table[c := i]) == Taken(table) + 1
  {
    var table' := table[c := i];
    TakenUpdate(table, c, i);
    forall b | 0 <= b < |rows|
      ensures Count(table', b) == Count(table, b) + if b == i then 1 else 0
    {
      CountUpdate(table, c, i, b);
    }
    forall b | 0 <= b < |rows|
      ensures Used(table', rows[b], next[i := next'][b])
    {
      UsedStays(table, rows[b], next[b], c, i);
    }
  }

  /** A turn of backend i whose row runs out, so that it claims a taken slot. */
  lemma LastTurn(table: seq<int>, rows: seq<seq<int>>, next: seq<nat>, spent: set<nat>, k: nat, i: nat, c: nat)
    requires FillOk(table, rows, next, spent, k, i) && i < |rows| && c < |table| && table[c] >= 0
    requires next[i] < |table| == |rows[i]| && Taken(table) < |table|
    requires forall j :: next[i] <= j < |table| ==> 0 <= rows[i][j] < |table| && table[rows[i][j]] >= 0
    ensures i !in spent && FillOk(table[c := i], rows, next[i := |table| + 1], spent + {i}, k, i + 1)
    ensures Taken(table[c := i]) == Taken(table)
  {
    var table' := table[c := i];
    RunsOut(table, rows, next, i);
    TakenUpdate(table, c, i);
    assert i !in spent;
    assert |spent + {i}| == |spent| + 1;
    forall b | 0 <= b < |rows|
      ensures Count(table, b) <= Count(table', b) + 1 && Count(table', b) <= Count(table, b) + if b == i then 1 else 0
    {
      CountUpdate(table, c, i, b);
    }
    forall b | 0 <= b < |rows|
      ensures Used(table', rows[b], next[i := |table| + 1][b])
    {
      UsedStays(table, rows[b], if b == i then |table| else next[b], c, i);
    }
  }

  lemma RunsOut(table: seq<int>, rows: seq<seq<int>>, next: seq<nat>, i: nat)
    requires i < |rows| == |next| && |rows[i]| == |table| && Taken(table) < |table|
    requires Used(table, rows[i], next[i])
    requires forall j :: next[i] <= j < |table| ==> 0 <= rows[i][j] < |table| && table[rows[i][j]] >= 0
    ensures Used(table, rows[i], |table|) && i in Improper(rows, |table|)
  {
    if IsPermutation(rows[i], |table|) {
      FreeSlotAhead(table, rows[i], |table|);
    }
  }

  /** A turn that is skipped because the row has run out. */
  lemma NoTurn(table: seq<int>, rows: seq<seq<int>>, next: seq<nat>, spent: set<nat>, k: nat, i: nat)
    requires FillOk(table, rows, next, spent, k, i) && i < |rows|
    requires next[i] >= |table| == |rows[i]| && Taken(table) < |table|
    ensures FillOk(table, rows, next, spent, k, i + 1)
  {
    RunsOut(table, rows, next, i);
  }

  lemma RoundEnds(table: seq<int>, rows: seq<seq<int>>, next: seq<nat>, spent: set<nat>, k: nat)
    requires FillOk(table, rows, next, spent, k, |rows|)
    ensures FillOk(table, rows, next, spent, k + 1, 0) && NearlyBalanced(table, rows, |spent|)
  {
  }

  /** At any time the slots are shared evenly but for those claimed twice. */
  lemma FillIsBalanced(table: seq<int>, rows: seq<seq<int>>, next: seq<nat>, spent: set<nat>, k: nat, i: nat)
    requires FillOk(table, rows, next, spent, k, i)
    ensures NearlyBalanced(table, rows, |spent|)
  {
  }

  lemma {:induction false} FullIsTaken(table: seq<int>)
    requires Taken(table) == |table|
    ensures forall c :: 0 <= c < |table| ==> table[c] >= 0
  {
    if table != [] {
      var n := |table| - 1;
      TakenAtMost(table[..n]);
      FullIsTaken(table[..n]);
      assert forall c :: 0 <= c < n ==> table[c] == table[..n][c];
    }
  }

  lemma {:induction false} TakenAtMost(table: seq<int>)
    ensures Taken(table) <= |table|
  {
    if table != [] {
      TakenAtMost(table[..|table| - 1]);
    }
  }

  /** A table during the fill: a slot is still -1 or has a backend that lists it in its row. */
  ghost predicate SlotsOk(table: seq<int>, rows: seq<seq<int>>) {
    forall c :: 0 <= c < |table| ==> table[c] == -1 || (0 <= table[c] < |rows| && c in rows[table[c]])
  }

  /** The turn of a backend whose row has not run out. */
  method TakeTurn(table: array<int>, rows: seq<seq<int>>, next: array<nat>, i: nat, ghost spent: set<nat>, ghost k: nat)
    returns (ghost spent': set<nat>)
    requires RowsOk(rows, table.Length) && next.Length == |rows| && i < |rows| && next[i] < table.Length
    requires Taken(table[..]) < table.Length && SlotsOk(table[..], rows)
    requires FillOk(table[..], rows, next[..], spent, k, i)
    modifies table, next
    ensures SlotsOk(table[..], rows) && FillOk(table[..], rows, next[..], spent', k, i + 1)
    ensures NearlyBalanced(table[..], rows, |spent'|)
    ensures Taken(table[..]) + |spent'| == old(Taken(table[..])) + |spent| + 1
  {
    ghost var t0, n0 := table[..], next[..];
    var next', c, free := Turn(table, rows[i], next[i], i);
    next[i] := next';
    assert next[..] == n0[i := next'];
    if free {
      FreeTurn(t0, rows, n0, spent, k, i, c, next');
      spent' := spent;
    } else {
      LastTurn(t0, rows, n0, spent, k, i, c);
      spent' := spent + {i};
    }
    FillIsBalanced(table[..], rows, next[..], spent', k, i + 1);
  }

  /** One round of turns.  It stops early when the table counts as full. */
  method Round(table: array<int>, rows: seq<seq<int>>, next: array<nat>, filled: nat, ghost spent: set<nat>,
               ghost k: nat)
    returns (filled': nat, ghost spent': set<nat>)
    requires 0 < table.Length && RowsOk(rows, table.Length) && next.Length == |rows|
    requires Taken(table[..]) + |spent| == filled < table.Length
    requires SlotsOk(table[..], rows) && FillOk(table[..], rows, next[..], spent, k, 0)
    modifies table, next
    ensures filled <= filled' <= table.Length && Taken(table[..]) + |spent'| == filled'
    ensures SlotsOk(table[..], rows) && spent' <= Improper(rows, table.Length)
    ensures NearlyBalanced(table[..], rows, |spent'|)
    ensures filled' == filled ==> forall b :: 0 <= b < |rows| ==> old(next[b]) >= table.Length
    ensures filled' < table.Length ==> FillOk(table[..], rows, next[..], spent', k + 1, 0)
  {
    filled', spent' := filled, spent;
    for i := 0 to |rows|
      invariant filled <= filled' < table.Length && Taken(table[..]) + |spent'| == filled'
      invariant SlotsOk(table[..], rows) && FillOk(table[..], rows, next[..], spent', k, i)
      invariant filled' == filled ==> forall b :: 0 <= b < |rows| ==> next[b] == old(next[b])
      invariant filled' == filled ==> forall b :: 0 <= b < i ==> next[b] >= table.Length
    {
      if next[i] >= table.Length {
        NoTurn(table[..], rows, next[..], spent', k, i);
        continue;
      }
      spent' := TakeTurn(table, rows, next, i, spent', k);
      filled' := filled' + 1;
      if filled' == table.Length {
        return;
      }
    }
    RoundEnds(table[..], rows, next[..], spent', k);
  }

  method RowsExhausted(next: array<nat>, m: nat) returns (end: bool)
    ensures end <==> forall b :: 0 <= b < next.Length ==> next[b] >= m
  {
    for i := 0 to next.Length
      invariant forall b :: 0 <= b < i ==> next[b] >= m
    {
      if next[i] < m {
        return false;
      }
    }
    return true;
  }

  /** While a slot is free, a backend whose row is a permutation still has slots to claim. */
  lemma NotExhausted(table: seq<int>, rows: seq<seq<int>>, next: seq<nat>, b: nat)
    requires b < |rows| == |next| && IsPermutation(rows[b], |table|) && Taken(table) < |table|
    requires Used(table, rows[b], next[b])
    ensures next[b] < |table|
  {
    FreeSlotAhead(table, rows[b], |table|);
  }

  method Start(table: array<int>, rows: seq<seq<int>>) returns (next: array<nat>)
    requires |rows| > 0
    modifies table
    ensures fresh(next) && next.Length == |rows| && forall b :: 0 <= b < |rows| ==> next[b] == 0
    ensures SlotsOk(table[..], rows) && Taken(table[..]) == 0 && FillOk(table[..], rows, next[..], {}, 0, 0)
  {
    next := new nat[|rows|];
    for i := 0 to |rows|
      invariant forall b :: 0 <= b < i ==> next[b] == 0
    {
      next[i] := 0;
    }
    for i := 0 to table.Length
      invariant forall c :: 0 <= c < i ==> table[c] == -1
      invariant forall b :: 0 <= b < |rows| ==> next[b] == 0
    {
      table[i] := -1;
    }
    EmptyTable(table[..], 0);
    forall b | 0 <= b < |rows|
      ensures Count(table[..], b) == 0
    {
      EmptyTable(table[..], b);
    }
  }

  /** Fill the table.  The fill counts a turn as a slot filled even when it claims a taken slot, so
      when it counts the table as full exactly as many slots are left without a backend as backends
      did that.  Each such backend has a row that is not a permutation and does it once. */
  method Configure(table: array<int>, rows: seq<seq<int>>) returns (full: bool, ghost spent: set<nat>)
    requires 0 < table.Length && RowsOk(rows, table.Length) && 0 < |rows|
    modifies table
    ensures spent <= Improper(rows, table.Length) && |spent| <= |Improper(rows, table.Length)|
    ensures Assigned(table[..], |rows|) <==> !full || spent == {}
    ensures full ==> Taken(table[..]) + |spent| == table.Length && SlotsOk(table[..], rows)
    ensures full ==> NearlyBalanced(table[..], rows, |spent|)
    ensures (exists i :: 0 <= i < |rows| && IsPermutation(rows[i], table.Length)) ==> full
    ensures AllPermutations(rows, table.Length) ==> full && spent == {} && Balanced(table[..], |rows|)
  {
    var m := table.Length;
    var next := Start(table, rows);
    var filled := 0;
    ghost var k := 0;
    spent := {};
    assert next[0] < m;
    while true
      invariant filled < m && Taken(table[..]) + |spent| == filled
      invariant SlotsOk(table[..], rows) && FillOk(table[..], rows, next[..], spent, k, 0)
      invariant exists i :: 0 <= i < |rows| && next[i] < m
      decreases m - filled
    {
      filled, spent := Round(table, rows, next, filled, spent, k);
      k := k + 1;
      if filled == m {
        FullOutcome(table[..], rows, spent);
        SubsetSize(spent, Improper(rows, m));
        return true, spent;
      }
      var end := RowsExhausted(next, m);
      if end {
        forall i | 0 <= i < |rows|
          ensures !IsPermutation(rows[i], m)
        {
          if IsPermutation(rows[i], m) {
            NotExhausted(table[..], rows, next[..], i);
          }
        }
        break;
      }
    }
    SubsetSize(spent, Improper(rows, m));
    FillRest(table, |rows|);
    return false, spent;
  }

  /** What is known of a table that counts as full. */
  lemma FullOutcome(table: seq<int>, rows: seq<seq<int>>, spent: set<nat>)
    requires Taken(table) + |spent| == |table| && SlotsOk(table, rows)
    requires spent <= Improper(rows, |table|) && NearlyBalanced(table, rows, |spent|)
    ensures Assigned(table, |rows|) <==> spent == {}
    ensures AllPermutations(rows, |table|) ==> spent == {} && Balanced(table, |rows|)
  {
    if spent == {} {
      FullIsTaken(table);
    }
    if Assigned(table, |rows|) {
      TakenAll(table);
    }
  }

  /** Slots that no row reached are dealt out in turn. */
  method FillRest(table: array<int>, n: nat)
    requires 0 < n && forall c :: 0 <= c < table.Length ==> table[c] < n
    modifies table
    ensures Assigned(table[..], n)
    ensures forall c :: 0 <= c < table.Length && old(table[c]) >= 0 ==> table[c] == old(table[c])
  {
    var backend := 0;
    for c := 0 to table.Length
      invariant 0 <= backend < n
      invariant forall d :: 0 <= d < c ==> 0 <= table[d] < n && (old(table[d]) >= 0 ==> table[d] == old(table[d]))
      invariant forall d :: c <= d < table.Length ==> table[d] == old(table[d]) < n
    {
      if table[c] < 0 {
        table[c] := backend;
        backend := (backend + 1) % n;
      }
    }
  }

  /** A table made from the hashes of the backends' indices. */
  ghost predicate TableOk(table: seq<int>, hashes: seq<int>, full: bool, spent: set<nat>) {
    && (Assigned(table, |hashes|) <==> !full || spent == {})
    && (forall b :: b in spent ==> b < |hashes| && !GoodHash(hashes[b]))
    && (full ==> Taken(table) + |spent| == |table|)
    && (full ==> forall a, b :: 0 <= a < |hashes| && 0 <= b < |hashes| && GoodHash(hashes[b]) ==>
                                  Count(table, a) <= Count(table, b) + 1 + |spent|)
    && ((exists i :: 0 <= i < |hashes| && GoodHash(hashes[i])) ==> full)
    && ((forall i :: 0 <= i < |hashes| ==> GoodHash(hashes[i])) ==> full && spent == {} && Balanced(table, |hashes|))
  }

  method ConfigureHashes(table: array<int>, hashes: seq<int>) returns (full: bool, ghost spent: set<nat>)
    requires table.Length == LOOKUP_SIZE && 0 < |hashes|
    modifies table
    ensures TableOk(table[..], hashes, full, spent)
  {
    var rows := seq(|hashes|, i requires 0 <= i < |hashes| => Row(hashes[i], LOOKUP_SIZE));
    forall i | 0 <= i < |rows|
      ensures |rows[i]| == LOOKUP_SIZE && forall j :: 0 <= j < LOOKUP_SIZE ==> 0 <= rows[i][j] < LOOKUP_SIZE
      ensures GoodHash(hashes[i]) <==> IsPermutation(rows[i], LOOKUP_SIZE)
    {
      RowInRange(hashes[i], LOOKUP_SIZE);
      RowPermutationIff(hashes[i]);
    }
    full, spent := Configure(table, rows);
  }

  /** The table that the source builds for n backends.  With three or more the fill counts it as
      full, and fewer slots than backends are left without one. */
  method ConfigureBackends(table: array<int>, n: nat) returns (full: bool, ghost spent: set<nat>)
    requires table.Length == LOOKUP_SIZE && 0 < n < TWO_31
    modifies table
    ensures TableOk(table[..], IndexHashes(n), full, spent)
    ensures 3 <= n ==> full && 2 !in spent && |spent| < n
  {
    var hashes := IndexHashes(n);
    full, spent := ConfigureHashes(table, hashes);
    if 3 <= n {
      FirstRows(n);
      ThirdNotSpent(table[..], hashes, full, spent);
    }
  }

  lemma ThirdNotSpent(table: seq<int>, hashes: seq<int>, full: bool, spent: set<nat>)
    requires TableOk(table, hashes, full, spent) && 3 <= |hashes| && GoodHash(hashes[2])
    ensures full && 2 !in spent && |spent| < |hashes|
  {
    var n := |hashes|;
    assert spent + {2} <= Range(n);
    SubsetSize(spent + {2}, Range(n));
  }

  lemma SubsetSize(a: set<int>, b: set<int>)
    requires a <= b
    ensures |a| <= |b|
  {
    assert |b - a| == |b| - |a|;
  }
}
