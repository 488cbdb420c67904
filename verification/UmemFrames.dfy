/** The frames of a UMEM on their way through the fill, receive, transmit and completion rings.
    The kernel runs beside the program, so each method is one step that may come between any two
    others; the program's operations are cut where the kernel can see the difference. */
module UmemFrames {
  import opened UmemRing

  /** The fragments of the packets that end in a batch, and those of the last packet left over. */
  method CountFragments(eops: seq<bool>, open: nat) returns (done: nat, left: nat)
    ensures done + left == open + |eops|
    ensures left == LeftOpen(eops, open)
  {
    done, left := 0, open;
    var i := 0;
    while i < |eops|
      invariant i <= |eops| && done + left == open + i
      invariant left == LeftOpen(eops[..i], open)
    {
      left := left + 1;
      if eops[i] {
        done, left := done + left, 0;
      }
      assert eops[..i + 1] == eops[..i] + [eops[i]];
      i := i + 1;
    }
    assert eops[..i] == eops;
  }

  /** The fragments of the packet that is still open after a batch, `open` of them from before. */
  function LeftOpen(eops: seq<bool>, open: nat): nat {
    (if true in eops then 0 else open) + |eops| - AfterLastEnd(eops)
  }

  /** Where the fragments after the last end of a packet begin. */
  function AfterLastEnd(eops: seq<bool>): (k: nat)
    ensures k <= |eops| && (k > 0 ==> eops[k - 1]) && forall j :: k <= j < |eops| ==> !eops[j]
  {
    if eops == [] then 0
    else if eops[|eops| - 1] then |eops|
    else AfterLastEnd(eops[..|eops| - 1])
  }

  /** Where frames can be: the fill ring, the kernel, the receive ring, the program's hands,
      transmit slots not yet submitted, the transmit ring, the device and the completion ring. */
  datatype Spread = Spread(
    fill: seq<nat>,
    kernel: multiset<nat>,
    rx: seq<nat>,
    held: seq<nat>,
    pending: seq<nat>,
    tx: seq<nat>,
    sending: multiset<nat>,
    comp: seq<nat>)

  ghost function Places(d: Spread, f: nat): nat {
    multiset(d.fill)[f] + d.kernel[f] + multiset(d.rx)[f] + multiset(d.held)[f] + multiset(d.pending)[f] +
    multiset(d.tx)[f] + d.sending[f] + multiset(d.comp)[f]
  }

  /** Every frame is in exactly one place, and nothing else is anywhere. */
  ghost predicate Conserved(n: nat, d: Spread) {
    && (forall f: nat {:trigger Places(d, f)} :: Places(d, f) == if f < n then 1 else 0)
    && |d.fill| + |d.kernel| + |d.rx| + |d.held| + |d.pending| + |d.tx| + |d.sending| + |d.comp| == n
  }

  lemma CountSplit(q: seq<nat>, i: nat, f: nat)
    requires i <= |q|
    ensures multiset(q)[f] == multiset(q[..i])[f] + multiset(q[i..])[f]
  {
    assert q == q[..i] + q[i..];
  }

  lemma TakeKeeps(n: nat, d: Spread)
    requires Conserved(n, d) && d.fill != []
    ensures Conserved(n, d.(fill := d.fill[1..], kernel := d.kernel + multiset{d.fill[0]}))
  {
    var d' := d.(fill := d.fill[1..], kernel := d.kernel + multiset{d.fill[0]});
    forall f: nat
      ensures Places(d', f) == Places(d, f)
    {
      CountSplit(d.fill, 1, f);
      assert d.fill[..1] == [d.fill[0]];
    }
  }

  lemma DeliverKeeps(n: nat, d: Spread, x: nat)
    requires Conserved(n, d) && x in d.kernel
    ensures Conserved(n, d.(kernel := d.kernel - multiset{x}, rx := d.rx + [x]))
  {
    var d' := d.(kernel := d.kernel - multiset{x}, rx := d.rx + [x]);
    forall f: nat
      ensures Places(d', f) == Places(d, f)
    {
    }
  }

  lemma SendKeeps(n: nat, d: Spread)
    requires Conserved(n, d) && d.tx != []
    ensures Conserved(n, d.(tx := d.tx[1..], sending := d.sending + multiset{d.tx[0]}))
  {
    var d' := d.(tx := d.tx[1..], sending := d.sending + multiset{d.tx[0]});
    forall f: nat
      ensures Places(d', f) == Places(d, f)
    {
      CountSplit(d.tx, 1, f);
      assert d.tx[..1] == [d.tx[0]];
    }
  }

  lemma CompleteKeeps(n: nat, d: Spread, x: nat)
    requires Conserved(n, d) && x in d.sending
    ensures Conserved(n, d.(sending := d.sending - multiset{x}, comp := d.comp + [x]))
  {
    var d' := d.(sending := d.sending - multiset{x}, comp := d.comp + [x]);
    forall f: nat
      ensures Places(d', f) == Places(d, f)
    {
    }
  }

  lemma PeekRxKeeps(n: nat, d: Spread, i: nat)
    requires Conserved(n, d) && i <= |d.rx| && d.held == []
    ensures Conserved(n, d.(rx := d.rx[i..], held := d.rx[..i]))
  {
    var d' := d.(rx := d.rx[i..], held := d.rx[..i]);
    forall f: nat
      ensures Places(d', f) == Places(d, f)
    {
      CountSplit(d.rx, i, f);
    }
  }

  lemma PeekCompletedKeeps(n: nat, d: Spread, i: nat)
    requires Conserved(n, d) && i <= |d.comp| && d.held == []
    ensures Conserved(n, d.(comp := d.comp[i..], held := d.comp[..i]))
  {
    var d' := d.(comp := d.comp[i..], held := d.comp[..i]);
    forall f: nat
      ensures Places(d', f) == Places(d, f)
    {
      CountSplit(d.comp, i, f);
    }
  }

  lemma RefillKeeps(n: nat, d: Spread)
    requires Conserved(n, d)
    ensures Conserved(n, d.(fill := d.fill + d.held, held := []))
  {
    var d' := d.(fill := d.fill + d.held, held := []);
    forall f: nat
      ensures Places(d', f) == Places(d, f)
    {
    }
  }

  lemma TransmitKeeps(n: nat, d: Spread, i: nat)
    requires Conserved(n, d) && i <= |d.pending + d.held|
    ensures Conserved(n, d.(held := [], pending := (d.pending + d.held)[i..], tx := d.tx + (d.pending + d.held)[..i]))
  {
    var d' := d.(held := [], pending := (d.pending + d.held)[i..], tx := d.tx + (d.pending + d.held)[..i]);
    forall f: nat
      ensures Places(d', f) == Places(d, f)
    {
      CountSplit(d.pending + d.held, i, f);
    }
  }

  lemma InOrder(t: seq<nat>, p: seq<nat>, h: seq<nat>, i: nat)
    requires i <= |p + h|
    ensures t + (p + h)[..i] + (p + h)[i..] == t + p + h
  {
  }

  datatype Phase = Idle | Receiving | Completing | Forwarding

  /** What the program counts: the ends of packets beside the frames received and held, the
      frames given to the device, the fragments of packets still open, and the receive slots not
      given back. */
  datatype Counts = Counts(
    phase: Phase,
    rxEnds: seq<bool>,
    heldEnds: seq<bool>,
    outstanding: nat,
    nbFrags: nat,
    rxFrags: nat,
    unreleased: nat)

  /** The counts agree with where the frames are. */
  ghost predicate Counted(d: Spread, c: Counts) {
    && |c.rxEnds| == |d.rx| && |c.heldEnds| == |d.held| && |d.pending| == c.nbFrags
    && (c.phase == Idle ==> d.held == [])
    && c.outstanding == |d.tx| + |d.sending| + |d.comp| + (if c.phase == Completing then |d.held| else 0)
    && c.unreleased == c.rxFrags + c.nbFrags + if c.phase in {Receiving, Forwarding} then |d.held| else 0
  }

  ghost predicate Books(n: nat, d: Spread, c: Counts) {
    Conserved(n, d) && Counted(d, c)
  }

  lemma PeekRxBooks(n: nat, d: Spread, c: Counts, i: nat, phase: Phase)
    requires Books(n, d, c) && c.phase == Idle && i <= |d.rx| && phase in {Receiving, Forwarding}
    ensures |c.rxEnds| == |d.rx|
    ensures Books(n, d.(rx := d.rx[i..], held := d.rx[..i]),
                  c.(rxEnds := c.rxEnds[i..], heldEnds := c.rxEnds[..i], phase := phase,
                     unreleased := c.unreleased + i))
  {
    PeekRxKeeps(n, d, i);
  }

  lemma TransmitBooks(n: nat, d: Spread, c: Counts, done: nat, left: nat)
    requires Books(n, d, c) && c.phase == Forwarding && done + left == c.nbFrags + |c.heldEnds|
    ensures var written := d.pending + d.held;
            && done <= |written| && done <= c.unreleased && c.unreleased - done == c.rxFrags + left
            && Books(n, d.(held := [], pending := written[done..], tx := d.tx + written[..done]),
                     c.(heldEnds := [], phase := Idle, outstanding := c.outstanding + done, nbFrags := left,
                        unreleased := c.unreleased - done))
  {
    TransmitKeeps(n, d, done);
  }

  class Umem {
    const frames: nat
    const ring: FillRing
    /** Where the frames are that are not in the fill ring. */
    var at: Spread
    var counts: Counts

    ghost function Frames(): Spread
      reads this, ring
    {
      at.(fill := ring.queue)
    }

    ghost predicate Valid()
      reads this, ring, ring.slots
    {
      && ring.Valid() && ring.reserved == ring.produced && frames <= ring.size
      && Books(frames, Frames(), counts)
    }

    /** The fill ring gets every frame, and has one slot for each. */
    constructor (frames: nat)
      requires 0 < frames <= 0x8000_0000 && TWO_32 % frames == 0
      ensures Valid() && this.frames == frames && |ring.queue| == frames && counts.phase == Idle
      ensures fresh(ring) && fresh(ring.slots)
    {
      this.frames := frames;
      var r := new FillRing(frames);
      ring := r;
      at := Spread([], multiset{}, [], [], [], [], multiset{}, []);
      counts := Counts(Idle, [], [], 0, 0, 0, 0);
      new;
      var addrs := seq(frames, i => i);
      FirstFrames(addrs, frames);
      ring.Refill(addrs);
      assert addrs[..frames] == addrs;
    }

    // -------------------------------------------------------------- the kernel

    method KernelTake()
      requires Valid() && ring.queue != []
      modifies this`at, ring
      ensures Valid() && ring.queue == old(ring.queue)[1..]
      ensures at == old(at).(kernel := old(at.kernel) + multiset{old(ring.queue)[0]})
    {
      TakeKeeps(frames, Frames());
      var f := ring.Take();
      at := at.(kernel := at.kernel + multiset{f});
    }

    method KernelDeliver(f: nat, end: bool)
      requires Valid() && f in at.kernel
      modifies this`at, this`counts
      ensures Valid() && at == old(at).(kernel := old(at.kernel) - multiset{f}, rx := old(at.rx) + [f])
      ensures counts == old(counts).(rxEnds := old(counts.rxEnds) + [end])
    {
      DeliverKeeps(frames, Frames(), f);
      at := at.(kernel := at.kernel - multiset{f}, rx := at.rx + [f]);
      counts := counts.(rxEnds := counts.rxEnds + [end]);
    }

    method KernelSend()
      requires Valid() && at.tx != []
      modifies this`at
      ensures Valid()
      ensures at == old(at).(tx := old(at.tx)[1..], sending := old(at.sending) + multiset{old(at.tx)[0]})
    {
      SendKeeps(frames, Frames());
      at := at.(tx := at.tx[1..], sending := at.sending + multiset{at.tx[0]});
    }

    method KernelComplete(f: nat)
      requires Valid() && f in at.sending
      modifies this`at
      ensures Valid() && at == old(at).(sending := old(at.sending) - multiset{f}, comp := old(at.comp) + [f])
    {
      CompleteKeeps(frames, Frames(), f);
      at := at.(sending := at.sending - multiset{f}, comp := at.comp + [f]);
    }

    // -------------------------------------------------------------- the program

    /** Read a batch of received frames, to refill or to forward them. */
    method PeekRx(n: nat, forward: bool)
      requires Valid() && counts.phase == Idle && 0 < n <= |at.rx|
      modifies this`at, this`counts
      ensures Valid() && at == old(at).(rx := old(at.rx)[n..], held := old(at.rx)[..n])
      ensures counts.phase == (if forward then Forwarding else Receiving)
      ensures counts.unreleased == old(counts.unreleased) + n
    {
      var phase := if forward then Forwarding else Receiving;
      PeekRxBooks(frames, Frames(), counts, n, phase);
      at := at.(rx := at.rx[n..], held := at.rx[..n]);
      counts := counts.(rxEnds := counts.rxEnds[n..], heldEnds := counts.rxEnds[..n], phase := phase,
                        unreleased := counts.unreleased + n);
    }

    /** Read a batch of completed frames, no more than are outstanding. */
    method PeekCompleted(n: nat)
      requires Valid() && counts.phase == Idle && 0 < n <= |at.comp|
      modifies this`at, this`counts
      ensures Valid() && at == old(at).(comp := old(at.comp)[n..], held := old(at.comp)[..n])
      ensures counts.phase == Completing && n <= counts.outstanding
    {
      PeekCompletedKeeps(frames, Frames(), n);
      at := at.(comp := at.comp[n..], held := at.comp[..n]);
      counts := counts.(heldEnds := seq(n, _ => false), phase := Completing);
    }

    /** Put received frames back into the fill ring, and release the receive slots of the packets
        that are complete. */
    method RefillReceived()
      requires Valid() && counts.phase == Receiving
      modifies this`at, this`counts, ring, ring.slots
      ensures Valid() && counts.phase == Idle
      ensures ring.queue == old(ring.queue) + old(at.held) && at == old(at).(held := [])
      ensures counts.unreleased == counts.nbFrags + LeftOpen(old(counts.heldEnds), old(counts.rxFrags))
    {
      RefillKeeps(frames, Frames());
      var done, left := CountFragments(counts.heldEnds, counts.rxFrags);
      ring.Refill(at.held);
      at := at.(held := []);
      counts := counts.(heldEnds := [], phase := Idle, rxFrags := left, unreleased := counts.unreleased - done);
    }

    /** Put completed frames back into the fill ring. */
    method RefillCompleted()
      requires Valid() && counts.phase == Completing
      modifies this`at, this`counts, ring, ring.slots
      ensures Valid() && counts.phase == Idle && counts.outstanding == old(counts.outstanding) - old(|at.held|)
      ensures ring.queue == old(ring.queue) + old(at.held) && at == old(at).(held := [])
    {
      RefillKeeps(frames, Frames());
      ring.Refill(at.held);
      counts := counts.(heldEnds := [], phase := Idle, outstanding := counts.outstanding - |at.held|);
      at := at.(held := []);
    }

    /** Put the frames that were read into the transmit ring, where there is room for them, and
        submit those of the packets that are complete. */
    method Transmit(txSize: nat)
      requires Valid() && counts.phase == Forwarding && |at.tx| + |at.pending| + |at.held| <= txSize
      modifies this`at, this`counts
      ensures Valid() && counts.phase == Idle
      ensures at == old(at).(held := [], pending := at.pending, tx := at.tx)
      ensures at.tx + at.pending == old(at.tx + at.pending + at.held)
      ensures |at.pending| == LeftOpen(old(counts.heldEnds), old(|at.pending|))
      ensures counts.unreleased == counts.rxFrags + |at.pending|
    {
      var done, left := CountFragments(counts.heldEnds, counts.nbFrags);
      TransmitBooks(frames, Frames(), counts, done, left);
      InOrder(at.tx, at.pending, at.held, done);
      var written := at.pending + at.held;
      at := at.(held := [], pending := written[done..], tx := at.tx + written[..done]);
      counts := counts.(heldEnds := [], phase := Idle, outstanding := counts.outstanding + done, nbFrags := left,
                        unreleased := counts.unreleased - done);
    }
  }

  lemma {:induction false} FirstFrames(addrs: seq<nat>, n: nat)
    requires n <= |addrs| && forall i :: 0 <= i < |addrs| ==> addrs[i] == i
    ensures forall f: nat :: multiset(addrs[..n])[f] == if f < n then 1 else 0
  {
    if n > 0 {
      FirstFrames(addrs, n - 1);
      assert addrs[..n] == addrs[..n - 1] + [n - 1];
    }
  }
}
