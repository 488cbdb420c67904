/** The Internet checksum: the full computation of RFC 1071 and the incremental update of
    RFC 1624, with the 32-bit arithmetic of the source written out.  Words are 16-bit values as
    the machine loads them. */
module Checksum {
  import opened Arith

  const TWO_16 := 0x1_0000
  const TWO_32 := 0x1_0000_0000
  const ONES := 0xFFFF

  // ---------------------------------------------------------------- the reference

  ghost predicate WordsOk(words: seq<nat>) {
    forall i :: 0 <= i < |words| ==> words[i] < TWO_16
  }

  function Sum(words: seq<nat>): nat {
    if words == [] then 0 else Sum(words[..|words| - 1]) + words[|words| - 1]
  }

  /** Add the carries back in until 16 bits are left. */
  function Fold(s: nat): (f: nat)
    ensures f < TWO_16 && f % ONES == s % ONES && (f == 0 <==> s == 0)
  {
    if s < TWO_16 then s
    else
      CarryKeepsResidue(s);
      Fold(s % TWO_16 + s / TWO_16)
  }

  lemma CarryKeepsResidue(s: nat)
    ensures (s % TWO_16 + s / TWO_16) % ONES == s % ONES
    ensures TWO_16 <= s ==> 0 < s % TWO_16 + s / TWO_16 < s
  {
  }

  /** The checksum of words whose checksum field is zero. */
  function FullChecksum(words: seq<nat>): nat {
    ONES - Fold(Sum(words))
  }

  /** The words together with their checksum sum to all ones. */
  predicate Verifies(words: seq<nat>, check: nat) {
    Fold(Sum(words) + check) == ONES
  }

  /** Residue and being zero determine a folded value. */
  lemma FoldUnique(a: nat, b: nat)
    requires a < TWO_16 && b < TWO_16 && a % ONES == b % ONES && (a == 0 <==> b == 0)
    ensures a == b
  {
  }

  lemma FoldIsOnesIff(s: nat)
    ensures Fold(s) == ONES <==> s % ONES == 0 && s != 0
  {
  }

  /** A full computation always verifies. */
  lemma ChecksumVerifies(words: seq<nat>)
    ensures Verifies(words, FullChecksum(words))
  {
    var s, f := Sum(words), Fold(Sum(words));
    SameRemainder(f, s, ONES);
    AddDivisible(ONES, s - f, ONES);
    FoldIsOnesIff(s + (ONES - f));
  }

  // ---------------------------------------------------------------- the source's arithmetic

  function Not(x: nat): (r: nat)
    requires x < TWO_32
    ensures r < TWO_32
  {
    TWO_32 - 1 - x
  }

  function CsumAdd(csum: nat, addend: nat): nat
    requires csum < TWO_32 && addend < TWO_32
  {
    var s := (csum + addend) % TWO_32;
    s + if s < addend then 1 else 0
  }

  function CsumFold(csum: nat): (r: nat)
    requires csum < TWO_32
    ensures r < TWO_16
  {
    var c1 := csum % TWO_16 + csum / TWO_16;
    var c2 := c1 % TWO_16 + c1 / TWO_16;
    Not(c2 % TWO_32) % TWO_16
  }

  /** Adding with the carry brought around: the residue is that of the sum, and only zeros add
      to zero. */
  lemma CsumAddMeans(csum: nat, addend: nat)
    requires csum < TWO_32 && addend < TWO_32
    ensures CsumAdd(csum, addend) < TWO_32
    ensures CsumAdd(csum, addend) % ONES == (csum + addend) % ONES
    ensures CsumAdd(csum, addend) == 0 <==> csum == 0 && addend == 0
  {
  }

  /** Two rounds are enough for 32 bits. */
  lemma CsumFoldMeans(csum: nat)
    requires csum < TWO_32
    ensures CsumFold(csum) == ONES - Fold(csum)
  {
  }

  lemma NotMeans(x: nat)
    requires x < TWO_32
    ensures Not(x) % ONES == (0 - x) % ONES
  {
  }

  // ---------------------------------------------------------------- the incremental update

  /** Replace one 32-bit quantity in a checksum. */
  function Replace(csum: nat, from: nat, into: nat): nat
    requires csum < TWO_32 && from < TWO_32 && into < TWO_32
  {
    CsumAddMeans(csum, Not(from));
    CsumAdd(CsumAdd(csum, Not(from)), into)
  }

  lemma ReplaceMeans(csum: nat, from: nat, into: nat)
    requires csum < TWO_32 && from < TWO_32 && into < TWO_32
    ensures Replace(csum, from, into) < TWO_32
    ensures Replace(csum, from, into) % ONES == (csum - from + into) % ONES
    ensures csum != 0 ==> Replace(csum, from, into) != 0
  {
    var c1 := CsumAdd(csum, Not(from));
    CsumAddMeans(csum, Not(from));
    CsumAddMeans(c1, into);
    NotMeans(from);
    ModAdd(Not(from), csum, ONES);
    ModAdd(0 - from, csum, ONES);
    ModAdd(c1, into, ONES);
    ModAdd(csum - from, into, ONES);
  }

  function UpdateAddress(check: nat, from: nat, into: nat): nat
    requires check < TWO_16 && from < TWO_32 && into < TWO_32
  {
    ReplaceMeans(Not(check), from, into);
    CsumFold(Replace(Not(check), from, into))
  }

  function UpdateAddressAndPort(check: nat, from: nat, into: nat, oldPort: nat, newPort: nat): nat
    requires check < TWO_16 && from < TWO_32 && into < TWO_32 && oldPort < TWO_16 && newPort < TWO_16
  {
    ReplaceMeans(Not(check), from, into);
    ReplaceMeans(Replace(Not(check), from, into), oldPort, newPort);
    CsumFold(Replace(Replace(Not(check), from, into), oldPort, newPort))
  }

  /** The 32-bit quantity held by two neighbouring words. */
  function Wide(words: seq<nat>, i: nat): nat
    requires i + 1 < |words|
  {
    words[i] + TWO_16 * words[i + 1]
  }

  /** The words with another 32-bit quantity at `i`. */
  function SetWide(words: seq<nat>, i: nat, value: nat): (w: seq<nat>)
    requires i + 1 < |words|
    ensures |w| == |words| && Wide(w, i) == value
    ensures forall j :: 0 <= j < |words| && j != i && j != i + 1 ==> w[j] == words[j]
  {
    words[i := value % TWO_16][i + 1 := value / TWO_16]
  }

  lemma {:induction false} SumSet(words: seq<nat>, i: nat, value: nat)
    requires i < |words|
    ensures Sum(words[i := value]) == Sum(words) - words[i] + value
    ensures words[i] <= Sum(words)
    decreases |words|
  {
    var last := |words| - 1;
    if i == last {
      assert words[i := value][..last] == words[..last];
    } else {
      SumSet(words[..last], i, value);
      assert words[i := value][..last] == words[..last][i := value];
    }
  }

  lemma {:induction false} SumSetWide(words: seq<nat>, i: nat, value: nat)
    requires i + 1 < |words|
    ensures Sum(SetWide(words, i, value)) % ONES == (Sum(words) - Wide(words, i) + value) % ONES
  {
    var lo, hi := SetWideIs(words, i, value);
    SumSetTwo(words, i, lo, hi);
    WideResidue(Sum(words), Wide(words, i), words[i], words[i + 1], value, lo, hi, Sum(SetWide(words, i, value)));
  }

  lemma SetWideIs(words: seq<nat>, i: nat, value: nat) returns (lo: nat, hi: nat)
    requires i + 1 < |words|
    ensures value == lo + TWO_16 * hi && SetWide(words, i, value) == words[i := lo][i + 1 := hi]
  {
    lo, hi := value % TWO_16, value / TWO_16;
  }

  lemma SumSetTwo(words: seq<nat>, i: nat, lo: nat, hi: nat)
    requires i + 1 < |words|
    ensures Sum(words[i := lo][i + 1 := hi]) == Sum(words) - words[i] + lo - words[i + 1] + hi
  {
    SumSet(words, i, lo);
    SumSet(words[i := lo], i + 1, hi);
  }

  lemma WideResidue(s: int, wide: int, lo: int, hi: int, value: int, lo': int, hi': int, s': int)
    requires wide == lo + TWO_16 * hi && value == lo' + TWO_16 * hi'
    requires s' == s - lo + lo' - hi + hi'
    ensures s' % ONES == (s - wide + value) % ONES
  {
  }

  predicate NotAllZero(words: seq<nat>) {
    exists i :: 0 <= i < |words| && words[i] != 0
  }

  lemma {:induction false} SumZeroIff(words: seq<nat>)
    ensures Sum(words) != 0 <==> NotAllZero(words)
  {
    if words != [] {
      SumZeroIff(words[..|words| - 1]);
      var front := words[..|words| - 1];
      assert forall i :: 0 <= i < |front| ==> front[i] == words[i];
    }
  }

  /** What verifies has residue zero, so the updated sum has the residue of the new words. */
  lemma UpdateResidue(s: nat, check: nat, s': nat, csum: nat)
    requires check < TWO_16 && (s + check) % ONES == 0
    requires csum % ONES == (Not(check) + s' - s) % ONES
    ensures csum % ONES == s' % ONES
  {
    NotMeans(check);
    ModAdd(Not(check), s' - s, ONES);
    ModAdd(0 - check, s' - s, ONES);
    AddDivisible(s' - s - check, s + check, ONES);
  }

  lemma FoldDecides(a: nat, b: nat)
    requires a % ONES == b % ONES && a != 0
    ensures Fold(a) == Fold(b) <==> b != 0
  {
    if b != 0 {
      FoldUnique(Fold(a), Fold(b));
    }
  }

  /** What any incremental update must satisfy: the inverted checksum moves by as much as the
      words do. */
  lemma UpdateIsChecksum(words: seq<nat>, check: nat, words': seq<nat>, csum: nat)
    requires check < TWO_16 && Verifies(words, check)
    requires csum < TWO_32 && csum != 0
    requires csum % ONES == (Not(check) + Sum(words') - Sum(words)) % ONES
    ensures CsumFold(csum) == FullChecksum(words') <==> Sum(words') != 0
  {
    var s, s' := Sum(words), Sum(words');
    FoldIsOnesIff(s + check);
    UpdateResidue(s, check, s', csum);
    FoldDecides(csum, s');
    CsumFoldMeans(csum);
  }

  /** The header checksum after an address was replaced is the checksum of the new header, except
      when the new header is all zero. */
  lemma AddressUpdate(words: seq<nat>, check: nat, i: nat, into: nat)
    requires WordsOk(words) && i + 1 < |words| && check < TWO_16 && into < TWO_32
    requires Verifies(words, check)
    ensures UpdateAddress(check, Wide(words, i), into) == FullChecksum(SetWide(words, i, into))
       <==> NotAllZero(SetWide(words, i, into))
  {
    var words' := SetWide(words, i, into);
    var from := Wide(words, i);
    ReplaceMeans(Not(check), from, into);
    SumSetWide(words, i, into);
    Shift(Not(check), Sum(words), from, into, Sum(words'));
    UpdateIsChecksum(words, check, words', Replace(Not(check), from, into));
    SumZeroIff(words');
  }

  lemma Shift(c: int, s: int, from: int, into: int, s': int)
    requires s' % ONES == (s - from + into) % ONES
    ensures (c - from + into) % ONES == (c + s' - s) % ONES
  {
  }

  lemma ShiftBy(a: int, b: int, d: int)
    requires a % ONES == b % ONES
    ensures (a + d) % ONES == (b + d) % ONES
  {
  }

  /** The same for the transport checksum, whose words hold the address and the port. */
  lemma AddressAndPortUpdate(words: seq<nat>, check: nat, i: nat, into: nat, p: nat, port: nat)
    requires WordsOk(words) && i + 1 < |words| && check < TWO_16 && into < TWO_32
    requires p < |words| && p != i && p != i + 1 && port < TWO_16
    requires Verifies(words, check)
    ensures UpdateAddressAndPort(check, Wide(words, i), into, words[p], port)
         == FullChecksum(SetWide(words, i, into)[p := port])
       <==> NotAllZero(SetWide(words, i, into)[p := port])
  {
    var mid := SetWide(words, i, into);
    var words' := mid[p := port];
    var from := Wide(words, i);
    var c0 := Not(check);
    var c1 := Replace(c0, from, into);
    ReplaceMeans(c0, from, into);
    ReplaceMeans(c1, words[p], port);
    SumSetWide(words, i, into);
    SumSet(mid, p, port);
    Shift(c0, Sum(words), from, into, Sum(mid));
    ShiftBy(c1, c0 + Sum(mid) - Sum(words), port - words[p]);
    UpdateIsChecksum(words, check, words', Replace(c1, words[p], port));
    SumZeroIff(words');
  }

  /** A zero transport checksum means that the sender computed none.  The update keeps it zero
      only when the addresses and ports have the same sum. */
  lemma AbsentChecksum(from: nat, into: nat, fromPort: nat, intoPort: nat)
    requires from < TWO_32 && into < TWO_32 && fromPort < TWO_16 && intoPort < TWO_16
    ensures UpdateAddressAndPort(0, from, into, fromPort, intoPort) == 0
       <==> (from + fromPort) % ONES == (into + intoPort) % ONES
  {
    var c0 := Not(0);
    var c1 := Replace(c0, from, into);
    var c2 := Replace(c1, fromPort, intoPort);
    ReplaceMeans(c0, from, into);
    ReplaceMeans(c1, fromPort, intoPort);
    ModAdd(c1, intoPort - fromPort, ONES);
    ModAdd(c0 - from + into, intoPort - fromPort, ONES);
    AddMultiple(into + intoPort - from - fromPort, 65537, ONES);
    CsumFoldMeans(c2);
    FoldIsOnesIff(c2);
    if (from + fromPort) % ONES == (into + intoPort) % ONES {
      SameRemainder(from + fromPort, into + intoPort, ONES);
    } else if (into + intoPort - from - fromPort) % ONES == 0 {
      AddDivisible(from + fromPort, into + intoPort - from - fromPort, ONES);
    }
  }
}
