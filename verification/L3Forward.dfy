/** The packet path that reflects an IPv4 packet on the port it came from: the header check, the
    decremented time to live, the recomputed checksum and the swapped addresses, in place on the
    bytes of a frame. */
module L3Forward {
  import opened Checksum

  const ETH_HLEN := 14
  const ETH_ALEN := 6
  const TTL := 22
  const CHECK := 24

  ghost predicate BytesOk(b: seq<nat>) {
    forall i :: 0 <= i < |b| ==> b[i] < 256
  }

  /** The 16-bit word at byte `2 * k`, as a little-endian machine loads it; a last single byte
      stands for itself. */
  function Word(b: seq<nat>, k: nat): nat
    requires 2 * k < |b|
  {
    b[2 * k] + if 2 * k + 1 < |b| then 256 * b[2 * k + 1] else 0
  }

  function Words(b: seq<nat>): (w: seq<nat>)
    ensures |w| == (|b| + 1) / 2
    ensures forall k :: 0 <= k < |w| ==> w[k] == Word(b, k)
  {
    seq((|b| + 1) / 2, k requires 0 <= k < (|b| + 1) / 2 => Word(b, k))
  }

  lemma {:induction false} SumBound(words: seq<nat>)
    requires WordsOk(words)
    ensures Sum(words) <= ONES * |words|
  {
    if words != [] {
      SumBound(words[..|words| - 1]);
    }
  }

  lemma SumPrefix(words: seq<nat>, k: nat)
    requires k < |words|
    ensures Sum(words[..k + 1]) == Sum(words[..k]) + words[k]
  {
    assert words[..k + 1][..k] == words[..k];
  }

  /** Adding one word to the 32-bit sum, which cannot wrap for up to 65537 words. */
  lemma AddWord(words: seq<nat>, k: nat)
    requires WordsOk(words) && k < |words| <= 65537
    ensures (Sum(words[..k]) + words[k]) % TWO_32 == Sum(words[..k + 1])
  {
    SumPrefix(words, k);
    SumBound(words[..k + 1]);
  }

  /** The loop over the words with its 32-bit sum, then the loop that folds the carries in. */
  method IpChecksum(data: seq<nat>) returns (check: nat)
    requires BytesOk(data)
    ensures check < TWO_16
    ensures |data| <= 131074 ==> check == FullChecksum(Words(data))
  {
    ghost var words := Words(data);
    var sum: nat, i := 0, 0;
    while i < |data| / 2
      invariant i <= |data| / 2 && sum < TWO_32
      invariant |data| <= 131074 ==> sum == Sum(words[..i])
    {
      assert words[i] == Word(data, i);
      if |data| <= 131074 {
        AddWord(words, i);
      }
      sum := (sum + (data[2 * i] + 256 * data[2 * i + 1])) % TWO_32;
      i := i + 1;
    }
    if 2 * i < |data| {
      assert words[i] == Word(data, i);
      if |data| <= 131074 {
        AddWord(words, i);
      }
      sum := (sum + data[2 * i]) % TWO_32;
      assert words[..i + 1] == words;
    } else {
      assert words[..i] == words;
    }
    check := FoldAndInvert(sum);
  }

  method FoldAndInvert(total: nat) returns (check: nat)
    requires total < TWO_32
    ensures check == ONES - Fold(total)
  {
    var sum: nat := total;
    while sum / TWO_16 != 0
      invariant sum < TWO_32 && Fold(sum) == Fold(total)
      decreases sum
    {
      CarryKeepsResidue(sum);
      sum := sum % TWO_16 + sum / TWO_16;
    }
    check := Not(sum) % TWO_16;
  }

  // ---------------------------------------------------------------- the packet

  /** The bytes that the packet path reads are there: the source does not compare the lengths that
      a packet claims with the packet. */
  predicate Readable(pkt: seq<nat>) {
    && ETH_HLEN <= |pkt|
    && (pkt[12] == 0x08 && pkt[13] == 0x00 ==>
          && ETH_HLEN < |pkt|
          && (pkt[ETH_HLEN] / 16 == 4 && pkt[ETH_HLEN] % 16 >= 5 ==> ETH_HLEN + pkt[ETH_HLEN] % 16 * 4 <= |pkt|))
  }

  predicate Forwardable(pkt: seq<nat>)
    requires Readable(pkt)
  {
    && pkt[12] == 0x08 && pkt[13] == 0x00
    && pkt[ETH_HLEN] / 16 == 4 && pkt[ETH_HLEN] % 16 >= 5
    && pkt[TTL] > 1
  }

  /** The bytes of the IPv4 header, by the length the packet claims. */
  function Header(pkt: seq<nat>): seq<nat>
    requires ETH_HLEN < |pkt| && ETH_HLEN + pkt[ETH_HLEN] % 16 * 4 <= |pkt|
  {
    pkt[ETH_HLEN..ETH_HLEN + pkt[ETH_HLEN] % 16 * 4]
  }

  function Rewritten(pkt: seq<nat>, check: nat): seq<nat>
    requires CHECK + 1 < |pkt| && 1 <= pkt[TTL]
  {
    pkt[TTL := pkt[TTL] - 1][CHECK := check % 256][CHECK + 1 := check / 256]
  }

  lemma OtherWords(header: seq<nat>, check: nat, k: nat)
    requires 20 <= |header| && 2 * k < |header|
    ensures Word(header[10 := check % 256][11 := check / 256], k) == if k == 5 then check else Word(header, k)
  {
  }

  /** Writing the checksum of a header into its zeroed checksum field makes it verify. */
  lemma StoredChecksum(header: seq<nat>, header': seq<nat>, check: nat)
    requires BytesOk(header) && 20 <= |header| && |header'| == |header|
    requires header[10] == 0 && header[11] == 0
    requires check == FullChecksum(Words(header))
    requires header' == header[10 := check % 256][11 := check / 256]
    ensures Fold(Sum(Words(header'))) == ONES
  {
    var words := Words(header);
    assert words[5] == Word(header, 5) == 0;
    StoredWords(header, check);
    SumSet(words, 5, check);
    ChecksumVerifies(words);
  }

  lemma StoredWords(header: seq<nat>, check: nat)
    requires 20 <= |header|
    ensures Words(header[10 := check % 256][11 := check / 256]) == Words(header)[5 := check]
  {
    var words' := Words(header[10 := check % 256][11 := check / 256]);
    forall k | 0 <= k < |words'|
      ensures words'[k] == Words(header)[5 := check][k]
    {
      OtherWords(header, check, k);
    }
  }

  function Swapped(pkt: seq<nat>): seq<nat>
    requires 2 * ETH_ALEN <= |pkt|
  {
    pkt[6..12] + pkt[..6] + pkt[12..]
  }

  method SwapAddresses(pkt: array<nat>)
    requires pkt.Length >= 2 * ETH_ALEN
    modifies pkt
    ensures pkt[..] == Swapped(old(pkt[..]))
  {
    for i := 0 to ETH_ALEN
      invariant forall j :: 0 <= j < pkt.Length ==>
                  pkt[j] == old(if j < i then pkt[6 + j] else if 6 <= j < 6 + i then pkt[j - 6] else pkt[j])
    {
      pkt[i], pkt[ETH_ALEN + i] := pkt[ETH_ALEN + i], pkt[i];
    }
  }

  method ClearChecksum(pkt: array<nat>)
    requires CHECK + 1 < pkt.Length && 1 <= pkt[TTL]
    modifies pkt
    ensures pkt[..] == Rewritten(old(pkt[..]), 0)
  {
    pkt[TTL] := pkt[TTL] - 1;
    pkt[CHECK], pkt[CHECK + 1] := 0, 0;
  }

  method PutChecksum(pkt: array<nat>, check: nat, ghost was: seq<nat>)
    requires CHECK + 1 < pkt.Length == |was| && 1 <= was[TTL] && pkt[..] == Rewritten(was, 0)
    modifies pkt
    ensures pkt[..] == Rewritten(was, check)
  {
    pkt[CHECK], pkt[CHECK + 1] := check % 256, check / 256;
    assert pkt[..] == Rewritten(was, check);
  }

  /** The header without its checksum, as it is summed. */
  lemma ClearedHeader(pkt: seq<nat>)
    requires Readable(pkt) && BytesOk(pkt) && Forwardable(pkt)
    ensures var end := ETH_HLEN + pkt[ETH_HLEN] % 16 * 4;
      && CHECK + 1 < end <= |pkt| && Rewritten(pkt, 0)[ETH_HLEN] == pkt[ETH_HLEN]
      && Rewritten(pkt, 0)[ETH_HLEN..end] == Header(Rewritten(pkt, 0))
      && BytesOk(Header(Rewritten(pkt, 0))) && |Header(Rewritten(pkt, 0))| <= 131074
  {
  }

  /** The header with a decremented time to live and a fresh checksum. */
  method RewriteHeader(pkt: array<nat>) returns (check: nat)
    requires Readable(pkt[..]) && BytesOk(pkt[..]) && Forwardable(pkt[..])
    modifies pkt
    ensures check < TWO_16 && pkt[..] == Rewritten(old(pkt[..]), check)
    ensures BytesOk(pkt[..]) && Fold(Sum(Words(Header(pkt[..])))) == ONES
  {
    ghost var was := pkt[..];
    ClearedHeader(was);
    var end := ETH_HLEN + pkt[ETH_HLEN] % 16 * 4;
    ClearChecksum(pkt);
    var header: seq<nat> := pkt[..][ETH_HLEN..end];
    check := IpChecksum(header);
    assert check == FullChecksum(Words(Header(Rewritten(was, 0))));
    PutChecksum(pkt, check, was);
    RewrittenVerifies(was, check);
  }

  /** Only the checksum field differs from the header that the checksum was computed of. */
  lemma RewrittenVerifies(pkt: seq<nat>, check: nat)
    requires Readable(pkt) && BytesOk(pkt) && Forwardable(pkt) && check < TWO_16
    requires check == FullChecksum(Words(Header(Rewritten(pkt, 0))))
    ensures BytesOk(Rewritten(pkt, check)) && Fold(Sum(Words(Header(Rewritten(pkt, check))))) == ONES
  {
    var before: seq<nat>, after: seq<nat> := Header(Rewritten(pkt, 0)), Header(Rewritten(pkt, check));
    var lo: nat, hi: nat := check % 256, check / 256;
    assert after == before[10 := lo][11 := hi];
    StoredChecksum(before, after, check);
  }

  /** A packet as it leaves: the hardware addresses exchanged, the time to live one less, a header
      that verifies, and nothing else changed. */
  ghost predicate Forwarded(pkt: seq<nat>, pkt': seq<nat>) {
    && CHECK + 1 < |pkt| == |pkt'| && ETH_HLEN + pkt[ETH_HLEN] % 16 * 4 <= |pkt|
    && pkt'[..12] == pkt[6..12] + pkt[..6]
    && pkt'[TTL] + 1 == pkt[TTL]
    && (forall i :: 12 <= i < |pkt| && i != TTL && i != CHECK && i != CHECK + 1 ==> pkt'[i] == pkt[i])
    && BytesOk(pkt') && Fold(Sum(Words(Header(pkt')))) == ONES
  }

  lemma SwappedHeader(pkt: seq<nat>)
    requires BytesOk(pkt) && ETH_HLEN < |pkt| && ETH_HLEN + pkt[ETH_HLEN] % 16 * 4 <= |pkt|
    ensures var pkt' := Swapped(pkt); |pkt'| == |pkt| && pkt'[ETH_HLEN] == pkt[ETH_HLEN] && Header(pkt') == Header(pkt)
    ensures BytesOk(Swapped(pkt))
  {
  }

  lemma SwappedIsForwarded(pkt: seq<nat>, check: nat)
    requires Readable(pkt) && Forwardable(pkt) && BytesOk(Rewritten(pkt, check))
    requires Fold(Sum(Words(Header(Rewritten(pkt, check))))) == ONES
    ensures Forwarded(pkt, Swapped(Rewritten(pkt, check)))
  {
    SwappedHeader(Rewritten(pkt, check));
  }

  /** The step on one packet.  A forwarded packet leaves with a header that verifies; a refused
      one is not touched. */
  method Forward(pkt: array<nat>) returns (forward: bool)
    requires Readable(pkt[..]) && BytesOk(pkt[..])
    modifies pkt
    ensures forward == Forwardable(old(pkt[..]))
    ensures !forward ==> pkt[..] == old(pkt[..])
    ensures forward ==> Forwarded(old(pkt[..]), pkt[..])
  {
    if pkt[12] != 0x08 || pkt[13] != 0x00 {
      return false;
    }
    if pkt[ETH_HLEN] / 16 != 4 || pkt[ETH_HLEN] % 16 < 5 {
      return false;
    }
    if pkt[TTL] <= 1 {
      return false;
    }
    var check := RewriteHeader(pkt);
    SwapAddresses(pkt);
    SwappedIsForwarded(old(pkt[..]), check);
    return true;
  }
}
