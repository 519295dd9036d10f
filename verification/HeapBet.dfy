/** The best bet: the block that the next search of the heap starts at, and what
    a search makes of it. */
module HeapBet {
  import opened HeapLayout
  import opened HeapBlocks
  import opened HeapState

  /** The free bytes of the block at an address; none for the null pointer. */
  ghost function FreeAt(blocks: seq<Block>, a: nat): int {
    var i := IndexOf(blocks, a);
    if a != 0 && i < |blocks| then FreeBytes(blocks[i]) else 0
  }

  /** Blocks have different addresses. */
  lemma FreeAtBlock(blocks: seq<Block>, base: nat, i: nat)
    requires Layout(blocks, base) && i < |blocks|
    ensures blocks[i].at > 0 && FreeAt(blocks, blocks[i].at) == FreeBytes(blocks[i])
    ensures IndexOf(blocks, blocks[i].at) == i
  {
    assert BlockWf(blocks[i], base);
    assert Listed(blocks, blocks[i].at);
    var k := IndexOf(blocks, blocks[i].at);
    if k != i { BlocksApart(blocks, base, k, i); }
  }

  /** A new block at the end of the list. */
  lemma {:induction false} FreeAtGrows(old_: seq<Block>, blocks: seq<Block>, a: nat)
    requires |blocks| == |old_| + 1 && blocks == old_ + [blocks[|old_|]] && (a == 0 || Listed(old_, a))
    ensures a != 0 ==> IndexOf(blocks, a) == IndexOf(old_, a) < |old_|
    ensures FreeAt(blocks, a) == FreeAt(old_, a)
    decreases |old_|
  {
    if a != 0 && old_[0].at != a {
      assert blocks[1..] == old_[1..] + [blocks[|old_|]];
      assert Listed(old_[1..], a) by {
        var k :| 0 <= k < |old_| && old_[k].at == a;
        assert old_[1..][k - 1].at == a;
      }
      FreeAtGrows(old_[1..], blocks[1..], a);
    }
  }

  // ---------- Looking at blocks ----------

  /** The best bet after block i was looked at: it takes the place of bet if it
      has more free bytes. */
  ghost function Noted(blocks: seq<Block>, bet: nat, i: nat): nat {
    if i < |blocks| && FreeAt(blocks, bet) < FreeBytes(blocks[i]) then blocks[i].at else bet
  }

  /** The best bet after the blocks lo, ..., hi - 1 were looked at in this order. */
  ghost function BetOver(blocks: seq<Block>, bet: nat, lo: nat, hi: nat): nat
    decreases hi
  {
    if hi <= lo then bet else Noted(blocks, BetOver(blocks, bet, lo, hi - 1), hi - 1)
  }

  lemma OverStep(blocks: seq<Block>, bet: nat, lo: nat, i: nat)
    requires lo <= i
    ensures BetOver(blocks, bet, lo, i + 1) == Noted(blocks, BetOver(blocks, bet, lo, i), i)
  {
  }

  lemma OverNone(blocks: seq<Block>, bet: nat, lo: nat, hi: nat)
    requires hi <= lo
    ensures BetOver(blocks, bet, lo, hi) == bet
  {
  }

  /** None of the blocks lo, ..., hi - 1 has more than size free bytes. */
  ghost predicate NoneMore(blocks: seq<Block>, lo: nat, hi: nat, size: int) {
    forall k :: lo <= k < hi && k < |blocks| ==> FreeBytes(blocks[k]) <= size
  }

  /** bet is one of the blocks lo, ..., hi - 1, and the first one with so many free bytes. */
  ghost predicate FirstBest(blocks: seq<Block>, lo: nat, hi: nat, bet: nat) {
    var k := IndexOf(blocks, bet);
    && lo <= k < hi && k < |blocks|
    && forall l :: lo <= l < k ==> FreeBytes(blocks[l]) < FreeBytes(blocks[k])
  }

  lemma FirstBestLast(blocks: seq<Block>, lo: nat, hi: nat, size: int)
    requires lo <= hi < |blocks| && NoneMore(blocks, lo, hi, size) && size < FreeBytes(blocks[hi])
    requires IndexOf(blocks, blocks[hi].at) == hi
    ensures FirstBest(blocks, lo, hi + 1, blocks[hi].at)
  {
  }

  lemma NoneMoreStep(blocks: seq<Block>, lo: nat, hi: nat, size: int, size': int)
    requires NoneMore(blocks, lo, hi, size) && size <= size' && (hi < |blocks| ==> FreeBytes(blocks[hi]) <= size')
    ensures NoneMore(blocks, lo, hi + 1, size')
  {
  }

  /** None of the blocks looked at has more free bytes than the best bet; it is
      the old one unless some have more than that, and then the first one with the most. */
  ghost predicate BestIsKnown(blocks: seq<Block>, bet: nat, lo: nat, hi: nat, b: nat) {
    && FreeAt(blocks, bet) <= FreeAt(blocks, b) && NoneMore(blocks, lo, hi, FreeAt(blocks, b))
    && (b != bet ==> FreeAt(blocks, bet) < FreeAt(blocks, b) && FirstBest(blocks, lo, hi, b))
  }

  lemma BestStep(blocks: seq<Block>, base: nat, bet: nat, lo: nat, i: nat, b: nat)
    requires Layout(blocks, base) && lo <= i && BestIsKnown(blocks, bet, lo, i, b)
    ensures BestIsKnown(blocks, bet, lo, i + 1, Noted(blocks, b, i))
  {
    var b' := Noted(blocks, b, i);
    if i < |blocks| { FreeAtBlock(blocks, base, i); }
    NoneMoreStep(blocks, lo, i, FreeAt(blocks, b), FreeAt(blocks, b'));
    if i < |blocks| && FreeAt(blocks, b) < FreeBytes(blocks[i]) { FirstBestLast(blocks, lo, i, FreeAt(blocks, b)); }
  }

  lemma {:induction false} BestBetIs(blocks: seq<Block>, base: nat, bet: nat, lo: nat, hi: nat)
    requires Layout(blocks, base)
    ensures BestIsKnown(blocks, bet, lo, hi, BetOver(blocks, bet, lo, hi))
    decreases hi
  {
    if lo < hi {
      var i := hi - 1;
      var b := BetOver(blocks, bet, lo, i);
      BestBetIs(blocks, base, bet, lo, i);
      BestStep(blocks, base, bet, lo, i, b);
      OverStep(blocks, bet, lo, i);
    } else {
      OverNone(blocks, bet, lo, hi);
    }
  }

  // ---------- The way of a search ----------

  /** The search starts at the best bet, which looks big enough. */
  ghost predicate StartsAtBet(blocks: seq<Block>, bestBet: nat, need: nat) { FreeAt(blocks, bestBet) > need }

  /** The last block, if any, has enough free bytes, though in pieces. */
  ghost predicate LastInPieces(blocks: seq<Block>, need: nat) {
    blocks == [] || FreeBytes(blocks[|blocks| - 1]) >= need
  }

  /** The best bet when the search has come to block i: it has looked at the blocks
      from its start on, and, if it began at the best bet and has gone back to the
      first block, at the rest of the list before those from there on. */
  ghost function BetSoFar(blocks: seq<Block>, bet: nat, atBet: bool, start: nat, startedBet: bool, i: nat): nat {
    if startedBet == atBet then BetOver(blocks, bet, start, i)
    else BetOver(blocks, BetOver(blocks, bet, start, |blocks|), 0, i)
  }

  /** The best bet after an allocation that settled on block i of bs. Behind the old
      blocks that is a new one, which is only looked at if the block before it had
      enough free bytes, though in pieces. */
  ghost function BetFound(old_: seq<Block>, bs: seq<Block>, bet: nat, atBet: bool, start: nat, inPieces: bool,
                          i: nat): nat {
    if i < |old_| then Noted(old_, BetSoFar(old_, bet, atBet, start, atBet && start <= i, i), i)
    else
      var b := BetSoFar(old_, bet, atBet, start, false, |old_|);
      if inPieces then Noted(bs, b, i) else b
  }

  /** On from block i0: to the next one, or from the last one back to the first. */
  ghost predicate Moved(n: nat, startedBet0: bool, i0: nat, startedBet: bool, i: nat) {
    || (startedBet == startedBet0 && i == i0 + 1)
    || (startedBet0 && !startedBet && i == 0 && i0 + 1 == n)
  }

  /** bet is the best bet of a search that stands at block i. After it has gone
      back from the best bet to the first block, nothing from its start on fits. */
  ghost predicate OnTheWay(fits: seq<bool>, old_: seq<Block>, bet0: nat, atBet: bool, start: nat, startedBet: bool,
                           i: nat, bet: nat) {
    && start <= |fits| == |old_| && (!atBet ==> start == 0) && (startedBet ==> atBet)
    && (atBet && !startedBet ==> NoneIn(fits, start, |fits|))
    && bet == BetSoFar(old_, bet0, atBet, start, startedBet, i)
  }

  lemma StillOnTheWay(fits: seq<bool>, old_: seq<Block>, bet0: nat, atBet: bool, start: nat, startedBet0: bool,
                      i0: nat, bet: nat, startedBet: bool, i: nat)
    requires SearchAt(fits, start, i0, startedBet0, false) && Moved(|fits|, startedBet0, i0, startedBet, i) && !fits[i0]
    requires OnTheWay(fits, old_, bet0, atBet, start, startedBet0, i0, bet)
    ensures OnTheWay(fits, old_, bet0, atBet, start, startedBet, i, Noted(old_, bet, i0))
  {
  }

  /** The search has settled: on the block it stood at, or, if that was the last
      one and too full, on a new one behind it that it did not look at. */
  lemma SettledThere(fits: seq<bool>, old_: seq<Block>, bs: seq<Block>, bet0: nat, atBet: bool, start: nat,
                     inPieces: bool, startedBet: bool, i: nat, grown: bool, bet: nat, j: nat, b: nat)
    requires SearchAt(fits, start, i, startedBet, grown) && OnTheWay(fits, old_, bet0, atBet, start, startedBet, i, bet)
    requires if j == i then (if grown then inPieces else fits[i])
             else j == i + 1 == |fits| && !grown && !startedBet && !inPieces && !fits[i]
    requires b == Noted(if grown then bs else old_, bet, i)
    ensures b == BetFound(old_, bs, bet0, atBet, start, inPieces, j)
  {
    if j != i { StillOnTheWay(fits, old_, bet0, atBet, start, startedBet, i, bet, startedBet, j); }
  }

  // ---------- What that means for an allocation ----------

  /** The search starts at the best bet exactly when that has more free bytes than
      needed, and at the first block otherwise. */
  lemma StartIs(blocks: seq<Block>, base: nat, bet: nat, need: nat)
    requires Layout(blocks, base)
    ensures forall k :: 0 <= k < |blocks| && blocks[k].at == bet && FreeBytes(blocks[k]) > need ==>
              StartIndex(blocks, bet, need) == k && StartsAtBet(blocks, bet, need)
    ensures (forall k :: 0 <= k < |blocks| && blocks[k].at == bet ==> FreeBytes(blocks[k]) <= need) ==>
              StartIndex(blocks, bet, need) == 0 && !StartsAtBet(blocks, bet, need)
  {
    forall k | 0 <= k < |blocks| && blocks[k].at == bet && FreeBytes(blocks[k]) > need
      ensures StartIndex(blocks, bet, need) == k && StartsAtBet(blocks, bet, need)
    {
      FreeAtBlock(blocks, base, k);
    }
  }

  /** A best bet with more free bytes than needed is taken if it has a gap for the
      cell; if it has too few, the first block of the list with a gap is. */
  lemma BetIsTaken(old_: seq<Block>, base: nat, used0: set<nat>, total: nat, bet: nat, need: nat, bs: seq<Block>,
                   i: nat, pages: nat, k: nat)
    requires Layout(old_, base) && k < |old_| && HasFit(old_[k], need)
    requires Settled(old_, used0, total, Fitting(old_, need), StartIndex(old_, bet, need), bs, i, pages)
    ensures bs == old_ && i < |old_| && HasFit(old_[i], need)
    ensures old_[k].at == bet && FreeBytes(old_[k]) > need ==> i == k
    ensures FreeAt(old_, bet) <= need ==> i <= k
  {
    var fits := Fitting(old_, need);
    assert FitAt(fits, old_, need, k) && fits[k];
    if old_[k].at == bet { FreeAtBlock(old_, base, k); }
    assert FitAt(fits, old_, need, i);
  }

  ghost function Between(lo: nat, hi: nat): set<nat> { set k: nat | k < hi && From(lo, k) }

  ghost predicate From(lo: nat, k: nat) { lo <= k }

  /** The blocks a search has looked at when it settled on block i; n is the number
      of old ones, so that n itself is the new one. */
  ghost function Looked(n: nat, start: nat, inPieces: bool, i: nat): set<nat> {
    if i == n then Between(0, n) + if inPieces then {n} else {}
    else if start <= i then Between(start, i + 1)
    else Between(start, n) + Between(0, i + 1)
  }

  /** b has the most free bytes of bet and the blocks at ks, and is bet or one of
      these with more. */
  ghost predicate Best(blocks: seq<Block>, bet: nat, ks: set<nat>, b: nat) {
    && FreeAt(blocks, bet) <= FreeAt(blocks, b)
    && (forall k :: k in ks && k < |blocks| ==> FreeBytes(blocks[k]) <= FreeAt(blocks, b))
    && (b != bet ==> FreeAt(blocks, bet) < FreeAt(blocks, b) && b > 0 && IndexOf(blocks, b) in ks && Listed(blocks, b))
  }

  lemma BestOver(blocks: seq<Block>, base: nat, bet: nat, lo: nat, hi: nat)
    requires Layout(blocks, base)
    ensures Best(blocks, bet, Between(lo, hi), BetOver(blocks, bet, lo, hi))
  {
    BestBetIs(blocks, base, bet, lo, hi);
    var b := BetOver(blocks, bet, lo, hi);
    if b != bet { FreeAtBlock(blocks, base, IndexOf(blocks, b)); }
  }

  lemma BestThen(blocks: seq<Block>, bet: nat, ks: set<nat>, mid: nat, ls: set<nat>, b: nat)
    requires Best(blocks, bet, ks, mid) && Best(blocks, mid, ls, b)
    ensures Best(blocks, bet, ks + ls, b)
  {
  }

  lemma BestNoted(blocks: seq<Block>, base: nat, bet: nat, i: nat)
    requires Layout(blocks, base)
    ensures Best(blocks, bet, {i}, Noted(blocks, bet, i))
  {
    if i < |blocks| { FreeAtBlock(blocks, base, i); }
  }

  lemma BestStays(old_: seq<Block>, blocks: seq<Block>, bet: nat, ks: set<nat>, b: nat)
    requires |blocks| == |old_| + 1 && blocks == old_ + [blocks[|old_|]] && (bet == 0 || Listed(old_, bet))
    requires Best(old_, bet, ks, b) && forall k :: k in ks ==> k < |old_|
    ensures Best(blocks, bet, ks, b)
  {
    FreeAtGrows(old_, blocks, bet);
    FreeAtGrows(old_, blocks, b);
    if b != bet { ListedAppended(old_, blocks[|old_|]); }
    forall k | k in ks ensures FreeBytes(blocks[k]) <= FreeAt(blocks, b) {
      assert blocks[k] == old_[k];
    }
  }

  /** Once around: all blocks of the list. */
  lemma BestOfAll(blocks: seq<Block>, base: nat, bet: nat, atBet: bool, start: nat)
    requires Layout(blocks, base) && start <= |blocks| && (!atBet ==> start == 0)
    ensures Best(blocks, bet, Between(0, |blocks|), BetSoFar(blocks, bet, atBet, start, false, |blocks|))
  {
    var n, mid := |blocks|, BetOver(blocks, bet, start, |blocks|);
    BestOver(blocks, base, bet, start, n);
    if atBet {
      BestOver(blocks, base, mid, 0, n);
      BestThen(blocks, bet, Between(start, n), mid, Between(0, n), BetOver(blocks, mid, 0, n));
      assert Between(start, n) + Between(0, n) == Between(0, n);
    }
  }

  lemma BestAhead(old_: seq<Block>, base: nat, bet: nat, start: nat, i: nat)
    requires Layout(old_, base) && start <= i
    ensures Best(old_, bet, Between(start, i + 1), Noted(old_, BetOver(old_, bet, start, i), i))
  {
    var b := BetOver(old_, bet, start, i);
    BestOver(old_, base, bet, start, i);
    BestNoted(old_, base, b, i);
    BestThen(old_, bet, Between(start, i), b, {i}, Noted(old_, b, i));
    assert Between(start, i) + {i} == Between(start, i + 1);
  }

  lemma BestOfOld(old_: seq<Block>, base: nat, bet: nat, atBet: bool, start: nat, i: nat)
    requires Layout(old_, base) && start <= |old_| && i < |old_| && (!atBet ==> start == 0)
    ensures Best(old_, bet, Looked(|old_|, start, false, i), BetFound(old_, old_, bet, atBet, start, false, i))
  {
    var n, mid := |old_|, BetOver(old_, bet, start, |old_|);
    if start <= i {
      BestAhead(old_, base, bet, start, i);
    } else {
      BestOver(old_, base, bet, start, n);
      BestAhead(old_, base, mid, 0, i);
      BestThen(old_, bet, Between(start, n), mid, Between(0, i + 1), Noted(old_, BetOver(old_, mid, 0, i), i));
    }
  }

  /** After an allocation the best bet had, before the cell was stored, at least as
      many free bytes as the old one and as each block that was looked at. If it is
      a new one, it had more than the old one and is one of those blocks. */
  lemma BetFoundIs(old_: seq<Block>, bs: seq<Block>, base: nat, bet: nat, atBet: bool, start: nat, inPieces: bool,
                   i: nat)
    requires Layout(bs, base) && Layout(old_, base) && (bet == 0 || Listed(old_, bet)) && start <= |old_|
    requires !atBet ==> start == 0
    requires if i < |old_| then bs == old_ else i == |old_| && |bs| == i + 1 && bs == old_ + [bs[i]]
    ensures Best(bs, bet, Looked(|old_|, start, inPieces, i), BetFound(old_, bs, bet, atBet, start, inPieces, i))
  {
    if i < |old_| {
      BestOfOld(old_, base, bet, atBet, start, i);
    } else {
      var b := BetSoFar(old_, bet, atBet, start, false, i);
      BestOfAll(old_, base, bet, atBet, start);
      BestStays(old_, bs, bet, Between(0, i), b);
      BestNoted(bs, base, b, i);
      BestThen(bs, bet, Between(0, i), b, {i}, Noted(bs, b, i));
      assert Between(0, i) + {} == Between(0, i);
    }
  }

  // ---------- What freeing a cell makes of it ----------

  /** After a cell of block i was freed and the block stays: without a best bet
      there still is none; otherwise it is the old one or the freed block, and the
      one with more free bytes (the old one if they have the same) exactly unless
      only one of the two numbers is below 2 GiB. */
  lemma RebetIs(blocks: seq<Block>, base: nat, bet: nat, i: nat)
    requires Layout(blocks, base) && i < |blocks| && (bet == 0 || Listed(blocks, bet))
    ensures var b, x, y := BetAfterFree(blocks, bet, i), FreeAt(blocks, bet), FreeBytes(blocks[i]);
      && (bet == 0 ==> b == 0)
      && (bet != 0 ==>
            ((b == if y > x then blocks[i].at else bet) <==>
             blocks[i].at == bet || x == y || (x < 0x8000_0000 <==> y < 0x8000_0000)))
  {
    FreeAtBlock(blocks, base, i);
    FreeInside(blocks, base, i);
    if bet != 0 {
      var k := IndexOf(blocks, bet);
      FreeInside(blocks, base, k);
    }
  }

  lemma FreeInside(blocks: seq<Block>, base: nat, i: nat)
    requires Layout(blocks, base) && i < |blocks|
    ensures 0 <= FreeBytes(blocks[i]) < LIMIT
  {
    assert BlockWf(blocks[i], base);
    UsageBounded(blocks[i]);
  }

  /** When its block goes with it, the best bet stays unless it was that block. */
  lemma BetWithoutBlock(old_: seq<Block>, blocks: seq<Block>, bet: nat, i: nat, j: nat)
    requires Freed(old_, blocks, i, j) && |old_[i].cells| == 1
    ensures BetAfter(old_, blocks, bet, i, j) == if bet == old_[i].at then 0 else bet
  {
  }
}
