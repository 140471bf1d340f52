/** The least-recently-used ring of `app_glyph_cache.h`: every slot of the
    data table, the sentinel 0 included, on one circular doubly-linked list
    through `next_in_lru`/`prev_in_lru`, most recent first after the
    sentinel and oldest at `data_table[0].prev_in_lru`. */
module GlyphRing {
  import opened Glyphs

  /** Every ring link names a slot of the table. */
  predicate LruLinksInRange(data: seq<Glyph>)
  {
    forall i :: 0 <= i < |data| ==> data[i].nextInLru < |data| && data[i].prevInLru < |data|
  }

  /** `lru` lists every slot of an `n`-slot table exactly once, starting at
      the sentinel. */
  predicate SlotOrder(lru: seq<nat>, n: nat)
  {
    && |lru| == n >= 1
    && lru[0] == 0
    && (forall k :: 0 <= k < |lru| ==> lru[k] < n)
    && (forall i :: 0 <= i < n ==> i in lru)
    && (forall j, k :: 0 <= j < k < |lru| ==> lru[j] != lru[k])
  }

  /** Each slot's `next` is the one after it in `lru`, the sentinel after
      the last. */
  predicate NextFollows(data: seq<Glyph>, lru: seq<nat>)
    requires SlotOrder(lru, |data|)
  {
    && (forall k :: 0 <= k < |lru| - 1 ==> data[lru[k]].nextInLru == lru[k + 1])
    && data[lru[|lru| - 1]].nextInLru == 0
  }

  /** Each slot's `prev` is the one before it in `lru`, the last before the
      sentinel. */
  predicate PrevFollows(data: seq<Glyph>, lru: seq<nat>)
    requires SlotOrder(lru, |data|)
  {
    && (forall k :: 0 <= k < |lru| - 1 ==> data[lru[k + 1]].prevInLru == lru[k])
    && data[0].prevInLru == lru[|lru| - 1]
  }

  /** The links of `data` spell out the order `lru`: one circular
      doubly-linked list through every slot. */
  predicate Ring(data: seq<Glyph>, lru: seq<nat>)
  {
    && LruLinksInRange(data)
    && SlotOrder(lru, |data|)
    && NextFollows(data, lru)
    && PrevFollows(data, lru)
  }

  /** The ring depends on the ring links alone. */
  lemma RingKeptByLinks(data: seq<Glyph>, data': seq<Glyph>, lru: seq<nat>)
    requires Ring(data, lru) && |data'| == |data|
    requires forall j :: 0 <= j < |data| ==>
               data'[j].nextInLru == data[j].nextInLru && data'[j].prevInLru == data[j].prevInLru
    ensures Ring(data', lru)
  {
  }

  /** The ring is a doubly-linked list: every slot is the successor of its
      predecessor and the predecessor of its successor. */
  lemma RingIsDoublyLinked(data: seq<Glyph>, lru: seq<nat>)
    requires Ring(data, lru)
    ensures forall i :: 0 <= i < |data| ==>
              data[data[i].nextInLru].prevInLru == i && data[data[i].prevInLru].nextInLru == i
  {
    forall i | 0 <= i < |data|
      ensures data[data[i].nextInLru].prevInLru == i && data[data[i].prevInLru].nextInLru == i
    {
      assert i in lru;
      var k :| 0 <= k < |lru| && lru[k] == i;
      var n := |lru|;
      if k < n - 1 {
        assert data[i].nextInLru == lru[k + 1];
      } else {
        assert data[i].nextInLru == lru[0];
      }
      if k > 0 {
        assert data[lru[k - 1 + 1]].prevInLru == lru[k - 1];
      } else {
        assert data[i].prevInLru == lru[n - 1];
      }
    }
  }

  /** The order after slot `lru[p]` is moved to the front, right after the
      sentinel. */
  function Promote(lru: seq<nat>, p: nat): (r: seq<nat>)
    requires 1 <= p < |lru|
    ensures |r| == |lru| && r[0] == lru[0] && r[1] == lru[p]
    ensures forall k :: 2 <= k <= p ==> r[k] == lru[k - 1]
    ensures forall k :: p < k < |lru| ==> r[k] == lru[k]
  {
    [lru[0], lru[p]] + lru[1..p] + lru[p + 1..]
  }

  /** The first half of the relinking at the end of `get_glyph`: join the
      neighbours of slot `s` to each other. */
  function Detach(data: seq<Glyph>, s: nat): (r: seq<Glyph>)
    requires s < |data| && LruLinksInRange(data)
    ensures |r| == |data| && LruLinksInRange(r)
    ensures forall i :: 0 <= i < |r| ==>
              && r[i] == data[i].(nextInLru := r[i].nextInLru, prevInLru := r[i].prevInLru)
              && r[i].nextInLru == (if i == data[s].prevInLru then data[s].nextInLru else data[i].nextInLru)
              && r[i].prevInLru == (if i == data[s].nextInLru then data[s].prevInLru else data[i].prevInLru)
  {
    var next, prev := data[s].nextInLru, data[s].prevInLru;
    var d := data[prev := data[prev].(nextInLru := data[s].nextInLru)];
    d[next := d[next].(prevInLru := d[s].prevInLru)]
  }

  /** The second half: put slot `s` between the sentinel and the sentinel's
      successor. */
  function Attach(data: seq<Glyph>, s: nat): (r: seq<Glyph>)
    requires s < |data| && LruLinksInRange(data)
    ensures |r| == |data| && LruLinksInRange(r)
    ensures forall i :: 0 <= i < |r| ==>
              r[i] == data[i].(nextInLru := r[i].nextInLru, prevInLru := r[i].prevInLru)
    ensures data[0].nextInLru != s ==>
              forall i :: 0 <= i < |r| ==>
                && r[i].nextInLru == (if i == 0 then s else if i == s then data[0].nextInLru
                                      else data[i].nextInLru)
                && r[i].prevInLru == (if i == s then 0 else if i == data[0].nextInLru then s
                                      else data[i].prevInLru)
  {
    var d := data[s := data[s].(nextInLru := data[0].nextInLru, prevInLru := 0)];
    var d' := d[d[s].nextInLru := d[d[s].nextInLru].(prevInLru := s)];
    d'[d'[s].prevInLru := d'[d'[s].prevInLru].(nextInLru := s)]
  }

  /** The relinking at the end of `get_glyph`, as the source writes it:
      unlink slot `s`, then make it the most recent. */
  function MoveToFront(data: seq<Glyph>, s: nat): (r: seq<Glyph>)
    requires s < |data| && LruLinksInRange(data)
    ensures |r| == |data| && LruLinksInRange(r)
    ensures forall i :: 0 <= i < |r| ==>
              r[i] == data[i].(nextInLru := r[i].nextInLru, prevInLru := r[i].prevInLru)
  {
    Attach(Detach(data, s), s)
  }

  /** The `next` links after slot `s`, which sat between `before` and
      `after`, moved in front of `front`: the sentinel leads to `s`, `s` to
      `front`, `before` to `after`, and every other link is as it was. */
  predicate NextMoved(data: seq<Glyph>, r: seq<Glyph>, s: nat, before: nat, front: nat, after: nat)
  {
    && |r| == |data| && s < |r| && before < |r|
    && r[0].nextInLru == s && r[s].nextInLru == front && r[before].nextInLru == after
    && forall i :: 0 <= i < |r| && i != 0 && i != s && i != before ==>
         r[i].nextInLru == data[i].nextInLru
  }

  /** The `prev` links after the same move: `s` follows the sentinel,
      `front` follows `s`, `after` follows `before`, and every other link is
      as it was. */
  predicate PrevMoved(data: seq<Glyph>, r: seq<Glyph>, s: nat, before: nat, front: nat, after: nat)
  {
    && |r| == |data| && s < |r| && front < |r| && after < |r|
    && r[s].prevInLru == 0 && r[front].prevInLru == s && r[after].prevInLru == before
    && forall i :: 0 <= i < |r| && i != s && i != front && i != after ==>
         r[i].prevInLru == data[i].prevInLru
  }

  /** Moving the most recent slot to the front changes nothing. */
  lemma MoveFirstToFront(data: seq<Glyph>, lru: seq<nat>)
    requires Ring(data, lru) && |lru| >= 2
    ensures MoveToFront(data, lru[1]) == data
  {
    var s := lru[1];
    var after := data[s].nextInLru;
    assert data[lru[0 + 1]].prevInLru == lru[0];
    assert data[s].prevInLru == 0 && data[0].nextInLru == s;
    if |lru| > 2 {
      assert data[lru[1 + 1]].prevInLru == lru[1];
    }
    assert data[after].prevInLru == s;
    var d := Detach(data, s);
    assert d[0].nextInLru == after != s;
    var r := Attach(d, s);
    forall i | 0 <= i < |data|
      ensures r[i] == data[i]
    {
      FirstToFrontAt(data, d, r, s, after, i);
    }
  }

  /** One slot of `MoveFirstToFront`: detaching the front slot and attaching
      it again restores both links. */
  lemma FirstToFrontAt(data: seq<Glyph>, d: seq<Glyph>, r: seq<Glyph>, s: nat, after: nat, i: nat)
    requires |data| == |d| == |r| && s < |data| && after < |data| && i < |data| && s != 0 && after != s
    requires data[s].prevInLru == 0 && data[s].nextInLru == after
    requires data[0].nextInLru == s && data[after].prevInLru == s
    requires forall j :: 0 <= j < |d| ==>
               && d[j] == data[j].(nextInLru := d[j].nextInLru, prevInLru := d[j].prevInLru)
               && d[j].nextInLru == (if j == 0 then after else data[j].nextInLru)
               && d[j].prevInLru == (if j == after then 0 else data[j].prevInLru)
    requires forall j :: 0 <= j < |r| ==>
               && r[j] == d[j].(nextInLru := r[j].nextInLru, prevInLru := r[j].prevInLru)
               && r[j].nextInLru == (if j == 0 then s else if j == s then d[0].nextInLru else d[j].nextInLru)
               && r[j].prevInLru == (if j == s then 0 else if j == d[0].nextInLru then s else d[j].prevInLru)
    ensures r[i] == data[i]
  {
    assert r[i].nextInLru == data[i].nextInLru;
    assert r[i].prevInLru == data[i].prevInLru;
  }

  /** What the relinking does to each link, for a slot further back than
      the front: the sentinel now leads to it, it leads to the old front,
      and its old neighbours are joined. */
  lemma MoveToFrontLinks(data: seq<Glyph>, lru: seq<nat>, p: nat)
    requires Ring(data, lru) && 2 <= p < |lru|
    ensures var s, before, front := lru[p], lru[p - 1], lru[1];
            var after := if p + 1 < |lru| then lru[p + 1] else 0;
            var r := MoveToFront(data, s);
            && NextMoved(data, r, s, before, front, after)
            && PrevMoved(data, r, s, before, front, after)
  {
    var s := lru[p];
    assert data[s].prevInLru == lru[p - 1];
    assert data[0].nextInLru == lru[1];
    if p + 1 < |lru| {
      assert data[s].nextInLru == lru[p + 1];
    }
    var d := Detach(data, s);
    assert d[0].nextInLru == lru[1] != s;
  }

  /** Moving any slot but the sentinel to the front keeps one consistent
      ring, now in the promoted order. */
  lemma MoveToFrontRing(data: seq<Glyph>, lru: seq<nat>, p: nat)
    requires Ring(data, lru) && 1 <= p < |lru|
    ensures Ring(MoveToFront(data, lru[p]), Promote(lru, p))
  {
    if p == 1 {
      MoveFirstToFront(data, lru);
      assert Promote(lru, 1) == lru;
    } else {
      MoveBackToFrontRing(data, lru, p);
    }
  }

  /** The case of `MoveToFrontRing` where the slot is not already the most
      recent. */
  lemma MoveBackToFrontRing(data: seq<Glyph>, lru: seq<nat>, p: nat)
    requires Ring(data, lru) && 2 <= p < |lru|
    ensures Ring(MoveToFront(data, lru[p]), Promote(lru, p))
  {
    MoveToFrontLinks(data, lru, p);
    PromotedRing(data, lru, p, MoveToFront(data, lru[p]));
  }

  /** Links changed as `MoveToFrontLinks` describes spell out the promoted
      order. */
  lemma PromotedRing(data: seq<Glyph>, lru: seq<nat>, p: nat, r: seq<Glyph>)
    requires Ring(data, lru) && 2 <= p < |lru|
    requires |r| == |data| && LruLinksInRange(r)
    requires var s, before, front := lru[p], lru[p - 1], lru[1];
             var after := if p + 1 < |lru| then lru[p + 1] else 0;
             && NextMoved(data, r, s, before, front, after)
             && PrevMoved(data, r, s, before, front, after)
    ensures Ring(r, Promote(lru, p))
  {
    var l' := Promote(lru, p);
    PromoteKeepsSlots(lru, p, |data|);
    PromotedNext(data, lru, p, l', r);
    PromotedPrev(data, lru, p, l', r);
  }

  /** The promoted order lists the same slots, each once. */
  lemma PromoteKeepsSlots(lru: seq<nat>, p: nat, bound: nat)
    requires 1 <= p < |lru|
    requires SlotOrder(lru, bound)
    ensures SlotOrder(Promote(lru, p), bound)
  {
    var l' := Promote(lru, p);
    forall x | x in lru
      ensures x in l'
    {
      var k :| 0 <= k < |lru| && lru[k] == x;
      if k == 0 { assert l'[0] == x; }
      else if k == p { assert l'[1] == x; }
      else if k < p { assert l'[k + 1] == x; }
      else { assert l'[k] == x; }
    }
    forall j, k | 0 <= j < k < |l'|
      ensures l'[j] != l'[k]
    {
      var j' := if j == 1 then p else if 2 <= j <= p then j - 1 else j;
      var k' := if k == 1 then p else if 2 <= k <= p then k - 1 else k;
      assert l'[j] == lru[j'] && l'[k] == lru[k'];
    }
  }

  /** The `next` links after the move follow the promoted order. */
  lemma PromotedNext(data: seq<Glyph>, lru: seq<nat>, p: nat, l': seq<nat>, r: seq<Glyph>)
    requires SlotOrder(lru, |data|) && NextFollows(data, lru) && 2 <= p < |lru|
    requires l' == Promote(lru, p) && |r| == |data| && SlotOrder(l', |data|)
    requires NextMoved(data, r, lru[p], lru[p - 1], lru[1], if p + 1 < |lru| then lru[p + 1] else 0)
    ensures NextFollows(r, l')
  {
    forall k | 0 <= k < |l'| - 1
      ensures r[l'[k]].nextInLru == l'[k + 1]
    {
      if 2 <= k < p {
        NextKept(data, lru, r, p, k - 1);
      } else if p < k {
        NextKept(data, lru, r, p, k);
      }
    }
    PromotedLastNext(data, lru, p, l', r);
  }

  /** After the move the last slot of the promoted order still leads back
      to the sentinel. */
  lemma PromotedLastNext(data: seq<Glyph>, lru: seq<nat>, p: nat, l': seq<nat>, r: seq<Glyph>)
    requires SlotOrder(lru, |data|) && NextFollows(data, lru) && 2 <= p < |lru|
    requires l' == Promote(lru, p) && |r| == |data| && SlotOrder(l', |data|)
    requires NextMoved(data, r, lru[p], lru[p - 1], lru[1], if p + 1 < |lru| then lru[p + 1] else 0)
    ensures r[l'[|l'| - 1]].nextInLru == 0
  {
    var n := |lru|;
    if p < n - 1 {
      assert l'[n - 1] == lru[n - 1];
      assert lru[n - 1] != lru[p - 1] && lru[n - 1] != lru[p] && lru[n - 1] != lru[0];
    } else {
      assert l'[n - 1] == lru[p - 1];
    }
  }

  /** A slot other than the sentinel, the moved one and its predecessor
      keeps its successor. */
  lemma NextKept(data: seq<Glyph>, lru: seq<nat>, r: seq<Glyph>, p: nat, j: nat)
    requires SlotOrder(lru, |data|) && NextFollows(data, lru) && 2 <= p < |lru|
    requires NextMoved(data, r, lru[p], lru[p - 1], lru[1], if p + 1 < |lru| then lru[p + 1] else 0)
    requires 1 <= j < |lru| - 1 && j != p && j != p - 1
    ensures r[lru[j]].nextInLru == lru[j + 1]
  {
    assert lru[j] != lru[0] && lru[j] != lru[p] && lru[j] != lru[p - 1];
  }

  /** The `prev` links after the move follow the promoted order. */
  lemma PromotedPrev(data: seq<Glyph>, lru: seq<nat>, p: nat, l': seq<nat>, r: seq<Glyph>)
    requires SlotOrder(lru, |data|) && PrevFollows(data, lru) && 2 <= p < |lru|
    requires l' == Promote(lru, p) && |r| == |data| && SlotOrder(l', |data|)
    requires PrevMoved(data, r, lru[p], lru[p - 1], lru[1], if p + 1 < |lru| then lru[p + 1] else 0)
    ensures PrevFollows(r, l')
  {
    forall k | 0 <= k < |l'| - 1
      ensures r[l'[k + 1]].prevInLru == l'[k]
    {
      if 3 <= k + 1 <= p {
        PrevKept(data, lru, r, p, k);
      } else if p + 1 < k + 1 {
        PrevKept(data, lru, r, p, k + 1);
      }
    }
    PromotedLastPrev(data, lru, p, l', r);
  }

  /** After the move the sentinel's predecessor is still the last slot of
      the promoted order. */
  lemma PromotedLastPrev(data: seq<Glyph>, lru: seq<nat>, p: nat, l': seq<nat>, r: seq<Glyph>)
    requires SlotOrder(lru, |data|) && PrevFollows(data, lru) && 2 <= p < |lru|
    requires l' == Promote(lru, p) && |r| == |data| && SlotOrder(l', |data|)
    requires PrevMoved(data, r, lru[p], lru[p - 1], lru[1], if p + 1 < |lru| then lru[p + 1] else 0)
    ensures r[0].prevInLru == l'[|l'| - 1]
  {
    var n := |lru|;
    if p < n - 1 {
      assert l'[n - 1] == lru[n - 1];
      assert 0 != lru[p + 1];
    } else {
      assert l'[n - 1] == lru[p - 1];
    }
  }

  /** A slot other than the moved one, the old front and the moved one's
      successor keeps its predecessor. */
  lemma PrevKept(data: seq<Glyph>, lru: seq<nat>, r: seq<Glyph>, p: nat, j: nat)
    requires SlotOrder(lru, |data|) && PrevFollows(data, lru) && 2 <= p < |lru|
    requires PrevMoved(data, r, lru[p], lru[p - 1], lru[1], if p + 1 < |lru| then lru[p + 1] else 0)
    requires 2 <= j < |lru| && j != p && j != p + 1
    ensures r[lru[j]].prevInLru == lru[j - 1]
  {
    assert lru[j] != lru[1] && lru[j] != lru[p];
    assert lru[j] != (if p + 1 < |lru| then lru[p + 1] else 0);
    assert data[lru[j - 1 + 1]].prevInLru == lru[j - 1];
  }
}
