/** The collision chains of `app_glyph_cache.h`: each bucket of the hash
    table names the first slot of a singly-linked list threaded through
    `next_in_collision`, where index 0 is the null link. */
module GlyphChains {
  import opened Glyphs

  datatype Option<T> = None | Some(value: T)

  /** The data table and the hash table together. */
  datatype Tables = Tables(data: seq<Glyph>, table: seq<nat>)

  /** Every collision link names a slot of the table. */
  predicate CollisionLinksInRange(data: seq<Glyph>)
  {
    forall i :: 0 <= i < |data| ==> data[i].nextInCollision < |data|
  }

  /** Every bucket and every collision link names a slot of the table. */
  predicate TablesInRange(t: Tables)
  {
    && CollisionLinksInRange(t.data)
    && forall k :: 0 <= k < |t.table| ==> t.table[k] < |t.data|
  }

  /** `c` is the chain that starts at slot `head` and follows
      `next_in_collision` up to the null link 0. The sentinel 0 is never a
      member. */
  predicate Linked(data: seq<Glyph>, head: nat, c: seq<nat>)
    decreases |c|
  {
    if c == [] then head == 0
    else head == c[0] && 1 <= c[0] < |data| && Linked(data, data[c[0]].nextInCollision, c[1..])
  }

  predicate Distinct(c: seq<nat>)
  {
    forall j, k :: 0 <= j < k < |c| ==> c[j] != c[k]
  }

  /** The members of a chain are real slots. */
  lemma {:induction false} LinkedInRange(data: seq<Glyph>, head: nat, c: seq<nat>)
    requires Linked(data, head, c) && |data| >= 1
    ensures head < |data|
    ensures forall k :: 0 <= k < |c| ==> 1 <= c[k] < |data|
    decreases |c|
  {
    if c != [] {
      LinkedInRange(data, data[c[0]].nextInCollision, c[1..]);
      assert forall k :: 1 <= k < |c| ==> c[k] == c[1..][k - 1];
    }
  }

  /** A chain stays linked when the links of its members are kept. */
  lemma {:induction false} LinkedFrame(data: seq<Glyph>, data': seq<Glyph>, head: nat, c: seq<nat>)
    requires Linked(data, head, c) && |data'| == |data|
    requires forall j :: 0 <= j < |data| && j in c ==> data'[j].nextInCollision == data[j].nextInCollision
    ensures Linked(data', head, c)
    decreases |c|
  {
    if c != [] {
      LinkedFrame(data, data', data[c[0]].nextInCollision, c[1..]);
    }
  }

  /** The first member of `c` that holds `hash`. */
  function FirstWith(data: seq<Glyph>, c: seq<nat>, hash: nat): (r: Option<nat>)
    requires forall k :: 0 <= k < |c| ==> c[k] < |data|
    ensures r.Some? ==> r.value in c && data[r.value].hash == hash
    ensures r.None? <==> forall k :: 0 <= k < |c| ==> data[c[k]].hash != hash
  {
    if c == [] then None
    else if data[c[0]].hash == hash then Some(c[0])
    else
      assert forall k :: 1 <= k < |c| ==> c[k] == c[1..][k - 1];
      FirstWith(data, c[1..], hash)
  }

  /** The lookup loop of `get_glyph`, from slot `i`: stop at the first slot
      holding `hash`, or give up at a slot whose collision link is null.
      The source loops without bound; `fuel` bounds the walk here, and a
      chain is shorter than the table, so the table's size is enough. */
  function Find(data: seq<Glyph>, i: nat, hash: nat, fuel: nat): (r: Option<nat>)
    requires i < |data| && CollisionLinksInRange(data)
    ensures r.Some? ==> r.value < |data| && data[r.value].hash == hash
    decreases fuel
  {
    if data[i].hash == hash then Some(i)
    else if data[i].nextInCollision == 0 || fuel == 0 then None
    else Find(data, data[i].nextInCollision, hash, fuel - 1)
  }

  /** Walking a chain from its head finds the chain's first member that
      holds `hash`, and nothing when no member does, provided the sentinel
      is empty and unlinked and `hash` is not the sentinel's 0. */
  lemma {:induction false} FindWalksChain(data: seq<Glyph>, head: nat, c: seq<nat>, hash: nat, fuel: nat)
    requires CollisionLinksInRange(data) && |data| >= 1
    requires data[0].hash == 0 && data[0].nextInCollision == 0 && hash != 0
    requires Linked(data, head, c) && |c| <= fuel + 1
    ensures head < |data| && forall k :: 0 <= k < |c| ==> c[k] < |data|
    ensures Find(data, head, hash, fuel) == FirstWith(data, c, hash)
    decreases |c|
  {
    LinkedInRange(data, head, c);
    if c != [] && data[head].hash != hash {
      var n := data[head].nextInCollision;
      assert forall k :: 1 <= k < |c| ==> c[k] == c[1..][k - 1];
      if c[1..] == [] {
        assert n == 0;
      } else {
        assert n == c[1] != 0;
        FindWalksChain(data, n, c[1..], hash, fuel - 1);
      }
    }
  }

  /** The elements of a sequence. */
  function Elements(c: seq<nat>): set<nat>
  {
    set x | x in c
  }

  /** The naturals below `n`. */
  function Below(n: nat): (r: set<nat>)
    ensures |r| == n && forall x: nat :: x in r <==> x < n
  {
    if n == 0 then {}
    else
      var b := Below(n - 1);
      assert n - 1 !in b;
      b + {n - 1}
  }

  lemma {:induction false} DistinctElements(c: seq<nat>)
    requires Distinct(c)
    ensures |Elements(c)| == |c|
  {
    if c != [] {
      DistinctElements(c[1..]);
      assert Elements(c) == Elements(c[1..]) + {c[0]};
    }
  }

  /** A chain without repeats visits each slot at most once, so it is no
      longer than the table. */
  lemma DistinctBounded(c: seq<nat>, n: nat)
    requires Distinct(c) && forall k :: 0 <= k < |c| ==> c[k] < n
    ensures |c| <= n
  {
    DistinctElements(c);
    var b := Below(n);
    assert Elements(c) <= b;
    assert b == Elements(c) + (b - Elements(c));
  }

  /** `c` with every occurrence of `x` removed. */
  function Without(c: seq<nat>, x: nat): (r: seq<nat>)
    ensures forall y :: y in r <==> y in c && y != x
    ensures Distinct(c) ==> Distinct(r)
  {
    if c == [] then []
    else
      var rest := Without(c[1..], x);
      assert forall y :: y in c <==> y == c[0] || y in c[1..];
      if c[0] == x then rest
      else
        assert Distinct(c) ==> c[0] !in rest;
        [c[0]] + rest
  }

  /** Removing what is not there changes nothing. */
  lemma {:induction false} WithoutAbsent(c: seq<nat>, x: nat)
    requires x !in c
    ensures Without(c, x) == c
  {
    if c != [] {
      assert x !in c[1..];
      WithoutAbsent(c[1..], x);
    }
  }

  /** The unlinking loop of `get_free_glyph_slot` past a chain's head:
      find the slot whose collision link is `target`, make it skip
      `target`, and null `target`'s own link. The source asserts that the
      target is found; here a null link or exhausted fuel ends the walk
      with nothing changed. */
  function UnlinkAfter(data: seq<Glyph>, i: nat, target: nat, fuel: nat): (r: seq<Glyph>)
    requires i < |data| && target < |data| && CollisionLinksInRange(data)
    ensures |r| == |data| && CollisionLinksInRange(r)
    ensures forall j :: 0 <= j < |r| ==> r[j] == data[j].(nextInCollision := r[j].nextInCollision)
    decreases fuel
  {
    var n := data[i].nextInCollision;
    if n == target then
      var d := data[i := data[i].(nextInCollision := data[target].nextInCollision)];
      d[target := d[target].(nextInCollision := 0)]
    else if n == 0 || fuel == 0 then data
    else UnlinkAfter(data, n, target, fuel - 1)
  }

  /** The whole unlinking loop of `get_free_glyph_slot` on bucket `key`. */
  function Unlink(t: Tables, key: nat, target: nat, fuel: nat): (r: Tables)
    requires TablesInRange(t) && key < |t.table| && target < |t.data|
    ensures TablesInRange(r) && |r.data| == |t.data| && |r.table| == |t.table|
    ensures forall j :: 0 <= j < |r.data| ==>
              r.data[j] == t.data[j].(nextInCollision := r.data[j].nextInCollision)
    ensures forall k :: 0 <= k < |r.table| && k != key ==> r.table[k] == t.table[k]
  {
    var head := t.table[key];
    if head == target then
      Tables(t.data[target := t.data[target].(nextInCollision := 0)],
             t.table[key := t.data[target].nextInCollision])
    else
      Tables(UnlinkAfter(t.data, head, target, fuel), t.table)
  }

  /** Unlinking past slot `i`, which leads into the chain `c` holding
      `target`, leaves `i` leading into `c` without `target`, nulls
      `target`'s link, and touches no slot outside `c` but `i`. */
  lemma {:induction false} UnlinkAfterChain(data: seq<Glyph>, i: nat, c: seq<nat>, target: nat, fuel: nat)
    requires CollisionLinksInRange(data) && 1 <= i < |data| && target < |data|
    requires Linked(data, data[i].nextInCollision, c) && target in c && i !in c
    requires Distinct(c) && |c| <= fuel + 1
    ensures var r := UnlinkAfter(data, i, target, fuel);
            && Linked(r, r[i].nextInCollision, Without(c, target))
            && r[target].nextInCollision == 0
            && forall j :: 0 <= j < |r| && j != i && j !in c ==> r[j] == data[j]
    decreases |c|
  {
    var n := data[i].nextInCollision;
    var r := UnlinkAfter(data, i, target, fuel);
    assert n == c[0];
    assert forall k :: 1 <= k < |c| ==> c[k] == c[1..][k - 1];
    if n == target {
      assert target !in c[1..];
      WithoutAbsent(c[1..], target);
      assert Without(c, target) == c[1..];
      LinkedFrame(data, r, data[target].nextInCollision, c[1..]);
    } else {
      assert target in c[1..] && n !in c[1..];
      UnlinkAfterChain(data, n, c[1..], target, fuel - 1);
      assert Without(c, target) == [n] + Without(c[1..], target);
    }
  }

  /** Unlinking `target` from the bucket whose chain `c` holds it leaves
      the bucket heading `c` without `target`, nulls `target`'s link, and
      touches no other bucket and no slot outside `c`. */
  lemma UnlinkChain(t: Tables, key: nat, c: seq<nat>, target: nat, fuel: nat)
    requires TablesInRange(t) && key < |t.table| && target < |t.data|
    requires Linked(t.data, t.table[key], c) && target in c
    requires Distinct(c) && |c| <= fuel + 2
    ensures var r := Unlink(t, key, target, fuel);
            && Linked(r.data, r.table[key], Without(c, target))
            && r.data[target].nextInCollision == 0
            && forall j :: 0 <= j < |r.data| && j !in c ==> r.data[j] == t.data[j]
  {
    var r := Unlink(t, key, target, fuel);
    var head := t.table[key];
    assert head == c[0];
    assert forall k :: 1 <= k < |c| ==> c[k] == c[1..][k - 1];
    if head == target {
      assert target !in c[1..];
      WithoutAbsent(c[1..], target);
      assert Without(c, target) == c[1..];
      LinkedFrame(t.data, r.data, t.data[target].nextInCollision, c[1..]);
    } else {
      assert target in c[1..] && head !in c[1..];
      UnlinkAfterChain(t.data, head, c[1..], target, fuel);
      assert Without(c, target) == [head] + Without(c[1..], target);
    }
  }

  /** The insertion at the end of a miss in `get_glyph`: slot `s` becomes
      the head of bucket `key`, linking to the previous head. */
  function Push(t: Tables, key: nat, s: nat): (r: Tables)
    requires TablesInRange(t) && key < |t.table| && s < |t.data|
    ensures TablesInRange(r) && |r.data| == |t.data| && |r.table| == |t.table|
    ensures forall j :: 0 <= j < |r.data| ==>
              r.data[j] == t.data[j].(nextInCollision := r.data[j].nextInCollision)
    ensures forall k :: 0 <= k < |r.table| && k != key ==> r.table[k] == t.table[k]
  {
    Tables(t.data[s := t.data[s].(nextInCollision := t.table[key])], t.table[key := s])
  }

  /** Pushing a slot outside the bucket's chain `c` makes the chain `[s] +
      c`, and leaves every slot but `s` as it was. */
  lemma PushChain(t: Tables, key: nat, c: seq<nat>, s: nat)
    requires TablesInRange(t) && key < |t.table| && 1 <= s < |t.data|
    requires Linked(t.data, t.table[key], c) && s !in c
    ensures var r := Push(t, key, s);
            && Linked(r.data, r.table[key], [s] + c)
            && forall j :: 0 <= j < |r.data| && j != s ==> r.data[j] == t.data[j]
  {
    var r := Push(t, key, s);
    LinkedFrame(t.data, r.data, t.table[key], c);
    assert ([s] + c)[1..] == c;
  }
}
