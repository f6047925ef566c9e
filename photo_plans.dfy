/**
 * The position arithmetic of the photo handlers, stated on rows: the lowest free gallery
 * slot an upload takes, the renumbering `1, 2, ..., count` that follows the deletion of a
 * gallery photo, and the check that a requested reordering leaves a permutation of `1..N`.
 */
module PhotoPlans {
  import opened Base
  import opened Seqs
  import opened PhotoRows

  // ----- upload: the lowest free position -----

  /** `p` is the first of `1..5` missing from `used`. */
  predicate IsLowestFree(used: set<int>, p: int) {
    1 <= p <= MaxPhotos && p !in used && forall q :: 1 <= q < p ==> q in used
  }

  /** An owner below the total cap always has a free gallery position. */
  lemma FreePositionExists(rows: seq<Photo>, u: int)
    requires |OwnedRows(rows, u)| < MaxPhotos
    ensures exists q :: 1 <= q <= MaxPhotos && q !in UsedPositions(GalleryRows(rows, u))
  {
    OwnedIsGalleryPlusAvatars(rows, u);
    var used := UsedPositions(GalleryRows(rows, u));
    UsedPositionsBound(GalleryRows(rows, u));
    var all := Range(1, MaxPhotos);
    RangeSize(MaxPhotos);
    var missing := all - used;
    assert all == (all * used) + missing;
    assert |all * used| <= |used|;
    assert |missing| > 0;
    var q :| q in missing;
  }

  /** In a contiguous gallery the lowest free position is the one after the last. */
  lemma LowestFreeAfterContiguous(g: seq<Photo>, p: int)
    requires ContiguousPositions(g) && IsLowestFree(UsedPositions(g), p)
    ensures p == |g| + 1
  {
    ContiguousOccupiesRange(g);
    assert |g| + 1 !in UsedPositions(g);
  }

  // ----- delete: compaction -----

  /** The owner's gallery `ORDER BY position ASC` (nulls last), as compaction and reorder read it. */
  function GalleryInOrder(rows: seq<Photo>, u: int): (g: seq<Photo>)
    ensures multiset(g) == multiset(GalleryRows(rows, u))
    ensures SortedByPosition(g, false)
  {
    SortByPosition(GalleryRows(rows, u), false)
  }

  /** The position each row of `rest` receives: its rank, counted from 1. */
  function CompactionPlan(rest: seq<Photo>): map<int, Option<int>>
    decreases |rest|
  {
    if rest == [] then map[]
    else CompactionPlan(rest[..|rest| - 1])[rest[|rest| - 1].id := Some(|rest|)]
  }

  /** The ids of the rows an `UPDATE` is issued for: those not already at their rank. */
  function CompactionUpdates(rest: seq<Photo>): seq<int>
    decreases |rest|
  {
    if rest == [] then []
    else
      CompactionUpdates(rest[..|rest| - 1]) +
      (if rest[|rest| - 1].position != Some(|rest|) then [rest[|rest| - 1].id] else [])
  }

  /** The table after compaction of `u`'s gallery. */
  function Compact(rows: seq<Photo>, u: int): (r: seq<Photo>)
    ensures |r| == |rows|
    ensures forall m :: 0 <= m < |rows| ==> r[m] == rows[m].(position := r[m].position)
    ensures forall m :: 0 <= m < |rows| && !IsGalleryOf(u)(rows[m]) ==> r[m] == rows[m]
  {
    Reassign(rows, u, CompactionPlan(GalleryInOrder(rows, u)))
  }

  lemma PrefixKeysDistinct<T, K>(s: seq<T>, key: T -> K, m: nat)
    requires m <= |s| && KeysDistinct(s, key)
    ensures KeysDistinct(s[..m], key)
  {
    var t := s[..m];
    forall i, j | 0 <= i < j < |t| ensures key(t[i]) != key(t[j]) {
      assert t[i] == s[i] && t[j] == s[j];
    }
  }

  lemma {:induction false} CompactionPlanEntries(rest: seq<Photo>)
    requires KeysDistinct(rest, PhotoId)
    ensures forall x :: x in CompactionPlan(rest) <==> exists k :: 0 <= k < |rest| && rest[k].id == x
    ensures forall k :: 0 <= k < |rest| ==> CompactionPlan(rest)[rest[k].id] == Some(k + 1)
    decreases |rest|
  {
    if rest != [] {
      var n := |rest|;
      var front := rest[..n - 1];
      PrefixKeysDistinct(rest, PhotoId, n - 1);
      CompactionPlanEntries(front);
      forall k | 0 <= k < n - 1 ensures CompactionPlan(rest)[rest[k].id] == Some(k + 1) {
        assert front[k] == rest[k];
        assert PhotoId(rest[k]) != PhotoId(rest[n - 1]);
      }
      forall x | x in CompactionPlan(rest) ensures exists k :: 0 <= k < n && rest[k].id == x {
        if x != rest[n - 1].id {
          assert x in CompactionPlan(front);
          var k :| 0 <= k < n - 1 && front[k].id == x;
          assert rest[k].id == x;
        }
      }
      forall x | (exists k :: 0 <= k < n && rest[k].id == x) ensures x in CompactionPlan(rest) {
        var k :| 0 <= k < n && rest[k].id == x;
        if k < n - 1 {
          assert front[k].id == x;
        }
      }
    }
  }

  /** The elements of `rest` are the owner's gallery rows of `base`, each id once. */
  predicate GalleryRowsOf(rest: seq<Photo>, base: seq<Photo>, u: int) {
    (forall k :: 0 <= k < |rest| ==> rest[k] in base && IsGalleryOf(u)(rest[k])) &&
    KeysDistinct(rest, PhotoId)
  }

  /**
   * One round of the compaction loop: issuing `UPDATE ... WHERE id = rest[i].id` when the
   * row is not at rank `i + 1`, and nothing otherwise, extends the plan by that row.
   */
  lemma CompactionStep(base: seq<Photo>, u: int, rest: seq<Photo>, i: nat)
    requires UniqueIds(base) && GalleryRowsOf(rest, base, u) && i < |rest|
    ensures rest[i].position != Some(i + 1) ==>
      SetPosition(Reassign(base, u, CompactionPlan(rest[..i])), rest[i].id, i + 1) ==
      Reassign(base, u, CompactionPlan(rest[..i + 1]))
    ensures rest[i].position == Some(i + 1) ==>
      Reassign(base, u, CompactionPlan(rest[..i])) == Reassign(base, u, CompactionPlan(rest[..i + 1]))
    ensures CompactionUpdates(rest[..i + 1]) ==
      CompactionUpdates(rest[..i]) + (if rest[i].position != Some(i + 1) then [rest[i].id] else [])
  {
    var x := rest[i];
    assert rest[..i + 1][..i] == rest[..i];
    var plan := CompactionPlan(rest[..i]);
    var plan' := CompactionPlan(rest[..i + 1]);
    assert plan' == plan[x.id := Some(i + 1)];
    PrefixKeysDistinct(rest, PhotoId, i);
    CompactionPlanEntries(rest[..i]);
    assert x.id !in plan by {
      forall k | 0 <= k < i ensures rest[..i][k].id != x.id {
        assert rest[..i][k] == rest[k];
        assert PhotoId(rest[k]) != PhotoId(rest[i]);
      }
    }
    var before := Reassign(base, u, plan);
    var after := Reassign(base, u, plan');
    forall m | 0 <= m < |base|
      ensures base[m].id == x.id ==> base[m] == x
    {
      SameKeySameElement(base, PhotoId, base[m], x);
    }
    if x.position != Some(i + 1) {
      var set1 := SetPosition(before, x.id, i + 1);
      forall m | 0 <= m < |base| ensures set1[m] == after[m] {
      }
    } else {
      forall m | 0 <= m < |base| ensures before[m] == after[m] {
      }
    }
  }

  lemma {:induction false} CompactionUpdatesEntries(rest: seq<Photo>)
    ensures forall x :: x in CompactionUpdates(rest) <==>
      exists k :: 0 <= k < |rest| && rest[k].id == x && rest[k].position != Some(k + 1)
    decreases |rest|
  {
    if rest != [] {
      var n := |rest|;
      var front := rest[..n - 1];
      CompactionUpdatesEntries(front);
      forall x | x in CompactionUpdates(rest)
        ensures exists k :: 0 <= k < n && rest[k].id == x && rest[k].position != Some(k + 1)
      {
        if x in CompactionUpdates(front) {
          var k :| 0 <= k < n - 1 && front[k].id == x && front[k].position != Some(k + 1);
          assert rest[k] == front[k];
        }
      }
      forall x | exists k :: 0 <= k < n && rest[k].id == x && rest[k].position != Some(k + 1)
        ensures x in CompactionUpdates(rest)
      {
        var k :| 0 <= k < n && rest[k].id == x && rest[k].position != Some(k + 1);
        if k < n - 1 {
          assert front[k] == rest[k];
        }
      }
    }
  }

  /** The ordered gallery lists exactly the owner's gallery rows, each id once. */
  lemma GalleryInOrderRows(base: seq<Photo>, u: int)
    requires UniqueIds(base)
    ensures GalleryRowsOf(GalleryInOrder(base, u), base, u)
    ensures multiset(GalleryInOrder(base, u)) == multiset(GalleryRows(base, u))
  {
    var g := GalleryRows(base, u);
    var rest := GalleryInOrder(base, u);
    KeysDistinctFilter(base, IsGalleryOf(u), PhotoId);
    KeysDistinctPermutation(g, rest, PhotoId);
    forall k | 0 <= k < |rest| ensures rest[k] in base && IsGalleryOf(u)(rest[k]) {
      assert rest[k] in multiset(g);
    }
  }

  /** Ranks of two gallery rows in the compaction order. */
  lemma CompactionRanks(base: seq<Photo>, u: int, a: Photo, b: Photo) returns (ka: nat, kb: nat)
    requires UniqueIds(base) && a in GalleryRows(base, u) && b in GalleryRows(base, u)
    ensures ka < |GalleryInOrder(base, u)| && kb < |GalleryInOrder(base, u)|
    ensures GalleryInOrder(base, u)[ka] == a && GalleryInOrder(base, u)[kb] == b
    ensures a.id in CompactionPlan(GalleryInOrder(base, u)) &&
      CompactionPlan(GalleryInOrder(base, u))[a.id] == Some(ka + 1)
    ensures b.id in CompactionPlan(GalleryInOrder(base, u)) &&
      CompactionPlan(GalleryInOrder(base, u))[b.id] == Some(kb + 1)
    ensures a.id != b.id ==> ka != kb
    ensures a.position.Some? && b.position.Some? && a.position.value < b.position.value ==> ka < kb
  {
    ka := CompactionRank(base, u, a);
    kb := CompactionRank(base, u, b);
    var rest := GalleryInOrder(base, u);
    assert kb < ka ==> PosLe(rest[kb], rest[ka], false);
  }

  /** The rank of one gallery row in the compaction order, and the position it receives. */
  lemma CompactionRank(base: seq<Photo>, u: int, a: Photo) returns (k: nat)
    requires UniqueIds(base) && a in GalleryRows(base, u)
    ensures k < |GalleryInOrder(base, u)| && GalleryInOrder(base, u)[k] == a
    ensures a.id in CompactionPlan(GalleryInOrder(base, u)) &&
      CompactionPlan(GalleryInOrder(base, u))[a.id] == Some(k + 1)
  {
    var rest := GalleryInOrder(base, u);
    GalleryInOrderRows(base, u);
    CompactionPlanEntries(rest);
    assert a in multiset(rest);
    k :| 0 <= k < |rest| && rest[k] == a;
  }

  /** Compaction renumbers the owner's gallery rows in place. */
  lemma CompactedGallery(base: seq<Photo>, u: int)
    ensures GalleryRows(Compact(base, u), u) ==
      MapSeq(GalleryRows(base, u), ReassignOne(u, CompactionPlan(GalleryInOrder(base, u))))
    ensures |GalleryRows(Compact(base, u), u)| == |GalleryRows(base, u)|
    ensures forall i :: 0 <= i < |GalleryRows(base, u)| ==>
      GalleryRows(Compact(base, u), u)[i] ==
      GalleryRows(base, u)[i].(position := GalleryRows(Compact(base, u), u)[i].position)
  {
    var plan := CompactionPlan(GalleryInOrder(base, u));
    ReassignSelections(base, u, plan);
    var g := GalleryRows(base, u);
    forall i | 0 <= i < |g| ensures IsGalleryOf(u)(g[i]) {
    }
  }

  /** Compaction numbers the owner's gallery `1..count`. */
  lemma CompactionContiguous(base: seq<Photo>, u: int)
    requires UniqueIds(base)
    ensures ContiguousPositions(GalleryRows(Compact(base, u), u))
  {
    var g := GalleryRows(base, u);
    var plan := CompactionPlan(GalleryInOrder(base, u));
    CompactedGallery(base, u);
    KeysDistinctFilter(base, IsGalleryOf(u), PhotoId);
    forall i | 0 <= i < |g|
      ensures g[i].id in plan && plan[g[i].id].Some? && 1 <= plan[g[i].id].value <= |g|
    {
      var ki, kj := CompactionRanks(base, u, g[i], g[i]);
    }
    forall i, j | 0 <= i < j < |g| ensures plan[g[i].id] != plan[g[j].id] {
      assert PhotoId(g[i]) != PhotoId(g[j]);
      var ki, kj := CompactionRanks(base, u, g[i], g[j]);
    }
    PlannedGalleryContiguous(g, u, plan);
  }

  /** Compaction keeps the relative order of the gallery's positions. */
  lemma CompactionKeepsOrder(base: seq<Photo>, u: int, i: nat, j: nat)
    requires UniqueIds(base)
    requires i < |GalleryRows(base, u)| && j < |GalleryRows(base, u)|
    requires GalleryRows(base, u)[i].position.Some? && GalleryRows(base, u)[j].position.Some?
    requires GalleryRows(base, u)[i].position.value < GalleryRows(base, u)[j].position.value
    ensures |GalleryRows(Compact(base, u), u)| == |GalleryRows(base, u)|
    ensures GalleryRows(Compact(base, u), u)[i].position.Some?
    ensures GalleryRows(Compact(base, u), u)[j].position.Some?
    ensures GalleryRows(Compact(base, u), u)[i].position.value <
            GalleryRows(Compact(base, u), u)[j].position.value
  {
    var g := GalleryRows(base, u);
    var h := GalleryRows(Compact(base, u), u);
    var plan := CompactionPlan(GalleryInOrder(base, u));
    CompactedGallery(base, u);
    var ki, kj := CompactionRanks(base, u, g[i], g[j]);
    assert IsGalleryOf(u)(g[i]) && IsGalleryOf(u)(g[j]);
    assert h[i] == ReassignOne(u, plan)(g[i]);
    assert h[j] == ReassignOne(u, plan)(g[j]);
    assert h[i].position == Some(ki + 1);
    assert h[j].position == Some(kj + 1);
  }

  /** An `UPDATE` is issued for a row exactly when compaction changes its position. */
  lemma CompactionUpdatesChangedRows(base: seq<Photo>, u: int)
    requires UniqueIds(base)
    ensures forall m :: 0 <= m < |base| ==>
      (base[m].id in CompactionUpdates(GalleryInOrder(base, u)) <==>
       Compact(base, u)[m].position != base[m].position)
  {
    var rest := GalleryInOrder(base, u);
    var plan := CompactionPlan(rest);
    GalleryInOrderRows(base, u);
    CompactionPlanEntries(rest);
    CompactionUpdatesEntries(rest);
    forall m | 0 <= m < |base|
      ensures base[m].id in CompactionUpdates(rest) <==> Compact(base, u)[m].position != base[m].position
    {
      var r := base[m];
      forall k | 0 <= k < |rest| ensures rest[k].id == r.id ==> rest[k] == r {
        SameKeySameElement(base, PhotoId, rest[k], r);
      }
      if IsGalleryOf(u)(r) {
        assert r in GalleryRows(base, u);
        var k, k2 := CompactionRanks(base, u, r, r);
      }
    }
  }

  /** Where a gallery row stands in the ordered gallery. */
  lemma RankOf(rows: seq<Photo>, u: int, a: Photo) returns (k: nat)
    requires UniqueIds(rows) && a in GalleryRows(rows, u)
    ensures k < |GalleryInOrder(rows, u)| && GalleryInOrder(rows, u)[k] == a
  {
    GalleryInOrderRows(rows, u);
    assert a in multiset(GalleryInOrder(rows, u));
    k :| 0 <= k < |GalleryInOrder(rows, u)| && GalleryInOrder(rows, u)[k] == a;
  }

  // ----- reorder -----

  datatype OrderItem = OrderItem(id: int, position: int)

  /** The request schema: one to five items, positive ids, positions within `1..5`. */
  predicate ValidOrder(items: seq<OrderItem>) {
    1 <= |items| <= MaxPhotos &&
    forall k :: 0 <= k < |items| ==> items[k].id > 0 && 1 <= items[k].position <= MaxPhotos
  }

  function ItemIds(items: seq<OrderItem>): (ids: seq<int>)
    ensures |ids| == |items| && forall k :: 0 <= k < |items| ==> ids[k] == items[k].id
  {
    seq(|items|, k requires 0 <= k < |items| => items[k].id)
  }

  function ItemPositions(items: seq<OrderItem>): (ps: seq<int>)
    ensures |ps| == |items| && forall k :: 0 <= k < |items| ==> ps[k] == items[k].position
  {
    seq(|items|, k requires 0 <= k < |items| => items[k].position)
  }

  function RowIds(rows: seq<Photo>): (ids: seq<int>)
    ensures |ids| == |rows| && forall k :: 0 <= k < |rows| ==> ids[k] == rows[k].id
  {
    seq(|rows|, k requires 0 <= k < |rows| => rows[k].id)
  }

  /** No later row of `rows` has the id of `rows[k]`. */
  predicate LastRowWithId(rows: seq<Photo>, k: int)
    requires 0 <= k < |rows|
  {
    forall j :: k < j < |rows| ==> rows[j].id != rows[k].id
  }

  predicate LastItemWithId(items: seq<OrderItem>, k: int)
    requires 0 <= k < |items|
  {
    forall j :: k < j < |items| ==> items[j].id != items[k].id
  }

  /**
   * The map built from the current rows and then overwritten by the request: every id of
   * either is a key, a requested id maps to its last requested position, and any other
   * current id to its last current position.
   */
  ghost predicate PlanMatches(plan: map<int, Option<int>>, current: seq<Photo>, items: seq<OrderItem>) {
    (forall x :: x in plan <==> x in RowIds(current) || x in ItemIds(items)) &&
    (forall k :: 0 <= k < |items| && LastItemWithId(items, k) ==>
       plan[items[k].id] == Some(items[k].position)) &&
    (forall k :: 0 <= k < |current| && LastRowWithId(current, k) && current[k].id !in ItemIds(items) ==>
       plan[current[k].id] == current[k].position)
  }

  lemma PlanRowStep(plan: map<int, Option<int>>, current: seq<Photo>, i: nat)
    requires i < |current| && PlanMatches(plan, current[..i], [])
    ensures PlanMatches(plan[current[i].id := current[i].position], current[..i + 1], [])
  {
    assert ItemIds([]) == [];
    PlanRowKeys(plan, current, i);
    PlanRowValues(plan, current, i);
  }

  lemma PlanRowKeys(plan: map<int, Option<int>>, current: seq<Photo>, i: nat)
    requires i < |current| && forall x :: x in plan <==> x in RowIds(current[..i])
    ensures forall x :: x in plan || x == current[i].id <==> x in RowIds(current[..i + 1])
  {
    assert RowIds(current[..i + 1]) == RowIds(current[..i]) + [current[i].id];
  }

  lemma PlanRowValues(plan: map<int, Option<int>>, current: seq<Photo>, i: nat)
    requires i < |current|
    requires forall k :: 0 <= k < i && LastRowWithId(current[..i], k) ==>
      current[k].id in plan && plan[current[k].id] == current[k].position
    ensures var c := current[..i + 1];
      forall k :: 0 <= k < |c| && LastRowWithId(c, k) ==>
        var plan' := plan[current[i].id := current[i].position];
        c[k].id in plan' && plan'[c[k].id] == c[k].position
  {
    var plan' := plan[current[i].id := current[i].position];
    var c := current[..i + 1];
    forall k | 0 <= k < |c| && LastRowWithId(c, k) ensures plan'[c[k].id] == c[k].position {
      if k < i {
        assert current[..i][k] == c[k];
        assert LastRowWithId(current[..i], k);
      }
    }
  }

  lemma PlanItemStep(plan: map<int, Option<int>>, current: seq<Photo>, items: seq<OrderItem>, i: nat)
    requires i < |items| && PlanMatches(plan, current, items[..i])
    ensures PlanMatches(plan[items[i].id := Some(items[i].position)], current, items[..i + 1])
  {
    var plan' := plan[items[i].id := Some(items[i].position)];
    var t := items[..i + 1];
    assert t[..i] == items[..i];
    assert ItemIds(t) == ItemIds(items[..i]) + [items[i].id];
    forall k | 0 <= k < |t| && LastItemWithId(t, k)
      ensures plan'[t[k].id] == Some(t[k].position)
    {
      if k < i {
        assert items[..i][k] == t[k];
        assert LastItemWithId(items[..i], k);
      }
    }
    forall k | 0 <= k < |current| && LastRowWithId(current, k) && current[k].id !in ItemIds(t)
      ensures plan'[current[k].id] == current[k].position
    {
      assert current[k].id !in ItemIds(items[..i]);
    }
  }

  /**
   * `finalPosById` of the reorder handler: first every current row's position, then every
   * requested position.
   */
  method BuildPlan(current: seq<Photo>, items: seq<OrderItem>) returns (plan: map<int, Option<int>>)
    ensures PlanMatches(plan, current, items)
  {
    plan := map[];
    for i := 0 to |current|
      invariant PlanMatches(plan, current[..i], [])
    {
      PlanRowStep(plan, current, i);
      plan := plan[current[i].id := current[i].position];
    }
    assert current[..|current|] == current;
    assert items[..0] == [];
    for i := 0 to |items|
      invariant PlanMatches(plan, current, items[..i])
    {
      PlanItemStep(plan, current, items, i);
      plan := plan[items[i].id := Some(items[i].position)];
    }
    assert items[..|items|] == items;
  }

  /** The position the request asks for `id`; a later item overrides an earlier one. */
  function RequestedPosition(items: seq<OrderItem>, id: int): (r: Option<int>)
    ensures r.Some? ==>
      exists k :: 0 <= k < |items| && items[k].id == id && items[k].position == r.value && LastItemWithId(items, k)
    ensures r.None? ==> id !in ItemIds(items)
    decreases |items|
  {
    if items == [] then None
    else if items[|items| - 1].id == id then Some(items[|items| - 1].position)
    else
      var r := RequestedPosition(items[..|items| - 1], id);
      assert forall k :: 0 <= k < |items| - 1 ==> items[..|items| - 1][k] == items[k];
      r
  }

  /** The full assignment: each current row's requested position, else its current one. */
  function Assignment(current: seq<Photo>, items: seq<OrderItem>): (a: seq<Option<int>>)
    ensures |a| == |current|
  {
    seq(|current|, k requires 0 <= k < |current| =>
      if RequestedPosition(items, current[k].id).Some? then RequestedPosition(items, current[k].id)
      else current[k].position)
  }

  /** The map the handler builds yields the full assignment on the current ids. */
  lemma PlanIsAssignment(plan: map<int, Option<int>>, current: seq<Photo>, items: seq<OrderItem>)
    requires PlanMatches(plan, current, items) && KeysDistinct(current, PhotoId)
    ensures forall k :: 0 <= k < |current| ==> current[k].id in plan
    ensures FinalPositions(current, plan) == Assignment(current, items)
  {
    forall k | 0 <= k < |current| ensures current[k].id in plan {
      assert current[k].id in RowIds(current);
    }
    forall k | 0 <= k < |current| ensures plan[current[k].id] == Assignment(current, items)[k] {
      var id := current[k].id;
      assert LastRowWithId(current, k) by {
        forall j | k < j < |current| ensures current[j].id != id {
          assert PhotoId(current[k]) != PhotoId(current[j]);
        }
      }
    }
  }

  /** `finalPosById.get(id)` for each current id, in order. */
  function FinalPositions(current: seq<Photo>, plan: map<int, Option<int>>): (fp: seq<Option<int>>)
    requires forall k :: 0 <= k < |current| ==> current[k].id in plan
    ensures |fp| == |current| && forall k :: 0 <= k < |current| ==> fp[k] == plan[current[k].id]
  {
    seq(|current|, k requires 0 <= k < |current| => plan[current[k].id])
  }

  /** `finalSet.size === n && finalPositions.every((p) => expected.has(p))`. */
  predicate IsOneToN(fp: seq<Option<int>>, n: int) {
    |ToSet(fp)| == n && forall k :: 0 <= k < |fp| ==> fp[k].Some? && 1 <= fp[k].value <= n
  }

  /** The check accepts exactly the sequences that use every position of `1..n` once. */
  lemma OneToNIsPermutation(fp: seq<Option<int>>)
    ensures IsOneToN(fp, |fp|) <==>
      Distinct(fp) && forall k :: 0 <= k < |fp| ==> fp[k].Some? && 1 <= fp[k].value <= |fp|
    ensures IsOneToN(fp, |fp|) ==> forall p :: 1 <= p <= |fp| ==> Some(p) in fp
  {
    SetSizeIffDistinct(fp);
    if IsOneToN(fp, |fp|) {
      var values := seq(|fp|, k requires 0 <= k < |fp| && fp[k].Some? => fp[k].value);
      assert Distinct(values) by {
        forall i, j | 0 <= i < j < |values| ensures values[i] != values[j] {
          assert fp[i] != fp[j];
        }
      }
      SetSizeIffDistinct(values);
      assert ToSet(values) <= Range(1, |fp|);
      FullSubsetOfRange(ToSet(values), |fp|);
      forall p | 1 <= p <= |fp| ensures Some(p) in fp {
        assert p in ToSet(values);
        var k :| 0 <= k < |values| && values[k] == p;
        assert fp[k] == Some(p);
      }
    }
  }

  /** An accepted plan leaves the owner's gallery with positions exactly `1..N`. */
  lemma ReorderContiguous(rows: seq<Photo>, u: int, plan: map<int, Option<int>>)
    requires UniqueIds(rows)
    requires forall k :: 0 <= k < |GalleryInOrder(rows, u)| ==> GalleryInOrder(rows, u)[k].id in plan
    requires IsOneToN(FinalPositions(GalleryInOrder(rows, u), plan), |GalleryInOrder(rows, u)|)
    ensures ContiguousPositions(GalleryRows(Reassign(rows, u, plan), u))
  {
    var g := GalleryRows(rows, u);
    var cur := GalleryInOrder(rows, u);
    ReassignSelections(rows, u, plan);
    KeysDistinctFilter(rows, IsGalleryOf(u), PhotoId);
    GalleryInOrderRows(rows, u);
    forall a | a in g ensures a in cur {
      assert a in multiset(g);
    }
    PlanOnRows(g, cur, plan);
    PlannedGalleryContiguous(g, u, plan);
  }

  /** A one-to-N plan over an ordering of `g` gives the rows of `g` distinct positions in `1..N`. */
  lemma PlanOnRows(g: seq<Photo>, cur: seq<Photo>, plan: map<int, Option<int>>)
    requires forall k :: 0 <= k < |cur| ==> cur[k].id in plan
    requires |cur| == |g| && (forall a :: a in g ==> a in cur) && KeysDistinct(g, PhotoId)
    requires IsOneToN(FinalPositions(cur, plan), |cur|)
    ensures forall i :: 0 <= i < |g| ==> g[i].id in plan && plan[g[i].id].Some? && 1 <= plan[g[i].id].value <= |g|
    ensures forall i, j :: 0 <= i < j < |g| ==> plan[g[i].id] != plan[g[j].id]
  {
    var fp := FinalPositions(cur, plan);
    SetSizeIffDistinct(fp);
    forall i | 0 <= i < |g| ensures g[i].id in plan && plan[g[i].id].Some? && 1 <= plan[g[i].id].value <= |g| {
      assert g[i] in g;
      var k :| 0 <= k < |cur| && cur[k] == g[i];
      assert fp[k] == plan[g[i].id];
    }
    forall i, j | 0 <= i < j < |g| ensures plan[g[i].id] != plan[g[j].id] {
      assert PhotoId(g[i]) != PhotoId(g[j]);
      assert g[i] in g && g[j] in g;
      var ki :| 0 <= ki < |cur| && cur[ki] == g[i];
      var kj :| 0 <= kj < |cur| && cur[kj] == g[j];
      assert fp[ki] == plan[g[i].id] && fp[kj] == plan[g[j].id];
    }
  }

  /** The ordered gallery never repeats an id, so each of its rows is the last with its id. */
  lemma OrderedRowsAreLast(rows: seq<Photo>, u: int, k: nat)
    requires UniqueIds(rows) && k < |GalleryInOrder(rows, u)|
    ensures LastRowWithId(GalleryInOrder(rows, u), k)
  {
    GalleryInOrderRows(rows, u);
  }

  /**
   * Under an applied plan, a requested row takes its requested position and every row not
   * named in the request keeps its position.
   */
  lemma ReorderPlacesRows(rows: seq<Photo>, u: int, items: seq<OrderItem>, plan: map<int, Option<int>>)
    requires UniqueIds(rows) && Distinct(ItemIds(items))
    requires PlanMatches(plan, GalleryInOrder(rows, u), items)
    ensures forall m, k ::
      (0 <= m < |rows| && 0 <= k < |items| && IsGalleryOf(u)(rows[m]) && rows[m].id == items[k].id) ==>
      Reassign(rows, u, plan)[m].position == Some(items[k].position)
    ensures forall m :: 0 <= m < |rows| && rows[m].id !in ItemIds(items) ==>
      Reassign(rows, u, plan)[m] == rows[m]
  {
    var cur := GalleryInOrder(rows, u);
    forall m, k | 0 <= m < |rows| && 0 <= k < |items| &&
        IsGalleryOf(u)(rows[m]) && rows[m].id == items[k].id
      ensures Reassign(rows, u, plan)[m].position == Some(items[k].position)
    {
      assert LastItemWithId(items, k) by {
        forall j | k < j < |items| ensures items[j].id != items[k].id {
          assert ItemIds(items)[j] != ItemIds(items)[k];
        }
      }
      assert items[k].id in ItemIds(items);
    }
    forall m | 0 <= m < |rows| && rows[m].id !in ItemIds(items)
      ensures Reassign(rows, u, plan)[m] == rows[m]
    {
      if IsGalleryOf(u)(rows[m]) {
        assert rows[m] in GalleryRows(rows, u);
        var k := RankOf(rows, u, rows[m]);
        OrderedRowsAreLast(rows, u, k);
      }
    }
  }

  /** Every requested pair already holds in the gallery. */
  predicate AgreesWithGallery(items: seq<OrderItem>, g: seq<Photo>) {
    forall k :: 0 <= k < |items| ==>
      exists r :: r in g && r.id == items[k].id && r.position == Some(items[k].position)
  }

  /** Submitting the current assignment changes no row. */
  lemma CurrentAssignmentIsNoOp(rows: seq<Photo>, u: int, items: seq<OrderItem>, plan: map<int, Option<int>>)
    requires UniqueIds(rows) && Distinct(ItemIds(items))
    requires PlanMatches(plan, GalleryInOrder(rows, u), items)
    requires AgreesWithGallery(items, GalleryRows(rows, u))
    ensures Reassign(rows, u, plan) == rows
  {
    ReorderPlacesRows(rows, u, items, plan);
    var after := Reassign(rows, u, plan);
    forall m | 0 <= m < |rows| ensures after[m] == rows[m] {
      var r := rows[m];
      if IsGalleryOf(u)(r) && r.id in ItemIds(items) {
        var k :| 0 <= k < |items| && items[k].id == r.id;
        var r' :| r' in GalleryRows(rows, u) && r'.id == items[k].id && r'.position == Some(items[k].position);
        SameKeySameElement(rows, PhotoId, r, r');
      }
    }
  }

  // ----- the slot invariant across mutations -----

  lemma AppendContiguous(g: seq<Photo>, x: Photo)
    requires ContiguousPositions(g) && x.position == Some(|g| + 1)
    ensures ContiguousPositions(g + [x])
  {
    var h := g + [x];
    forall i, j | 0 <= i < j < |h| ensures PhotoPosition(h[i]) != PhotoPosition(h[j]) {
      if j < |g| {
        assert h[i] == g[i] && h[j] == g[j];
      } else {
        assert h[i] == g[i];
      }
    }
  }

  /** A gallery upload below the cap keeps the owner's slots consistent. */
  lemma InsertGalleryKeepsSlots(rows: seq<Photo>, u: int, x: Photo)
    requires SlotInvariant(rows, u) && |OwnedRows(rows, u)| < MaxPhotos
    requires IsGalleryOf(u)(x) && x.position == Some(|GalleryRows(rows, u)| + 1)
    ensures SlotInvariant(rows + [x], u)
  {
    AppendRowSelections(rows, x, u);
    AppendContiguous(GalleryRows(rows, u), x);
  }

  /** Replacing the avatar keeps at most one avatar, unplaced, and the total within the cap. */
  lemma ReplaceAvatarKeepsSlots(rows: seq<Photo>, u: int, x: Photo)
    requires |OwnedRows(rows, u)| <= MaxPhotos && ContiguousPositions(GalleryRows(rows, u))
    requires |AvatarRows(rows, u)| > 0 || |OwnedRows(rows, u)| < MaxPhotos
    requires IsAvatarOf(u)(x) && x.position.None?
    ensures SlotInvariant(DeleteAvatars(rows, u) + [x], u)
    ensures AvatarRows(DeleteAvatars(rows, u) + [x], u) == [x]
  {
    ReplaceAvatarShape(rows, u, x);
    OwnedIsGalleryPlusAvatars(rows, u);
  }

  /** After the replacement the owner has the same gallery and the one new avatar. */
  lemma ReplaceAvatarShape(rows: seq<Photo>, u: int, x: Photo)
    requires IsAvatarOf(u)(x)
    ensures GalleryRows(DeleteAvatars(rows, u) + [x], u) == GalleryRows(rows, u)
    ensures AvatarRows(DeleteAvatars(rows, u) + [x], u) == [x]
    ensures |OwnedRows(DeleteAvatars(rows, u) + [x], u)| == |GalleryRows(rows, u)| + 1
  {
    var d := DeleteAvatars(rows, u);
    DeleteAvatarsSelections(rows, u);
    AppendRowSelections(d, x, u);
    assert GalleryRows(d + [x], u) == GalleryRows(d, u) + [];
  }

  /** Deleting an avatar leaves the gallery rows as they are. */
  lemma DeleteAvatarKeepsGallery(rows: seq<Photo>, id: int, u: int)
    requires UniqueIds(rows) && FindPhoto(rows, id, u).Some? && FindPhoto(rows, id, u).value.kind == Avatar
    ensures GalleryRows(DeleteRow(rows, id, u), u) == GalleryRows(rows, u)
  {
    var r := FindPhoto(rows, id, u).value;
    var g := GalleryRows(rows, u);
    DeleteRowSelections(rows, id, u);
    forall i | 0 <= i < |g| ensures IsNotRow(id, u)(g[i]) {
      assert g[i] in rows;
      SameKeySameElement(rows, PhotoId, g[i], r);
    }
    FilterAll(g, IsNotRow(id, u));
  }

  lemma FilterKeepsSlotBounds(s: seq<Photo>, p: Photo -> bool)
    requires forall i :: 0 <= i < |s| ==> s[i].position.None?
    ensures forall i :: 0 <= i < |Filter(s, p)| ==> Filter(s, p)[i].position.None?
  {
    forall i | 0 <= i < |Filter(s, p)| ensures Filter(s, p)[i].position.None? {
      assert Filter(s, p)[i] in s;
    }
  }

  /** Deleting a photo, with compaction after a gallery photo, keeps the owner's slots consistent. */
  lemma DeleteKeepsSlots(rows: seq<Photo>, id: int, u: int)
    requires UniqueIds(rows) && SlotInvariant(rows, u) && FindPhoto(rows, id, u).Some?
    ensures FindPhoto(rows, id, u).value.kind == Avatar ==> SlotInvariant(DeleteRow(rows, id, u), u)
    ensures FindPhoto(rows, id, u).value.kind == Gallery ==> SlotInvariant(Compact(DeleteRow(rows, id, u), u), u)
  {
    var kept := DeleteRow(rows, id, u);
    DeleteRowSelections(rows, id, u);
    DeleteRowKeys(rows, id, u, 0);
    FilterKeepsSlotBounds(AvatarRows(rows, u), IsNotRow(id, u));
    if FindPhoto(rows, id, u).value.kind == Avatar {
      DeleteAvatarKeepsGallery(rows, id, u);
    } else {
      var plan := CompactionPlan(GalleryInOrder(kept, u));
      ReassignSelections(kept, u, plan);
      CompactionContiguous(kept, u);
    }
  }

  /** An accepted reorder keeps the owner's slots consistent. */
  lemma ReorderKeepsSlots(rows: seq<Photo>, u: int, plan: map<int, Option<int>>)
    requires UniqueIds(rows) && SlotInvariant(rows, u)
    requires forall k :: 0 <= k < |GalleryInOrder(rows, u)| ==> GalleryInOrder(rows, u)[k].id in plan
    requires IsOneToN(FinalPositions(GalleryInOrder(rows, u), plan), |GalleryInOrder(rows, u)|)
    ensures SlotInvariant(Reassign(rows, u, plan), u)
  {
    ReassignSelections(rows, u, plan);
    ReorderContiguous(rows, u, plan);
  }
}
