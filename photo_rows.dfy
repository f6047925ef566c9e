/**
 * The `photos` table as a sequence of rows, the per-owner selections the handlers query
 * (`WHERE user_id = $1 AND kind = ...`), `ORDER BY position`, the bulk position update, and
 * the slot invariant every photo operation keeps for the caller: at most five rows, at most
 * one avatar (without a position), and gallery positions that are exactly `1..N`.
 */
module PhotoRows {
  import opened Base
  import opened Seqs

  /** Total rows per owner, avatar included. */
  const MaxPhotos := 5

  datatype Kind = Avatar | Gallery

  datatype Photo = Photo(
    id: int,
    userId: int,
    kind: Kind,
    position: Option<int>,
    storageKey: string,
    mimeType: string,
    width: Option<int>,
    height: Option<int>,
    sizeBytes: int)

  function IsOwnedBy(u: int): Photo -> bool {
    (r: Photo) => r.userId == u
  }

  function IsGalleryOf(u: int): Photo -> bool {
    (r: Photo) => r.userId == u && r.kind == Gallery
  }

  function IsAvatarOf(u: int): Photo -> bool {
    (r: Photo) => r.userId == u && r.kind == Avatar
  }

  function OwnedRows(rows: seq<Photo>, u: int): seq<Photo> {
    Filter(rows, IsOwnedBy(u))
  }

  function GalleryRows(rows: seq<Photo>, u: int): seq<Photo> {
    Filter(rows, IsGalleryOf(u))
  }

  function AvatarRows(rows: seq<Photo>, u: int): seq<Photo> {
    Filter(rows, IsAvatarOf(u))
  }

  /** `COUNT(*)` of an owner is the gallery count plus the avatar count. */
  lemma OwnedIsGalleryPlusAvatars(rows: seq<Photo>, u: int)
    ensures |OwnedRows(rows, u)| == |GalleryRows(rows, u)| + |AvatarRows(rows, u)|
  {
    FilterCountSplit(rows, IsOwnedBy(u), IsGalleryOf(u), IsAvatarOf(u));
  }

  // ----- identity -----

  function PhotoId(r: Photo): int {
    r.id
  }

  function PhotoPosition(r: Photo): Option<int> {
    r.position
  }

  /** `id` is the primary key. */
  predicate UniqueIds(rows: seq<Photo>) {
    KeysDistinct(rows, PhotoId)
  }

  predicate IdsBelow(rows: seq<Photo>, bound: int) {
    forall i :: 0 <= i < |rows| ==> rows[i].id < bound
  }

  /** `SELECT ... WHERE id = $1 AND user_id = $2 LIMIT 1`. */
  function FindPhoto(rows: seq<Photo>, id: int, u: int): (r: Option<Photo>)
    ensures r.Some? ==> r.value in rows && r.value.id == id && r.value.userId == u
    ensures r.None? ==> forall k :: 0 <= k < |rows| ==> !(rows[k].id == id && rows[k].userId == u)
  {
    if rows == [] then None
    else if rows[0].id == id && rows[0].userId == u then Some(rows[0])
    else FindPhoto(rows[1..], id, u)
  }

  function IsNotRow(id: int, u: int): Photo -> bool {
    (r: Photo) => !(r.id == id && r.userId == u)
  }

  /** `DELETE FROM photos WHERE id = $1 AND user_id = $2`: every other row stays, and the lookup finds none. */
  function DeleteRow(rows: seq<Photo>, id: int, u: int): (r: seq<Photo>)
    ensures |r| <= |rows|
    ensures forall x :: x in r <==> x in rows && !(x.id == id && x.userId == u)
    ensures FindPhoto(r, id, u).None?
  {
    Filter(rows, IsNotRow(id, u))
  }

  function IsNotAvatarOf(u: int): Photo -> bool {
    (r: Photo) => !(r.userId == u && r.kind == Avatar)
  }

  /** `DELETE FROM photos WHERE user_id = $1 AND kind = 'avatar'`: every other row stays, no avatar of `u` does. */
  function DeleteAvatars(rows: seq<Photo>, u: int): (r: seq<Photo>)
    ensures |r| <= |rows|
    ensures forall x :: x in r <==> x in rows && !(x.userId == u && x.kind == Avatar)
    ensures AvatarRows(r, u) == []
  {
    var r := Filter(rows, IsNotAvatarOf(u));
    FilterNothing(r, IsAvatarOf(u));
    r
  }

  lemma DeleteRowSelections(rows: seq<Photo>, id: int, u: int)
    ensures OwnedRows(DeleteRow(rows, id, u), u) == Filter(OwnedRows(rows, u), IsNotRow(id, u))
    ensures GalleryRows(DeleteRow(rows, id, u), u) == Filter(GalleryRows(rows, u), IsNotRow(id, u))
    ensures AvatarRows(DeleteRow(rows, id, u), u) == Filter(AvatarRows(rows, u), IsNotRow(id, u))
  {
    var q := IsNotRow(id, u);
    FilterCommute(rows, q, IsOwnedBy(u));
    FilterCommute(rows, q, IsGalleryOf(u));
    FilterCommute(rows, q, IsAvatarOf(u));
  }

  lemma DeleteRowOthers(rows: seq<Photo>, id: int, u: int, v: int)
    requires v != u
    ensures OwnedRows(DeleteRow(rows, id, u), v) == OwnedRows(rows, v)
  {
    var q := IsNotRow(id, u);
    FilterCommute(rows, q, IsOwnedBy(v));
    FilterAll(OwnedRows(rows, v), q);
  }

  lemma DeleteRowKeys(rows: seq<Photo>, id: int, u: int, n: int)
    ensures UniqueIds(rows) ==> UniqueIds(DeleteRow(rows, id, u))
    ensures IdsBelow(rows, n) ==> IdsBelow(DeleteRow(rows, id, u), n)
  {
    if UniqueIds(rows) {
      KeysDistinctFilter(rows, IsNotRow(id, u), PhotoId);
    }
  }

  lemma DeleteAvatarsSelections(rows: seq<Photo>, u: int)
    ensures GalleryRows(DeleteAvatars(rows, u), u) == GalleryRows(rows, u)
    ensures AvatarRows(DeleteAvatars(rows, u), u) == []
    ensures forall v :: v != u ==> OwnedRows(DeleteAvatars(rows, u), v) == OwnedRows(rows, v)
    ensures |OwnedRows(DeleteAvatars(rows, u), u)| == |GalleryRows(rows, u)|
    ensures UniqueIds(rows) ==> UniqueIds(DeleteAvatars(rows, u))
    ensures forall n :: IdsBelow(rows, n) ==> IdsBelow(DeleteAvatars(rows, u), n)
  {
    var d := DeleteAvatars(rows, u);
    FilterOfFilter(rows, IsNotAvatarOf(u), IsGalleryOf(u));
    FilterNothing(d, IsAvatarOf(u));
    forall v | v != u ensures OwnedRows(d, v) == OwnedRows(rows, v) {
      FilterOfFilter(rows, IsNotAvatarOf(u), IsOwnedBy(v));
    }
    OwnedIsGalleryPlusAvatars(d, u);
    if UniqueIds(rows) {
      KeysDistinctFilter(rows, IsNotAvatarOf(u), PhotoId);
    }
  }

  /** `INSERT INTO photos ...`: the new row joins the selections it belongs to, at the end. */
  lemma AppendRowSelections(rows: seq<Photo>, x: Photo, v: int)
    ensures OwnedRows(rows + [x], v) == OwnedRows(rows, v) + (if x.userId == v then [x] else [])
    ensures GalleryRows(rows + [x], v) == GalleryRows(rows, v) + (if IsGalleryOf(v)(x) then [x] else [])
    ensures AvatarRows(rows + [x], v) == AvatarRows(rows, v) + (if IsAvatarOf(v)(x) then [x] else [])
  {
    FilterAppend(rows, [x], IsOwnedBy(v));
    FilterSingle(x, IsOwnedBy(v));
    FilterAppend(rows, [x], IsGalleryOf(v));
    FilterSingle(x, IsGalleryOf(v));
    FilterAppend(rows, [x], IsAvatarOf(v));
    FilterSingle(x, IsAvatarOf(v));
  }

  /** A row with an id above all others keeps the key unique. */
  lemma AppendFreshRow(rows: seq<Photo>, x: Photo)
    requires UniqueIds(rows) && IdsBelow(rows, x.id)
    ensures UniqueIds(rows + [x]) && IdsBelow(rows + [x], x.id + 1)
  {
    var r := rows + [x];
    forall i, j | 0 <= i < j < |r| ensures PhotoId(r[i]) != PhotoId(r[j]) {
      assert r[i] == rows[i];
      if j < |rows| {
        assert r[j] == rows[j];
      }
    }
  }

  // ----- positions -----

  /** `Number(position)`: a missing position reads as 0. */
  function PositionNumber(r: Photo): int {
    if r.position.Some? then r.position.value else 0
  }

  function PositionNumbers(g: seq<Photo>): (ps: seq<int>)
    ensures |ps| == |g| && forall i :: 0 <= i < |g| ==> ps[i] == PositionNumber(g[i])
  {
    seq(|g|, i requires 0 <= i < |g| => PositionNumber(g[i]))
  }

  /** `new Set(posRows.map((r) => Number(r.position)))`. */
  function UsedPositions(g: seq<Photo>): set<int> {
    ToSet(PositionNumbers(g))
  }

  /** Gallery positions are `1..N`, each used once. */
  predicate ContiguousPositions(g: seq<Photo>) {
    (forall i :: 0 <= i < |g| ==> g[i].position.Some? && 1 <= g[i].position.value <= |g|) &&
    KeysDistinct(g, PhotoPosition)
  }

  /** The invariant the photo operations keep for one owner. */
  predicate SlotInvariant(rows: seq<Photo>, u: int) {
    |OwnedRows(rows, u)| <= MaxPhotos &&
    |AvatarRows(rows, u)| <= 1 &&
    (forall i :: 0 <= i < |AvatarRows(rows, u)| ==> AvatarRows(rows, u)[i].position.None?) &&
    ContiguousPositions(GalleryRows(rows, u))
  }

  lemma UsedPositionsBound(g: seq<Photo>)
    ensures |UsedPositions(g)| <= |g|
  {
    SetSizeIffDistinct(PositionNumbers(g));
  }

  /** A contiguous gallery occupies exactly the positions `1..N`. */
  lemma ContiguousOccupiesRange(g: seq<Photo>)
    requires ContiguousPositions(g)
    ensures UsedPositions(g) == Range(1, |g|)
  {
    var ps := PositionNumbers(g);
    assert Distinct(ps) by {
      forall i, j | 0 <= i < j < |ps| ensures ps[i] != ps[j] {
        assert PhotoPosition(g[i]) != PhotoPosition(g[j]);
      }
    }
    SetSizeIffDistinct(ps);
    assert UsedPositions(g) <= Range(1, |g|);
    FullSubsetOfRange(UsedPositions(g), |g|);
  }

  // ----- ORDER BY position -----

  /** `position ASC`, with missing positions last (or first, for `NULLS FIRST`). */
  predicate PosLe(a: Photo, b: Photo, nullsFirst: bool) {
    if a.position.None? then nullsFirst || b.position.None?
    else if b.position.None? then !nullsFirst
    else a.position.value <= b.position.value
  }

  predicate SortedByPosition(s: seq<Photo>, nullsFirst: bool) {
    forall i, j :: 0 <= i < j < |s| ==> PosLe(s[i], s[j], nullsFirst)
  }

  function Insert(x: Photo, s: seq<Photo>, nullsFirst: bool): (r: seq<Photo>)
    requires SortedByPosition(s, nullsFirst)
    ensures multiset(r) == multiset(s) + multiset{x}
    ensures |r| == |s| + 1
    ensures s != [] ==> r[0] == x || r[0] == s[0]
    ensures s == [] ==> r == [x]
    ensures SortedByPosition(r, nullsFirst)
  {
    if s == [] then [x]
    else if PosLe(x, s[0], nullsFirst) then
      PrependSorted(x, s, nullsFirst);
      [x] + s
    else
      var rest := Insert(x, s[1..], nullsFirst);
      HeadBeforeInsert(x, s, rest, nullsFirst);
      [s[0]] + rest
  }

  lemma PosLeTrans(a: Photo, b: Photo, c: Photo, nullsFirst: bool)
    requires PosLe(a, b, nullsFirst) && PosLe(b, c, nullsFirst)
    ensures PosLe(a, c, nullsFirst)
  {
  }

  lemma PrependSorted(x: Photo, s: seq<Photo>, nullsFirst: bool)
    requires s != [] && SortedByPosition(s, nullsFirst) && PosLe(x, s[0], nullsFirst)
    ensures SortedByPosition([x] + s, nullsFirst)
  {
    var r := [x] + s;
    forall i, j | 0 <= i < j < |r| ensures PosLe(r[i], r[j], nullsFirst) {
      if i == 0 {
        if j > 1 {
          PosLeTrans(x, s[0], s[j - 1], nullsFirst);
        }
      } else {
        assert r[i] == s[i - 1] && r[j] == s[j - 1];
      }
    }
  }

  lemma HeadBeforeInsert(x: Photo, s: seq<Photo>, rest: seq<Photo>, nullsFirst: bool)
    requires s != [] && SortedByPosition(s, nullsFirst) && !PosLe(x, s[0], nullsFirst)
    requires multiset(rest) == multiset(s[1..]) + multiset{x} && SortedByPosition(rest, nullsFirst)
    ensures multiset([s[0]] + rest) == multiset(s) + multiset{x}
    ensures SortedByPosition([s[0]] + rest, nullsFirst)
  {
    assert s == [s[0]] + s[1..];
    var r := [s[0]] + rest;
    forall i, j | 0 <= i < j < |r| ensures PosLe(r[i], r[j], nullsFirst) {
      if i == 0 {
        var y := rest[j - 1];
        assert y in multiset(rest);
        if y != x {
          assert y in multiset(s[1..]);
          var m :| 0 <= m < |s[1..]| && s[1..][m] == y;
          assert s[m + 1] == y;
        }
      } else {
        assert r[i] == rest[i - 1] && r[j] == rest[j - 1];
      }
    }
  }

  /** The rows of `s` in position order. */
  function SortByPosition(s: seq<Photo>, nullsFirst: bool): (r: seq<Photo>)
    ensures multiset(r) == multiset(s) && |r| == |s|
    ensures SortedByPosition(r, nullsFirst)
  {
    if s == [] then []
    else
      assert s == [s[0]] + s[1..];
      Insert(s[0], SortByPosition(s[1..], nullsFirst), nullsFirst)
  }

  // ----- position updates -----

  /** `SET position = CASE WHEN id = ... END WHERE user_id = u AND kind = 'gallery' AND id = ANY(...)`. */
  function ReassignOne(u: int, plan: map<int, Option<int>>): Photo -> Photo {
    (r: Photo) => if r.userId == u && r.kind == Gallery && r.id in plan then r.(position := plan[r.id]) else r
  }

  /**
   * Only positions change, and only those of `u`'s gallery rows named in the plan, which
   * receive their planned position.
   */
  function Reassign(rows: seq<Photo>, u: int, plan: map<int, Option<int>>): (r: seq<Photo>)
    ensures |r| == |rows|
    ensures forall m :: 0 <= m < |rows| ==> r[m] == rows[m].(position := r[m].position)
    ensures forall m :: 0 <= m < |rows| && rows[m].id !in plan ==> r[m] == rows[m]
    ensures forall m :: 0 <= m < |rows| && !IsGalleryOf(u)(rows[m]) ==> r[m] == rows[m]
    ensures forall m :: 0 <= m < |rows| && IsGalleryOf(u)(rows[m]) && rows[m].id in plan ==>
      r[m].position == plan[rows[m].id]
  {
    MapSeq(rows, ReassignOne(u, plan))
  }

  /** `UPDATE photos SET position = p WHERE id = id`: the rows with that id move to `p`, nothing else changes. */
  function SetPosition(rows: seq<Photo>, id: int, p: int): (r: seq<Photo>)
    ensures |r| == |rows|
    ensures forall m :: 0 <= m < |rows| && rows[m].id != id ==> r[m] == rows[m]
    ensures forall m :: 0 <= m < |rows| && rows[m].id == id ==> r[m] == rows[m].(position := Some(p))
  {
    MapSeq(rows, (r: Photo) => if r.id == id then r.(position := Some(p)) else r)
  }

  /** A reassignment changes positions of the owner's gallery rows only. */
  lemma ReassignSelections(rows: seq<Photo>, u: int, plan: map<int, Option<int>>)
    ensures GalleryRows(Reassign(rows, u, plan), u) == MapSeq(GalleryRows(rows, u), ReassignOne(u, plan))
    ensures AvatarRows(Reassign(rows, u, plan), u) == AvatarRows(rows, u)
    ensures |OwnedRows(Reassign(rows, u, plan), u)| == |OwnedRows(rows, u)|
    ensures forall v :: v != u ==> OwnedRows(Reassign(rows, u, plan), v) == OwnedRows(rows, v)
    ensures UniqueIds(rows) ==> UniqueIds(Reassign(rows, u, plan))
    ensures forall n :: IdsBelow(rows, n) ==> IdsBelow(Reassign(rows, u, plan), n)
  {
    var f := ReassignOne(u, plan);
    FilterMap(rows, f, IsGalleryOf(u));
    FilterMapUntouched(rows, f, IsAvatarOf(u));
    FilterMap(rows, f, IsOwnedBy(u));
    ReassignOthers(rows, u, plan);
    ReassignKeys(rows, u, plan);
  }

  lemma ReassignOthers(rows: seq<Photo>, u: int, plan: map<int, Option<int>>)
    ensures forall v :: v != u ==> OwnedRows(Reassign(rows, u, plan), v) == OwnedRows(rows, v)
  {
    forall v | v != u ensures OwnedRows(Reassign(rows, u, plan), v) == OwnedRows(rows, v) {
      FilterMapUntouched(rows, ReassignOne(u, plan), IsOwnedBy(v));
    }
  }

  lemma ReassignKeys(rows: seq<Photo>, u: int, plan: map<int, Option<int>>)
    ensures UniqueIds(rows) ==> UniqueIds(Reassign(rows, u, plan))
    ensures forall n :: IdsBelow(rows, n) ==> IdsBelow(Reassign(rows, u, plan), n)
  {
    var t := Reassign(rows, u, plan);
    assert forall k :: 0 <= k < |rows| ==> t[k].id == rows[k].id;
  }

  /**
   * Giving the rows of a gallery pairwise different planned positions within `1..N`
   * makes the gallery contiguous.
   */
  lemma PlannedGalleryContiguous(g: seq<Photo>, u: int, plan: map<int, Option<int>>)
    requires forall i :: 0 <= i < |g| ==> IsGalleryOf(u)(g[i])
    requires forall i :: 0 <= i < |g| ==>
      g[i].id in plan && plan[g[i].id].Some? && 1 <= plan[g[i].id].value <= |g|
    requires forall i, j :: 0 <= i < j < |g| ==> plan[g[i].id] != plan[g[j].id]
    ensures ContiguousPositions(MapSeq(g, ReassignOne(u, plan)))
  {
    var h := MapSeq(g, ReassignOne(u, plan));
    forall i | 0 <= i < |h| ensures h[i].position == plan[g[i].id] {
      assert IsGalleryOf(u)(g[i]);
    }
  }

  lemma {:induction false} IncreasingFromBelow(vs: seq<int>, k: nat)
    requires forall i, j :: 0 <= i < j < |vs| ==> vs[i] < vs[j]
    requires forall i :: 0 <= i < |vs| ==> 1 <= vs[i]
    requires k < |vs|
    ensures vs[k] >= k + 1
  {
    if k > 0 {
      IncreasingFromBelow(vs, k - 1);
    }
  }

  lemma {:induction false} IncreasingFromAbove(vs: seq<int>, k: nat)
    requires forall i, j :: 0 <= i < j < |vs| ==> vs[i] < vs[j]
    requires forall i :: 0 <= i < |vs| ==> vs[i] <= |vs|
    requires k < |vs|
    ensures vs[k] <= k + 1
    decreases |vs| - k
  {
    if k < |vs| - 1 {
      IncreasingFromAbove(vs, k + 1);
    }
  }

  /** Listed in position order, a contiguous gallery reads `1, 2, ..., N`. */
  lemma SortedContiguous(g: seq<Photo>, s: seq<Photo>, nullsFirst: bool)
    requires ContiguousPositions(g) && multiset(s) == multiset(g) && SortedByPosition(s, nullsFirst)
    ensures forall k :: 0 <= k < |s| ==> s[k].position == Some(k + 1)
  {
    assert |s| == |g| by {
      assert |multiset(s)| == |multiset(g)|;
    }
    forall k | 0 <= k < |s| ensures s[k].position.Some? && 1 <= s[k].position.value <= |s| {
      assert s[k] in multiset(g);
    }
    KeysDistinctPermutation(g, s, PhotoPosition);
    var vs := seq(|s|, k requires 0 <= k < |s| => s[k].position.value);
    forall i, j | 0 <= i < j < |vs| ensures vs[i] < vs[j] {
      assert PosLe(s[i], s[j], nullsFirst);
      assert PhotoPosition(s[i]) != PhotoPosition(s[j]);
    }
    forall k | 0 <= k < |s| ensures s[k].position == Some(k + 1) {
      IncreasingFromBelow(vs, k);
      IncreasingFromAbove(vs, k);
    }
  }
}
