/**
 * The photo handlers of backend/src/server.ts over an in-memory photos table and upload
 * directory: listing, avatar upload, gallery upload, deletion with compaction and
 * reordering. The image library's results, the clock-and-random stamp of new file names
 * and the parsed request are parameters.
 */
module Photos {
  import opened Base
  import opened Seqs
  import opened Text
  import opened Errors
  import opened PhotoKeys
  import opened PhotoRows
  import opened PhotoPlans

  /** The uploaded multipart file; only its declared type is inspected. */
  datatype Upload = Upload(mimeType: string)

  /** What the image library reports for the resized main image. */
  datatype Resized = Resized(width: Option<int>, height: Option<int>, byteLength: int)

  /** The body of a `201` upload response. */
  datatype Created = Created(id: int, kind: Kind, position: Option<int>, url: string, thumbUrl: string)

  /** A row as listed to the client, with its two URLs. */
  datatype PhotoView = PhotoView(photo: Photo, url: string, thumbUrl: string)

  datatype Listing = Listing(avatar: Option<PhotoView>, gallery: seq<PhotoView>)

  function NoFile(): AppError { BadRequest("NO_FILE", "No file uploaded") }
  function UnsupportedType(): AppError { BadRequest("UNSUPPORTED_TYPE", "Unsupported image type") }
  function MaxPhotosReached(): AppError { Conflict("MAX_PHOTOS_REACHED", "Maximum of 5 photos (including avatar)") }
  function GalleryFull(): AppError { Conflict("GALLERY_FULL", "Gallery is full") }
  function InvalidId(): AppError { BadRequest("VALIDATION_ERROR", "Invalid id") }
  function PhotoNotFound(): AppError { NotFound("PHOTO_NOT_FOUND", "Photo not found") }
  function DuplicateIds(): AppError { BadRequest("DUPLICATE_IDS", "Duplicate ids") }
  function DuplicatePositions(): AppError { BadRequest("DUPLICATE_POSITIONS", "Duplicate positions") }
  function InvalidIds(): AppError { BadRequest("INVALID_IDS", "Some ids are invalid") }
  function InvalidPositions(): AppError { BadRequest("INVALID_POSITIONS", "Positions must be a 1..N permutation") }

  /** A failure of the image library or the file system, message passed through. */
  function TransformFailed(message: string): AppError {
    Internal("Internal Server Error", Some(DetailText(message)))
  }

  /**
   * A request the schema rejects: `error.flatten()` groups the issues under the top-level
   * field, and the body has the one field `order`.
   */
  function InvalidOrder(): (e: AppError)
    ensures e.code == "VALIDATION_ERROR" && e.status == 400
  {
    BadRequest("VALIDATION_ERROR", "Invalid request", Some(Issues(["order"])))
  }

  /** `meta.width || null`: a missing or zero dimension is stored as null. */
  function OrNull(d: Option<int>): (r: Option<int>)
    ensures r.Some? ==> r == d && r.value != 0
    ensures d.Some? && d.value != 0 ==> r == d
  {
    if d.Some? && d.value != 0 then d else None
  }

  predicate Accepted(file: Option<Upload>) {
    file.Some? && file.value.mimeType in AllowedMime
  }

  function ViewOf(r: Photo): (v: PhotoView)
    ensures v.photo == r
    ensures StorageKeyOf(v.url) == Some(r.storageKey)
    ensures StorageKeyOf(v.thumbUrl) == Some(ThumbKey(r.storageKey))
  {
    PublicUrlRoundTrip(r.storageKey);
    PublicUrlRoundTrip(ThumbKey(r.storageKey));
    PhotoView(r, PublicUrl(r.storageKey), PublicUrl(ThumbKey(r.storageKey)))
  }

  function Views(s: seq<Photo>): (vs: seq<PhotoView>)
    ensures |vs| == |s| && forall k :: 0 <= k < |s| ==> vs[k] == ViewOf(s[k])
  {
    seq(|s|, k requires 0 <= k < |s| => ViewOf(s[k]))
  }

  /**
   * The gallery `ORDER BY position ASC` with URLs, as the reorder response lists it: the
   * owner's gallery rows, each once, sorted with nulls last, each with its own URLs.
   */
  function GalleryListing(rows: seq<Photo>, u: int): (vs: seq<PhotoView>)
    ensures |vs| == |GalleryRows(rows, u)|
    ensures multiset(ViewedPhotos(vs)) == multiset(GalleryRows(rows, u))
    ensures SortedByPosition(ViewedPhotos(vs), false)
    ensures forall k :: 0 <= k < |vs| ==> vs[k] == ViewOf(vs[k].photo)
    ensures ContiguousPositions(GalleryRows(rows, u)) ==>
      forall k :: 0 <= k < |vs| ==> vs[k].photo.position == Some(k + 1)
  {
    var s := GalleryInOrder(rows, u);
    ViewsOfSorted(GalleryRows(rows, u), false);
    if ContiguousPositions(GalleryRows(rows, u)) then
      SortedContiguous(GalleryRows(rows, u), s, false);
      Views(s)
    else Views(s)
  }

  /** The photos of `vs`, in order. */
  function ViewedPhotos(vs: seq<PhotoView>): (s: seq<Photo>)
    ensures |s| == |vs| && forall k :: 0 <= k < |vs| ==> s[k] == vs[k].photo
  {
    seq(|vs|, k requires 0 <= k < |vs| => vs[k].photo)
  }

  lemma ViewsOfSorted(g: seq<Photo>, nullsFirst: bool)
    ensures ViewedPhotos(Views(SortByPosition(g, nullsFirst))) == SortByPosition(g, nullsFirst)
  {
  }

  /** `GET /me/photos`: the first avatar and the gallery, `ORDER BY position ASC NULLS FIRST`. */
  function ListPhotos(rows: seq<Photo>, u: int): (l: Listing)
    ensures l.avatar.Some? <==> |AvatarRows(rows, u)| > 0
    ensures l.avatar.Some? ==> l.avatar.value.photo in AvatarRows(rows, u)
    ensures l.avatar.Some? ==> l.avatar.value == ViewOf(l.avatar.value.photo)
    ensures multiset(ViewedPhotos(l.gallery)) == multiset(GalleryRows(rows, u))
    ensures SortedByPosition(ViewedPhotos(l.gallery), true)
    ensures forall k :: 0 <= k < |l.gallery| ==> l.gallery[k] == ViewOf(l.gallery[k].photo)
    ensures SlotInvariant(rows, u) ==>
      forall k :: 0 <= k < |l.gallery| ==> l.gallery[k].photo.position == Some(k + 1)
  {
    var avatars := SortByPosition(AvatarRows(rows, u), true);
    var gallery := SortByPosition(GalleryRows(rows, u), true);
    ViewsOfSorted(GalleryRows(rows, u), true);
    ListedAvatar(AvatarRows(rows, u), avatars);
    ListedGallery(rows, u, gallery);
    Listing(if avatars == [] then None else Some(ViewOf(avatars[0])), Views(gallery))
  }

  lemma ListedAvatar(a: seq<Photo>, s: seq<Photo>)
    requires multiset(s) == multiset(a)
    ensures s != [] <==> |a| > 0
    ensures s != [] ==> s[0] in a
  {
    assert |s| == |multiset(s)| == |multiset(a)| == |a|;
    if s != [] {
      assert s[0] in multiset(a);
    }
  }

  lemma ListedGallery(rows: seq<Photo>, u: int, s: seq<Photo>)
    requires multiset(s) == multiset(GalleryRows(rows, u)) && SortedByPosition(s, true)
    ensures SlotInvariant(rows, u) ==> forall k :: 0 <= k < |s| ==> s[k].position == Some(k + 1)
  {
    if SlotInvariant(rows, u) {
      SortedContiguous(GalleryRows(rows, u), s, true);
    }
  }

  /** The files an avatar's replacement unlinks: each old main file and its thumbnail. */
  function FileKeys(rs: seq<Photo>): set<string>
    decreases |rs|
  {
    if rs == [] then {}
    else FileKeys(rs[..|rs| - 1]) + {rs[|rs| - 1].storageKey, ThumbKey(rs[|rs| - 1].storageKey)}
  }

  /** `for (let p = 1; p <= 5; p++) { if (!used.has(p)) { position = p; break; } }` */
  method FirstFreePosition(used: set<int>) returns (position: Option<int>)
    ensures position.Some? ==> IsLowestFree(used, position.value)
    ensures position.None? ==> forall q :: 1 <= q <= MaxPhotos ==> q in used
  {
    position := None;
    for p := 1 to MaxPhotos + 1
      invariant forall q :: 1 <= q < p ==> q in used
    {
      if p !in used {
        return Some(p);
      }
    }
  }

  /**
   * The compaction after a gallery deletion: walking the gallery in position order, each
   * row not at its rank gets `UPDATE photos SET position = rank WHERE id = row.id`.
   */
  method CompactTable(base: seq<Photo>, u: int) returns (table: seq<Photo>, updates: seq<int>)
    requires UniqueIds(base)
    ensures table == Compact(base, u)
    ensures updates == CompactionUpdates(GalleryInOrder(base, u))
  {
    GalleryInOrderRows(base, u);
    table, updates := CompactRanks(base, u, GalleryInOrder(base, u));
  }

  /** The loop itself, over the ordered gallery rows `rest`: row `i` gets rank `i + 1`. */
  method CompactRanks(base: seq<Photo>, u: int, rest: seq<Photo>) returns (table: seq<Photo>, updates: seq<int>)
    requires UniqueIds(base) && GalleryRowsOf(rest, base, u)
    ensures table == Reassign(base, u, CompactionPlan(rest))
    ensures updates == CompactionUpdates(rest)
  {
    assert Reassign(base, u, CompactionPlan(rest[..0])) == base;
    table := base;
    updates := [];
    var expected := 1;
    for i := 0 to |rest|
      invariant expected == i + 1
      invariant table == Reassign(base, u, CompactionPlan(rest[..i]))
      invariant updates == CompactionUpdates(rest[..i])
    {
      CompactionStep(base, u, rest, i);
      if rest[i].position != Some(expected) {
        table := SetPosition(table, rest[i].id, expected);
        updates := updates + [rest[i].id];
      }
      expected := expected + 1;
    }
    assert rest[..|rest|] == rest;
  }

  /** The loop over the replaced avatars, unlinking each main file and its thumbnail. */
  method UnlinkAll(present: set<string>, victims: seq<Photo>) returns (remaining: set<string>)
    ensures remaining == present - FileKeys(victims)
    ensures forall r :: r in victims ==> r.storageKey !in remaining && ThumbKey(r.storageKey) !in remaining
    ensures remaining <= present
  {
    remaining := present;
    for i := 0 to |victims|
      invariant remaining == present - FileKeys(victims[..i])
    {
      assert victims[..i + 1][..i] == victims[..i];
      remaining := remaining - {victims[i].storageKey};
      remaining := remaining - {ThumbKey(victims[i].storageKey)};
    }
    assert victims[..|victims|] == victims;
    FileKeysOf(victims);
  }

  lemma {:induction false} FileKeysOf(rs: seq<Photo>)
    ensures forall r :: r in rs ==> r.storageKey in FileKeys(rs) && ThumbKey(r.storageKey) in FileKeys(rs)
    decreases |rs|
  {
    if rs != [] {
      var front := rs[..|rs| - 1];
      FileKeysOf(front);
      assert forall r :: r in rs ==> r in front || r == rs[|rs| - 1] by {
        assert rs == front + [rs[|rs| - 1]];
      }
    }
  }

  /** The checks on the request body alone: the schema, then duplicate ids, then duplicate positions. */
  function RequestRejection(items: seq<OrderItem>): (e: Option<AppError>)
    ensures !ValidOrder(items) ==> e == Some(InvalidOrder())
    ensures ValidOrder(items) && !Distinct(ItemIds(items)) ==> e == Some(DuplicateIds())
    ensures ValidOrder(items) && Distinct(ItemIds(items)) && !Distinct(ItemPositions(items)) ==> e == Some(DuplicatePositions())
    ensures e.None? <==> ValidOrder(items) && Distinct(ItemIds(items)) && Distinct(ItemPositions(items))
  {
    SetSizeIffDistinct(ItemIds(items));
    SetSizeIffDistinct(ItemPositions(items));
    if !ValidOrder(items) then Some(InvalidOrder())
    else if |ToSet(ItemIds(items))| != |items| then Some(DuplicateIds())
    else if |ToSet(ItemPositions(items))| != |items| then Some(DuplicatePositions())
    else None
  }

  /** Every requested id names a row of the current gallery: `ids.every((id) => curIds.includes(id))`. */
  predicate KnownIds(current: seq<Photo>, items: seq<OrderItem>) {
    forall k :: 0 <= k < |items| ==> items[k].id in RowIds(current)
  }

  /** The outcome the checks against the current gallery demand: an error in their order, success exactly when both pass. */
  predicate PlanRejected<T>(current: seq<Photo>, items: seq<OrderItem>, res: Result<T, AppError>) {
    (!KnownIds(current, items) ==> res == Failure(InvalidIds())) &&
    (KnownIds(current, items) && !IsOneToN(Assignment(current, items), |current|) ==> res == Failure(InvalidPositions())) &&
    (res.Success? <==> KnownIds(current, items) && IsOneToN(Assignment(current, items), |current|))
  }

  /**
   * The checks against the current gallery and the position map
   * (`finalPosById`) they produce: current positions, overwritten by the request.
   */
  method PlanReorder(current: seq<Photo>, items: seq<OrderItem>) returns (res: Result<map<int, Option<int>>, AppError>)
    requires KeysDistinct(current, PhotoId)
    ensures PlanRejected(current, items, res)
    ensures res.Failure? ==> res.error == InvalidIds() || res.error == InvalidPositions()
    ensures res.Success? ==>
      PlanMatches(res.value, current, items) &&
      (forall k :: 0 <= k < |current| ==> current[k].id in res.value) &&
      IsOneToN(FinalPositions(current, res.value), |current|)
  {
    var curIds := RowIds(current);
    if !(forall k :: 0 <= k < |items| ==> items[k].id in curIds) {
      return Failure(InvalidIds());
    }
    var plan := BuildPlan(current, items);
    PlanIsAssignment(plan, current, items);
    var finalPositions := FinalPositions(current, plan);
    if !IsOneToN(finalPositions, |current|) {
      return Failure(InvalidPositions());
    }
    return Success(plan);
  }

  /**
   * `after` is `before` with `u`'s gallery placed as requested: only positions change, only
   * of `u`'s gallery rows named in the request, each to its requested position, and the
   * gallery then occupies `1..n`.
   */
  ghost predicate Reordered(before: seq<Photo>, after: seq<Photo>, u: int, items: seq<OrderItem>) {
    |after| == |before| &&
    (forall m :: 0 <= m < |after| ==> after[m] == before[m].(position := after[m].position)) &&
    (forall m :: 0 <= m < |after| && !IsGalleryOf(u)(before[m]) ==> after[m] == before[m]) &&
    (forall m :: 0 <= m < |after| && before[m].id !in ItemIds(items) ==> after[m] == before[m]) &&
    (forall m, k :: (0 <= m < |after| && 0 <= k < |items| && IsGalleryOf(u)(before[m]) &&
                     before[m].id == items[k].id) ==> after[m].position == Some(items[k].position)) &&
    ContiguousPositions(GalleryRows(after, u))
  }

  /** What the single `CASE` update does with an accepted plan. */
  lemma ReorderOutcome(rows: seq<Photo>, u: int, items: seq<OrderItem>, plan: map<int, Option<int>>, n: int)
    requires UniqueIds(rows) && RequestRejection(items).None? && |GalleryInOrder(rows, u)| > 0
    requires PlanMatches(plan, GalleryInOrder(rows, u), items)
    requires forall k :: 0 <= k < |GalleryInOrder(rows, u)| ==> GalleryInOrder(rows, u)[k].id in plan
    requires IsOneToN(FinalPositions(GalleryInOrder(rows, u), plan), |GalleryInOrder(rows, u)|)
    requires KnownIds(GalleryInOrder(rows, u), items)
    requires IsOneToN(Assignment(GalleryInOrder(rows, u), items), |GalleryInOrder(rows, u)|)
    ensures ReorderSpec(rows, u, items, Success(Reassign(rows, u, plan)))
    ensures UniqueIds(Reassign(rows, u, plan))
    ensures IdsBelow(rows, n) ==> IdsBelow(Reassign(rows, u, plan), n)
    ensures SlotInvariant(rows, u) ==> SlotInvariant(Reassign(rows, u, plan), u)
    ensures forall v :: v != u ==> OwnedRows(Reassign(rows, u, plan), v) == OwnedRows(rows, v)
  {
    assert |GalleryRows(rows, u)| > 0;
    ReassignSelections(rows, u, plan);
    ReassignIsReordered(rows, u, items, plan);
    if SlotInvariant(rows, u) {
      ReorderKeepsSlots(rows, u, plan);
    }
  }

  /** The single `CASE` update with an accepted one-to-N plan is a reordering in the sense above. */
  lemma ReassignIsReordered(rows: seq<Photo>, u: int, items: seq<OrderItem>, plan: map<int, Option<int>>)
    requires UniqueIds(rows) && Distinct(ItemIds(items))
    requires PlanMatches(plan, GalleryInOrder(rows, u), items)
    requires forall k :: 0 <= k < |GalleryInOrder(rows, u)| ==> GalleryInOrder(rows, u)[k].id in plan
    requires IsOneToN(FinalPositions(GalleryInOrder(rows, u), plan), |GalleryInOrder(rows, u)|)
    ensures Reordered(rows, Reassign(rows, u, plan), u, items)
  {
    ReassignShape(rows, u, plan);
    ReorderContiguous(rows, u, plan);
    ReorderPlacesRows(rows, u, items, plan);
  }

  /** A reassignment changes positions only, and only of `u`'s gallery rows. */
  lemma ReassignShape(rows: seq<Photo>, u: int, plan: map<int, Option<int>>)
    ensures var after := Reassign(rows, u, plan);
      |after| == |rows| &&
      (forall m :: 0 <= m < |after| ==> after[m] == rows[m].(position := after[m].position)) &&
      (forall m :: 0 <= m < |after| && !IsGalleryOf(u)(rows[m]) ==> after[m] == rows[m])
  {
    var after := Reassign(rows, u, plan);
    assert forall m :: 0 <= m < |after| ==> after[m] == ReassignOne(u, plan)(rows[m]);
  }

  lemma EmptyGalleryOutcome(rows: seq<Photo>, u: int, items: seq<OrderItem>)
    requires RequestRejection(items).None? && |GalleryInOrder(rows, u)| == 0
    ensures ReorderSpec(rows, u, items, Success(rows))
  {
    assert |GalleryRows(rows, u)| == 0;
  }

  lemma RejectedPlanOutcome(rows: seq<Photo>, u: int, items: seq<OrderItem>, e: AppError)
    requires RequestRejection(items).None? && |GalleryInOrder(rows, u)| > 0
    requires PlanRejected(GalleryInOrder(rows, u), items, Result<map<int, Option<int>>, AppError>.Failure(e))
    ensures ReorderSpec(rows, u, items, Failure(e))
  {
    assert |GalleryRows(rows, u)| > 0;
  }

  /** The outcomes the handler's checks and its update allow, `before` being the table it reads. */
  ghost predicate ReorderSpec(before: seq<Photo>, u: int, items: seq<OrderItem>, outcome: Result<seq<Photo>, AppError>) {
    (RequestRejection(items).Some? ==> outcome == Failure(RequestRejection(items).value)) &&
    (RequestRejection(items).None? && GalleryRows(before, u) == [] ==> outcome == Success(before)) &&
    (RequestRejection(items).None? && GalleryRows(before, u) != [] ==>
       PlanRejected(GalleryInOrder(before, u), items, outcome)) &&
    (outcome.Success? ==> Reordered(before, outcome.value, u, items))
  }

  /**
   * When the handler commits: the request passes its own checks and the gallery is empty,
   * or every id is one of `u`'s gallery photos and the final positions are exactly 1..N.
   */
  predicate ReorderAccepted(before: seq<Photo>, u: int, items: seq<OrderItem>) {
    var current := GalleryInOrder(before, u);
    RequestRejection(items).None? &&
    (GalleryRows(before, u) == [] || (KnownIds(current, items) && IsOneToN(Assignment(current, items), |current|)))
  }

  /** Any accepted reorder that submits the current positions leaves the table as it was. */
  lemma ReorderNoOp(rows: seq<Photo>, u: int, items: seq<OrderItem>, after: seq<Photo>)
    requires UniqueIds(rows) && ReorderSpec(rows, u, items, Success(after))
    requires AgreesWithGallery(items, GalleryRows(rows, u))
    ensures after == rows
  {
    forall m | 0 <= m < |rows| ensures after[m] == rows[m] {
      if IsGalleryOf(u)(rows[m]) && rows[m].id in ItemIds(items) {
        var k :| 0 <= k < |items| && ItemIds(items)[k] == rows[m].id;
        var r :| r in GalleryRows(rows, u) && r.id == items[k].id && r.position == Some(items[k].position);
        SameKeySameElement(rows, PhotoId, r, rows[m]);
      }
    }
  }

  /** The reorder handler on the table: all its checks, then the `CASE` update. */
  method ReorderTable(rows: seq<Photo>, u: int, items: seq<OrderItem>, n: int) returns (res: Result<seq<Photo>, AppError>)
    requires UniqueIds(rows)
    ensures ReorderSpec(rows, u, items, res)
    ensures res.Success? <==> ReorderAccepted(rows, u, items)
    ensures res.Success? ==> UniqueIds(res.value) && (IdsBelow(rows, n) ==> IdsBelow(res.value, n))
    ensures res.Success? && SlotInvariant(rows, u) ==> SlotInvariant(res.value, u)
    ensures res.Success? ==> forall v :: v != u ==> OwnedRows(res.value, v) == OwnedRows(rows, v)
  {
    var rejection := RequestRejection(items);
    if rejection.Some? {
      return Failure(rejection.value);
    }
    var current := GalleryInOrder(rows, u);
    GalleryInOrderRows(rows, u);
    if |current| == 0 {
      EmptyGalleryOutcome(rows, u, items);
      return Success(rows);
    }
    var planned := PlanReorder(current, items);
    if planned.Failure? {
      RejectedPlanOutcome(rows, u, items, planned.error);
      return Failure(planned.error);
    }
    var plan := planned.value;
    ReorderOutcome(rows, u, items, plan, n);
    return Success(Reassign(rows, u, plan));
  }

  class PhotoStore {
    /** The photos table. */
    var rows: seq<Photo>
    /** Storage keys of the files present under the uploads directory. */
    var files: set<string>
    /** The next value of the `id` sequence. */
    var nextId: int

    ghost predicate Valid()
      reads this
    {
      UniqueIds(rows) && IdsBelow(rows, nextId)
    }

    constructor ()
      ensures Valid() && rows == [] && files == {} && nextId == 1
    {
      rows := [];
      files := {};
      nextId := 1;
    }

    /** `INSERT INTO photos(...) VALUES (...) RETURNING id`. */
    method Insert(userId: int, kind: Kind, position: Option<int>, key: string, mime: string, image: Resized)
      returns (id: int)
      requires Valid()
      modifies this
      ensures Valid()
      ensures id == old(nextId) && nextId == old(nextId) + 1 && files == old(files)
      ensures rows == old(rows) +
        [Photo(id, userId, kind, position, key, mime, OrNull(image.width), OrNull(image.height), image.byteLength)]
    {
      id := nextId;
      var x := Photo(id, userId, kind, position, key, mime, OrNull(image.width), OrNull(image.height), image.byteLength);
      AppendFreshRow(rows, x);
      rows := rows + [x];
      nextId := nextId + 1;
    }

    /** `POST /me/photos`. */
    method UploadGallery(userId: int, file: Option<Upload>, stamp: string,
                         main: Result<Resized, string>, thumb: Result<(), string>)
      returns (res: Result<Created, AppError>)
      requires Valid()
      modifies this
      ensures Valid()
      ensures file.None? ==> res == Failure(NoFile())
      ensures file.Some? && file.value.mimeType !in AllowedMime ==> res == Failure(UnsupportedType())
      ensures Accepted(file) && |OwnedRows(old(rows), userId)| >= MaxPhotos ==> res == Failure(MaxPhotosReached())
      ensures res == Failure(GalleryFull()) ==>
        forall q :: 1 <= q <= MaxPhotos ==> q in UsedPositions(GalleryRows(old(rows), userId))
      ensures Accepted(file) && |OwnedRows(old(rows), userId)| < MaxPhotos && main.Failure? ==>
        res == Failure(TransformFailed(main.error)) || res == Failure(GalleryFull())
      ensures Accepted(file) && |OwnedRows(old(rows), userId)| < MaxPhotos && main.Success? && thumb.Failure? ==>
        res == Failure(TransformFailed(thumb.error)) &&
        exists p :: IsLowestFree(UsedPositions(GalleryRows(old(rows), userId)), p) &&
          files == old(files) + {MainKey(GalleryKeyBase(userId, p, stamp), ExtFromMime(file.value.mimeType))}
      ensures res.Failure? ==> rows == old(rows) && nextId == old(nextId)
      ensures res.Failure? ==> (files == old(files) ||
        (Accepted(file) && main.Success? && thumb.Failure? && res == Failure(TransformFailed(thumb.error)) &&
         exists p :: IsLowestFree(UsedPositions(GalleryRows(old(rows), userId)), p) &&
           files == old(files) + {MainKey(GalleryKeyBase(userId, p, stamp), ExtFromMime(file.value.mimeType))}))
      ensures res.Success? ==>
        Accepted(file) && |OwnedRows(old(rows), userId)| < MaxPhotos && main.Success? && thumb.Success? &&
        res.value.position.Some? &&
        var p := res.value.position.value;
        var mime := file.value.mimeType;
        var keyBase := GalleryKeyBase(userId, p, stamp);
        var key := MainKey(keyBase, ExtFromMime(mime));
        var thumbKey := StoredThumbKey(keyBase, ExtFromMime(mime));
        IsLowestFree(UsedPositions(GalleryRows(old(rows), userId)), p) &&
        rows == old(rows) + [Photo(old(nextId), userId, Gallery, Some(p), key, mime,
                                   OrNull(main.value.width), OrNull(main.value.height), main.value.byteLength)] &&
        files == old(files) + {key, thumbKey} &&
        nextId == old(nextId) + 1 &&
        res.value == Created(old(nextId), Gallery, Some(p), PublicUrl(key), PublicUrl(thumbKey))
      ensures SlotInvariant(old(rows), userId) && res.Success? ==>
        res.value.position == Some(|GalleryRows(old(rows), userId)| + 1)
      ensures res.Success? <==>
        Accepted(file) && |OwnedRows(old(rows), userId)| < MaxPhotos && main.Success? && thumb.Success?
      ensures SlotInvariant(old(rows), userId) ==> SlotInvariant(rows, userId)
      ensures forall v :: v != userId ==> OwnedRows(rows, v) == OwnedRows(old(rows), v)
    {
      if |OwnedRows(rows, userId)| < MaxPhotos {
        FreePositionExists(rows, userId);
      }
      var slot := GallerySlot(userId, file);
      if slot.Failure? {
        return Failure(slot.error);
      }
      var p := slot.value;
      var mime := file.value.mimeType;
      var ext := ExtFromMime(mime);
      var keyBase := GalleryKeyBase(userId, p, stamp);
      var mainKey := MainKey(keyBase, ext);
      var thumbKey := StoredThumbKey(keyBase, ext);
      var written := WriteImages(mainKey, thumbKey, main, thumb);
      if written.Failure? {
        return Failure(written.error);
      }
      var id := InsertGallery(userId, p, mainKey, mime, main.value);
      res := Success(Created(id, Gallery, Some(p), PublicUrl(mainKey), PublicUrl(thumbKey)));
    }
  

    /** The resized main image written under `mainKey`, then the thumbnail under `thumbKey`. */
    method WriteImages(mainKey: string, thumbKey: string, main: Result<Resized, string>, thumb: Result<(), string>)
      returns (written: Result<(), AppError>)
      modifies this
      ensures rows == old(rows) && nextId == old(nextId)
      ensures main.Failure? ==> written == Failure(TransformFailed(main.error)) && files == old(files)
      ensures main.Success? && thumb.Failure? ==>
        written == Failure(TransformFailed(thumb.error)) && files == old(files) + {mainKey}
      ensures main.Success? && thumb.Success? ==> written == Success(()) && files == old(files) + {mainKey, thumbKey}
    {
      if main.Failure? {
        return Failure(TransformFailed(main.error));
      }
      files := files + {mainKey};
      if thumb.Failure? {
        return Failure(TransformFailed(thumb.error));
      }
      files := files + {thumbKey};
      written := Success(());
    }

    /** The checks of `POST /me/photos` before any file is written; on success, the slot to take. */
    method GallerySlot(userId: int, file: Option<Upload>) returns (slot: Result<int, AppError>)
      ensures file.None? ==> slot == Failure(NoFile())
      ensures file.Some? && file.value.mimeType !in AllowedMime ==> slot == Failure(UnsupportedType())
      ensures Accepted(file) && |OwnedRows(rows, userId)| >= MaxPhotos ==> slot == Failure(MaxPhotosReached())
      ensures Accepted(file) && |OwnedRows(rows, userId)| < MaxPhotos ==> slot.Success? || slot == Failure(GalleryFull())
      ensures slot == Failure(GalleryFull()) ==>
        forall q :: 1 <= q <= MaxPhotos ==> q in UsedPositions(GalleryRows(rows, userId))
      ensures slot.Success? ==>
        Accepted(file) && |OwnedRows(rows, userId)| < MaxPhotos &&
        IsLowestFree(UsedPositions(GalleryRows(rows, userId)), slot.value)
    {
      if file.None? {
        return Failure(NoFile());
      }
      if file.value.mimeType !in AllowedMime {
        return Failure(UnsupportedType());
      }
      var used := UsedPositions(GalleryRows(rows, userId));
      var total := |OwnedRows(rows, userId)|;
      if total >= MaxPhotos {
        return Failure(MaxPhotosReached());
      }
      var position := FirstFreePosition(used);
      if position.None? {
        return Failure(GalleryFull());
      }
      slot := Success(position.value);
    }

    /** The `INSERT` of a gallery row at the lowest free position, under the cap. */
    method InsertGallery(userId: int, p: int, key: string, mime: string, image: Resized) returns (id: int)
      requires Valid()
      requires |OwnedRows(rows, userId)| < MaxPhotos && IsLowestFree(UsedPositions(GalleryRows(rows, userId)), p)
      modifies this
      ensures Valid()
      ensures id == old(nextId) && nextId == old(nextId) + 1 && files == old(files)
      ensures rows == old(rows) +
        [Photo(id, userId, Gallery, Some(p), key, mime, OrNull(image.width), OrNull(image.height), image.byteLength)]
      ensures SlotInvariant(old(rows), userId) ==> p == |GalleryRows(old(rows), userId)| + 1
      ensures SlotInvariant(old(rows), userId) ==> SlotInvariant(rows, userId)
      ensures forall v :: v != userId ==> OwnedRows(rows, v) == OwnedRows(old(rows), v)
    {
      ghost var before := rows;
      id := Insert(userId, Gallery, Some(p), key, mime, image);
      var x := rows[|rows| - 1];
      assert rows == before + [x];
      forall v | v != userId ensures OwnedRows(rows, v) == OwnedRows(before, v) {
        AppendRowSelections(before, x, v);
      }
      if SlotInvariant(before, userId) {
        LowestFreeAfterContiguous(GalleryRows(before, userId), p);
        InsertGalleryKeepsSlots(before, userId, x);
      }
    }

    /** Unlinking the old avatars' files, `DELETE` of their rows and `INSERT` of the new one. */
    method ReplaceAvatar(userId: int, key: string, mime: string, image: Resized) returns (id: int)
      requires Valid()
      modifies this
      ensures Valid()
      ensures id == old(nextId) && nextId == old(nextId) + 1
      ensures rows == DeleteAvatars(old(rows), userId) +
        [Photo(id, userId, Avatar, None, key, mime, OrNull(image.width), OrNull(image.height), image.byteLength)]
      ensures files == old(files) - FileKeys(AvatarRows(old(rows), userId))
      ensures AvatarRows(rows, userId) == [rows[|rows| - 1]]
      ensures |OwnedRows(rows, userId)| == |GalleryRows(old(rows), userId)| + 1
      ensures SlotInvariant(old(rows), userId) &&
              (|AvatarRows(old(rows), userId)| > 0 || |OwnedRows(old(rows), userId)| < MaxPhotos) ==>
        SlotInvariant(rows, userId)
      ensures forall v :: v != userId ==> OwnedRows(rows, v) == OwnedRows(old(rows), v)
    {
      files := UnlinkAll(files, AvatarRows(rows, userId));
      ghost var before := rows;
      assert UniqueIds(DeleteAvatars(rows, userId)) && IdsBelow(DeleteAvatars(rows, userId), nextId) by {
        DeleteAvatarsSelections(rows, userId);
      }
      rows := DeleteAvatars(rows, userId);
      id := Insert(userId, Avatar, None, key, mime, image);
      ReplaceOutcome(before, userId, rows[|rows| - 1]);
    }

    /** `POST /me/avatar`. */
    method UploadAvatar(userId: int, file: Option<Upload>, stamp: string,
                        main: Result<Resized, string>, thumb: Result<(), string>)
      returns (res: Result<Created, AppError>)
      requires Valid()
      modifies this
      ensures Valid()
      ensures file.None? ==> res == Failure(NoFile()) && files == old(files)
      ensures file.Some? && file.value.mimeType !in AllowedMime ==> res == Failure(UnsupportedType()) && files == old(files)
      ensures Accepted(file) && main.Failure? ==> res == Failure(TransformFailed(main.error)) && files == old(files)
      ensures Accepted(file) && main.Success? && thumb.Failure? ==>
        res == Failure(TransformFailed(thumb.error)) &&
        files == old(files) + {MainKey(AvatarKeyBase(userId, stamp), ExtFromMime(file.value.mimeType))}
      ensures Accepted(file) && main.Success? && thumb.Success? &&
              |AvatarRows(old(rows), userId)| == 0 && |OwnedRows(old(rows), userId)| >= MaxPhotos ==>
        res == Failure(MaxPhotosReached()) &&
        files == old(files) + {MainKey(AvatarKeyBase(userId, stamp), ExtFromMime(file.value.mimeType)),
                               StoredThumbKey(AvatarKeyBase(userId, stamp), ExtFromMime(file.value.mimeType))}
      ensures res.Failure? ==> rows == old(rows) && nextId == old(nextId)
      ensures res.Success? ==>
        Accepted(file) && main.Success? && thumb.Success? &&
        (|AvatarRows(old(rows), userId)| > 0 || |OwnedRows(old(rows), userId)| < MaxPhotos) &&
        var mime := file.value.mimeType;
        var key := MainKey(AvatarKeyBase(userId, stamp), ExtFromMime(mime));
        var thumbKey := StoredThumbKey(AvatarKeyBase(userId, stamp), ExtFromMime(mime));
        rows == DeleteAvatars(old(rows), userId) +
          [Photo(old(nextId), userId, Avatar, None, key, mime,
                 OrNull(main.value.width), OrNull(main.value.height), main.value.byteLength)] &&
        files == (old(files) + {key, thumbKey}) - FileKeys(AvatarRows(old(rows), userId)) &&
        nextId == old(nextId) + 1 &&
        res.value == Created(old(nextId), Avatar, None, PublicUrl(key), PublicUrl(thumbKey))
      ensures res.Success? ==> |AvatarRows(rows, userId)| == 1 && AvatarRows(rows, userId)[0].position.None?
      ensures res.Success? && |AvatarRows(old(rows), userId)| == 1 ==>
        |OwnedRows(rows, userId)| == |OwnedRows(old(rows), userId)|
      ensures res.Success? <==>
        Accepted(file) && main.Success? && thumb.Success? &&
        (|AvatarRows(old(rows), userId)| > 0 || |OwnedRows(old(rows), userId)| < MaxPhotos)
      ensures SlotInvariant(old(rows), userId) ==> SlotInvariant(rows, userId)
      ensures forall v :: v != userId ==> OwnedRows(rows, v) == OwnedRows(old(rows), v)
    {
      if file.None? {
        return Failure(NoFile());
      }
      var mime := file.value.mimeType;
      if mime !in AllowedMime {
        return Failure(UnsupportedType());
      }
      var ext := ExtFromMime(mime);
      var keyBase := AvatarKeyBase(userId, stamp);
      var mainKey := MainKey(keyBase, ext);
      var thumbKey := StoredThumbKey(keyBase, ext);
      var written := WriteImages(mainKey, thumbKey, main, thumb);
      if written.Failure? {
        return Failure(written.error);
      }
      ghost var withFiles := files;
      var stored := StoreAvatar(userId, mainKey, mime, main.value);
      if stored.Failure? {
        return Failure(stored.error);
      }
      assert files == withFiles - FileKeys(AvatarRows(old(rows), userId));
      res := Success(Created(stored.value, Avatar, None, PublicUrl(mainKey), PublicUrl(thumbKey)));
    }

    /** The avatar handler once both files are written: the cap on a first avatar, then the replacement. */
    method StoreAvatar(userId: int, key: string, mime: string, image: Resized) returns (res: Result<int, AppError>)
      requires Valid()
      modifies this
      ensures Valid()
      ensures res.Failure? <==> |AvatarRows(old(rows), userId)| == 0 && |OwnedRows(old(rows), userId)| >= MaxPhotos
      ensures res.Failure? ==>
        res.error == MaxPhotosReached() && rows == old(rows) && files == old(files) && nextId == old(nextId)
      ensures res.Success? ==>
        res.value == old(nextId) && nextId == old(nextId) + 1 &&
        rows == DeleteAvatars(old(rows), userId) +
          [Photo(old(nextId), userId, Avatar, None, key, mime, OrNull(image.width), OrNull(image.height), image.byteLength)] &&
        files == old(files) - FileKeys(AvatarRows(old(rows), userId))
      ensures res.Success? ==> |AvatarRows(rows, userId)| == 1 && AvatarRows(rows, userId)[0].position.None?
      ensures res.Success? && |AvatarRows(old(rows), userId)| == 1 ==>
        |OwnedRows(rows, userId)| == |OwnedRows(old(rows), userId)|
      ensures SlotInvariant(old(rows), userId) ==> SlotInvariant(rows, userId)
      ensures forall v :: v != userId ==> OwnedRows(rows, v) == OwnedRows(old(rows), v)
    {
      OwnedIsGalleryPlusAvatars(rows, userId);
      if |AvatarRows(rows, userId)| == 0 {
        var total := |OwnedRows(rows, userId)|;
        if total >= MaxPhotos {
          return Failure(MaxPhotosReached());
        }
      }
      var id := ReplaceAvatar(userId, key, mime, image);
      return Success(id);
    }

    /** `DELETE /me/photos/:id`; `updates` lists the ids of the compaction `UPDATE`s, in order. */
    method DeletePhoto(userId: int, idParam: Option<int>) returns (res: Result<(), AppError>, updates: seq<int>)
      requires Valid()
      modifies this
      ensures Valid() && nextId == old(nextId)
      ensures idParam.None? ==> res == Failure(InvalidId())
      ensures idParam.Some? && FindPhoto(old(rows), idParam.value, userId).None? ==> res == Failure(PhotoNotFound())
      ensures res.Failure? ==> rows == old(rows) && files == old(files) && updates == []
      ensures res.Success? ==>
        idParam.Some? && FindPhoto(old(rows), idParam.value, userId).Some? &&
        var r := FindPhoto(old(rows), idParam.value, userId).value;
        var kept := DeleteRow(old(rows), idParam.value, userId);
        files == old(files) - {r.storageKey, ThumbKey(r.storageKey)} &&
        (r.kind == Avatar ==> rows == kept && updates == []) &&
        (r.kind == Gallery ==> rows == Compact(kept, userId) &&
                               updates == CompactionUpdates(GalleryInOrder(kept, userId)))
      ensures res.Success? <==> idParam.Some? && FindPhoto(old(rows), idParam.value, userId).Some?
      ensures SlotInvariant(old(rows), userId) ==> SlotInvariant(rows, userId)
      ensures forall v :: v != userId ==> OwnedRows(rows, v) == OwnedRows(old(rows), v)
    {
      updates := [];
      if idParam.None? {
        return Failure(InvalidId()), updates;
      }
      var id := idParam.value;
      var found := FindPhoto(rows, id, userId);
      if found.None? {
        return Failure(PhotoNotFound()), updates;
      }
      var r := found.value;
      files := files - {r.storageKey};
      files := files - {ThumbKey(r.storageKey)};
      assert files == old(files) - {r.storageKey, ThumbKey(r.storageKey)};
      updates := DeleteFound(userId, id, r);
      res := Success(());
    }

    /** The `DELETE` of a found row and, for a gallery row, the compaction of the rest. */
    method DeleteFound(userId: int, id: int, r: Photo) returns (updates: seq<int>)
      requires Valid() && FindPhoto(rows, id, userId) == Some(r)
      modifies this
      ensures Valid() && nextId == old(nextId) && files == old(files)
      ensures r.kind == Avatar ==> rows == DeleteRow(old(rows), id, userId) && updates == []
      ensures r.kind == Gallery ==>
        rows == Compact(DeleteRow(old(rows), id, userId), userId) &&
        updates == CompactionUpdates(GalleryInOrder(DeleteRow(old(rows), id, userId), userId))
      ensures KeepsOwners(old(rows), rows, userId)
    {
      if r.kind == Gallery {
        updates := DeleteGalleryRow(userId, id);
      } else {
        DeleteAvatarRow(userId, id);
        updates := [];
      }
    }

    /** The `DELETE` of an avatar row: nothing is renumbered. */
    method DeleteAvatarRow(userId: int, id: int)
      requires Valid() && FindPhoto(rows, id, userId).Some? && FindPhoto(rows, id, userId).value.kind == Avatar
      modifies this
      ensures Valid() && nextId == old(nextId) && files == old(files)
      ensures rows == DeleteRow(old(rows), id, userId)
      ensures KeepsOwners(old(rows), rows, userId)
    {
      DeleteOutcome(rows, id, userId, nextId);
      rows := DeleteRow(rows, id, userId);
    }

    /** The `DELETE` of a gallery row, then the compaction of what is left of the gallery. */
    method DeleteGalleryRow(userId: int, id: int) returns (updates: seq<int>)
      requires Valid() && FindPhoto(rows, id, userId).Some? && FindPhoto(rows, id, userId).value.kind == Gallery
      modifies this
      ensures Valid() && nextId == old(nextId) && files == old(files)
      ensures rows == Compact(DeleteRow(old(rows), id, userId), userId)
      ensures updates == CompactionUpdates(GalleryInOrder(DeleteRow(old(rows), id, userId), userId))
      ensures KeepsOwners(old(rows), rows, userId)
    {
      var kept := DeleteRow(rows, id, userId);
      DeleteOutcome(rows, id, userId, nextId);
      rows, updates := CompactTable(kept, userId);
    }


    /** `PATCH /me/photos/reorder`; `outcome` is the table (or the error) the handler arrives at. */
    method Reorder(userId: int, items: seq<OrderItem>)
      returns (res: Result<seq<PhotoView>, AppError>, ghost outcome: Result<seq<Photo>, AppError>)
      requires Valid()
      modifies this
      ensures Valid() && files == old(files) && nextId == old(nextId)
      ensures ReorderSpec(old(rows), userId, items, outcome)
      ensures res.Success? <==> ReorderAccepted(old(rows), userId, items)
      ensures outcome.Failure? ==> rows == old(rows) && res == Failure(outcome.error)
      ensures outcome.Success? ==> rows == outcome.value && res == Success(GalleryListing(rows, userId))
      ensures SlotInvariant(old(rows), userId) ==> SlotInvariant(rows, userId)
      ensures forall v :: v != userId ==> OwnedRows(rows, v) == OwnedRows(old(rows), v)
    {
      var result := ReorderTable(rows, userId, items, nextId);
      outcome := result;
      res := InstallTable(userId, result);
    }

    /** The table the handler arrived at and the gallery listing it answers with; an error changes nothing. */
    method InstallTable(userId: int, result: Result<seq<Photo>, AppError>) returns (res: Result<seq<PhotoView>, AppError>)
      requires Valid()
      requires result.Success? ==> UniqueIds(result.value) && IdsBelow(result.value, nextId)
      modifies this
      ensures Valid() && files == old(files) && nextId == old(nextId)
      ensures result.Failure? ==> rows == old(rows) && res == Failure(result.error)
      ensures result.Success? ==> rows == result.value && res == Success(GalleryListing(rows, userId))
    {
      match result
      case Failure(e) =>
        res := Failure(e);
      case Success(table) =>
        rows := table;
        res := Success(GalleryListing(table, userId));
    }
  }


  /** What every photo handler keeps: the slot invariant of `u` and every other owner's rows. */
  ghost predicate KeepsOwners(before: seq<Photo>, after: seq<Photo>, u: int) {
    (SlotInvariant(before, u) ==> SlotInvariant(after, u)) &&
    forall v :: v != u ==> OwnedRows(after, v) == OwnedRows(before, v)
  }

  /** The table a deletion leaves: a valid table, the other owners untouched, the slots kept. */
  lemma DeleteOutcome(rows: seq<Photo>, id: int, u: int, n: int)
    requires UniqueIds(rows) && IdsBelow(rows, n) && FindPhoto(rows, id, u).Some?
    ensures var kept := DeleteRow(rows, id, u);
      var t := if FindPhoto(rows, id, u).value.kind == Gallery then Compact(kept, u) else kept;
      UniqueIds(kept) && UniqueIds(t) && IdsBelow(t, n) && KeepsOwners(rows, t, u)
  {
    var kept := DeleteRow(rows, id, u);
    DeleteRowKeys(rows, id, u, n);
    forall v | v != u ensures OwnedRows(kept, v) == OwnedRows(rows, v) {
      DeleteRowOthers(rows, id, u, v);
    }
    ReassignSelections(kept, u, CompactionPlan(GalleryInOrder(kept, u)));
    if SlotInvariant(rows, u) {
      DeleteKeepsSlots(rows, id, u);
    }
  }

  /** The table an avatar replacement leaves: one avatar, the gallery as it was, the others untouched. */
  lemma ReplaceOutcome(rows: seq<Photo>, u: int, x: Photo)
    requires IsAvatarOf(u)(x) && x.position.None?
    ensures var t := DeleteAvatars(rows, u) + [x];
      AvatarRows(t, u) == [x] && |OwnedRows(t, u)| == |GalleryRows(rows, u)| + 1 &&
      (SlotInvariant(rows, u) && (|AvatarRows(rows, u)| > 0 || |OwnedRows(rows, u)| < MaxPhotos) ==>
        SlotInvariant(t, u)) &&
      forall v :: v != u ==> OwnedRows(t, v) == OwnedRows(rows, v)
  {
    var d := DeleteAvatars(rows, u);
    ReplaceAvatarShape(rows, u, x);
    forall v | v != u ensures OwnedRows(d + [x], v) == OwnedRows(rows, v) {
      DeleteAvatarsSelections(rows, u);
      AppendRowSelections(d, x, v);
    }
    if SlotInvariant(rows, u) && (|AvatarRows(rows, u)| > 0 || |OwnedRows(rows, u)| < MaxPhotos) {
      ReplaceAvatarKeepsSlots(rows, u, x);
    }
  }
}
