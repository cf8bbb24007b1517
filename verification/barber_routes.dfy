/**
 The barber resource handler: create (POST /), the paginated list (GET /),
 the caller's own list (GET /user) and delete (DELETE /:id).

 Each handler is a pure function from the collection and the request to an
 `Outcome`: the response, the collection afterwards, and the calls made to the
 media host. The media host and the database's write are collaborators whose
 answers arrive as parameters (`UploadResult`, `SaveResult`, `DestroyResult`);
 the caller's id is the one the authentication middleware resolved.
 */
module BarberRoutes {
  import opened JsValue
  import opened Options
  import opened Strings
  import opened Store
  import opened Pagination

  /** A call the handler makes to the media host. */
  datatype MediaCall = UploadCall(image: Value) | DestroyCall(publicId: string)

  /** A handler's response, the collection it leaves, and its media-host calls
      in order. */
  datatype Outcome<R> = Outcome(response: R, store: Store, calls: seq<MediaCall>)

  // ---------------------------------------------------------------------------
  // POST /  (create)

  datatype CreateRequest = CreateRequest(title: Value, caption: Value, rating: Value, image: Value)

  /** The media host's answer to an upload: the hosted URL, or an error. */
  datatype UploadResult = Uploaded(secureUrl: string) | UploadFailed

  /** The database's answer to saving the new record. */
  datatype SaveResult = Saved | SaveFailed

  datatype CreateResponse =
    | Created(record: Barber)
    | MissingFields
    | CreateFailed
  {
    function Status(): int {
      match this
      case Created(_) => 201
      case MissingFields => 400
      case CreateFailed => 500
    }
  }

  /** Validate, upload the image, then save a record owned by the caller that
      points at the hosted copy. */
  function Create(st: Store, req: CreateRequest, caller: UserId, upload: UploadResult, save: SaveResult)
    : (out: Outcome<CreateResponse>)
    // 400 exactly when some field is falsy, and then nothing else happens.
    ensures out.response.Status() == 400 <==>
      Falsy(req.title) || Falsy(req.caption) || Falsy(req.rating) || Falsy(req.image)
    ensures out.response.Status() == 400 ==> out.store == st && out.calls == []
    // Otherwise the submitted image is uploaded, once.
    ensures out.response.Status() != 400 ==> out.calls == [UploadCall(req.image)]
    // 201 exactly when validation, upload and save all succeed.
    ensures out.response.Status() == 201 <==>
      out.response.Status() != 400 && upload.Uploaded? && save.Saved?
    ensures out.response.Status() == 500 ==> out.store == st
    // A created record is appended, owned by the caller, carries the body's
    // fields and the hosted URL, and is new and newest.
    ensures out.response.Created? ==>
      var b := out.response.record;
      && out.store.records == st.records + [b]
      && b.owner == caller
      && upload.Uploaded? && b.image == upload.secureUrl
      && b.title == req.title && b.caption == req.caption && b.rating == req.rating
      && (Valid(st) ==> !HasId(st.records, b.id))
      && (Valid(st) ==> forall k :: 0 <= k < |st.records| ==> st.records[k].createdAt < b.createdAt)
    ensures Valid(st) ==> Valid(out.store)
  {
    if Falsy(req.title) || Falsy(req.caption) || Falsy(req.rating) || Falsy(req.image) then
      Outcome(MissingFields, st, [])
    else
      var calls := [UploadCall(req.image)];
      match upload
      case UploadFailed => Outcome(CreateFailed, st, calls)
      case Uploaded(url) =>
        var b := Barber(st.next, req.title, req.caption, req.rating, url, caller, st.next);
        match save
        case SaveFailed => Outcome(CreateFailed, st, calls)
        case Saved => Outcome(Created(b), Store(st.records + [b], st.next + 1), calls)
  }

  // ---------------------------------------------------------------------------
  // GET /  (paginated list, every owner)

  datatype ListResponse = ListResponse(
    barbers: seq<Barber>,
    currentPage: int,
    totalBarbers: nat,
    totalPages: nat
  )

  /** Page `p` of size `l` over all records, newest first, with the total
      count and the number of pages. */
  function ListPage(st: Store, p: int, l: int): (r: ListResponse)
    requires p >= 1 && l >= 1
    ensures r.currentPage == p
    ensures r.totalBarbers == |st.records|
    // The page count is the ceiling of n / l.
    ensures |st.records| <= r.totalPages * l
    ensures |st.records| > 0 ==> (r.totalPages - 1) * l < |st.records|
    ensures |st.records| == 0 ==> r.totalPages == 0
    // The page is the slice of the newest-first order that starts at skip.
    ensures |r.barbers| == Min(l, Max(0, |st.records| - Skip(p, l)))
    ensures forall i :: 0 <= i < |r.barbers| ==>
      r.barbers[i] == st.records[|st.records| - 1 - Skip(p, l) - i]
    ensures Valid(st) ==> NewestFirstOrdered(r.barbers)
  {
    NewestFirstIsSorted(st);
    PageOfNewestFirst(st.records, Skip(p, l), l);
    ListResponse(Page(NewestFirst(st.records), Skip(p, l), l), p, |st.records|, CeilDiv(|st.records|, l))
  }

  /** `GET /?page=&limit=`: the query parameters are absent or positive; an
      absent page is 1 and an absent limit 5. Nothing changes and the media
      host is not called. */
  function List(st: Store, page: Option<int>, limit: Option<int>): (out: Outcome<ListResponse>)
    requires page.Some? ==> page.value >= 1
    requires limit.Some? ==> limit.value >= 1
    ensures out.response == ListPage(st, if page.Some? then page.value else 1, if limit.Some? then limit.value else 5)
    ensures out.store == st && out.calls == []
  {
    Outcome(ListPage(st, OrDefault(page, DefaultPage), OrDefault(limit, DefaultLimit)), st, [])
  }

  /** A page of the newest-first order, read back in terms of insertion
      order; and it is itself newest first when the whole order is. */
  lemma PageOfNewestFirst(recs: seq<Barber>, skip: nat, limit: int)
    requires limit >= 1
    ensures var pg := Page(NewestFirst(recs), skip, limit);
      && (forall i :: 0 <= i < |pg| ==> pg[i] == recs[|recs| - 1 - skip - i])
      && (NewestFirstOrdered(NewestFirst(recs)) ==> NewestFirstOrdered(pg))
  {
  }

  // ---------------------------------------------------------------------------
  // GET /user  (the caller's records)

  /** Every record the caller owns, newest first, unpaginated. */
  function ListMine(st: Store, caller: UserId): (out: Outcome<seq<Barber>>)
    ensures forall b :: b in out.response <==> b in st.records && b.owner == caller
    ensures Valid(st) ==> NewestFirstOrdered(out.response)
    ensures out.store == st && out.calls == []
  {
    NewestFirstIsSorted(st);
    Outcome(OwnedBy(NewestFirst(st.records), caller), st, [])
  }

  /** In a valid collection the owner list is THE newest-first sequence of the
      caller's records: any other such sequence equals it. */
  lemma ListMineIsUnique(st: Store, caller: UserId, ys: seq<Barber>)
    requires Valid(st)
    requires NewestFirstOrdered(ys)
    requires forall b :: b in ys <==> b in st.records && b.owner == caller
    ensures ys == ListMine(st, caller).response
  {
    OrderedDeterminedByMembers(ys, ListMine(st, caller).response);
  }

  // ---------------------------------------------------------------------------
  // DELETE /:id

  /** The media host's answer to a destroy request. The handler ignores it. */
  datatype DestroyResult = Destroyed | DestroyFailed

  datatype DeleteResponse =
    | NotFound
    | NotOwner
    | Deleted
  {
    function Status(): int {
      match this
      case NotFound => 404
      case NotOwner => 401
      case Deleted => 200
    }
  }

  /** The substring that marks an image URL as hosted by the media host. */
  const MediaHostMarker: string := "cloudinary"

  /** `url.split("/").pop().split(".")[0]`: the last path segment with its
      extension cut off at the first dot. */
  function PublicId(url: string): (r: string)
    ensures '/' !in r && '.' !in r
    ensures var seg := Last(Split(url, '/')); |r| <= |seg| && seg[..|r|] == r
  {
    var seg := Last(Split(url, '/'));
    SplitEnds(seg, '.');
    Split(seg, '.')[0]
  }

  /** The public id is the part of the URL after its last `/` and before the
      first `.` that follows: it holds neither character, what precedes it
      ends in `/` (or is empty), and what follows it in the last segment
      starts with `.` (or is empty). */
  lemma PublicIdShape(url: string)
    ensures var seg := Last(Split(url, '/'));
      var r := PublicId(url);
      && '/' !in r && '.' !in r
      && '/' !in seg
      && |seg| <= |url| && url[|url| - |seg|..] == seg
      && (|seg| == |url| || url[|url| - |seg| - 1] == '/')
      && |r| <= |seg| && seg[..|r|] == r
      && (|r| == |seg| || seg[|r|] == '.')
  {
    var seg := Last(Split(url, '/'));
    SplitEnds(url, '/');
    LastPartStarts(url, '/');
    SplitEnds(seg, '.');
    FirstPartStops(seg, '.');
    var r := PublicId(url);
    assert forall c :: c in r ==> c in seg;
  }

  /** The best-effort image clean-up after a delete: a destroy request for
      the image's public id when the URL names the media host, nothing
      otherwise. The destroy's answer is not consulted. */
  function ImageCleanup(image: string): (calls: seq<MediaCall>)
    ensures calls != [] <==> exists i: nat :: OccursAt(image, MediaHostMarker, i)
    ensures calls != [] ==> calls == [DestroyCall(PublicId(image))]
    ensures forall c :: c in calls ==> c.DestroyCall? && '/' !in c.publicId && '.' !in c.publicId
  {
    // `barber.image && barber.image.includes("cloudinary")`
    if image != [] && Includes(image, MediaHostMarker) then [DestroyCall(PublicId(image))] else []
  }

  /** Remove the record with this id, THEN check ownership, then best-effort
      destroy the hosted image. The removal happens before the ownership check,
      so a caller who does not own the record gets 401 and the record is gone
      all the same. */
  function Delete(st: Store, id: BarberId, caller: UserId, destroy: DestroyResult)
    : (out: Outcome<DeleteResponse>)
    ensures out.response.Status() == 404 <==> !HasId(st.records, id)
    ensures out.response.Status() == 404 ==> out.store == st && out.calls == []
    // An existing record is removed whoever asks; nothing else changes.
    ensures out.response.Status() != 404 ==>
      var k := FindIndex(st.records, id).value;
      && out.store == st.(records := RemoveAt(st.records, k))
      && (out.response.Status() == 401 <==> st.records[k].owner != caller)
      && (out.response.Status() == 401 ==> out.calls == [])
      && (out.response.Status() == 200 ==> out.calls == ImageCleanup(st.records[k].image))
    ensures Valid(st) ==> Valid(out.store) && !HasId(out.store.records, id)
    ensures Valid(st) ==> forall b :: b in out.store.records <==> b in st.records && b.id != id
  {
    match FindIndex(st.records, id)
    case None => Outcome(NotFound, st, [])
    case Some(k) =>
      var b := st.records[k];
      var rest := st.(records := RemoveAt(st.records, k));
      RemoveAtValid(st, k);
      if b.owner != caller then Outcome(NotOwner, rest, [])
      else
        var calls := ImageCleanup(b.image);
        // A failed destroy is logged and swallowed: the response is 200 either way.
        match destroy
        case Destroyed => Outcome(Deleted, rest, calls)
        case DestroyFailed => Outcome(Deleted, rest, calls)
  }

  /** The media host's answer to the destroy request changes nothing. */
  lemma DestroyFailureIsHarmless(st: Store, id: BarberId, caller: UserId)
    ensures Delete(st, id, caller, DestroyFailed) == Delete(st, id, caller, Destroyed)
  {
  }

  /** Creating a record and deleting it again as its owner restores the
      collection's records, answers 200, and asks the media host to destroy
      exactly the uploaded image. */
  lemma CreateThenDeleteRestores(st: Store, req: CreateRequest, caller: UserId, url: string, destroy: DestroyResult)
    requires Valid(st)
    requires Create(st, req, caller, Uploaded(url), Saved).response.Created?
    ensures var c := Create(st, req, caller, Uploaded(url), Saved);
      var d := Delete(c.store, c.response.record.id, caller, destroy);
      && d.response.Status() == 200
      && d.store.records == st.records
      && d.calls == ImageCleanup(url)
  {
    var c := Create(st, req, caller, Uploaded(url), Saved);
    var b := c.response.record;
    var recs := c.store.records;
    assert recs[|st.records|] == b;
    assert forall j :: 0 <= j < |st.records| ==> recs[j] == st.records[j] && recs[j].id != b.id;
    assert FindIndex(recs, b.id) == Some(|st.records|);
    assert RemoveAt(st.records + [b], |st.records|) == st.records;
  }

  /** A freshly created record heads the first page of the listing. */
  lemma CreatedRecordHeadsFirstPage(st: Store, req: CreateRequest, caller: UserId, upload: UploadResult, save: SaveResult)
    requires Create(st, req, caller, upload, save).response.Created?
    ensures var c := Create(st, req, caller, upload, save);
      var l := List(c.store, None, None);
      |l.response.barbers| >= 1 && l.response.barbers[0] == c.response.record
  {
  }

  /** Every record a page shows is in the collection. */
  lemma PageShowsStoredRecords(st: Store, p: int, l: int)
    requires p >= 1 && l >= 1
    ensures forall b :: b in ListPage(st, p, l).barbers ==> b in st.records
  {
    var recs := st.records;
    var pg := ListPage(st, p, l).barbers;
    forall b | b in pg
      ensures b in recs
    {
      var i :| 0 <= i < |pg| && pg[i] == b;
      assert recs[|recs| - 1 - Skip(p, l) - i] == b;
    }
  }

  /** After a delete, neither listing shows the id. */
  lemma DeletedRecordLeavesListings(st: Store, id: BarberId, caller: UserId, destroy: DestroyResult,
                                    other: UserId, page: Option<int>, limit: Option<int>)
    requires Valid(st)
    requires page.Some? ==> page.value >= 1
    requires limit.Some? ==> limit.value >= 1
    ensures var d := Delete(st, id, caller, destroy);
      && (forall b :: b in List(d.store, page, limit).response.barbers ==> b.id != id)
      && (forall b :: b in ListMine(d.store, other).response ==> b.id != id)
  {
    var d := Delete(st, id, caller, destroy);
    assert !HasId(d.store.records, id);
    var p := if page.Some? then page.value else 1;
    var lim := if limit.Some? then limit.value else 5;
    PageShowsStoredRecords(d.store, p, lim);
    forall b | b in d.store.records
      ensures b.id != id
    {
      var k :| 0 <= k < |d.store.records| && d.store.records[k] == b;
    }
  }

  // ---------------------------------------------------------------------------
  // The ownership check placed before the removal.

  /** A non-owner's delete answers 401 and still removes the record: the
      collection loses it even though the request was refused. */
  lemma NonOwnerDeleteLosesRecord(st: Store, id: BarberId, caller: UserId, destroy: DestroyResult)
    requires Valid(st)
    requires HasId(st.records, id)
    requires st.records[FindIndex(st.records, id).value].owner != caller
    ensures var d := Delete(st, id, caller, destroy);
      && d.response.Status() == 401
      && |d.store.records| == |st.records| - 1
      && !HasId(d.store.records, id)
  {
  }

  /** Delete with the ownership check done first: a record is removed only at
      its owner's request. */
  function DeleteOwnerFirst(st: Store, id: BarberId, caller: UserId, destroy: DestroyResult)
    : (out: Outcome<DeleteResponse>)
    ensures out.response.Status() == 404 <==> !HasId(st.records, id)
    ensures out.response.Status() == 401 <==>
      HasId(st.records, id) && st.records[FindIndex(st.records, id).value].owner != caller
    // A refused request changes nothing.
    ensures out.response.Status() != 200 ==> out.store == st && out.calls == []
    ensures out.response.Status() == 200 ==>
      var k := FindIndex(st.records, id).value;
      && out.store == st.(records := RemoveAt(st.records, k))
      && out.calls == ImageCleanup(st.records[k].image)
    ensures Valid(st) ==> Valid(out.store)
  {
    match FindIndex(st.records, id)
    case None => Outcome(NotFound, st, [])
    case Some(k) =>
      var b := st.records[k];
      RemoveAtValid(st, k);
      if b.owner != caller then Outcome(NotOwner, st, [])
      else
        var calls := ImageCleanup(b.image);
        match destroy
        case Destroyed => Outcome(Deleted, st.(records := RemoveAt(st.records, k)), calls)
        case DestroyFailed => Outcome(Deleted, st.(records := RemoveAt(st.records, k)), calls)
  }

  /** The two orders agree on every request except a non-owner's delete of an
      existing record, where only the collection left behind differs. */
  lemma DeleteOrdersAgree(st: Store, id: BarberId, caller: UserId, destroy: DestroyResult)
    ensures var a := Delete(st, id, caller, destroy);
      var c := DeleteOwnerFirst(st, id, caller, destroy);
      && a.response == c.response
      && a.calls == c.calls
      && (a.response.Status() != 401 ==> a.store == c.store)
  {
  }

  // ---------------------------------------------------------------------------
  // The create / list / delete walk-through: one user creates a record, a
  // second tries to delete it, then the owner does.

  const Owner: UserId := 1
  const Stranger: UserId := 2
  const FadeRequest := CreateRequest(Str("Fade"), Str("Clean cut"), Num(5), Str("data:image/png;base64,AAAA"))
  const FadeUrl := "https://res.cloudinary.com/demo/image/upload/fade.png"
  const FadeRecord := Barber(0, Str("Fade"), Str("Clean cut"), Num(5), FadeUrl, Owner, 0)

  /** The walk-through's first step on an empty collection: 201, and the
      collection holds just the new record. */
  lemma FadeCreated()
    ensures var c := Create(Store([], 0), FadeRequest, Owner, Uploaded(FadeUrl), Saved);
      c.response == Created(FadeRecord) && c.store == Store([FadeRecord], 1)
  {
    assert !Falsy(FadeRequest.title) && !Falsy(FadeRequest.caption);
    assert !Falsy(FadeRequest.rating) && !Falsy(FadeRequest.image);
  }

  /** As the handler is written: the stranger's 401 has already removed the
      record, so the owner's own delete then finds nothing. */
  lemma WalkThroughAsWritten()
    ensures var c := Create(Store([], 0), FadeRequest, Owner, Uploaded(FadeUrl), Saved);
      var b := c.response.record;
      var l := List(c.store, None, None);
      var d1 := Delete(c.store, b.id, Stranger, Destroyed);
      var d2 := Delete(d1.store, b.id, Owner, Destroyed);
      && c.response.Status() == 201 && b.owner == Owner
      && b in l.response.barbers
      && d1.response.Status() == 401 && d1.store.records == []
      && d2.response.Status() == 404
  {
    var c := Create(Store([], 0), FadeRequest, Owner, Uploaded(FadeUrl), Saved);
    var b := c.response.record;
    FadeCreated();
    assert b == FadeRecord && c.store.records == [b];
    var l := ListPage(c.store, 1, 5).barbers;
    assert Skip(1, 5) == 0;
    assert |l| == 1 && l[0] == b;
    assert List(c.store, None, None).response.barbers == l;
    assert FindIndex(c.store.records, b.id) == Some(0);
    var d1 := Delete(c.store, b.id, Stranger, Destroyed);
    assert d1.response == NotOwner;
    assert d1.store.records == [];
    assert FindIndex(d1.store.records, b.id) == None;
  }

  /** With the ownership check first the walk-through goes as intended: the
      stranger's 401 leaves the record, the owner's delete succeeds, and the
      listing no longer shows it. */
  lemma WalkThroughOwnerFirst()
    ensures var c := Create(Store([], 0), FadeRequest, Owner, Uploaded(FadeUrl), Saved);
      var b := c.response.record;
      var d1 := DeleteOwnerFirst(c.store, b.id, Stranger, Destroyed);
      var d2 := DeleteOwnerFirst(d1.store, b.id, Owner, Destroyed);
      && d1.response.Status() == 401 && d1.store == c.store
      && d2.response.Status() == 200
      && List(d2.store, None, None).response.barbers == []
  {
    var c := Create(Store([], 0), FadeRequest, Owner, Uploaded(FadeUrl), Saved);
    var b := c.response.record;
    FadeCreated();
    assert b == FadeRecord && c.store.records == [b];
    assert FindIndex(c.store.records, b.id) == Some(0);
    var d1 := DeleteOwnerFirst(c.store, b.id, Stranger, Destroyed);
    assert d1.response == NotOwner && d1.store == c.store;
    var d2 := DeleteOwnerFirst(d1.store, b.id, Owner, Destroyed);
    assert d2.response == Deleted;
    assert d2.store.records == [];
    assert |ListPage(d2.store, 1, 5).barbers| == 0;
  }
}
