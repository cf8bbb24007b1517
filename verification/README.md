# Barber showcase backend: the barber resource handler in Dafny

The backend stores "barber" records (title, caption, rating, image) that users
post, list and delete. The only part with decisions in it is the barber route
handler `src/routes/barberRoutes.js`. It has four handlers:

- **create** (`POST /`): validates the body, uploads the image to the media
  host (Cloudinary) and saves a record owned by the caller;
- **list** (`GET /`): returns a page of every user's records, newest first,
  with the total count and the number of pages;
- **own list** (`GET /user`): returns all of the caller's records, newest first;
- **delete** (`DELETE /:id`): removes a record, checks ownership, and
  best-effort destroys the hosted image.

Each handler is modelled as a pure function. It takes the collection and the
request and returns an `Outcome`: the response, the collection afterwards,
and the media-host calls the handler made. The collaborators' answers come in
as parameters:

- the upload answers with a URL or fails;
- the save succeeds or fails;
- the destroy succeeds or fails, and its answer is ignored.

The caller's id is the one the authentication middleware resolved.

Files:

- `js_value.dfy`: module `JsValue` holds JSON field values and JavaScript
  truthiness (`!x`).
- `options.dfy`: module `Options` holds `Option`.
- `strings.dfy`: module `Strings` holds `split` with a one-character
  separator, `join`, and `includes`. Each is proved against an independent
  description: the split/join round trip in both directions, and "occurs at
  some offset".
- `store.dfy`: module `Store` holds the record datatype and the collection,
  kept oldest first. It also holds the collection invariant, the newest-first
  order, lookup and removal by id, and the owner filter.
- `pagination.dfy`: module `Pagination` holds the default page and limit, the
  skip offset, the page slice, and `Math.ceil(total / limit)`. It proves that
  walking pages 1 to the page count returns every record exactly once, on a
  collection that does not change between the page requests.
- `barber_routes.dfy`: module `BarberRoutes` holds the four handlers,
  public-id extraction, the lemmas that connect the handlers, and the
  delete-order finding.

The database's fresh-id generator and the `createdAt` clock are modelled as a
single counter, `Store.next`. Each insert uses the counter as both the new id
and the new creation time, so ids are fresh and creation times strictly
increase. This is a modelling assumption, not something the database
guarantees. Under the invariant `Store.Valid`, the descending `createdAt` sort
is therefore the reverse of insertion order, and `sort` never sees a tie.

Where the handler's comments or the names of its checks suggest one thing and
its behaviour does another, the model follows the behaviour:

- The code tests each create field for *falsiness*, not absence. A rating of
  `0`, an empty string, `false` or `NaN` is rejected with 400 like a missing
  field.
- The comment at line 82 and the 401 message at line 84 present the ownership
  test as a guard on the delete. The code calls `findByIdAndDelete` *before*
  that test, so the record is gone when the 401 is sent.
  `BarberRoutes.Delete` models this. See Findings.

## Model

| member | source | states |
|---|---|---|
| `Strings.Split` | src/routes/barberRoutes.js:89 | `split` with a one-character separator never returns an empty array, and no part contains the separator |
| `Strings.JoinSplit` | src/routes/barberRoutes.js:89 | joining the parts of a split with the separator gives back the original string |
| `Strings.SplitJoin` | src/routes/barberRoutes.js:89 | splitting separator-free parts joined by the separator gives back the parts (the other direction of the round trip) |
| `Strings.SplitEnds` | src/routes/barberRoutes.js:89 | the first part of a split is a prefix of the string, and the last part (`pop()`) is a suffix |
| `Strings.FirstPartStops` | src/routes/barberRoutes.js:89 | `split(".")[0]` ends at the first `.`, or is the whole string |
| `Strings.LastPartStarts` | src/routes/barberRoutes.js:89 | `split("/").pop()` starts just after the last `/`, or is the whole string |
| `Strings.SplitNoSeparator` | src/routes/barberRoutes.js:89 | a string without the separator splits into exactly one part |
| `Strings.Includes` | src/routes/barberRoutes.js:87 | `includes` is true exactly when the pattern occurs at some offset |
| `Strings.OccursShift` | src/routes/barberRoutes.js:87 | an occurrence past offset 0 is an occurrence in the string without its first character, one place earlier, and back |
| `Strings.Last` | src/routes/barberRoutes.js:89 | `pop()` gives the final element: the array is the rest followed by it |
| `JsValue.Falsy` | src/routes/barberRoutes.js:11 | `!x` holds exactly for undefined, null, `false`, `0`, `NaN` and the empty string |
| `Pagination.OrDefault` | src/routes/barberRoutes.js:39-40 | the query default: an absent parameter takes the default and a present one is kept, so a positive default and a positive parameter give a positive result |
| `Pagination.Skip` | src/routes/barberRoutes.js:41 | page 1 skips nothing, and each page's skip plus the limit is where the next page starts (`page * limit`) |
| `Store.NewestFirst` | src/routes/barberRoutes.js:44 | the newest-first order is a reordering of the collection: the k-th record is the k-th from the end of insertion order, with the same members |
| `Store.NewestFirstIsSorted` | src/routes/barberRoutes.js:44 | in a valid collection, that order has strictly descending `createdAt`, which is what `sort({ createdAt: -1 })` returns |
| `Store.FindIndex` | src/routes/barberRoutes.js:78 | the lookup finds nothing exactly when no record has the id; otherwise it returns the first position holding that id |
| `Store.RemoveAt` | src/routes/barberRoutes.js:78 | removal drops exactly one record and keeps the others in order |
| `Store.RemoveAtValid` | src/routes/barberRoutes.js:78 | removing a record keeps the collection valid, and the removed id no longer occurs |
| `Store.OwnedBy` | src/routes/barberRoutes.js:66 | the owner filter keeps exactly the records with that owner and preserves newest-first order |
| `Store.OrderedDeterminedByMembers` | src/routes/barberRoutes.js:66-68 | two newest-first sequences with the same members are equal |
| `Pagination.CeilDiv` | src/routes/barberRoutes.js:55 | the page count is the ceiling of total / limit: `(pages-1)*limit < total <= pages*limit`, and 0 pages for 0 records |
| `Pagination.Page` | src/routes/barberRoutes.js:45-46 | `skip(s).limit(l)` returns `min(l, max(0, n-s))` records, and the i-th is the (s+i)-th of the ordered input |
| `Pagination.PagesArePrefix` | src/routes/barberRoutes.js:41-46 | pages 1..k laid end to end are exactly the first `min(k*limit, n)` records, with no gap and no repeat |
| `Pagination.AllPagesCoverAll` | src/routes/barberRoutes.js:41-55 | walking pages 1 to `totalPages` returns the whole ordered collection |
| `Pagination.NonEmptyPagesAreCounted` | src/routes/barberRoutes.js:41-55 | a page p >= 1 holds records exactly when `p <= totalPages` |
| `Pagination.SkipPastLastPage` | src/routes/barberRoutes.js:41-55 | a page after `totalPages` is empty |
| `Pagination.SkipWithinPages` | src/routes/barberRoutes.js:41-55 | pages 1 to `totalPages` are non-empty |
| `BarberRoutes.Create` | src/routes/barberRoutes.js:10-29 | 400 exactly when title, caption, rating or image is falsy, with no upload and no change. Otherwise the submitted image is uploaded once. 201 exactly when upload and save both succeed: one record is appended, owned by the caller, carrying the body's fields and the hosted URL (not the submitted image), with a fresh id and the newest `createdAt`. A 500 leaves the collection as it was. Validity is preserved |
| `BarberRoutes.ListPage` | src/routes/barberRoutes.js:41-55 | `currentPage` is the page. `totalBarbers` counts every record, whoever owns it. `totalPages` is the ceiling of total / limit. The page has `min(limit, max(0, n - skip))` records, with skip = (page-1)*limit, and the i-th is the (n-1-skip-i)-th inserted, so the page is newest first |
| `BarberRoutes.List` | src/routes/barberRoutes.js:39-56 | an absent page is 1 and an absent limit is 5, and the response is that page. No change, no media calls |
| `BarberRoutes.PageShowsStoredRecords` | src/routes/barberRoutes.js:43-47 | every record a page shows is in the collection |
| `BarberRoutes.PageOfNewestFirst` | src/routes/barberRoutes.js:43-46 | a page of the newest-first order, read back as insertion positions, is newest first itself |
| `BarberRoutes.ListMine` | src/routes/barberRoutes.js:66-69 | exactly the caller's records, newest first, no pagination, no change, no media calls |
| `BarberRoutes.ListMineIsUnique` | src/routes/barberRoutes.js:66-69 | any newest-first sequence of exactly the caller's records is the own-list response |
| `BarberRoutes.PublicId` | src/routes/barberRoutes.js:89 | the public id contains neither `/` nor `.` and is a prefix of the URL's last `/`-segment |
| `BarberRoutes.PublicIdShape` | src/routes/barberRoutes.js:89 | the public id is the text after the URL's last `/` and before the first `.` after that. It contains neither character |
| `BarberRoutes.ImageCleanup` | src/routes/barberRoutes.js:87-94 | destroy is requested exactly when the image URL contains "cloudinary", once, with the URL's public id |
| `BarberRoutes.Delete` | src/routes/barberRoutes.js:78-97 | 404 exactly when no record has the id, with no change. Otherwise that record is removed whoever asks, and nothing else changes. The response is 401 exactly when the caller is not the owner, with no media call. On 200, the image clean-up is requested. Validity is kept, and the id is gone |
| `BarberRoutes.DestroyFailureIsHarmless` | src/routes/barberRoutes.js:88-93 | a failed destroy gives the same response, collection and calls as a successful one |
| `BarberRoutes.CreateThenDeleteRestores` | src/routes/barberRoutes.js:78-97 | a record created and then deleted by its owner leaves the original records, answers 200, and asks for the uploaded image to be destroyed |
| `BarberRoutes.CreatedRecordHeadsFirstPage` | src/routes/barberRoutes.js:43-47 | a just-created record is first on the default first page |
| `BarberRoutes.DeletedRecordLeavesListings` | src/routes/barberRoutes.js:78-84 | after a delete, no page of the list and no own-list shows the id |
| `BarberRoutes.NonOwnerDeleteLosesRecord` | src/routes/barberRoutes.js:78-84 | a non-owner's delete of an existing record answers 401, yet the collection shrinks by one and the id is gone |
| `BarberRoutes.DeleteOwnerFirst` | src/routes/barberRoutes.js:82-84 | with the ownership check first, 401 is answered exactly for an existing record owned by someone else, and any refusal leaves the collection unchanged |
| `BarberRoutes.DeleteOrdersAgree` | src/routes/barberRoutes.js:78-84 | both orders give the same response and calls everywhere. Their collections differ only on a 401 |
| `BarberRoutes.FadeCreated` | src/routes/barberRoutes.js:8-29 | a valid create on an empty collection answers 201 with the new record, and the collection then holds just that record |
| `BarberRoutes.WalkThroughAsWritten` | src/routes/barberRoutes.js:76-97 | create by user 1 gives 201 and the record is listed. A delete by user 2 gives 401 and empties the collection, so user 1's delete then gives 404 |
| `BarberRoutes.WalkThroughOwnerFirst` | src/routes/barberRoutes.js:76-97 | with the check first, user 2's delete gives 401 and keeps the record. User 1's delete gives 200, and the list is then empty |

## Left out

- `src/index.js`, the server bootstrap, is not part of this model. It only covers environment loading, the port, JSON body parsing, route mounting and the database connection.
- The authentication middleware is not part of this model. The caller id is a trusted input.
- The `populate("user", "username profileImage")` join is a read-time projection done by the database library. Owners stay plain ids.
- Response message texts and logging are left out, including the misleading "Token is not valid" text on create's 500.
- The 500 paths of list, own list and delete are left out. They are database failures caught by the handlers. Create's 500 is modelled, as an upload or save failure.
- Query-string coercion is left out. `page` and `limit` are absent or a number. `BarberRoutes.List` requires both to be at least 1: with page <= 0 the skip goes negative, and with limit 0 the page count is `Infinity`. `currentPage` is returned as the number, where the code echoes the raw query string.
- Malformed `:id` values are left out. The database rejects them with a cast error, which the code turns into a 500. Ids are naturals here.
- The `barber.deleteOne()` at line 95 is left out. It acts on a document that is already removed and changes nothing in the collection.
- Schema casting and validation of the saved fields are left out, because the record schema is not part of this model. They are folded into the `SaveFailed` outcome.
- Numbers are integers. Fractional and floating-point ratings are not modelled; `NaN` is kept because it is falsy.
- The image orphaned on the media host when the save fails after a successful upload is not modelled. The media host's storage is not part of the state.
- Concurrency is left out: the page query and `countDocuments` run as two separate database reads.
- Ties in `createdAt` are left out. The real timestamp has millisecond resolution, so two creates in the same millisecond tie, and the database returns tied records in no fixed order. Then `sort().skip().limit()` can repeat or skip a tied record across pages. `Store.Valid` assumes strictly increasing creation times instead.
- Changes between page requests are left out. A create or delete between two page requests shifts the newest-first order by one, so a client walking the pages sees a record twice or misses one. `Pagination.AllPagesCoverAll` and `Pagination.PagesArePrefix` hold for a collection that does not change while the pages are fetched.

## Findings

| source | as written | input that shows it | evidently intended | confidence | as-written member | corrected member |
|---|---|---|---|---|---|---|
| src/routes/barberRoutes.js:78-84 | `findByIdAndDelete` removes the record before the ownership check, so a refused (401) delete still deletes it | `DELETE /:id` of an existing record by a user who is not its owner | the 401 leaves the record in place and only its owner can remove it (the comment at line 82, "check if user is the creator", and the 401 message at line 84, "You can't delete this barber", say so) | high; not executed | `BarberRoutes.NonOwnerDeleteLosesRecord` | `BarberRoutes.DeleteOwnerFirst` |

`BarberRoutes.Delete` stays as written, because it is the model of the
handler. `BarberRoutes.DeleteOwnerFirst` is the corrected definition.
`BarberRoutes.DeleteOrdersAgree` proves that the two differ only in the
collection left behind by a non-owner's delete. The create / list / delete
walk-through is proved against both:

- `BarberRoutes.WalkThroughAsWritten`: the owner's own delete then finds
  nothing.
- `BarberRoutes.WalkThroughOwnerFirst`: the walk-through goes as intended.
