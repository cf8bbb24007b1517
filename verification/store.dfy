/**
 The barber collection as the handlers see it: a sequence of records in
 insertion order, which is also creation order, and the queries the handlers
 run against it (newest-first ordering, lookup and removal by id, filtering by
 owner).
 */
module Store {
  import opened JsValue
  import opened Options

  type UserId = nat
  type BarberId = nat

  /** One barber record. The body fields are kept as the request sent them;
      `image` is the hosted URL returned by the media host. */
  datatype Barber = Barber(
    id: BarberId,
    title: Value,
    caption: Value,
    rating: Value,
    image: string,
    owner: UserId,
    createdAt: nat
  )

  /** The collection, oldest first. `next` stands for both the database's
      fresh-id generator and the creation clock: each insert takes it as the
      new record's id and creation time and then advances it. */
  datatype Store = Store(records: seq<Barber>, next: nat)

  /** The modelling assumption about the collection: creation times strictly
      increase along the sequence (no two records share a `createdAt`), ids
      are distinct, and both lie below the counter, so the next insert is
      fresh and newest. The real timestamp has millisecond resolution and can
      tie; this model does not cover ties. */
  ghost predicate Valid(st: Store) {
    && (forall i, j :: 0 <= i < j < |st.records| ==>
          st.records[i].createdAt < st.records[j].createdAt)
    && (forall i, j :: 0 <= i < j < |st.records| ==>
          st.records[i].id != st.records[j].id)
    && (forall i :: 0 <= i < |st.records| ==>
          st.records[i].id < st.next && st.records[i].createdAt < st.next)
  }

  /** Ordered as `.sort({ createdAt: -1 })` returns them: each record strictly
      newer than every later one. */
  ghost predicate NewestFirstOrdered(xs: seq<Barber>) {
    forall i, j :: 0 <= i < j < |xs| ==> xs[i].createdAt > xs[j].createdAt
  }

  /** The records newest first: the reverse of insertion order. */
  function NewestFirst(recs: seq<Barber>): (r: seq<Barber>)
    ensures |r| == |recs|
    ensures forall k :: 0 <= k < |r| ==> r[k] == recs[|recs| - 1 - k]
    ensures forall b :: b in r <==> b in recs
  {
    if recs == [] then [] else NewestFirst(recs[1..]) + [recs[0]]
  }

  /** In a valid store the reverse of insertion order is the descending
      `createdAt` order the database sort produces. */
  lemma NewestFirstIsSorted(st: Store)
    ensures Valid(st) ==> NewestFirstOrdered(NewestFirst(st.records))
  {
  }

  /** There is a record with this id. */
  predicate HasId(recs: seq<Barber>, id: BarberId) {
    exists k :: 0 <= k < |recs| && recs[k].id == id
  }

  /** `findById`: the position of the first record with this id. */
  function FindIndex(recs: seq<Barber>, id: BarberId): (r: Option<nat>)
    ensures r.None? <==> !HasId(recs, id)
    ensures r.Some? ==> r.value < |recs| && recs[r.value].id == id
    ensures r.Some? ==> forall k :: 0 <= k < r.value ==> recs[k].id != id
  {
    if recs == [] then None
    else if recs[0].id == id then Some(0)
    else
      match FindIndex(recs[1..], id)
      case None => None
      case Some(k) => Some(k + 1)
  }

  /** The collection without the record at position `k`. */
  function RemoveAt(recs: seq<Barber>, k: nat): (r: seq<Barber>)
    requires k < |recs|
    ensures |r| == |recs| - 1
    ensures forall i :: 0 <= i < k ==> r[i] == recs[i]
    ensures forall i :: k <= i < |r| ==> r[i] == recs[i + 1]
  {
    recs[..k] + recs[k + 1..]
  }

  /** Removing a record keeps the store valid, and in a valid store the
      removed id is then gone. */
  lemma RemoveAtValid(st: Store, k: nat)
    requires k < |st.records|
    ensures Valid(st) ==> Valid(st.(records := RemoveAt(st.records, k)))
    ensures Valid(st) ==> !HasId(RemoveAt(st.records, k), st.records[k].id)
  {
    if !Valid(st) { return; }
    var r := RemoveAt(st.records, k);
    forall i, j | 0 <= i < j < |r|
      ensures r[i].createdAt < r[j].createdAt && r[i].id != r[j].id
    {
      var i' := if i < k then i else i + 1;
      var j' := if j < k then j else j + 1;
      assert r[i] == st.records[i'] && r[j] == st.records[j'];
    }
    forall i | 0 <= i < |r|
      ensures r[i].id != st.records[k].id
    {
      var i' := if i < k then i else i + 1;
      assert r[i] == st.records[i'];
    }
  }

  /** The records owned by `u`, in the order given: `find({ user: u })`. */
  function OwnedBy(xs: seq<Barber>, u: UserId): (r: seq<Barber>)
    ensures forall b :: b in r <==> b in xs && b.owner == u
    ensures |r| <= |xs|
    ensures NewestFirstOrdered(xs) ==> NewestFirstOrdered(r)
  {
    if xs == [] then []
    else if xs[0].owner == u then [xs[0]] + OwnedBy(xs[1..], u)
    else OwnedBy(xs[1..], u)
  }

  /** Two newest-first sequences with the same members are the same sequence:
      the owner filter's membership and order pin its result down. */
  lemma {:induction false} OrderedDeterminedByMembers(xs: seq<Barber>, ys: seq<Barber>)
    requires NewestFirstOrdered(xs) && NewestFirstOrdered(ys)
    requires forall b :: b in xs <==> b in ys
    ensures xs == ys
  {
    if xs != [] { assert xs[0] in ys; }
    if ys != [] { assert ys[0] in xs; }
    if xs != [] {
      // The head of each is the newest member, so the heads agree.
      var x, y := xs[0], ys[0];
      var j :| 0 <= j < |ys| && ys[j] == x;
      assert y.createdAt >= x.createdAt;
      var i :| 0 <= i < |xs| && xs[i] == y;
      assert x.createdAt >= y.createdAt;
      assert i == 0;
      forall b
        ensures b in xs[1..] <==> b in ys[1..]
      {
        if b in xs[1..] {
          var i :| 1 <= i < |xs| && xs[i] == b;
          assert b.createdAt < x.createdAt && b in ys;
          assert ys == [y] + ys[1..];
        }
        if b in ys[1..] {
          var j :| 1 <= j < |ys| && ys[j] == b;
          assert b.createdAt < y.createdAt && b in xs;
          assert xs == [x] + xs[1..];
        }
      }
      OrderedDeterminedByMembers(xs[1..], ys[1..]);
      assert xs == [x] + xs[1..] && ys == [y] + ys[1..];
    }
  }
}
