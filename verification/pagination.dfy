/**
 The paginated listing's arithmetic: default page and limit, the skip offset,
 the page slice the database returns after `skip(...).limit(...)`, and the
 page count `Math.ceil(total / limit)`.
 */
module Pagination {
  import opened Options

  /** Page used when the query has none. */
  const DefaultPage: int := 1
  /** Page size used when the query has none. */
  const DefaultLimit: int := 5

  function Min(a: int, b: int): int { if a <= b then a else b }
  function Max(a: int, b: int): int { if a >= b then a else b }

  /** `req.query.x || d` for a parameter that is either absent or a number. */
  function OrDefault(q: Option<int>, d: int): (r: int)
    ensures q.None? ==> r == d
    ensures q.Some? ==> r == q.value
    ensures d >= 1 && (q.Some? ==> q.value >= 1) ==> r >= 1
  {
    match q
    case None => d
    case Some(v) => v
  }

  /** How many records the pages before `page` hold. */
  function Skip(page: int, limit: int): (r: nat)
    requires page >= 1 && limit >= 1
    // The first page skips nothing, and each page starts where the one
    // before it ends.
    ensures page == 1 ==> r == 0
    ensures r + limit == page * limit
  {
    MulMonotone(page - 1, 0, limit);
    (page - 1) * limit
  }

  /** `Math.ceil(n / d)`: the fewest pages of `d` records that hold `n`. */
  function CeilDiv(n: nat, d: int): (r: nat)
    requires d >= 1
    ensures n <= r * d
    ensures (r - 1) * d < n || (n == 0 && r == 0)
  {
    if n % d == 0 then n / d else n / d + 1
  }

  /** What `skip(skip).limit(limit)` leaves of an ordered result. */
  function Page<T>(xs: seq<T>, skip: nat, limit: int): (r: seq<T>)
    requires limit >= 1
    ensures |r| == Min(limit, Max(0, |xs| - skip))
    ensures forall i :: 0 <= i < |r| ==> r[i] == xs[skip + i]
  {
    if skip >= |xs| then [] else xs[skip..Min(skip + limit, |xs|)]
  }

  /** Pages 1 to `k` fetched one after another and laid end to end, as an
      infinitely scrolling client would see them on a collection that does
      not change between its requests. */
  function Pages<T>(xs: seq<T>, limit: int, k: nat): seq<T>
    requires limit >= 1
  {
    if k == 0 then [] else Pages(xs, limit, k - 1) + Page(xs, Skip(k, limit), limit)
  }

  /** The first `k` pages are exactly the first `k * limit` records (or all of
      them): no record is skipped or repeated between pages. */
  lemma {:induction false} PagesArePrefix<T>(xs: seq<T>, limit: int, k: nat)
    requires limit >= 1
    ensures Pages(xs, limit, k) == xs[..Min(k * limit, |xs|)]
  {
    if k > 0 {
      PagesArePrefix(xs, limit, k - 1);
      var s := Skip(k, limit);
      var e := k * limit;
      assert s == (k - 1) * limit;
      assert s + limit == e;
      var p := Page(xs, s, limit);
      assert Pages(xs, limit, k) == xs[..Min(s, |xs|)] + p;
      if s < |xs| {
        assert xs[..Min(e, |xs|)] == xs[..s] + p;
      } else {
        assert Min(e, |xs|) == |xs| == Min(s, |xs|);
      }
    }
  }

  /** Walking pages 1 to `Math.ceil(n / limit)` over a collection that does
      not change between requests yields every record once, in order. */
  lemma AllPagesCoverAll<T>(xs: seq<T>, limit: int)
    requires limit >= 1
    ensures Pages(xs, limit, CeilDiv(|xs|, limit)) == xs
  {
    var n := CeilDiv(|xs|, limit);
    PagesArePrefix(xs, limit, n);
    assert Min(n * limit, |xs|) == |xs|;
    assert xs[..|xs|] == xs;
  }

  /** Exactly pages 1 to `Math.ceil(n / limit)` hold records. */
  lemma NonEmptyPagesAreCounted<T>(xs: seq<T>, limit: int)
    requires limit >= 1
    ensures forall p: nat :: 1 <= p ==>
      (Page(xs, Skip(p, limit), limit) != [] <==> p <= CeilDiv(|xs|, limit))
  {
    forall p: nat | 1 <= p
      ensures Page(xs, Skip(p, limit), limit) != [] <==> p <= CeilDiv(|xs|, limit)
    {
      if p <= CeilDiv(|xs|, limit) {
        SkipWithinPages(xs, limit, p);
      } else {
        SkipPastLastPage(xs, limit, p);
      }
    }
  }

  /** A page after the last one is empty. */
  lemma SkipPastLastPage<T>(xs: seq<T>, limit: int, p: nat)
    requires limit >= 1 && p > CeilDiv(|xs|, limit)
    ensures Page(xs, Skip(p, limit), limit) == []
  {
    var n := CeilDiv(|xs|, limit);
    assert (p - 1) * limit >= n * limit by {
      MulMonotone(p - 1, n, limit);
    }
  }

  /** Pages 1 to the page count are each non-empty. */
  lemma SkipWithinPages<T>(xs: seq<T>, limit: int, p: nat)
    requires limit >= 1 && 1 <= p <= CeilDiv(|xs|, limit)
    ensures Page(xs, Skip(p, limit), limit) != []
  {
    var n := CeilDiv(|xs|, limit);
    assert (p - 1) * limit <= (n - 1) * limit by {
      MulMonotone(n - 1, p - 1, limit);
    }
  }

  lemma MulMonotone(a: int, b: int, c: int)
    requires a >= b && c >= 0
    ensures a * c >= b * c
  {
  }
}
