/**
 * The completion-order bookkeeping of the page scraper, independent of
 * what a page holds: the pages `range(1, n + 1)`, the orders in which
 * `as_completed` can yield them, and the data accumulated page by page in
 * such an order.
 */
module Gathering {

  /** `range(1, n + 1)`. */
  function PagesUpTo(n: nat): (ps: seq<nat>)
    ensures |ps| == n
  {
    if n == 0 then [] else PagesUpTo(n - 1) + [n]
  }

  /** The `i`-th page of `range(1, n + 1)` is page `i + 1`. */
  lemma {:induction false} PagesUpToAt(n: nat, i: nat)
    requires i < n
    ensures PagesUpTo(n)[i] == i + 1
  {
    if i < n - 1 {
      PagesUpToAt(n - 1, i);
      assert PagesUpTo(n)[i] == PagesUpTo(n - 1)[i];
    }
  }

  /** Pages 1 to `n` each occur once in `range(1, n + 1)`, and nothing else does. */
  lemma {:induction false} PagesOnce(n: nat, p: nat)
    ensures multiset(PagesUpTo(n))[p] == if 1 <= p <= n then 1 else 0
  {
    if n > 0 {
      var init := PagesUpTo(n - 1);
      PagesOnce(n - 1, p);
      assert PagesUpTo(n) == init + [n];
      assert multiset(PagesUpTo(n))[p] == multiset(PagesUpTo(n - 1))[p] + (if p == n then 1 else 0) by {
        assert multiset(init + [n]) == multiset(init) + multiset{n};
      }
    }
  }

  /** `as_completed` yields each of pages 1 to `total` once, in some order. */
  predicate IsPageOrder(order: seq<nat>, total: nat)
  {
    |order| == total && multiset(order) == multiset(PagesUpTo(total))
  }

  /** In a completion order every page of 1 to `total` stands exactly once. */
  lemma PageOrderOnce(order: seq<nat>, total: nat, p: nat)
    requires IsPageOrder(order, total)
    ensures |order| == total
    ensures multiset(order)[p] == if 1 <= p <= total then 1 else 0
    ensures p in order <==> 1 <= p <= total
  {
    PagesOnce(total, p);
  }

  /** The data of page `page`; a page outside 1 to `|pages|` is never requested and contributes nothing. */
  function PageOf<T>(pages: seq<seq<T>>, page: nat): seq<T>
  {
    if 1 <= page <= |pages| then pages[page - 1] else []
  }

  /** The data of the pages in `order`, concatenated: `all_publications_data`. */
  function Gathered<T>(order: seq<nat>, pages: seq<seq<T>>): seq<T>
  {
    if order == [] then []
    else Gathered(order[..|order| - 1], pages) + PageOf(pages, order[|order| - 1])
  }

  /** One more finished page extends the accumulated data by that page's. */
  lemma GatheredStep<T>(order: seq<nat>, pages: seq<seq<T>>, i: nat)
    requires i < |order|
    ensures Gathered(order[..i + 1], pages) == Gathered(order[..i], pages) + PageOf(pages, order[i])
  {
    assert order[..i + 1][..i] == order[..i];
  }

  /** `GatheredStep`, with the finished page's data named by the caller. */
  lemma GatheredNext<T>(order: seq<nat>, pages: seq<seq<T>>, i: nat, data: seq<T>)
    requires i < |order| && data == PageOf(pages, order[i])
    ensures Gathered(order[..i], pages) + data == Gathered(order[..i + 1], pages)
  {
    GatheredStep(order, pages, i);
  }

  lemma {:induction false} GatheredAppend<T>(a: seq<nat>, b: seq<nat>, pages: seq<seq<T>>)
    ensures Gathered(a + b, pages) == Gathered(a, pages) + Gathered(b, pages)
    decreases |b|
  {
    if b != [] {
      var b' := b[..|b| - 1];
      assert (a + b)[..|a + b| - 1] == a + b';
      GatheredAppend(a, b', pages);
    } else {
      assert a + b == a;
    }
  }

  /** A single finished page contributes exactly its own data. */
  lemma GatheredOne<T>(x: nat, pages: seq<seq<T>>)
    ensures Gathered([x], pages) == PageOf(pages, x)
  {
    assert [x][..0] == [];
  }

  /** Gathering an order is gathering it without its `k`-th page, plus that page's data. */
  lemma GatheredAround<T>(o: seq<nat>, k: nat, pages: seq<seq<T>>)
    requires k < |o|
    ensures multiset(Gathered(o, pages))
            == multiset(Gathered(o[..k] + o[k + 1..], pages)) + multiset(PageOf(pages, o[k]))
  {
    var left, x, right := o[..k], o[k], o[k + 1..];
    assert o == left + [x] + right;
    GatheredOne(x, pages);
    GatheredAppend(left, right, pages);
    GatheredAppend(left, [x], pages);
    GatheredAppend(left + [x], right, pages);
  }

  /** A page that stands in an order stands at some position of it. */
  lemma PositionOf(o: seq<nat>, x: nat) returns (k: nat)
    requires x in multiset(o)
    ensures k < |o| && o[k] == x
  {
    k :| 0 <= k < |o| && o[k] == x;
  }

  /** Taking the same element out of two permutations of each other leaves two permutations. */
  lemma RemoveOne(init: seq<nat>, x: nat, o2: seq<nat>, k: nat)
    requires multiset(init + [x]) == multiset(o2)
    requires k < |o2| && o2[k] == x
    ensures multiset(init) == multiset(o2[..k] + o2[k + 1..])
  {
    var left, right := o2[..k], o2[k + 1..];
    assert multiset(o2) == multiset(left + right) + multiset{x} by {
      assert o2 == left + [x] + right;
      assert multiset(o2) == multiset(left) + multiset{x} + multiset(right);
      assert multiset(left + right) == multiset(left) + multiset(right);
    }
    assert multiset(init) == multiset(init + [x]) - multiset{x} by {
      assert multiset(init + [x]) == multiset(init) + multiset{x};
    }
  }

  /**
   * Whatever order the pages finish in, the accumulated data is the same
   * multiset: that of the pages in page order.
   */
  lemma {:induction false} GatheredPermutation<T>(o1: seq<nat>, o2: seq<nat>, pages: seq<seq<T>>)
    requires multiset(o1) == multiset(o2)
    ensures multiset(Gathered(o1, pages)) == multiset(Gathered(o2, pages))
    decreases |o1|
  {
    if o1 == [] {
      assert |o2| == |multiset(o2)| == 0;
    } else {
      var x := o1[|o1| - 1];
      var init := o1[..|o1| - 1];
      assert o1 == init + [x];
      var k := PositionOf(o2, x);
      RemoveOne(init, x, o2, k);
      GatheredPermutation(init, o2[..k] + o2[k + 1..], pages);
      GatheredAround(o2, k, pages);
      assert Gathered(o1, pages) == Gathered(init, pages) + PageOf(pages, x);
    }
  }

  /** The amount of data on pages 1 to `n`, page by page. */
  function PageTotal<T>(pages: seq<seq<T>>, n: nat): nat
  {
    if n == 0 then 0 else PageTotal(pages, n - 1) + |PageOf(pages, n)|
  }

  lemma {:induction false} PageTotalInOrder<T>(pages: seq<seq<T>>, n: nat)
    ensures |Gathered(PagesUpTo(n), pages)| == PageTotal(pages, n)
  {
    if n > 0 {
      PageTotalInOrder(pages, n - 1);
      assert PagesUpTo(n)[..n - 1] == PagesUpTo(n - 1);
    }
  }

  /**
   * Whatever the completion order, the accumulated list holds exactly the
   * data of every page, and its length is the sum of the pages'.
   */
  lemma ScrapedAll<T>(order: seq<nat>, pages: seq<seq<T>>)
    requires IsPageOrder(order, |pages|)
    ensures multiset(Gathered(order, pages)) == multiset(Gathered(PagesUpTo(|pages|), pages))
    ensures |Gathered(order, pages)| == PageTotal(pages, |pages|)
  {
    PageTotalInOrder(pages, |pages|);
    GatheredPermutation(order, PagesUpTo(|pages|), pages);
    assert |multiset(Gathered(order, pages))| == |multiset(Gathered(PagesUpTo(|pages|), pages))|;
  }
}
