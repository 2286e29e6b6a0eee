/** The offset pagination of Client.fetch_all_articles in sysrev/client.py.
    The server is an oracle from the requested offset to the decoded response body;
    the project id, page size and sort order of one enumeration are fixed, so they
    are folded into the oracle. */
module ArticlePager {
  import opened Wrappers

  /** A project-articles response body: `result` is None when the key is missing or null. */
  datatype PageResponse<A> = PageResponse(result: Option<seq<A>>)

  /** `result.get('result', [])`, where a null result counts as no articles. */
  function PageArticles<A>(resp: PageResponse<A>): seq<A>
  {
    match resp.result
    case Some(articles) => articles
    case None => []
  }

  /** The server holds finitely many articles: no page at or beyond `bound` has any. */
  ghost predicate ExhaustedFrom<A>(page: nat -> PageResponse<A>, bound: nat)
  {
    forall o: nat :: bound <= o ==> PageArticles(page(o)) == []
  }

  /** The articles yielded from `offset` on: each non-empty page, then the pages after it. */
  ghost function Enumerate<A>(page: nat -> PageResponse<A>, offset: nat, bound: nat): seq<A>
    requires ExhaustedFrom(page, bound)
    decreases bound - offset
  {
    var batch := PageArticles(page(offset));
    if batch == [] then [] else batch + Enumerate(page, offset + |batch|, bound)
  }

  /** The offsets requested from `offset` on, the final (empty) page included. */
  ghost function Offsets<A>(page: nat -> PageResponse<A>, offset: nat, bound: nat): (os: seq<nat>)
    requires ExhaustedFrom(page, bound)
    ensures |os| >= 1 && os[0] == offset
    decreases bound - offset
  {
    var batch := PageArticles(page(offset));
    if batch == [] then [offset] else [offset] + Offsets(page, offset + |batch|, bound)
  }

  /** fetch_all_articles: request pages at a growing offset until a page is empty.
      Returns the articles in the order yielded and the offsets requested. */
  method FetchAllArticles<A>(page: nat -> PageResponse<A>, ghost bound: nat)
    returns (articles: seq<A>, offsets: seq<nat>)
    requires ExhaustedFrom(page, bound)
    ensures articles == Enumerate(page, 0, bound)
    ensures offsets == Offsets(page, 0, bound)
  {
    var offset: nat := 0;
    articles, offsets := [], [];
    while true
      invariant Fetched(page, bound, offset, articles, offsets)
      decreases bound - offset
    {
      var batch := PageArticles(page(offset));
      FetchStep(page, bound, offset, articles, offsets);
      offsets := offsets + [offset];
      if batch == [] {
        break;
      }
      articles := articles + batch;
      offset := offset + |batch|;
    }
  }

  /** The loop state of fetch_all_articles after the pages before `offset`: the articles
      and offsets so far, followed by those still to come, are the whole enumeration. */
  ghost predicate Fetched<A>(page: nat -> PageResponse<A>, bound: nat, offset: nat, articles: seq<A>, offsets: seq<nat>)
  {
    && ExhaustedFrom(page, bound)
    && offset == |articles|
    && articles + Enumerate(page, offset, bound) == Enumerate(page, 0, bound)
    && offsets + Offsets(page, offset, bound) == Offsets(page, 0, bound)
  }

  /** One iteration of the fetch loop: an empty page completes the enumeration, any
      other page keeps the loop state. */
  lemma FetchStep<A>(page: nat -> PageResponse<A>, bound: nat, offset: nat, articles: seq<A>, offsets: seq<nat>)
    requires Fetched(page, bound, offset, articles, offsets)
    ensures var batch := PageArticles(page(offset));
      && (batch == [] ==>
            articles == Enumerate(page, 0, bound) && offsets + [offset] == Offsets(page, 0, bound))
      && (batch != [] ==>
            && offset < bound
            && Fetched(page, bound, offset + |batch|, articles + batch, offsets + [offset]))
  {
    var batch := PageArticles(page(offset));
    PageStep(page, offset, bound);
    if batch == [] {
      assert articles + [] == articles;
    } else {
      var next := offset + |batch|;
      var os, es := Offsets(page, next, bound), Enumerate(page, next, bound);
      assert (offsets + [offset]) + os == offsets + ([offset] + os);
      assert (articles + batch) + es == articles + (batch + es);
    }
  }

  /** One request of the enumeration: an empty page ends it, any other page is yielded
      and the next request is at the offset after it. */
  lemma PageStep<A>(page: nat -> PageResponse<A>, offset: nat, bound: nat)
    requires ExhaustedFrom(page, bound)
    ensures var batch := PageArticles(page(offset));
      && (batch == [] ==> Enumerate(page, offset, bound) == [] && Offsets(page, offset, bound) == [offset])
      && (batch != [] ==>
            && Enumerate(page, offset, bound) == batch + Enumerate(page, offset + |batch|, bound)
            && Offsets(page, offset, bound) == [offset] + Offsets(page, offset + |batch|, bound))
  {
  }

  /** The concatenation of a sequence of pages. */
  function Concat<A>(pages: seq<seq<A>>): seq<A>
  {
    if pages == [] then [] else Concat(pages[..|pages| - 1]) + pages[|pages| - 1]
  }

  /** The articles of the pages requested at the given offsets. */
  ghost function PagesAt<A>(page: nat -> PageResponse<A>, offsets: seq<nat>): seq<seq<A>>
  {
    seq(|offsets|, k requires 0 <= k < |offsets| => PageArticles(page(offsets[k])))
  }

  lemma {:induction false} ConcatAppend<A>(pages: seq<seq<A>>, more: seq<seq<A>>)
    ensures Concat(pages + more) == Concat(pages) + Concat(more)
    decreases |more|
  {
    if more != [] {
      var n := |more| - 1;
      assert (pages + more)[..|pages + more| - 1] == pages + more[..n];
      ConcatAppend(pages, more[..n]);
    } else {
      assert pages + more == pages;
    }
  }

  /** The request trace from `offset`: it starts there, the last page requested is the
      only empty one, and each further offset grows by the length of the page before it. */
  lemma {:induction false} OffsetsSteps<A>(page: nat -> PageResponse<A>, offset: nat, bound: nat)
    requires ExhaustedFrom(page, bound)
    ensures var os := Offsets(page, offset, bound);
      && |os| >= 1 && os[0] == offset
      && PageArticles(page(os[|os| - 1])) == []
      && (forall k :: 0 <= k < |os| - 1 ==>
            PageArticles(page(os[k])) != [] && os[k + 1] == os[k] + |PageArticles(page(os[k]))|)
    decreases bound - offset
  {
    var batch := PageArticles(page(offset));
    if batch != [] {
      var next := offset + |batch|;
      OffsetsSteps(page, next, bound);
      var os := Offsets(page, offset, bound);
      var rest := Offsets(page, next, bound);
      assert os == [offset] + rest;
      forall k | 0 <= k < |os| - 1
        ensures PageArticles(page(os[k])) != [] && os[k + 1] == os[k] + |PageArticles(page(os[k]))|
      {
        if k > 0 {
          assert os[k] == rest[k - 1] && os[k + 1] == rest[k];
        }
      }
    }
  }

  /** The yielded articles are the non-empty pages of the trace, in order, and the
      final offset is the start plus the number of articles yielded. */
  lemma {:induction false} OffsetsYield<A>(page: nat -> PageResponse<A>, offset: nat, bound: nat)
    requires ExhaustedFrom(page, bound)
    ensures var os := Offsets(page, offset, bound);
      && |os| >= 1
      && Enumerate(page, offset, bound) == Concat(PagesAt(page, os[..|os| - 1]))
      && os[|os| - 1] == offset + |Enumerate(page, offset, bound)|
    decreases bound - offset
  {
    var batch := PageArticles(page(offset));
    var os := Offsets(page, offset, bound);
    if batch == [] {
      assert PagesAt(page, os[..0]) == [];
    } else {
      var next := offset + |batch|;
      OffsetsYield(page, next, bound);
      var rest := Offsets(page, next, bound);
      assert os == [offset] + rest;
      var restPages := PagesAt(page, rest[..|rest| - 1]);
      assert os[..|os| - 1] == [offset] + rest[..|rest| - 1];
      assert PagesAt(page, os[..|os| - 1]) == [batch] + restPages;
      ConcatAppend([batch], restPages);
      assert Concat([batch]) == batch by {
        assert [batch][..0] == [];
      }
      PageStep(page, offset, bound);
      assert Concat(PagesAt(page, os[..|os| - 1])) == batch + Concat(restPages);
    }
  }

  function Min(a: int, b: int): int
  {
    if a <= b then a else b
  }

  /** The server pages over a fixed, finite list of articles: the page at offset `o`
      is `list[o : o + limit]`, cut off at the end of the list. */
  ghost predicate ServesList<A>(page: nat -> PageResponse<A>, list: seq<A>, limit: nat)
  {
    forall o: nat :: PageArticles(page(o)) == list[Min(o, |list|)..Min(o + limit, |list|)]
  }

  /** Such a server, for every list and page size. */
  function ListServer<A>(list: seq<A>, limit: nat): (page: nat -> PageResponse<A>)
    ensures ServesList(page, list, limit)
  {
    (o: nat) => PageResponse(Some(list[Min(o, |list|)..Min(o + limit, |list|)]))
  }

  /** Every page at an offset up to `n` holds `limit` articles, or what is left of `n`. */
  ghost predicate FullPages<A>(page: nat -> PageResponse<A>, limit: nat, n: nat)
  {
    forall o: nat :: o <= n ==> |PageArticles(page(o))| == Min(o + limit, n) - o
  }

  /** A list server has no articles beyond its list and full pages up to its end. */
  lemma SlicedPages<A>(page: nat -> PageResponse<A>, list: seq<A>, limit: nat)
    requires ServesList(page, list, limit)
    ensures ExhaustedFrom(page, |list|)
    ensures FullPages(page, limit, |list|)
  {
    forall o: nat | |list| <= o ensures PageArticles(page(o)) == [] {
      assert Min(o, |list|) == |list| && Min(o + limit, |list|) == |list|;
      assert PageArticles(page(o)) == list[|list|..|list|];
    }
  }

  lemma SliceSplit<A>(list: seq<A>, i: nat, j: nat)
    requires i <= j <= |list|
    ensures list[i..] == list[i..j] + list[j..]
  {
  }

  lemma {:induction false} ListEnumerationFrom<A>(page: nat -> PageResponse<A>, list: seq<A>, limit: nat, offset: nat)
    requires ServesList(page, list, limit) && 0 < limit && offset <= |list|
    requires ExhaustedFrom(page, |list|)
    ensures Enumerate(page, offset, |list|) == list[offset..]
    decreases |list| - offset
  {
    var batch := PageArticles(page(offset));
    if offset < |list| {
      var next := Min(offset + limit, |list|);
      assert batch == list[offset..next];
      assert offset + |batch| == next && batch != [];
      PageStep(page, offset, |list|);
      ListEnumerationFrom(page, list, limit, next);
      var rest := Enumerate(page, next, |list|);
      assert Enumerate(page, offset, |list|) == batch + rest;
      assert rest == list[next..];
      SliceSplit(list, offset, next);
    } else {
      assert batch == [];
    }
  }

  /** Against a server paging a finite list with a positive page size, enumeration yields
      exactly the list, in order; with a zero page size the first page is empty and
      nothing is yielded. */
  lemma ListEnumeration<A>(page: nat -> PageResponse<A>, list: seq<A>, limit: nat)
    requires ServesList(page, list, limit)
    ensures ExhaustedFrom(page, |list|)
    ensures Enumerate(page, 0, |list|) == if limit == 0 then [] else list
  {
    SlicedPages(page, list, limit);
    if limit > 0 {
      ListEnumerationFrom(page, list, limit, 0);
    } else {
      assert PageArticles(page(0)) == list[0..0];
    }
  }

  /** The offset reached after `k` full pages of `limit` articles from `offset`. */
  function Stride(offset: int, limit: int, k: nat): int
    decreases k
  {
    if k == 0 then offset else Stride(offset + limit, limit, k - 1)
  }

  lemma {:induction false} StrideIsProduct(offset: int, limit: int, k: nat)
    ensures Stride(offset, limit, k) == offset + k * limit
    decreases k
  {
    if k > 0 {
      StrideIsProduct(offset + limit, limit, k - 1);
      assert (k - 1) * limit + limit == k * limit;
    }
  }

  /** Every non-empty page but the last is full. */
  lemma {:induction false} FullPagesOffsets<A>(page: nat -> PageResponse<A>, limit: nat, n: nat, offset: nat)
    requires 0 < limit && offset <= n && ExhaustedFrom(page, n) && FullPages(page, limit, n)
    ensures var os := Offsets(page, offset, n);
      && (forall k :: 0 <= k < |os| - 1 ==> os[k] == Stride(offset, limit, k))
      && Stride(offset, limit, |os| - 1) >= n
      && (|os| >= 2 ==> Stride(offset, limit, |os| - 2) < n)
    decreases n - offset
  {
    var batch := PageArticles(page(offset));
    var os := Offsets(page, offset, n);
    if offset == n {
      assert batch == [];
      assert os == [offset];
    } else {
      var next := offset + |batch|;
      assert batch != [] && next == Min(offset + limit, n);
      FullPagesOffsets(page, limit, n, next);
      var rest := Offsets(page, next, n);
      assert os == [offset] + rest;
      assert Stride(offset, limit, |os| - 1) == Stride(offset + limit, limit, |rest| - 1);
      if next < n {
        assert next == offset + limit;
        forall k | 0 <= k < |os| - 1 ensures os[k] == Stride(offset, limit, k) {
          if k > 0 {
            assert os[k] == rest[k - 1];
          }
        }
        if |rest| >= 2 {
          assert Stride(offset, limit, |os| - 2) == Stride(next, limit, |rest| - 2);
        }
      } else {
        assert PageArticles(page(next)) == [];
        assert rest == [n];
      }
    }
  }

  /** Against a server paging a finite list of N articles with page size L > 0, the
      requests go to offsets 0, L, 2L, ... for the C non-empty pages, where C is the
      least number with C * L >= N, and one final request at offset N finds the empty page. */
  lemma ListOffsets<A>(page: nat -> PageResponse<A>, list: seq<A>, limit: nat)
    requires ServesList(page, list, limit) && 0 < limit
    ensures ExhaustedFrom(page, |list|)
    ensures var os := Offsets(page, 0, |list|);
      && os[|os| - 1] == |list|
      && (forall k :: 0 <= k < |os| - 1 ==> os[k] == k * limit)
      && (|os| - 1) * limit >= |list|
      && (|os| >= 2 ==> (|os| - 2) * limit < |list|)
  {
    ListOffsetsStride(page, list, limit);
    StridesAreProducts(Offsets(page, 0, |list|), limit, |list|);
  }

  /** ListOffsets with the offsets as strides. */
  lemma ListOffsetsStride<A>(page: nat -> PageResponse<A>, list: seq<A>, limit: nat)
    requires ServesList(page, list, limit) && 0 < limit
    ensures ExhaustedFrom(page, |list|)
    ensures var os := Offsets(page, 0, |list|);
      && os[|os| - 1] == |list|
      && (forall k :: 0 <= k < |os| - 1 ==> os[k] == Stride(0, limit, k))
      && Stride(0, limit, |os| - 1) >= |list|
      && (|os| >= 2 ==> Stride(0, limit, |os| - 2) < |list|)
  {
    SlicedPages(page, list, limit);
    ListLastOffset(page, list, limit);
    FullPagesOffsets(page, limit, |list|, 0);
  }

  /** The last request of a list enumeration is at the end of the list. */
  lemma ListLastOffset<A>(page: nat -> PageResponse<A>, list: seq<A>, limit: nat)
    requires ServesList(page, list, limit) && 0 < limit
    ensures ExhaustedFrom(page, |list|)
    ensures var os := Offsets(page, 0, |list|); os[|os| - 1] == |list|
  {
    SlicedPages(page, list, limit);
    ListEnumerationFrom(page, list, limit, 0);
    OffsetsYield(page, 0, |list|);
  }

  /** The strides from offset 0 as products. */
  lemma StridesAreProducts(os: seq<nat>, limit: nat, n: nat)
    requires |os| >= 1
    requires forall k :: 0 <= k < |os| - 1 ==> os[k] == Stride(0, limit, k)
    requires Stride(0, limit, |os| - 1) >= n
    requires |os| >= 2 ==> Stride(0, limit, |os| - 2) < n
    ensures forall k :: 0 <= k < |os| - 1 ==> os[k] == k * limit
    ensures (|os| - 1) * limit >= n
    ensures |os| >= 2 ==> (|os| - 2) * limit < n
  {
    forall k | 0 <= k < |os| - 1 ensures os[k] == k * limit {
      StrideIsProduct(0, limit, k);
    }
    StrideIsProduct(0, limit, |os| - 1);
    if |os| >= 2 {
      StrideIsProduct(0, limit, |os| - 2);
    }
  }
}
