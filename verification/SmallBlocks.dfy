/**
 * One bin of the small block allocator as a value: the layout of chunks in pages, the
 * invariant that ties the free list, the working page, the page headers and the chunks
 * in the callers' hands together, and what each operation does to it.
 */
module SmallBlocks {
  import opened Words
  import opened Bits

  const PAGE := 4096
  /** `sizeof(struct page_header)` on a 64-bit platform. */
  const HEADER := 32
  const BIN_SIZES: seq<nat> := [32, 64, 128, 256, 512]
  const MAX_BIN_SIZE := 512

  /** `s_page_base`: the address rounded down to a page. */
  function PageBase(a: nat): (r: nat)
    ensures r % PAGE == 0 && r <= a < r + PAGE
  {
    a - a % PAGE
  }

  /**
   * `struct sba_bin`, with the `alloc_count` header of each of its pages. A `cursor` of 0
   * is a null pointer.
   */
  datatype Bin = Bin(size: nat, cursor: nat, active: seq<nat>, free: seq<nat>, counts: map<nat, nat>)

  /** `c` is the address of a chunk of this size in page `p`, past the header. */
  ghost predicate IsChunk(size: nat, p: nat, c: nat)
  {
    size > 0 && p + HEADER <= c && c + size <= p + PAGE && Reduce(c - p - HEADER, size) == 0
  }

  ghost predicate Unique(s: seq<nat>)
  {
    forall c | c in multiset(s) :: multiset(s)[c] == 1
  }

  /** The chunks of page `p` that have been carved off so far. */
  ghost predicate Carved(b: Bin, c: nat)
  {
    var p := PageBase(c);
    p in b.counts && IsChunk(b.size, p, c) && (b.cursor != 0 && p == PageBase(b.cursor) ==> c < b.cursor)
  }

  ghost function OnPage(out: set<nat>, p: nat): set<nat>
  {
    set c | c in out && PageBase(c) == p
  }

  ghost predicate PagesOk(b: Bin)
  {
    && (forall p | p in b.counts :: p % PAGE == 0 && p > 0)
    && Unique(b.active)
    && (forall p | p in b.active :: p in b.counts)
    && (forall p | p in b.counts :: p in b.active <==> !(b.cursor != 0 && p == PageBase(b.cursor)))
    && (b.cursor != 0 ==> PageBase(b.cursor) in b.counts && IsChunk(b.size, PageBase(b.cursor), b.cursor))
  }

  /**
   * Every carved chunk is either in a caller's hands or on the free list, never both and
   * never twice; each page counts its outstanding chunks; only the working page may have none.
   */
  ghost predicate BinOk(b: Bin, out: set<nat>)
  {
    && b.size in BIN_SIZES
    && PagesOk(b)
    && Unique(b.free)
    && (forall c {:trigger Carved(b, c)} :: Carved(b, c) <==> c in out || c in b.free)
    && (forall c | c in out :: c !in b.free)
    && (forall p | p in b.counts :: b.counts[p] == |OnPage(out, p)|)
    && (forall p | p in b.active :: b.counts[p] > 0)
  }

  // --- layout ------------------------------------------------------------------------

  lemma {:induction false} MultiplesApart(x: nat, y: nat, n: nat)
    requires n > 0 && Reduce(x, n) == 0 && Reduce(y, n) == 0 && x < y
    ensures x + n <= y
  {
    if x >= n {
      MultiplesApart(x - n, y - n, n);
    }
  }

  lemma PagesApart(p: nat, q: nat)
    requires p % PAGE == 0 && q % PAGE == 0 && p != q
    ensures p + PAGE <= q || q + PAGE <= p
  {
  }

  /** Two different chunks of a page do not overlap. */
  lemma ChunksApart(size: nat, p: nat, c: nat, d: nat)
    requires IsChunk(size, p, c) && IsChunk(size, p, d) && c < d
    ensures c + size <= d
  {
    MultiplesApart(c - p - HEADER, d - p - HEADER, size);
  }

  /** Two different chunks of one bin do not overlap, and each lies in its page past the header. */
  lemma ChunksDisjoint(b: Bin, out: set<nat>, c: nat, d: nat)
    requires BinOk(b, out) && c in out && (d in out || d in b.free) && c != d
    ensures c + b.size <= d || d + b.size <= c
    ensures PageBase(c) + HEADER <= c && c + b.size <= PageBase(c) + PAGE
  {
    assert Carved(b, c) && Carved(b, d);
    var p, q := PageBase(c), PageBase(d);
    if p != q {
      PagesApart(p, q);
    } else if c < d {
      ChunksApart(b.size, p, c, d);
    } else {
      ChunksApart(b.size, p, d, c);
    }
  }

  // --- allocation --------------------------------------------------------------------

  /** Hand out the last chunk of the free list. */
  function TakeFree(b: Bin): (r: (Bin, nat))
    requires b.free != [] && PageBase(b.free[|b.free| - 1]) in b.counts
  {
    var c := b.free[|b.free| - 1];
    var p := PageBase(c);
    (b.(free := b.free[..|b.free| - 1], counts := b.counts[p := b.counts[p] + 1]), c)
  }

  /** Carve the next chunk off the working page; a page that is used up becomes an active page. */
  function Carve(b: Bin): (r: (Bin, nat))
    requires PageBase(b.cursor) in b.counts
  {
    var p := PageBase(b.cursor);
    var next := b.cursor + b.size;
    var b' := b.(cursor := next, counts := b.counts[p := b.counts[p] + 1]);
    (if PAGE - (next - p) < b.size then b'.(active := b.active + [p], cursor := 0) else b', b.cursor)
  }

  /** `s_page_bind`: write the header of a new page and make it the working page. */
  function BindPage(b: Bin, page: nat): (r: Bin)
  {
    b.(cursor := page + HEADER, counts := b.counts[page := 0])
  }

  lemma CountAdd(out: set<nat>, c: nat, p: nat)
    requires c !in out
    ensures |OnPage(out + {c}, p)| == |OnPage(out, p)| + if PageBase(c) == p then 1 else 0
  {
    if PageBase(c) == p {
      assert OnPage(out + {c}, p) == OnPage(out, p) + {c};
    } else {
      assert OnPage(out + {c}, p) == OnPage(out, p);
    }
  }

  lemma UniquePlus(s: seq<nat>, x: nat)
    requires Unique(s) && x !in s
    ensures Unique(s + [x]) && forall y :: y in s + [x] <==> y in s || y == x
  {
    assert x !in multiset(s);
  }

  lemma UniqueLast(s: seq<nat>)
    requires s != [] && Unique(s)
    ensures Unique(s[..|s| - 1]) && s[|s| - 1] !in s[..|s| - 1]
    ensures forall c :: c in s <==> c in s[..|s| - 1] || c == s[|s| - 1]
  {
    var t, x := s[..|s| - 1], s[|s| - 1];
    assert s == t + [x];
    assert multiset(s) == multiset(t) + multiset{x};
    assert x in multiset(s) && multiset(t)[x] == 0;
    forall c | c in multiset(t) ensures multiset(t)[c] == 1 {
      assert c in multiset(s);
    }
  }

  /** The pages and what has been carved off them do not depend on the free list or on the counts. */
  lemma SamePages(b: Bin, b': Bin)
    requires b'.size == b.size && b'.cursor == b.cursor && b'.active == b.active && b'.counts.Keys == b.counts.Keys
    ensures PagesOk(b) ==> PagesOk(b')
    ensures forall d :: Carved(b', d) <==> Carved(b, d)
  {
    assert forall p :: p in b.counts <==> p in b'.counts by {
      assert forall p :: p in b.counts <==> p in b.counts.Keys;
    }
  }

  lemma TakeFreeOk(b: Bin, out: set<nat>)
    requires BinOk(b, out) && b.free != []
    ensures PageBase(b.free[|b.free| - 1]) in b.counts
    ensures var (b', c) := TakeFree(b); BinOk(b', out + {c}) && c !in out && b'.counts.Keys == b.counts.Keys
  {
    var c := b.free[|b.free| - 1];
    assert Carved(b, c);
    var (b', _) := TakeFree(b);
    assert b'.counts.Keys == b.counts.Keys;
    SamePages(b, b');
    UniqueLast(b.free);
    forall p { CountAdd(out, c, p); }
  }

  /** The next chunk of a page starts where this one ends. */
  lemma CarvedNext(b: Bin, d: nat)
    requires b.cursor != 0 && PageBase(b.cursor) in b.counts && IsChunk(b.size, PageBase(b.cursor), b.cursor)
    ensures Carved(Carve(b).0, d) <==> Carved(b, d) || d == b.cursor
  {
    var p := PageBase(b.cursor);
    if PageBase(d) == p && IsChunk(b.size, p, d) && b.cursor < d {
      ChunksApart(b.size, p, b.cursor, d);
    }
  }

  lemma CarvePages(b: Bin)
    requires b.size > 0 && PagesOk(b) && b.cursor != 0
    ensures PagesOk(Carve(b).0)
  {
    var p := PageBase(b.cursor);
    var next := b.cursor + b.size;
    var b' := Carve(b).0;
    if PAGE - (next - p) >= b.size {
      assert Reduce(next - p - HEADER, b.size) == Reduce(b.cursor - p - HEADER, b.size);
      assert PageBase(next) == p;
    } else {
      UniquePlus(b.active, p);
      assert b'.active == b.active + [p];
    }
  }

  lemma CarveOk(b: Bin, out: set<nat>)
    requires BinOk(b, out) && b.cursor != 0
    ensures var (b', c) := Carve(b); BinOk(b', out + {c}) && c !in out && b'.counts.Keys == b.counts.Keys
  {
    var (b', c) := Carve(b);
    assert !Carved(b, c);
    CarvePages(b);
    forall p { CountAdd(out, c, p); }
    forall d ensures Carved(b', d) <==> d in out + {c} || d in b'.free {
      CarvedNext(b, d);
    }
  }

  lemma BindOk(b: Bin, out: set<nat>, page: nat)
    requires BinOk(b, out) && b.cursor == 0 && page > 0 && page % PAGE == 0 && page !in b.counts
    ensures BinOk(BindPage(b, page), out)
  {
    var b' := BindPage(b, page);
    assert PageBase(b'.cursor) == page;
    assert IsChunk(b.size, page, b'.cursor);
    forall c | c in out ensures PageBase(c) != page {
      assert Carved(b, c);
    }
    assert OnPage(out, page) == {};
    forall d ensures Carved(b', d) <==> Carved(b, d) {
    }
  }

  // --- release -----------------------------------------------------------------------

  /** Put a chunk back on the free list. */
  function GiveBack(b: Bin, c: nat): (r: Bin)
    requires PageBase(c) in b.counts && b.counts[PageBase(c)] > 0
  {
    b.(free := b.free + [c], counts := b.counts[PageBase(c) := b.counts[PageBase(c)] - 1])
  }

  lemma CountDrop(out: set<nat>, c: nat, p: nat)
    requires c in out
    ensures |OnPage(out, p)| == |OnPage(out - {c}, p)| + if PageBase(c) == p then 1 else 0
  {
    CountAdd(out - {c}, c, p);
    assert out - {c} + {c} == out;
  }

  /** A chunk in a caller's hands has a page that counts it. */
  lemma OutIsCounted(b: Bin, out: set<nat>, c: nat)
    requires BinOk(b, out) && c in out
    ensures PageBase(c) in b.counts && b.counts[PageBase(c)] > 0
  {
    assert Carved(b, c);
    CountDrop(out, c, PageBase(c));
  }

  lemma GiveBackOk(b: Bin, out: set<nat>, c: nat)
    requires BinOk(b, out) && c in out
    requires PageBase(c) in b.counts && b.counts[PageBase(c)] > 0
    requires b.counts[PageBase(c)] > 1 || (b.cursor != 0 && PageBase(c) == PageBase(b.cursor))
    ensures BinOk(GiveBack(b, c), out - {c}) && GiveBack(b, c).counts.Keys == b.counts.Keys
  {
    var b' := GiveBack(b, c);
    assert b'.counts.Keys == b.counts.Keys;
    SamePages(b, b');
    UniquePlus(b.free, c);
    forall p { CountDrop(out, c, p); }
  }

  /** `t` keeps exactly the elements of `s` that are not in the range, in some order. */
  ghost predicate KeptOutside(s: seq<nat>, t: seq<nat>, lo: nat, hi: nat)
  {
    && Unique(t)
    && forall c :: c in t <==> c in s && !(lo <= c < hi)
  }

  /** The last chunk of a page is its only one. */
  lemma OnlyOne(out: set<nat>, c: nat)
    requires c in out && |OnPage(out, PageBase(c))| == 1
    ensures forall d | d in out && d != c :: PageBase(d) != PageBase(c)
  {
    var p := PageBase(c);
    CountDrop(out, c, p);
    assert forall d | d in out && d != c :: PageBase(d) == p ==> d in OnPage(out - {c}, p);
  }

  /** A page counts one chunk exactly when no other is outstanding. */
  lemma LoneIsCounted(out: set<nat>, c: nat)
    requires c in out
    ensures |OnPage(out, PageBase(c))| == 1 <==> forall d | d in out && PageBase(d) == PageBase(c) :: d == c
  {
    if |OnPage(out, PageBase(c))| == 1 {
      OnlyOne(out, c);
    }
    if forall d | d in out && PageBase(d) == PageBase(c) :: d == c {
      assert OnPage(out, PageBase(c)) == {c};
    }
  }

  /** The bin without page `p`, given the swept free list and the shortened list of pages. */
  function WithoutPage(b: Bin, p: nat, free': seq<nat>, active': seq<nat>): Bin
  {
    b.(free := free', active := active', counts := b.counts - {p})
  }

  lemma ReturnPages(b: Bin, p: nat, free': seq<nat>, active': seq<nat>)
    requires PagesOk(b) && p in b.counts && !(b.cursor != 0 && p == PageBase(b.cursor))
    requires multiset(active') == multiset(b.active) - multiset{p}
    ensures p in b.active && PagesOk(WithoutPage(b, p, free', active'))
    ensures forall q | q in active' :: q in b.active && q != p
  {
    ActiveWithout(b.active, active', p);
  }

  /**
   * The sweep over the free list removes exactly the chunks of the page, although its range
   * ends a header past the page: the next page has its own header there.
   */
  lemma SweepIsPage(b: Bin, out: set<nat>, p: nat, d: nat)
    requires BinOk(b, out) && p % PAGE == 0 && d in b.free
    ensures PageBase(d) == p <==> p + HEADER <= d < p + HEADER + PAGE
  {
    assert Carved(b, d);
  }

  /** Returning an empty page: its header, its place among the active pages and its free chunks go. */
  lemma ReturnOk(b: Bin, out: set<nat>, c: nat, free': seq<nat>, active': seq<nat>)
    requires BinOk(b, out) && c in out
    requires var p := PageBase(c); p in b.counts && b.counts[p] == 1 && !(b.cursor != 0 && p == PageBase(b.cursor))
    requires KeptOutside(b.free, free', PageBase(c) + HEADER, PageBase(c) + HEADER + PAGE)
    requires multiset(active') == multiset(b.active) - multiset{PageBase(c)}
    ensures BinOk(WithoutPage(b, PageBase(c), free', active'), out - {c})
  {
    var p := PageBase(c);
    var b' := WithoutPage(b, p, free', active');
    ReturnPages(b, p, free', active');
    OnlyOne(out, c);
    forall q { CountDrop(out, c, q); }
    forall d ensures Carved(b', d) <==> d in out - {c} || d in free' {
      assert Carved(b', d) <==> Carved(b, d) && PageBase(d) != p;
      if d in b.free {
        SweepIsPage(b, out, p, d);
      }
    }
  }

  lemma ActiveWithout(s: seq<nat>, t: seq<nat>, p: nat)
    requires Unique(s) && multiset(t) == multiset(s) - multiset{p} && p in s
    ensures Unique(t) && p !in t && forall q :: q in t <==> q in s && q != p
  {
    assert p in multiset(s);
    assert p !in multiset(t);
    forall q ensures q in t <==> q in s && q != p {
      assert q in t <==> q in multiset(t);
      assert q in s <==> q in multiset(s);
    }
    forall q | q in multiset(t) ensures multiset(t)[q] == 1 {
      assert q in multiset(s);
    }
  }
}
