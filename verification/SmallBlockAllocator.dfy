/**
 * The small block allocator: five bins of power-of-two chunks on pages taken from and
 * returned to the operating system. Every method keeps the invariant of SmallBlocks for
 * every bin, so the statements at the end hold after every run.
 */
module SmallBlockAllocator {
  import opened Basics
  import opened Words
  import opened Bits
  import opened SmallBlocks

  const BIN_COUNT := 5

  // --- choosing a bin ------------------------------------------------------------------

  /** The position of the top bit, `31 - clz` on 32-bit words. */
  function TopBitIndex(n: nat): (r: nat)
    requires n > 0
  {
    if n == 1 then 0 else 1 + TopBitIndex(n / 2)
  }

  /** `s_sba_find_bin`: the next power of two, its bit index, less five but not below 0. */
  function FindBin(size: nat): (r: nat)
    requires size <= MAX_BIN_SIZE
  {
    var pow := if size == 0 then 1 else (RoundUpCorrect(size); RoundUp(size));
    var bit := TopBitIndex(pow);
    if bit < 5 then 0 else bit - 5
  }

  lemma {:induction false} TopBitOfPower(k: nat)
    ensures TopBitIndex(Pow2(k)) == k
  {
    if k > 0 {
      TopBitOfPower(k - 1);
      assert Pow2(k) / 2 == Pow2(k - 1);
    }
  }

  lemma SmallPowers()
    ensures Pow2(5) == 32 && Pow2(6) == 64 && Pow2(7) == 128 && Pow2(8) == 256 && Pow2(9) == 512
    ensures Pow2(10) == 1024
  {
    assert Pow2(4) == 16;
  }

  /** The bin chosen is the first whose chunks hold the request. */
  lemma FindBinFits(size: nat)
    requires size <= MAX_BIN_SIZE
    ensures FindBin(size) < BIN_COUNT && size <= BIN_SIZES[FindBin(size)]
    ensures FindBin(size) > 0 ==> BIN_SIZES[FindBin(size) - 1] < size
  {
    SmallPowers();
    if size > 0 {
      RoundUpCorrect(size);
      var k: nat :| RoundUp(size) == Pow2(k);
      TopBitOfPower(k);
      if k > 9 {
        Pow2Mono(10, k);
      }
      if k < 5 {
        Pow2Mono(k, 5);
      }
    }
  }

  // --- the two removal loops -------------------------------------------------------------

  function SwapPop(s: seq<nat>, i: nat): (r: seq<nat>)
    requires i < |s|
    ensures |r| == |s| - 1 && multiset(r) == multiset(s) - multiset{s[i]}
  {
    var n := |s| - 1;
    var t := s[i := s[n]];
    assert s == s[..n] + [s[n]];
    assert t[..n] + [t[n]] == t;
    assert multiset(s[i := s[n]][n := s[i]]) == multiset(s);
    assert s[i := s[n]][n := s[i]] == t[..n] + [s[i]];
    t[..n]
  }

  /** Nothing at or after index `i` is in the range. */
  ghost predicate ClearFrom(s: seq<nat>, i: nat, lo: nat, hi: nat)
  {
    forall k: nat | i <= k < |s| :: !(lo <= s[k] < hi)
  }

  /**
   * The first loop of `s_sba_free_to_bin`: walk down from one past the end, swapping each
   * chunk in the range to the back and popping it. Reading past the end yields null.
   */
  method Sweep(s: seq<nat>, lo: nat, hi: nat) returns (t: seq<nat>)
    requires Unique(s) && 0 < lo
    ensures KeptOutside(s, t, lo, hi)
  {
    t := s;
    ghost var gone: multiset<nat> := multiset{};
    var i := |s|;
    while i >= 0
      invariant -1 <= i <= |t|
      invariant ClearFrom(t, i + 1, lo, hi)
      invariant multiset(s) == multiset(t) + gone && forall c | c in gone :: lo <= c < hi
      decreases i
    {
      var chunk := if i < |t| then t[i] else 0;
      if lo <= chunk < hi {
        gone := gone + multiset{chunk};
        t := SwapPop(t, i);
      }
      i := i - 1;
    }
    SweepResult(s, t, gone, lo, hi);
  }

  lemma SweepResult(s: seq<nat>, t: seq<nat>, gone: multiset<nat>, lo: nat, hi: nat)
    requires Unique(s) && ClearFrom(t, 0, lo, hi)
    requires multiset(s) == multiset(t) + gone && forall c | c in gone :: lo <= c < hi
    ensures KeptOutside(s, t, lo, hi)
  {
    forall c ensures c in t <==> c in s && !(lo <= c < hi) {
      assert c in s <==> c in multiset(s);
      assert c in t <==> c in multiset(t);
    }
    forall c | c in multiset(t) ensures multiset(t)[c] == 1 {
      assert c in multiset(s);
    }
  }

  /** The second loop: find a page among the active ones, swap it to the back and pop it. */
  method Unlist(s: seq<nat>, page: nat) returns (t: seq<nat>)
    ensures page in s ==> multiset(t) == multiset(s) - multiset{page}
    ensures page !in s ==> t == s
  {
    for i := 0 to |s|
      invariant page !in s[..i]
    {
      if s[i] == page {
        return SwapPop(s, i);
      }
    }
    return s;
  }

  function AllButLast(s: seq<nat>): seq<nat>
  {
    if s == [] then [] else s[..|s| - 1]
  }

  // --- the allocator ---------------------------------------------------------------------

  class Allocator {
    var bins: seq<Bin>
    /** The tagged pages, each with the bin in its header. */
    var owner: map<nat, nat>
    /** The chunks of each bin in the callers' hands. */
    ghost var out: seq<set<nat>>
    /** Pages taken from and given back to the operating system, counted per address. */
    ghost var acquired: multiset<nat>
    ghost var returned: multiset<nat>

    ghost predicate BinValid(i: nat)
      reads this`bins, this`out, this`owner
    {
      && i < |bins| && i < |out| && i < |BIN_SIZES| && bins[i].size == BIN_SIZES[i] && BinOk(bins[i], out[i])
      && forall p | p in bins[i].counts :: p in owner && owner[p] == i
    }

    /** Every bin is in order and the page headers name the bins that hold the pages. */
    ghost predicate Structure()
      reads this`bins, this`out, this`owner
    {
      && |bins| == |out| == |BIN_SIZES|
      && (forall i: nat | i < BIN_COUNT :: BinValid(i))
      && (forall p | p in owner :: owner[p] < BIN_COUNT && p in bins[owner[p]].counts)
    }

    ghost predicate Valid()
      reads this
    {
      Structure() && acquired == returned + multiset(owner.Keys)
    }

    /** `s_sba_init`. */
    constructor ()
      ensures Valid() && owner == map[] && returned == multiset{} && forall i: nat | i < BIN_COUNT :: out[i] == {}
    {
      bins := seq(BIN_COUNT, i requires 0 <= i < |BIN_SIZES| => Bin(BIN_SIZES[i], 0, [], [], map[]));
      owner, out := map[], seq(BIN_COUNT, _ => {});
      acquired, returned := multiset{}, multiset{};
    }

    /** `o'` is `o` with the pages of bin `i` replaced by those of `b`. */
    static ghost predicate Reassigned(o: map<nat, nat>, o': map<nat, nat>, i: nat, b: Bin)
    {
      && (forall p | p in b.counts :: p in o' && o'[p] == i)
      && (forall p | p in o' :: if o'[p] == i then p in b.counts else p in o && o[p] == o'[p])
      && (forall p | p in o && o[p] != i :: p in o' && o'[p] == o[p])
    }

    /** Bin `i` goes to `b`, and its callers now hold `o`. */
    method Install(i: nat, b: Bin, ghost o: set<nat>, owner': map<nat, nat>)
      requires Structure() && i < BIN_COUNT
      requires b.size == bins[i].size && BinOk(b, o) && Reassigned(owner, owner', i, b)
      modifies this`bins, this`out, this`owner
      ensures Structure() && owner == owner'
      ensures bins == old(bins)[i := b] && out == old(out)[i := o]
    {
      bins, out, owner := bins[i := b], out[i := o], owner';
      forall j: nat | j < BIN_COUNT ensures BinValid(j) {
        assert old(BinValid(j));
      }
    }

    /** The same for a bin that keeps its pages. */
    method Update(i: nat, b: Bin, ghost o: set<nat>)
      requires Valid() && i < BIN_COUNT
      requires b.size == bins[i].size && BinOk(b, o) && b.counts.Keys == bins[i].counts.Keys
      modifies this`bins, this`out, this`owner
      ensures Valid() && owner == old(owner)
      ensures bins == old(bins)[i := b] && out == old(out)[i := o]
    {
      assert BinValid(i);
      assert forall p :: p in b.counts <==> p in bins[i].counts by {
        assert forall p :: p in b.counts <==> p in b.counts.Keys;
      }
      Install(i, b, o, owner);
    }

    /** Take a new page for bin `i` from the operating system. */
    method TakePage(i: nat, page: nat)
      requires Valid() && i < BIN_COUNT && bins[i].cursor == 0
      requires page > 0 && page % PAGE == 0 && page !in owner
      modifies this
      ensures Valid() && bins == old(bins)[i := BindPage(old(bins[i]), page)] && out == old(out)
      ensures acquired == old(acquired) + multiset{page} && returned == old(returned)
      ensures owner == old(owner)[page := i]
    {
      assert BinValid(i);
      BindOk(bins[i], out[i], page);
      OneMore(owner, page, i, bins[i]);
      assert out[i := out[i]] == out;
      Install(i, BindPage(bins[i], page), out[i], owner[page := i]);
      acquired := acquired + multiset{page};
    }

    /** A new page belongs to the bin that took it. */
    static lemma OneMore(owner: map<nat, nat>, page: nat, i: nat, b: Bin)
      requires page !in owner && forall p | p in b.counts :: p in owner && owner[p] == i
      requires forall p | p in owner && owner[p] == i :: p in b.counts
      ensures multiset(owner[page := i].Keys) == multiset(owner.Keys) + multiset{page}
      ensures Reassigned(owner, owner[page := i], i, BindPage(b, page))
    {
      assert owner[page := i].Keys == owner.Keys + {page};
    }

    /** A page that is given back belongs to no bin. */
    static lemma OneLess(owner: map<nat, nat>, page: nat, i: nat, b: Bin, b': Bin)
      requires page in owner && owner[page] == i && b'.counts == b.counts - {page}
      requires (forall p | p in b.counts :: p in owner && owner[p] == i) && forall p | p in owner && owner[p] == i :: p in b.counts
      ensures multiset(owner.Keys) == multiset((owner - {page}).Keys) + multiset{page}
      ensures Reassigned(owner, owner - {page}, i, b')
    {
      assert owner.Keys == (owner - {page}).Keys + {page};
    }

    /** `s_sba_alloc_from_bin`: a free chunk, or one carved off the working page, or off a new page. */
    method AllocFromBin(i: nat, newPage: nat) returns (chunk: nat)
      requires Valid() && i < BIN_COUNT
      requires newPage > 0 && newPage % PAGE == 0 && newPage !in owner
      modifies this
      ensures Valid() && chunk !in old(out[i]) && out == old(out)[i := old(out[i]) + {chunk}]
      ensures returned == old(returned)
      ensures bins == old(bins)[i := bins[i]] && bins[i].free == AllButLast(old(bins[i].free))
      ensures acquired == old(acquired) + if old(bins[i].free == [] && bins[i].cursor == 0) then multiset{newPage} else multiset{}
      ensures chunk ==
        if old(bins[i].free) != [] then old(bins[i].free)[old(|bins[i].free|) - 1]
        else if old(bins[i].cursor) != 0 then old(bins[i].cursor)
        else newPage + HEADER
    {
      if |bins[i].free| > 0 {
        chunk := AllocFromFree(i);
      } else {
        NeedPage(i, newPage);
        chunk := AllocFromPage(i);
      }
    }

    /** Take a page unless there is a working page, which then has room. */
    method NeedPage(i: nat, newPage: nat)
      requires Valid() && i < BIN_COUNT && newPage > 0 && newPage % PAGE == 0 && newPage !in owner
      modifies this
      ensures Valid() && out == old(out) && returned == old(returned)
      ensures bins == old(bins)[i := bins[i]] && bins[i].free == old(bins[i].free)
      ensures bins[i].cursor == if old(bins[i].cursor) != 0 then old(bins[i].cursor) else newPage + HEADER
      ensures acquired == old(acquired) + if old(bins[i].cursor) == 0 then multiset{newPage} else multiset{}
    {
      assert BinValid(i);
      if bins[i].cursor == 0 || PAGE - (bins[i].cursor - PageBase(bins[i].cursor)) < bins[i].size {
        TakePage(i, newPage);
      }
    }

    /** The last chunk of the free list. */
    method AllocFromFree(i: nat) returns (chunk: nat)
      requires Valid() && i < BIN_COUNT && bins[i].free != []
      modifies this`bins, this`out, this`owner
      ensures Valid() && chunk == old(bins[i].free)[old(|bins[i].free|) - 1]
      ensures chunk !in old(out[i]) && out == old(out)[i := old(out[i]) + {chunk}]
      ensures bins == old(bins)[i := bins[i]] && bins[i].free == AllButLast(old(bins[i].free))
    {
      assert BinValid(i);
      TakeFreeOk(bins[i], out[i]);
      var (b, c) := TakeFree(bins[i]);
      Update(i, b, out[i] + {c});
      return c;
    }

    /** The next chunk of the working page. */
    method AllocFromPage(i: nat) returns (chunk: nat)
      requires Valid() && i < BIN_COUNT && bins[i].cursor != 0
      modifies this`bins, this`out, this`owner
      ensures Valid() && chunk == old(bins[i].cursor) && chunk !in old(out[i]) && out == old(out)[i := old(out[i]) + {chunk}]
      ensures bins == old(bins)[i := bins[i]] && bins[i].free == old(bins[i].free)
    {
      assert BinValid(i);
      CarveOk(bins[i], out[i]);
      var (b, c) := Carve(bins[i]);
      Update(i, b, out[i] + {c});
      return c;
    }

    /** `s_sba_alloc`: a chunk of the right bin, or nothing when the parent allocator serves it. */
    method Alloc(size: nat, newPage: nat) returns (chunk: Option<nat>)
      requires Valid() && newPage > 0 && newPage % PAGE == 0 && newPage !in owner
      modifies this
      ensures Valid() && returned == old(returned)
      ensures chunk.None? <==> size > MAX_BIN_SIZE
      ensures chunk.None? ==> out == old(out) && acquired == old(acquired)
      ensures chunk.Some? ==>
        var i := FindBin(size);
        && i < BIN_COUNT && size <= bins[i].size
        && chunk.value !in old(out[i]) && out == old(out)[i := old(out[i]) + {chunk.value}]
    {
      if size > MAX_BIN_SIZE {
        return None;
      }
      FindBinFits(size);
      var c := AllocFromBin(FindBin(size), newPage);
      assert BinValid(FindBin(size));
      return Some(c);
    }

    /** The bin with the page of its last outstanding chunk taken out of all its lists. */
    method Purge(i: nat, addr: nat) returns (b: Bin)
      requires BinValid(i) && Emptied(i, addr)
      ensures BinOk(b, out[i] - {addr}) && b.size == bins[i].size && b.counts == bins[i].counts - {PageBase(addr)}
    {
      b := bins[i];
      var page := PageBase(addr);
      var free' := Sweep(b.free, page + HEADER, page + HEADER + PAGE);
      var active' := Unlist(b.active, page);
      ReturnOk(b, out[i], addr, free', active');
      b := WithoutPage(b, page, free', active');
    }

    /** `addr` is the only outstanding chunk of its page, and that is not the working page. */
    ghost predicate Emptied(i: nat, addr: nat)
      reads this
    {
      && i < |bins| && i < |out| && addr in out[i]
      && var p := PageBase(addr);
         p in bins[i].counts && bins[i].counts[p] == 1 && !(bins[i].cursor != 0 && p == PageBase(bins[i].cursor))
    }

    /** Give the page of the last outstanding chunk back to the operating system. */
    method ReturnPage(i: nat, addr: nat)
      requires Valid() && i < BIN_COUNT && Emptied(i, addr)
      modifies this
      ensures Valid() && out == old(out)[i := old(out[i]) - {addr}]
      ensures PageBase(addr) in old(owner) && owner == old(owner) - {PageBase(addr)}
      ensures acquired == old(acquired) && returned == old(returned) + multiset{PageBase(addr)}
    {
      assert BinValid(i);
      var page := PageBase(addr);
      var b := Purge(i, addr);
      OneLess(owner, page, i, bins[i], b);
      Install(i, b, out[i] - {addr}, owner - {page});
      returned := returned + multiset{page};
    }

    /** No other chunk of its page is outstanding, and that is not the working page. */
    ghost predicate LastOnPage(i: nat, addr: nat)
      reads this
      requires i < |bins| && i < |out|
    {
      && (forall c | c in out[i] && PageBase(c) == PageBase(addr) :: c == addr)
      && !(bins[i].cursor != 0 && PageBase(bins[i].cursor) == PageBase(addr))
    }

    /** `s_sba_free_to_bin`. */
    method FreeToBin(i: nat, addr: nat)
      requires Valid() && i < BIN_COUNT && addr in out[i]
      modifies this
      ensures Valid() && out == old(out)[i := old(out[i]) - {addr}]
      ensures acquired == old(acquired)
      ensures if old(LastOnPage(i, addr)) then returned == old(returned) + multiset{PageBase(addr)}
        else returned == old(returned) && bins == old(bins)[i := bins[i]] && bins[i].free == old(bins[i].free) + [addr]
    {
      assert BinValid(i);
      var b := bins[i];
      var page := PageBase(addr);
      OutIsCounted(b, out[i], addr);
      LoneIsCounted(out[i], addr);
      if b.counts[page] == 1 && page != PageBase(b.cursor) {
        ReturnPage(i, addr);
      } else {
        GiveBackOk(b, out[i], addr);
        Update(i, GiveBack(b, addr), out[i] - {addr});
      }
    }

    /** `s_sba_free`: tagged pages belong to a bin, null is ignored, the parent gets the rest. */
    method Free(addr: nat) returns (toParent: bool)
      requires Valid()
      requires PageBase(addr) in owner ==> addr in out[owner[PageBase(addr)]]
      modifies this
      ensures Valid() && toParent == (addr != 0 && PageBase(addr) !in old(owner))
      ensures PageBase(addr) in old(owner) ==>
        var i := old(owner)[PageBase(addr)]; out == old(out)[i := old(out[i]) - {addr}]
      ensures PageBase(addr) !in old(owner) ==> out == old(out) && bins == old(bins) && returned == old(returned)
      ensures acquired == old(acquired)
    {
      toParent := false;
      if addr == 0 {
        NullPage();
        return;
      }
      var page := PageBase(addr);
      if page in owner {
        FreeToBin(owner[page], addr);
        return;
      }
      return true;
    }

    lemma NullPage()
      requires Valid()
      ensures 0 !in owner
    {
      forall p | p in owner ensures p > 0 {
        assert BinValid(owner[p]);
      }
    }

    /** The loop of `s_sba_clean_up` over the active pages of a bin, then its working page. */
    method ReturnAll(i: nat)
      requires i < |bins|
      modifies this`returned
      ensures returned == old(returned) + LastPages(i)
    {
      var active := bins[i].active;
      for k := 0 to |active|
        invariant returned == old(returned) + multiset(active[..k])
      {
        assert active[..k + 1] == active[..k] + [active[k]];
        returned := returned + multiset{active[k]};
      }
      assert active[..|active|] == active;
      if bins[i].cursor != 0 {
        returned := returned + multiset{PageBase(bins[i].cursor)};
      }
    }

    /** `s_sba_clean_up`: afterwards every page ever taken has been given back exactly once. */
    method CleanUp()
      requires Valid()
      modifies this`returned
      ensures returned == acquired
    {
      assert PagesBelow(0) == {};
      for i := 0 to BIN_COUNT
        invariant returned == old(returned) + multiset(PagesBelow(i))
      {
        ReturnBin(i, old(returned));
      }
      AllPages();
    }

    /** The pages of one bin more. */
    method ReturnBin(i: nat, ghost start: multiset<nat>)
      requires Structure() && i < BIN_COUNT && returned == start + multiset(PagesBelow(i))
      modifies this`returned
      ensures returned == start + multiset(PagesBelow(i + 1))
    {
      ghost var r, p := returned, multiset(PagesBelow(i));
      ReturnAll(i);
      PagesOfBin(i);
      Accumulate(start, p, LastPages(i), r, returned, multiset(PagesBelow(i + 1)));
    }

    /** The active pages of a bin and its working page. */
    ghost function LastPages(i: nat): multiset<nat>
      reads this`bins
      requires i < |bins|
    {
      multiset(bins[i].active) + (if bins[i].cursor != 0 then multiset{PageBase(bins[i].cursor)} else multiset{})
    }

    static lemma Accumulate(start: multiset<nat>, p: multiset<nat>, d: multiset<nat>, r: multiset<nat>, r': multiset<nat>, p': multiset<nat>)
      requires r == start + p && r' == r + d && p' == p + d
      ensures r' == start + p'
    {
    }

    /** The pages of the first `n` bins. */
    ghost function PagesBelow(n: nat): set<nat>
      reads this`owner
    {
      set p | p in owner && owner[p] < n
    }

    lemma PagesOfBin(i: nat)
      requires Structure() && i < BIN_COUNT
      ensures multiset(PagesBelow(i + 1)) == multiset(PagesBelow(i)) + LastPages(i)
    {
      assert BinValid(i);
      var b := bins[i];
      var last := if b.cursor != 0 then multiset{PageBase(b.cursor)} else multiset{};
      forall p ensures multiset(PagesBelow(i + 1))[p] == (multiset(PagesBelow(i)) + multiset(b.active) + last)[p] {
        assert p in multiset(b.active) <==> p in b.active;
      }
    }

    lemma AllPages()
      requires Structure()
      ensures PagesBelow(BIN_COUNT) == owner.Keys
    {
    }
  }

  // --- what every reachable allocator guarantees -----------------------------------------

  /** Any two outstanding chunks, of one bin or of two, are disjoint and inside their pages. */
  lemma OutstandingDisjoint(a: Allocator, i: nat, j: nat, c: nat, d: nat)
    requires a.Valid() && i < BIN_COUNT && j < BIN_COUNT && c in a.out[i] && d in a.out[j] && c != d
    ensures c + a.bins[i].size <= d || d + a.bins[j].size <= c
    ensures PageBase(c) + HEADER <= c && c + a.bins[i].size <= PageBase(c) + PAGE
  {
    assert a.BinValid(i) && a.BinValid(j);
    assert Carved(a.bins[i], c) && Carved(a.bins[j], d);
    if i == j {
      ChunksDisjoint(a.bins[i], a.out[i], c, d);
    } else {
      PagesApart(PageBase(c), PageBase(d));
    }
  }

  /** A chunk is outstanding in one bin at most: its page has one owner. */
  lemma OneHolder(a: Allocator, i: nat, j: nat, c: nat)
    requires a.Valid() && i < BIN_COUNT && j < BIN_COUNT && c in a.out[i] && c in a.out[j]
    ensures i == j
  {
    assert a.BinValid(i) && a.BinValid(j);
    assert Carved(a.bins[i], c) && Carved(a.bins[j], c);
  }

  /** No entry of a free list points into a page that has been returned, or at a chunk in use. */
  lemma FreeListSound(a: Allocator, i: nat, c: nat)
    requires a.Valid() && i < BIN_COUNT && c in a.bins[i].free
    ensures PageBase(c) in a.owner && a.owner[PageBase(c)] == i && c !in a.out[i]
  {
    assert a.BinValid(i);
    assert Carved(a.bins[i], c);
  }
}
