/**
 * The memory pages of a document as values. A page hands out its bytes from the front; what was handed out
 * is a list of blocks, each live or freed.
 */
module Pages {

  const PAGE_SIZE: nat := 32768
  const LARGE_THRESHOLD: nat := PAGE_SIZE / 4

  datatype Block = Block(size: nat, live: bool)

  /** Addresses of the data from base on; busy and freed are the counters of the page. */
  datatype Page = Page(base: int, capacity: nat, busy: nat, freed: nat, blocks: seq<Block>)

  /** The bytes of the blocks before position k, which is the offset of block k. */
  function Offset(blocks: seq<Block>, k: nat): (r: nat)
    requires k <= |blocks|
  {
    if k == 0 then 0 else Offset(blocks, k - 1) + blocks[k - 1].size
  }

  /** The bytes of the freed, or of the live, blocks. */
  function Bytes(blocks: seq<Block>, live: bool): nat {
    if blocks == [] then 0
    else
      var last := blocks[|blocks| - 1];
      Bytes(blocks[..|blocks| - 1], live) + if last.live == live then last.size else 0
  }

  predicate AllFreed(blocks: seq<Block>) {
    forall k :: 0 <= k < |blocks| ==> !blocks[k].live
  }

  predicate PageGood(p: Page) {
    (forall k :: 0 <= k < |p.blocks| ==> p.blocks[k].size > 0) &&
    p.busy == Offset(p.blocks, |p.blocks|) <= p.capacity && p.freed == Bytes(p.blocks, false)
  }

  predicate Apart(p: Page, q: Page) {
    p.base + p.capacity <= q.base || q.base + q.capacity <= p.base
  }

  /** A page of the usual size, or one that a single large block fills. */
  predicate Shaped(p: Page) {
    p.capacity == PAGE_SIZE || (p.capacity > LARGE_THRESHOLD && |p.blocks| == 1 && p.busy == p.capacity)
  }

  /**
   * The page list: the first page holds the document itself; every page but the last has something live, and
   * so has the last one unless it was never used or has been reset.
   */
  predicate Good(ps: seq<Page>) {
    ps != [] && (forall i :: 0 <= i < |ps| ==> PageGood(ps[i]) && Shaped(ps[i])) &&
    (forall i, j :: 0 <= i < j < |ps| ==> Apart(ps[i], ps[j])) &&
    (forall i :: 0 <= i < |ps| ==> (i == |ps| - 1 && ps[i].blocks == []) || !AllFreed(ps[i].blocks)) &&
    ps[0].blocks == [Block(PAGE_SIZE, true)] && ps[|ps| - 1].capacity == PAGE_SIZE
  }

  // ---------- Steps ----------

  function Last(ps: seq<Page>): Page
    requires ps != []
  {
    ps[|ps| - 1]
  }

  function WithBlock(p: Page, size: nat): Page {
    p.(busy := p.busy + size, blocks := p.blocks + [Block(size, true)])
  }

  /** Room on the last page. */
  function Bumped(ps: seq<Page>, size: nat): seq<Page>
    requires ps != []
  {
    ps[|ps| - 1 := WithBlock(Last(ps), size)]
  }

  function OneBlock(base: int, capacity: nat, size: nat): Page {
    Page(base, capacity, size, 0, [Block(size, true)])
  }

  /** A new last page, or a page of its own before the last one. */
  function Extended(ps: seq<Page>, base: int, size: nat): seq<Page>
    requires ps != []
  {
    if size <= LARGE_THRESHOLD then ps + [OneBlock(base, PAGE_SIZE, size)]
    else ps[..|ps| - 1] + [OneBlock(base, size, size)] + [Last(ps)]
  }

  predicate NeedsPage(ps: seq<Page>, size: nat)
    requires ps != []
  {
    Last(ps).busy + size > PAGE_SIZE
  }

  function Allocated(ps: seq<Page>, base: int, size: nat): seq<Page>
    requires ps != []
  {
    if NeedsPage(ps, size) then Extended(ps, base, size) else Bumped(ps, size)
  }

  function Marked(p: Page, k: nat): Page
    requires k < |p.blocks|
  {
    p.(freed := p.freed + p.blocks[k].size, blocks := p.blocks[k := p.blocks[k].(live := false)])
  }

  /** A page without live blocks is reset if it is the last one, and released otherwise. */
  function Freed(ps: seq<Page>, i: nat, k: nat): seq<Page>
    requires i < |ps| && k < |ps[i].blocks|
  {
    var p := Marked(ps[i], k);
    if p.freed != p.busy then ps[i := p]
    else if i == |ps| - 1 then ps[i := p.(busy := 0, freed := 0, blocks := [])]
    else ps[..i] + ps[i + 1..]
  }

  // ---------- Accounting ----------

  lemma {:induction false} OffsetPrefix(x: seq<Block>, y: seq<Block>, k: nat)
    requires k <= |x| && k <= |y| && forall j :: 0 <= j < k ==> x[j].size == y[j].size
    ensures Offset(x, k) == Offset(y, k)
  {
    if k > 0 {
      OffsetPrefix(x, y, k - 1);
    }
  }

  lemma {:induction false} OffsetMonotone(x: seq<Block>, i: nat, j: nat)
    requires i <= j <= |x|
    ensures Offset(x, i) <= Offset(x, j)
    ensures i < j ==> Offset(x, i) + x[i].size <= Offset(x, j)
  {
    if i < j {
      OffsetMonotone(x, i, j - 1);
    }
  }

  /** Live and freed bytes together are all the bytes handed out. */
  lemma {:induction false} Conservation(blocks: seq<Block>)
    ensures Bytes(blocks, true) + Bytes(blocks, false) == Offset(blocks, |blocks|)
  {
    if blocks != [] {
      var n := |blocks| - 1;
      Conservation(blocks[..n]);
      OffsetPrefix(blocks[..n], blocks, n);
    }
  }

  /** Everything handed out is freed exactly when no block is live. */
  lemma {:induction false} FreedAll(blocks: seq<Block>)
    requires forall k :: 0 <= k < |blocks| ==> blocks[k].size > 0
    ensures Bytes(blocks, false) == Offset(blocks, |blocks|) <==> AllFreed(blocks)
  {
    Conservation(blocks);
    if blocks != [] {
      var n := |blocks| - 1;
      FreedAll(blocks[..n]);
      Conservation(blocks[..n]);
      if AllFreed(blocks[..n]) && !blocks[n].live {
        assert forall k :: 0 <= k < n ==> blocks[k] == blocks[..n][k];
      }
      if AllFreed(blocks) {
        assert forall k :: 0 <= k < n ==> blocks[..n][k] == blocks[k];
      }
    }
  }

  lemma {:induction false} MarkedBytes(blocks: seq<Block>, k: nat)
    requires k < |blocks| && blocks[k].live
    ensures var after := blocks[k := blocks[k].(live := false)];
      Bytes(after, false) == Bytes(blocks, false) + blocks[k].size && Offset(after, |after|) == Offset(blocks, |blocks|)
  {
    var after := blocks[k := blocks[k].(live := false)];
    var n := |blocks| - 1;
    OffsetPrefix(after, blocks, |blocks|);
    if k < n {
      MarkedBytes(blocks[..n], k);
      assert after[..n] == blocks[..n][k := blocks[k].(live := false)];
    } else {
      assert after[..n] == blocks[..n];
    }
  }

  lemma MarkedGood(p: Page, k: nat)
    requires PageGood(p) && Shaped(p) && k < |p.blocks| && p.blocks[k].live
    ensures var q := Marked(p, k);
      PageGood(q) && Shaped(q) && q.busy == p.busy && (q.freed == q.busy <==> AllFreed(q.blocks))
  {
    MarkedBytes(p.blocks, k);
    FreedAll(Marked(p, k).blocks);
  }

  lemma WithBlockGood(p: Page, size: nat)
    requires PageGood(p) && size > 0 && p.busy + size <= p.capacity
    ensures PageGood(WithBlock(p, size)) && !AllFreed(WithBlock(p, size).blocks)
  {
    var q := WithBlock(p, size);
    var n := |p.blocks|;
    OffsetPrefix(p.blocks, q.blocks, n);
    assert q.blocks[..n] == p.blocks;
    assert q.blocks[n].live;
  }

  // ---------- Live blocks ----------

  /** The live block k of page i is at this address. */
  predicate LiveAt(ps: seq<Page>, i: int, k: int, address: int, size: nat) {
    0 <= i < |ps| && 0 <= k < |ps[i].blocks| && ps[i].blocks[k] == Block(size, true) &&
        address == ps[i].base + Offset(ps[i].blocks, k)
  }

  ghost predicate Live(ps: seq<Page>, address: int, size: nat) {
    exists i, k :: LiveAt(ps, i, k, address, size)
  }

  /** Live blocks lie within their pages, and two of them do not overlap. */
  lemma LiveDisjoint(ps: seq<Page>, i: int, k: int, a: int, m: nat, j: int, l: int, b: int, n: nat)
    requires Good(ps) && LiveAt(ps, i, k, a, m) && LiveAt(ps, j, l, b, n)
    ensures ps[i].base <= a && a + m <= ps[i].base + ps[i].busy && m > 0
    ensures (i == j && k == l) || a + m <= b || b + n <= a
  {
    OffsetMonotone(ps[i].blocks, k, |ps[i].blocks|);
    OffsetMonotone(ps[j].blocks, l, |ps[j].blocks|);
    if i == j {
      if k < l {
        OffsetMonotone(ps[i].blocks, k, l);
      } else if l < k {
        OffsetMonotone(ps[i].blocks, l, k);
      }
    } else {
      assert Apart(ps[i], ps[j]) || Apart(ps[j], ps[i]);
    }
  }

  /** An address is that of at most one live block. */
  lemma LiveUnique(ps: seq<Page>, i: int, k: int, m: nat, j: int, l: int, n: nat, a: int)
    requires Good(ps) && LiveAt(ps, i, k, a, m) && LiveAt(ps, j, l, a, n)
    ensures i == j && k == l && m == n
  {
    hide Good, Offset;
    LiveDisjoint(ps, i, k, a, m, j, l, a, n);
    LiveDisjoint(ps, j, l, a, n, i, k, a, m);
  }

  // ---------- Allocation ----------

  predicate FreeRange(ps: seq<Page>, base: int, capacity: nat) {
    forall i :: 0 <= i < |ps| ==> ps[i].base + ps[i].capacity <= base || base + capacity <= ps[i].base
  }

  /** The first request of a document must be small: a large page needs a page before the last one. */
  predicate CanAllocate(ps: seq<Page>, base: int, size: nat)
    requires ps != []
  {
    size > 0 &&
    (NeedsPage(ps, size) ==>
        FreeRange(ps, base, if size <= LARGE_THRESHOLD then PAGE_SIZE else size) &&
        (size > LARGE_THRESHOLD ==> |ps| > 1))
  }

  function NewAddress(ps: seq<Page>, base: int, size: nat): int
    requires ps != []
  {
    if NeedsPage(ps, size) then base else Last(ps).base + Last(ps).busy
  }

  lemma BumpedGood(ps: seq<Page>, size: nat)
    requires Good(ps) && size > 0 && !NeedsPage(ps, size)
    ensures Good(Bumped(ps, size)) && |ps| > 1
  {
    hide Offset, Bytes;
    var n := |ps| - 1;
    assert n == 0 ==> ps[0].busy == PAGE_SIZE by { DocumentPage(ps); }
    WithBlockGood(ps[n], size);
  }

  lemma DocumentPage(ps: seq<Page>)
    requires Good(ps)
    ensures ps[0].busy == PAGE_SIZE
  {
    var b := ps[0].blocks;
    assert Offset(b, 1) == Offset(b, 0) + b[0].size;
  }

  lemma OneBlockGood(base: int, capacity: nat, size: nat)
    requires 0 < size <= capacity
    ensures PageGood(OneBlock(base, capacity, size)) && !AllFreed(OneBlock(base, capacity, size).blocks)
  {
    var p := OneBlock(base, capacity, size);
    assert Offset(p.blocks, 1) == Offset(p.blocks, 0) + size;
    assert p.blocks[..0] == [] && p.blocks[0].live;
  }

  lemma ExtendedGood(ps: seq<Page>, base: int, size: nat)
    requires Good(ps) && CanAllocate(ps, base, size) && NeedsPage(ps, size)
    ensures Good(Extended(ps, base, size))
  {
    hide Offset, Bytes, PageGood, AllFreed;
    var n := |ps| - 1;
    if size <= LARGE_THRESHOLD {
      OneBlockGood(base, PAGE_SIZE, size);
      UsedPage(ps[n]);
    } else {
      OneBlockGood(base, size, size);
      var q := Extended(ps, base, size);
      assert forall i :: 0 <= i < n ==> q[i] == ps[i];
      assert q[n] == OneBlock(base, size, size) && q[n + 1] == ps[n];
    }
  }

  lemma UsedPage(p: Page)
    requires PageGood(p)
    ensures p.busy > 0 ==> p.blocks != []
  {
  }

  lemma AllocatedGood(ps: seq<Page>, base: int, size: nat)
    requires Good(ps) && CanAllocate(ps, base, size)
    ensures Good(Allocated(ps, base, size))
  {
    hide Good, Bumped, Extended;
    LastIs(ps);
    if NeedsPage(ps, size) {
      ExtendedGood(ps, base, size);
    } else {
      BumpedGood(ps, size);
    }
  }

  /** Allocation adds one live block and leaves the others alone. */
  lemma AllocatedLive(ps: seq<Page>, base: int, size: nat, a: int, m: nat)
    requires Good(ps) && CanAllocate(ps, base, size)
    ensures Live(Allocated(ps, base, size), a, m) <==> Live(ps, a, m) || (a == NewAddress(ps, base, size) && m == size)
  {
    hide Good, Shaped, Apart;
    LastIs(ps);
    if NeedsPage(ps, size) {
      if size <= LARGE_THRESHOLD {
        SmallLive(ps, base, size, a, m);
      } else {
        LargeLive(ps, base, size, a, m);
      }
    } else {
      BumpedLive(ps, size, a, m);
    }
  }

  lemma LastIs(ps: seq<Page>)
    requires Good(ps)
    ensures ps != [] && Last(ps).busy == Offset(Last(ps).blocks, |Last(ps).blocks|)
  {
  }

  lemma BumpedLive(ps: seq<Page>, size: nat, a: int, m: nat)
    requires ps != [] && Last(ps).busy == Offset(Last(ps).blocks, |Last(ps).blocks|)
    ensures Live(Bumped(ps, size), a, m) <==> Live(ps, a, m) || (a == Last(ps).base + Last(ps).busy && m == size)
  {
    hide Offset;
    var q, n := Bumped(ps, size), |ps| - 1;
    var was, grown := ps[n].blocks, q[n].blocks;
    forall k: nat | k <= |was|
      ensures Offset(was, k) == Offset(grown, k)
    {
      OffsetPrefix(was, grown, k);
    }
    if Live(q, a, m) {
      var i, k :| LiveAt(q, i, k, a, m);
      assert i != n || k < |was| ==> LiveAt(ps, i, k, a, m);
    }
    if Live(ps, a, m) {
      var i, k :| LiveAt(ps, i, k, a, m);
      assert LiveAt(q, i, k, a, m);
    }
    assert LiveAt(q, n, |was|, Last(ps).base + Last(ps).busy, size);
  }

  lemma SmallLive(ps: seq<Page>, base: int, size: nat, a: int, m: nat)
    ensures var q := ps + [OneBlock(base, PAGE_SIZE, size)];
      Live(q, a, m) <==> Live(ps, a, m) || (a == base && m == size)
  {
    var q := ps + [OneBlock(base, PAGE_SIZE, size)];
    assert Offset(q[|ps|].blocks, 0) == 0;
    if Live(q, a, m) {
      var i, k :| LiveAt(q, i, k, a, m);
      assert i < |ps| ==> LiveAt(ps, i, k, a, m);
    }
    if Live(ps, a, m) {
      var i, k :| LiveAt(ps, i, k, a, m);
      assert LiveAt(q, i, k, a, m);
    }
    assert LiveAt(q, |ps|, 0, base, size);
  }

  lemma LargeLive(ps: seq<Page>, base: int, size: nat, a: int, m: nat)
    requires ps != [] && size > LARGE_THRESHOLD
    ensures Live(Extended(ps, base, size), a, m) <==> Live(ps, a, m) || (a == base && m == size)
  {
    var q, n := Extended(ps, base, size), |ps| - 1;
    assert (forall i :: 0 <= i < n ==> q[i] == ps[i]) && q[n] == OneBlock(base, size, size) && q[n + 1] == ps[n];
    assert Offset(q[n].blocks, 0) == 0;
    if Live(q, a, m) {
      var i, k :| LiveAt(q, i, k, a, m);
      assert i != n ==> LiveAt(ps, if i < n then i else n, k, a, m);
    }
    if Live(ps, a, m) {
      var i, k :| LiveAt(ps, i, k, a, m);
      assert LiveAt(q, if i < n then i else n + 1, k, a, m);
    }
    assert LiveAt(q, n, 0, base, size);
  }

  // ---------- Deallocation ----------

  lemma FreedGood(ps: seq<Page>, i: nat, k: nat)
    requires Good(ps) && 0 < i < |ps| && k < |ps[i].blocks| && ps[i].blocks[k].live
    ensures Good(Freed(ps, i, k))
  {
    hide Offset, Bytes, PageGood;
    var p, q := Marked(ps[i], k), Freed(ps, i, k);
    MarkedGood(ps[i], k);
    if p.freed != p.busy {
    } else if i == |ps| - 1 {
      ResetGood(p);
    } else {
      assert forall j :: 0 <= j < |q| ==> q[j] == ps[if j < i then j else j + 1];
    }
  }

  lemma ResetGood(p: Page)
    requires PageGood(p) && p.capacity == PAGE_SIZE
    ensures var q := p.(busy := 0, freed := 0, blocks := []); PageGood(q) && Shaped(q)
  {
  }

  /** Deallocation removes the block and leaves the other live blocks alone. */
  lemma FreedLive(ps: seq<Page>, i: nat, k: nat, address: int, size: nat, a: int, m: nat)
    requires Good(ps) && 0 < i && LiveAt(ps, i, k, address, size)
    ensures Live(Freed(ps, i, k), a, m) <==> Live(ps, a, m) && a != address
  {
    hide Good;
    var p, q := Marked(ps[i], k), Freed(ps, i, k);
    var marked := ps[i := p];
    GoodPage(ps, i);
    MarkedGood(ps[i], k);
    MarkedLive(ps, i, k, address, size, a, m);
    if p.freed == p.busy {
      if i == |ps| - 1 {
        NothingLive(marked, q, i, p.(busy := 0, freed := 0, blocks := []), a, m);
      } else {
        RemovedLive(marked, i, a, m);
        assert q == marked[..i] + marked[i + 1..];
      }
    }
  }

  lemma GoodPage(ps: seq<Page>, i: nat)
    requires Good(ps) && i < |ps|
    ensures PageGood(ps[i]) && Shaped(ps[i])
  {
  }

  lemma MarkedLive(ps: seq<Page>, i: nat, k: nat, address: int, size: nat, a: int, m: nat)
    requires Good(ps) && LiveAt(ps, i, k, address, size)
    ensures Live(ps[i := Marked(ps[i], k)], a, m) <==> Live(ps, a, m) && a != address
  {
    hide Good, Offset;
    var q := ps[i := Marked(ps[i], k)];
    forall l: nat | l <= |ps[i].blocks|
      ensures Offset(ps[i].blocks, l) == Offset(q[i].blocks, l)
    {
      OffsetPrefix(ps[i].blocks, q[i].blocks, l);
    }
    if Live(q, a, m) {
      var j, l :| LiveAt(q, j, l, a, m);
      assert LiveAt(ps, j, l, a, m);
      if a == address {
        LiveUnique(ps, i, k, size, j, l, m, a);
      }
    }
    if Live(ps, a, m) && a != address {
      var j, l :| LiveAt(ps, j, l, a, m);
      assert LiveAt(q, j, l, a, m);
    }
  }

  lemma NothingLive(ps: seq<Page>, q: seq<Page>, i: nat, p: Page, a: int, m: nat)
    requires i < |ps| && AllFreed(ps[i].blocks) && p.blocks == [] && q == ps[i := p]
    ensures Live(q, a, m) <==> Live(ps, a, m)
  {
    hide Offset;
    if Live(q, a, m) {
      var j, l :| LiveAt(q, j, l, a, m);
      assert LiveAt(ps, j, l, a, m);
    }
    if Live(ps, a, m) {
      var j, l :| LiveAt(ps, j, l, a, m);
      assert LiveAt(q, j, l, a, m);
    }
  }

  lemma RemovedLive(ps: seq<Page>, i: nat, a: int, m: nat)
    requires i < |ps| && AllFreed(ps[i].blocks)
    ensures Live(ps[..i] + ps[i + 1..], a, m) <==> Live(ps, a, m)
  {
    hide Offset;
    var q := ps[..i] + ps[i + 1..];
    assert forall j :: 0 <= j < |q| ==> q[j] == ps[if j < i then j else j + 1];
    if Live(q, a, m) {
      var j, l :| LiveAt(q, j, l, a, m);
      assert LiveAt(ps, if j < i then j else j + 1, l, a, m);
    }
    if Live(ps, a, m) {
      var j, l :| LiveAt(ps, j, l, a, m);
      assert j != i;
      assert LiveAt(q, if j < i then j else j - 1, l, a, m);
    }
  }

  // ---------- A block stays where it is ----------

  /** The page of a live block after an allocation. */
  lemma AllocatedKeeps(ps: seq<Page>, base: int, size: nat, i: nat, k: nat, a: int, m: nat) returns (j: nat)
    requires Good(ps) && CanAllocate(ps, base, size) && LiveAt(ps, i, k, a, m)
    ensures LiveAt(Allocated(ps, base, size), j, k, a, m) && Allocated(ps, base, size)[j].base == ps[i].base &&
      (i > 0 ==> j > 0)
    ensures i < |ps| - 1 ==> Allocated(ps, base, size)[j] == ps[i]
  {
    hide Good;
    LastIs(ps);
    var q, n := Allocated(ps, base, size), |ps| - 1;
    j := i;
    if NeedsPage(ps, size) {
      if size > LARGE_THRESHOLD {
        assert (forall l :: 0 <= l < n ==> q[l] == ps[l]) && q[n + 1] == ps[n];
        j := if i < n then i else n + 1;
      } else {
        assert forall l :: 0 <= l < |ps| ==> q[l] == ps[l];
      }
    } else if i == n {
      OffsetPrefix(ps[n].blocks, q[n].blocks, k);
    }
  }

  /** The page of a live block after another block was freed. */
  lemma FreedKeeps(ps: seq<Page>, i0: nat, k0: nat, a0: int, m0: nat, i: nat, k: nat, a: int, m: nat) returns (j: nat)
    requires Good(ps) && 0 < i0 && LiveAt(ps, i0, k0, a0, m0) && LiveAt(ps, i, k, a, m) && a != a0
    ensures LiveAt(Freed(ps, i0, k0), j, k, a, m) && Freed(ps, i0, k0)[j].base == ps[i].base && (i > 0 ==> j > 0)
    ensures Freed(ps, i0, k0)[j].busy == ps[i].busy
  {
    hide Good;
    GoodPage(ps, i0);
    MarkedGood(ps[i0], k0);
    var p, q := Marked(ps[i0], k0), Freed(ps, i0, k0);
    j := i;
    if i == i0 {
      OffsetPrefix(ps[i].blocks, p.blocks, k);
      assert p.blocks[k].live;
    } else if p.freed == p.busy && i0 < |ps| - 1 {
      assert forall l :: 0 <= l < |q| ==> q[l] == ps[if l < i0 then l else l + 1];
      j := if i < i0 then i else i - 1;
    }
  }

  // ---------- Strings ----------

  const HEADER_SIZE: nat := 4
  const WORD_SIZE: nat := 8
  const SHORT_LIMIT: nat := 65536

  /** What precedes a string: its offset in the page, and its size unless it fills a page of its own. */
  datatype StringHeader = StringHeader(pageOffset: nat, fullSize: nat)

  /** The bytes charged for a string of that length, header included. */
  function FullSize(length: nat): (r: nat)
    ensures HEADER_SIZE + length <= r < HEADER_SIZE + length + WORD_SIZE && r % WORD_SIZE == 0 && r > 0
  {
    (HEADER_SIZE + length + WORD_SIZE - 1) / WORD_SIZE * WORD_SIZE
  }

  /** A live string block at address h of page i, with a header that describes it. */
  predicate StringAt(ps: seq<Page>, i: nat, k: nat, h: int, size: nat, header: StringHeader) {
    0 < i && LiveAt(ps, i, k, h, size) && header.pageOffset == h - ps[i].base &&
    (if size < SHORT_LIMIT then header.fullSize == size
     else header.fullSize == 0 && ps[i].busy == size && i < |ps| - 1) && size > 0
  }

  ghost predicate StringOk(ps: seq<Page>, h: int, size: nat, header: StringHeader) {
    exists i: nat, k: nat :: StringAt(ps, i, k, h, size, header)
  }

  lemma StringAllocated(ps: seq<Page>, base: int, size: nat, h: int, m: nat, header: StringHeader)
    requires Good(ps) && CanAllocate(ps, base, size) && StringOk(ps, h, m, header)
    ensures StringOk(Allocated(ps, base, size), h, m, header)
  {
    hide Good, Allocated;
    var i: nat, k: nat :| StringAt(ps, i, k, h, m, header);
    var j := AllocatedKeeps(ps, base, size, i, k, h, m);
    AllocatedGood(ps, base, size);
    if m >= SHORT_LIMIT {
      BigNotLast(Allocated(ps, base, size), j, k, h, m);
    }
    assert StringAt(Allocated(ps, base, size), j, k, h, m, header);
  }

  /** A string longer than a page is not on the last page. */
  lemma BigNotLast(ps: seq<Page>, j: nat, k: nat, h: int, m: nat)
    requires Good(ps) && LiveAt(ps, j, k, h, m) && m >= SHORT_LIMIT
    ensures j < |ps| - 1
  {
    LiveDisjoint(ps, j, k, h, m, j, k, h, m);
  }

  lemma StringFreed(ps: seq<Page>, i0: nat, k0: nat, a0: int, m0: nat, h: int, m: nat, header: StringHeader)
    requires Good(ps) && 0 < i0 && LiveAt(ps, i0, k0, a0, m0) && StringOk(ps, h, m, header) && h != a0
    ensures StringOk(Freed(ps, i0, k0), h, m, header)
  {
    hide Good;
    var i: nat, k: nat :| StringAt(ps, i, k, h, m, header);
    var j := FreedKeeps(ps, i0, k0, a0, m0, i, k, h, m);
    FreedGood(ps, i0, k0);
    if m >= SHORT_LIMIT {
      BigNotLast(Freed(ps, i0, k0), j, k, h, m);
    }
    assert StringAt(Freed(ps, i0, k0), j, k, h, m, header);
  }

  /** The page of a new block. */
  function NewIndex(ps: seq<Page>, size: nat): nat
    requires ps != []
  {
    if NeedsPage(ps, size) && size <= LARGE_THRESHOLD then |ps| else |ps| - 1
  }

  /** The header just written describes the block just allocated, and fits its 16-bit fields. */
  lemma StringWritten(ps: seq<Page>, base: int, size: nat) returns (i: nat, k: nat)
    requires Good(ps) && CanAllocate(ps, base, size)
    ensures i == NewIndex(ps, size)
    ensures var q, h := Allocated(ps, base, size), NewAddress(ps, base, size);
      LiveAt(q, i, k, h, size) && 0 < i && 0 <= h - q[i].base < SHORT_LIMIT &&
      StringAt(q, i, k, h, size, StringHeader(h - q[i].base, if size < SHORT_LIMIT then size else 0))
  {
    hide Bumped, Extended;
    LastIs(ps);
    AllocatedGood(ps, base, size);
    AllocatedAt(ps, base, size);
    i, k := NewIndex(ps, size), if NeedsPage(ps, size) then 0 else |Last(ps).blocks|;
  }

  lemma AllocatedAt(ps: seq<Page>, base: int, size: nat)
    requires Good(ps) && CanAllocate(ps, base, size)
    ensures var q, h := Allocated(ps, base, size), NewAddress(ps, base, size);
      var i, k := NewIndex(ps, size), if NeedsPage(ps, size) then 0 else |Last(ps).blocks|;
      0 < i && LiveAt(q, i, k, h, size) && 0 <= h - q[i].base < SHORT_LIMIT &&
          (size >= SHORT_LIMIT ==> q[i].busy == size && i < |q| - 1)
  {
    var q, n := Allocated(ps, base, size), |ps| - 1;
    if !NeedsPage(ps, size) {
      BumpedGood(ps, size);
      OffsetPrefix(ps[n].blocks, q[n].blocks, |ps[n].blocks|);
    } else {
      NewBlockAt(ps, base, size);
    }
  }

  lemma NewBlockAt(ps: seq<Page>, base: int, size: nat)
    requires ps != [] && size > 0
    ensures var q, i := Extended(ps, base, size), if size <= LARGE_THRESHOLD then |ps| else |ps| - 1;
      LiveAt(q, i, 0, base, size) && q[i].base == base && q[i].busy == size && |q| == |ps| + 1
  {
    var q := Extended(ps, base, size);
    assert size > LARGE_THRESHOLD ==> q[|ps| - 1] == OneBlock(base, size, size);
  }
}
