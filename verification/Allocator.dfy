/**
 * The page allocator of a document: a doubly linked list of pages, the last of which hands out memory. The
 * addresses of new pages come from outside.
 */
module Allocator {
  import opened Pages

  class PageNode {
    const base: int
    const capacity: nat
    var prev: PageNode?
    var next: PageNode?
    var busySize: nat
    var freedSize: nat
    ghost var blocks: seq<Block>

    constructor (base: int, capacity: nat)
      ensures this.base == base && this.capacity == capacity && prev == null && next == null
      ensures busySize == 0 && freedSize == 0 && blocks == []
    {
      this.base, this.capacity, prev, next, busySize, freedSize, blocks := base, capacity, null, null, 0, 0, [];
    }
  }

  class Allocator {
    var root: PageNode
    /** The busy size of the last page; its own counter is brought up to date when it matters. */
    var busySize: nat
    ghost var list: seq<PageNode>
    /** Memory as far as it matters here: string headers and the pages themselves, by address. */
    var headers: map<int, StringHeader>
    var pageAt: map<int, PageNode>
    /** The live strings by the addresses of their headers, with the sizes charged. */
    ghost var strings: map<int, nat>

    /** The pages are linked both ways, without repeats, and the last one is the root. */
    ghost predicate Linked()
      reads this`root, this`list, list`prev, list`next
    {
      list != [] && root == list[|list| - 1] && list[0].prev == null && root.next == null &&
      (forall i, j :: 0 <= i < j < |list| ==> list[i] != list[j]) &&
      (forall i :: 0 <= i < |list| - 1 ==> list[i].next == list[i + 1] && list[i + 1].prev == list[i])
    }

    ghost function View(i: nat): Page
      requires i < |list|
      reads this`list, this`busySize, list
    {
      var busy := if i == |list| - 1 then busySize else list[i].busySize;
      Page(list[i].base, list[i].capacity, busy, list[i].freedSize, list[i].blocks)
    }

    ghost function Views(n: nat): (ps: seq<Page>)
      requires n <= |list|
      reads this`list, this`busySize, list
      ensures |ps| == n && forall i :: 0 <= i < n ==> ps[i] == View(i)
    {
      if n == 0 then [] else Views(n - 1) + [View(n - 1)]
    }

    ghost function Abs(): (ps: seq<Page>)
      reads this`list, this`busySize, list
      ensures |ps| == |list| && forall i :: 0 <= i < |list| ==> ps[i] == View(i)
    {
      Views(|list|)
    }

    ghost predicate Valid()
      reads this, list
    {
      Linked() && Good(Abs()) && StringsKnown() && Mapped()
    }

    /** A page is found at its address. */
    ghost predicate Mapped()
      reads this`list, this`pageAt
    {
      forall p :: p in list ==> p.base in pageAt && pageAt[p.base] == p
    }

    ghost predicate StringsKnown()
      reads this`list, this`busySize, list, this`strings, this`headers
    {
      forall h :: h in strings ==> h in headers && StringOk(Abs(), h, strings[h], headers[h])
    }

    /** The page inside the document holds the document itself and is full. */
    constructor (base: int)
      ensures Valid() && Abs() == [Page(base, PAGE_SIZE, PAGE_SIZE, 0, [Block(PAGE_SIZE, true)])] && fresh(list)
    {
      var page := new PageNode(base, PAGE_SIZE);
      page.busySize := PAGE_SIZE;
      page.blocks := [Block(PAGE_SIZE, true)];
      root, busySize, list := page, PAGE_SIZE, [page];
      headers, pageAt, strings := map[], map[base := page], map[];
      new;
      DocumentGood(base);
      assert Abs() == [Page(base, PAGE_SIZE, PAGE_SIZE, 0, [Block(PAGE_SIZE, true)])];
    }

    /** From the last page if there is room, otherwise out of band. */
    method AllocateMemory(size: nat, base: int) returns (address: int, page: PageNode, ghost i: nat, ghost k: nat)
      requires Valid() && CanAllocate(Abs(), base, size)
      modifies this, list
      ensures Valid() && Abs() == Allocated(old(Abs()), base, size) && address == NewAddress(old(Abs()), base, size)
      ensures page in list && fresh(set p | p in list && p !in old(list)) && headers == old(headers) &&
          strings == old(strings)
      ensures i < |list| && list[i] == page && LiveAt(Abs(), i, k, address, size) &&
          0 <= address - page.base < SHORT_LIMIT
      ensures StringAt(Abs(), i, k, address, size,
        StringHeader(address - page.base, if size < SHORT_LIMIT then size else 0))
    {
      hide Good, Bumped, Extended, StringOk, LiveAt, StringAt, NewAddress, CanAllocate;
      ghost var before := Abs();
      AllocatedGood(before, base, size);
      i, k := StringWritten(before, base, size);
      StringsStay(base, size);
      address, page := Obtain(size, base);
    }

    /** The space itself, without regard to the strings. */
    method Obtain(size: nat, base: int) returns (address: int, page: PageNode)
      requires Linked() && Mapped() && Good(Abs()) && CanAllocate(Abs(), base, size)
      modifies this, list
      ensures Linked() && Mapped() && Abs() == Allocated(old(Abs()), base, size) &&
        address == NewAddress(old(Abs()), base, size)
      ensures NewIndex(old(Abs()), size) < |list| && list[NewIndex(old(Abs()), size)] == page && page in list
      ensures fresh(set p | p in list && p !in old(list)) && headers == old(headers) && strings == old(strings)
    {
      hide Good, Bumped, Extended;
      if busySize + size > PAGE_SIZE {
        NewBase(base, size);
        address, page := AllocateMemoryOob(size, base);
        pageAt := pageAt[base := page];
      } else {
        address, page := root.base + busySize, root;
        Bump(size);
      }
    }

    lemma StringsStay(base: int, size: nat)
      requires Valid() && CanAllocate(Abs(), base, size)
      ensures forall h :: h in strings ==> StringOk(Allocated(Abs(), base, size), h, strings[h], headers[h])
    {
      hide Good, StringOk, LiveAt, CanAllocate;
      forall h | h in strings
        ensures StringOk(Allocated(Abs(), base, size), h, strings[h], headers[h])
      {
        StringAllocated(Abs(), base, size, h, strings[h], headers[h]);
      }
    }

    lemma NewBase(base: int, size: nat)
      requires Good(Abs()) && CanAllocate(Abs(), base, size) && NeedsPage(Abs(), size)
      ensures forall p :: p in list ==> p.base != base
    {
      hide Good;
      BasesDiffer(Abs(), base, size);
      assert forall i :: 0 <= i < |list| ==> list[i].base == Abs()[i].base;
    }

    method Bump(size: nat)
      requires Linked()
      modifies this`busySize, root`blocks
      ensures Linked() && Abs() == Bumped(old(Abs()), size) && list == old(list) && root == old(root)
    {
      busySize := busySize + size;
      root.blocks := root.blocks + [Block(size, true)];
    }

    method AllocateMemoryOob(size: nat, base: int) returns (address: int, page: PageNode)
      requires Linked() && size > 0 && (size > LARGE_THRESHOLD ==> |list| > 1)
      modifies this`root, this`busySize, this`list, list
      ensures Linked() && Abs() == Extended(old(Abs()), base, size) && address == base
      ensures fresh(page) && page.base == base && |list| == |old(list)| + 1
      ensures list[if size <= LARGE_THRESHOLD then |old(list)| else |old(list)| - 1] == page
      ensures forall p :: p in list ==> p == page || p in old(list)
    {
      hide Allocator.Linked, Allocator.Abs;
      page := new PageNode(base, if size <= LARGE_THRESHOLD then PAGE_SIZE else size);
      page.busySize := size;
      page.blocks := [Block(size, true)];
      address := base;
      if size <= LARGE_THRESHOLD {
        AppendPage(page, size);
      } else {
        InsertPage(page, size);
      }
    }

    /** The new page becomes the last one. */
    method AppendPage(page: PageNode, size: nat)
      requires Linked() && page !in list && page.prev == null && page.next == null && page.busySize == size
      requires page.capacity == PAGE_SIZE && page.freedSize == 0 && page.blocks == [Block(size, true)]
      modifies this`root, this`busySize, this`list, list, page
      ensures Linked() && list == old(list) + [page] && Abs() == old(Abs()) + [OneBlock(page.base, PAGE_SIZE, size)]
    {
      hide Allocator.Linked;
      ghost var before := Abs();
      RootLast();
      root.busySize := busySize;
      LinkLast(page);
      busySize := size;
      assert forall i :: 0 <= i < |before| ==> Abs()[i] == before[i];
    }

    method LinkLast(page: PageNode)
      requires Linked() && page !in list && page.prev == null && page.next == null
      modifies this`root, this`list, list`next, page`prev
      ensures Linked() && list == old(list) + [page] && root == page
    {
      page.prev := root;
      root.next := page;
      root := page;
      list := list + [page];
    }

    /** The new page goes before the last one. */
    method InsertPage(page: PageNode, ghost size: nat)
      requires Linked() && |list| > 1 && page !in list && page.busySize == page.capacity == size
      requires page.freedSize == 0 && page.blocks == [Block(size, true)]
      modifies list, page, this`list
      ensures Linked() && list == old(list)[..|old(list)| - 1] + [page] + old(list)[|old(list)| - 1..]
      ensures Abs() == old(Abs())[..|old(list)| - 1] + [OneBlock(page.base, size, size)] + [Last(old(Abs()))]
    {
      hide Allocator.Linked, Allocator.Abs;
      ghost var before, n := Abs(), |list| - 1;
      RootLast();
      LinkBeforeRoot(page);
      assert forall i :: 0 <= i < n ==> Abs()[i] == before[i];
    }

    lemma RootLast()
      requires Linked()
      ensures list != [] && root == list[|list| - 1] && root in list
    {
    }

    method LinkBeforeRoot(page: PageNode)
      requires Linked() && |list| > 1 && page !in list
      modifies list`prev, list`next, page`prev, page`next, this`list
      ensures Linked() && list == old(list)[..|old(list)| - 1] + [page] + old(list)[|old(list)| - 1..]
    {
      ghost var n, oldList := |list| - 1, list;
      var prev := root.prev;
      assert prev == list[n - 1] by { assert list[n - 1].next == list[n - 1 + 1]; }
      page.prev := prev;
      page.next := root;
      prev.next := page;
      root.prev := page;
      list := list[..n] + [page] + [root];
      assert forall i :: 0 <= i < n ==> list[i] == oldList[i];
    }

    /** A block is given back with its own size; a page without live blocks is reset or released. */
    method DeallocateMemory(address: int, size: nat, page: PageNode, ghost i: nat, ghost k: nat)
      requires Valid() && 0 < i < |list| && list[i] == page && LiveAt(Abs(), i, k, address, size) && address !in strings
      modifies this, list
      ensures Valid() && Abs() == Freed(old(Abs()), i, k) && strings == old(strings) && headers == old(headers)
      ensures forall p :: p in list ==> p in old(list)
      ensures page !in list <==> i < |old(list)| - 1 && old(Marked(View(i), k).freed) == old(View(i).busy)
    {
      hide Good, LiveAt, StringOk, Freed, Marked;
      ghost var before := Abs();
      LiveBlock(before, i, k, address, size);
      FreedGood(before, i, k);
      forall h | h in strings
        ensures StringOk(Freed(before, i, k), h, strings[h], headers[h])
      {
        StringFreed(before, i, k, address, size, h, strings[h], headers[h]);
      }
      Drop(size, page, i, k);
    }

    /** The counters, and what becomes of the page. */
    method Drop(size: nat, page: PageNode, ghost i: nat, ghost k: nat)
      requires Linked() && 0 < i < |list| && list[i] == page && k < |page.blocks| && page.blocks[k].size == size
      modifies this`busySize, this`list, list
      ensures Linked() && Abs() == Freed(old(Abs()), i, k) && root == old(root)
      ensures forall p :: p in list ==> p in old(list)
      ensures page !in list <==> i < |old(list)| - 1 && old(Marked(View(i), k).freed) == old(View(i).busy)
    {
      ghost var before := Abs();
      hide Allocator.Linked, Allocator.Abs;
      Mark(size, page, i, k);
      ghost var p := Marked(before[i], k);
      ghost var q := p.(busy := 0, freed := 0, blocks := []);
      assert before[i := p][i := q] == before[i := q];
      assert before[i := p][..i] == before[..i] && before[i := p][i + 1..] == before[i + 1..];
      if page.freedSize == page.busySize {
        NextOf(i);
        if page.next == null {
          Reset(page, i);
        } else {
          Released(i);
          Release(page, i);
        }
      }
    }

    lemma Released(i: nat)
      requires Linked() && i < |list|
      ensures forall j :: 0 <= j < |list| && j != i ==> list[j] != list[i]
    {
    }

    method Mark(size: nat, page: PageNode, ghost i: nat, ghost k: nat)
      requires Linked() && i < |list| && list[i] == page && k < |page.blocks| && page.blocks[k].size == size
      modifies page`busySize, page`freedSize, page`blocks
      ensures Linked() && Abs() == old(Abs())[i := Marked(old(Abs())[i], k)] && page.busySize == Abs()[i].busy
    {
      if page == root {
        page.busySize := busySize;
      }
      page.freedSize := page.freedSize + size;
      page.blocks := page.blocks[k := page.blocks[k].(live := false)];
    }

    lemma NextOf(i: nat)
      requires Linked() && i < |list|
      ensures list[i].next == if i < |list| - 1 then list[i + 1] else null
    {
    }

    /** The last page is kept. */
    method Reset(page: PageNode, ghost i: nat)
      requires Linked() && i < |list| && list[i] == page && page.next == null
      modifies page`busySize, page`freedSize, page`blocks, this`busySize
      ensures Linked() && i == |list| - 1 &&
          Abs() == old(Abs())[i := old(Abs())[i].(busy := 0, freed := 0, blocks := [])]
    {
      NextOf(i);
      page.busySize, page.freedSize := 0, 0;
      busySize := 0;
      page.blocks := [];
    }

    /** Any other page leaves the list. */
    method Release(page: PageNode, ghost i: nat)
      requires Linked() && 0 < i < |list| && list[i] == page && page.next != null
      modifies list, this`list
      ensures Linked() && i < |old(list)| - 1 && list == old(list)[..i] + old(list)[i + 1..]
      ensures Abs() == old(Abs())[..i] + old(Abs())[i + 1..]
    {
      hide Allocator.Linked;
      ghost var before, oldList := Abs(), list;
      Unlink(page, i);
      assert forall j :: 0 <= j < |list| ==> list[j] == oldList[if j < i then j else j + 1];
      assert forall j :: 0 <= j < |list| ==> Abs()[j] == before[if j < i then j else j + 1];
    }

    method Unlink(page: PageNode, ghost i: nat)
      requires Linked() && 0 < i < |list| && list[i] == page && page.next != null
      modifies list`prev, list`next, this`list
      ensures Linked() && i < |old(list)| - 1 && list == old(list)[..i] + old(list)[i + 1..]
    {
      ghost var oldList := list;
      assert i < |list| - 1;
      assert list[i - 1].next == list[i - 1 + 1] && list[i - 1 + 1].prev == list[i - 1];
      assert list[i].next == list[i + 1];
      page.prev.next := page.next;
      page.next.prev := page.prev;
      list := list[..i] + list[i + 1..];
      assert forall j :: 0 <= j < |list| ==> list[j] == oldList[if j < i then j else j + 1];
    }

    // ---------- Strings ----------

    /** A block with a header in front; the header says where the page is and how much was charged. */
    method AllocateString(length: nat, base: int) returns (text: int)
      requires Valid() && CanAllocate(Abs(), base, FullSize(length))
      modifies this, list
      ensures Valid() && Abs() == Allocated(old(Abs()), base, FullSize(length))
      ensures text - HEADER_SIZE == NewAddress(old(Abs()), base, FullSize(length))
      ensures strings == old(strings)[text - HEADER_SIZE := FullSize(length)]
      ensures fresh(set p | p in list && p !in old(list))
    {
      hide Good, Allocated, LiveAt, FullSize;
      var fullSize := FullSize(length);
      var address, page;
      ghost var i, k;
      address, page, i, k := AllocateMemory(fullSize, base);
      var header := StringHeader(address - page.base, if fullSize < SHORT_LIMIT then fullSize else 0);
      Register(address, fullSize, header, i, k);
      text := address + HEADER_SIZE;
    }

    /** The header is written in front of the string. */
    method Register(address: int, fullSize: nat, header: StringHeader, ghost i: nat, ghost k: nat)
      requires Valid() && StringAt(Abs(), i, k, address, fullSize, header)
      modifies this`headers, this`strings
      ensures Valid() && Abs() == old(Abs()) && strings == old(strings)[address := fullSize]
    {
      hide Good, StringAt, Allocator.Linked, Allocator.Mapped, Allocator.Abs;
      headers := headers[address := header];
      strings := strings[address := fullSize];
    }

    /** The page and the size are recovered from the header alone, and are those of the string. */
    method DeallocateString(text: int)
      requires Valid() && text - HEADER_SIZE in strings
      modifies this, list
      ensures Valid() && strings == old(strings) - {text - HEADER_SIZE}
      ensures forall a, m :: Live(Abs(), a, m) <==> old(Live(Abs(), a, m)) && a != text - HEADER_SIZE
    {
      hide Good, LiveAt, Freed;
      ghost var before := Abs();
      var address := text - HEADER_SIZE;
      var page, fullSize;
      ghost var i, k;
      page, fullSize, i, k := Recover(address);
      LiveBlock(before, i, k, address, fullSize);
      strings := strings - {address};
      DeallocateMemory(address, fullSize, page, i, k);
      forall a, m
        ensures Live(Freed(before, i, k), a, m) <==> Live(before, a, m) && a != address
      {
        FreedLive(before, i, k, address, fullSize, a, m);
      }
    }

    method Recover(address: int) returns (page: PageNode, fullSize: nat, ghost i: nat, ghost k: nat)
      requires Valid() && address in strings
      ensures 0 < i < |list| && list[i] == page && fullSize == strings[address] &&
          LiveAt(Abs(), i, k, address, fullSize)
    {
      hide Good, LiveAt;
      i, k :| StringAt(Abs(), i, k, address, strings[address], headers[address]);
      InList(i, k, address, strings[address]);
      var header := headers[address];
      assert list[i] in list && Abs()[i].base == list[i].base;
      page := pageAt[address - header.pageOffset];
      fullSize := if header.fullSize == 0 then page.busySize else header.fullSize;
    }

    lemma InList(i: nat, k: nat, address: int, size: nat)
      requires LiveAt(Abs(), i, k, address, size)
      ensures i < |list|
    {
    }
  }

  lemma LiveBlock(ps: seq<Page>, i: nat, k: nat, address: int, size: nat)
    requires LiveAt(ps, i, k, address, size)
    ensures i < |ps| && k < |ps[i].blocks| && ps[i].blocks[k].live && ps[i].blocks[k].size == size
  {
  }

  lemma DocumentGood(base: int)
    ensures Good([Page(base, PAGE_SIZE, PAGE_SIZE, 0, [Block(PAGE_SIZE, true)])])
  {
    OneBlockGood(base, PAGE_SIZE, PAGE_SIZE);
  }

  lemma BasesDiffer(ps: seq<Page>, base: int, size: nat)
    requires Good(ps) && CanAllocate(ps, base, size) && NeedsPage(ps, size)
    ensures forall i :: 0 <= i < |ps| ==> ps[i].base != base
  {
  }
}
