/** The device address space of `driver/src/ane_drv.c` as a value: the reserved areas (`drm_mm`),
    the page table of the IOMMU, and the live buffers; and what every run of buffer ioctls keeps. */
module AddressSpace {
  import opened Bits

  /** An area of device addresses. */
  datatype Range = Range(start: nat, size: nat)

  /** A live buffer: its node in the allocator, its device address and its physical pages. */
  datatype Buffer = Buffer(node: nat, iova: nat, pages: seq<nat>)

  /** The area the allocator may hand out, and the page size. */
  datatype Window = Window(start: nat, end: nat, page: nat)

  datatype Space = Space(nodes: map<nat, Range>, table: map<nat, nat>, live: map<nat, Buffer>)

  function RangeOf(w: Window, b: Buffer): Range {
    Range(b.iova, |b.pages| * w.page)
  }

  predicate Apart(a: Range, b: Range) {
    a.start + a.size <= b.start || b.start + b.size <= a.start
  }

  /** A range that may be reserved: not empty, aligned and inside the window. */
  predicate Placed(w: Window, r: Range)
    requires w.page > 0
  {
    r.size > 0 && r.start % w.page == 0 && w.start <= r.start && r.start + r.size <= w.end
  }

  /** A free, aligned hole: what the allocator may return. */
  predicate Hole(w: Window, nodes: map<nat, Range>, r: Range)
    requires w.page > 0
  {
    Placed(w, r) && forall n | n in nodes :: Apart(nodes[n], r)
  }

  /** The address of page `i` of a buffer. */
  function PageAt(w: Window, iova: nat, i: nat): nat {
    iova + i * w.page
  }

  /** The first `n` translations of a buffer. */
  function Entries(w: Window, iova: nat, pages: seq<nat>, n: nat): map<nat, nat>
    requires n <= |pages|
  {
    if n == 0 then map[] else Entries(w, iova, pages, n - 1)[PageAt(w, iova, n - 1) := pages[n - 1]]
  }

  function EntriesOf(w: Window, b: Buffer): map<nat, nat> {
    Entries(w, b.iova, b.pages, |b.pages|)
  }

  /** Page `i` of the buffer is `phys`, at device address `iova`. */
  predicate PageIs(w: Window, b: Buffer, i: nat, iova: nat, phys: nat) {
    i < |b.pages| && iova == PageAt(w, b.iova, i) && phys == b.pages[i]
  }

  /** Some live buffer has physical page `phys` at device address `iova`. */
  ghost predicate Translates(w: Window, live: map<nat, Buffer>, iova: nat, phys: nat) {
    exists h, i: nat :: h in live && PageIs(w, live[h], i, iova, phys)
  }

  /** The offsets of the pages are computed in 32 bits. */
  predicate Fits(w: Window, npages: nat) {
    npages * w.page < 0x1_0000_0000
  }

  /** The page table is the union of the translations of the live buffers; each live buffer has
      its own node; the nodes are aligned, inside the window and pairwise apart. */
  ghost predicate Consistent(w: Window, s: Space) {
    w.page > 0 &&
    (forall iova, phys :: (iova in s.table && s.table[iova] == phys) <==> Translates(w, s.live, iova, phys)) &&
    (forall h | h in s.live :: s.live[h].node in s.nodes && s.nodes[s.live[h].node] == RangeOf(w, s.live[h])) &&
    (forall h | h in s.live :: Fits(w, |s.live[h].pages|)) &&
    (forall n | n in s.nodes :: exists h :: h in s.live && s.live[h].node == n) &&
    (forall g, h | g in s.live && h in s.live && s.live[g].node == s.live[h].node :: g == h) &&
    (forall n | n in s.nodes :: Placed(w, s.nodes[n])) &&
    (forall n, m | n in s.nodes && m in s.nodes && n != m :: Apart(s.nodes[n], s.nodes[m]))
  }

  ghost predicate Init(s: Space) {
    s == Space(map[], map[], map[])
  }

  /** A buffer ioctl that succeeds in making buffer `b` live under handle `h`.  That its size fits
      32 bits is no restriction: `Driver.AneDevice.BoInit` proves it of every init that succeeds. */
  ghost predicate AddStep(w: Window, s: Space, s': Space, h: nat, b: Buffer)
    requires w.page > 0
  {
    h !in s.live && b.node !in s.nodes && Hole(w, s.nodes, RangeOf(w, b)) && Fits(w, |b.pages|) &&
    s' == Space(s.nodes[b.node := RangeOf(w, b)], s.table + EntriesOf(w, b), s.live[h := b])
  }

  ghost predicate FreeStep(w: Window, s: Space, s': Space, h: nat) {
    h in s.live &&
    s' == Space(s.nodes - {s.live[h].node}, s.table - EntriesOf(w, s.live[h]).Keys, s.live - {h})
  }

  /** One ioctl; one that fails, at whatever point, changes nothing. */
  ghost predicate Step(w: Window, s: Space, s': Space)
    requires w.page > 0
  {
    s' == s || (exists h, b :: AddStep(w, s, s', h, b)) || (exists h :: FreeStep(w, s, s', h))
  }

  // ----- Translations -----

  lemma PageAtStrict(w: Window, iova: nat, i: nat, j: nat)
    requires i < j
    ensures PageAt(w, iova, i) + w.page <= PageAt(w, iova, j)
  {
    MulStep(i, j, w.page);
  }

  lemma {:induction false} EntriesAre(w: Window, iova: nat, pages: seq<nat>, n: nat, key: nat)
    requires n <= |pages| && w.page > 0
    ensures key in Entries(w, iova, pages, n) <==> exists i: nat :: i < n && key == PageAt(w, iova, i)
    ensures forall i: nat | i < n && key == PageAt(w, iova, i) ::
      key in Entries(w, iova, pages, n) && Entries(w, iova, pages, n)[key] == pages[i]
  {
    if n > 0 {
      EntriesAre(w, iova, pages, n - 1, key);
      if i: nat :| i < n - 1 && key == PageAt(w, iova, i) {
        PageAtStrict(w, iova, i, n - 1);
      }
    }
  }

  /** Every page of a buffer lies inside the buffer's range. */
  lemma PageInRange(w: Window, b: Buffer, i: nat)
    requires i < |b.pages|
    ensures b.iova <= PageAt(w, b.iova, i) && PageAt(w, b.iova, i) + w.page <= b.iova + RangeOf(w, b).size
  {
    MulStep(i, |b.pages|, w.page);
  }

  /** A buffer whose range is apart from that of a live one shares no page address with it. */
  lemma ApartKeys(w: Window, a: Buffer, b: Buffer, i: nat)
    requires w.page > 0 && i < |a.pages| && Apart(RangeOf(w, a), RangeOf(w, b))
    ensures PageAt(w, a.iova, i) !in EntriesOf(w, b)
  {
    var key := PageAt(w, a.iova, i);
    PageInRange(w, a, i);
    EntriesAre(w, b.iova, b.pages, |b.pages|, key);
    if j: nat :| j < |b.pages| && key == PageAt(w, b.iova, j) {
      PageInRange(w, b, j);
    }
  }

  /** Nothing is mapped in a hole. */
  lemma HoleIsUnmapped(w: Window, s: Space, b: Buffer, i: nat)
    requires Consistent(w, s) && Hole(w, s.nodes, RangeOf(w, b)) && i < |b.pages|
    ensures PageAt(w, b.iova, i) !in s.table
  {
    var key := PageAt(w, b.iova, i);
    if key in s.table {
      assert Translates(w, s.live, key, s.table[key]);
      var h, j: nat :| h in s.live && PageIs(w, s.live[h], j, key, s.table[key]);
      assert Apart(s.nodes[s.live[h].node], RangeOf(w, b));
      PageInRange(w, b, i);
      PageInRange(w, s.live[h], j);
    }
  }

  lemma EntryIs(w: Window, b: Buffer, iova: nat, phys: nat)
    requires w.page > 0
    ensures (iova in EntriesOf(w, b) && EntriesOf(w, b)[iova] == phys) <==> exists i: nat :: PageIs(w, b, i, iova, phys)
  {
    hide Entries, PageAt;
    EntriesAre(w, b.iova, b.pages, |b.pages|, iova);
    if iova in EntriesOf(w, b) && EntriesOf(w, b)[iova] == phys {
      var i: nat :| i < |b.pages| && iova == PageAt(w, b.iova, i);
      assert PageIs(w, b, i, iova, phys);
    }
  }

  // ----- What a step keeps -----

  ghost predicate TableExact(w: Window, s: Space) {
    forall iova, phys :: (iova in s.table && s.table[iova] == phys) <==> Translates(w, s.live, iova, phys)
  }

  lemma AddKeepsTable(w: Window, s: Space, s': Space, h: nat, b: Buffer)
    requires Consistent(w, s) && AddStep(w, s, s', h, b)
    ensures TableExact(w, s')
  {
    hide Entries, PageAt, PageIs, Placed;
    forall iova, phys ensures (iova in s'.table && s'.table[iova] == phys) <==> Translates(w, s'.live, iova, phys) {
      EntryIs(w, b, iova, phys);
      if Translates(w, s.live, iova, phys) {
        var g, j: nat :| g in s.live && PageIs(w, s.live[g], j, iova, phys);
        assert g in s'.live && s'.live[g] == s.live[g];
        assert Apart(RangeOf(w, s.live[g]), RangeOf(w, b));
        ApartPage(w, s.live[g], b, j, iova, phys);
      }
      if Translates(w, s'.live, iova, phys) {
        var g, j: nat :| g in s'.live && PageIs(w, s'.live[g], j, iova, phys);
        assert g != h ==> g in s.live && s.live[g] == s'.live[g];
      }
      if i: nat :| PageIs(w, b, i, iova, phys) {
        assert h in s'.live && s'.live[h] == b;
      }
      if iova in EntriesOf(w, b) {
        EntryIs(w, b, iova, EntriesOf(w, b)[iova]);
      }
    }
  }

  lemma ApartPage(w: Window, a: Buffer, b: Buffer, i: nat, iova: nat, phys: nat)
    requires w.page > 0 && Apart(RangeOf(w, a), RangeOf(w, b)) && PageIs(w, a, i, iova, phys)
    ensures iova !in EntriesOf(w, b)
  {
    ApartKeys(w, a, b, i);
  }

  lemma AddKeepsConsistent(w: Window, s: Space, s': Space, h: nat, b: Buffer)
    requires Consistent(w, s) && AddStep(w, s, s', h, b)
    ensures Consistent(w, s')
  {
    hide Entries, EntriesOf, RangeOf, Translates, Placed, Fits;
    AddKeepsTable(w, s, s', h, b);
    forall n | n in s'.nodes ensures exists g :: g in s'.live && s'.live[g].node == n {
      if n == b.node {
        assert s'.live[h].node == n;
      } else {
        var g :| g in s.live && s.live[g].node == n;
        assert g in s'.live && s'.live[g].node == n;
      }
    }
  }

  lemma FreeKeepsOther(w: Window, s: Space, s': Space, h: nat, iova: nat, phys: nat)
    requires Consistent(w, s) && FreeStep(w, s, s', h) && Translates(w, s'.live, iova, phys)
    ensures iova in s'.table && s'.table[iova] == phys
  {
    hide Entries, EntriesOf, PageAt, PageIs, Placed, Fits, RangeOf;
    var b := s.live[h];
    var g, j: nat :| g in s'.live && PageIs(w, s'.live[g], j, iova, phys);
    assert g in s.live && s.live[g] == s'.live[g];
    assert Translates(w, s.live, iova, phys);
    assert Apart(s.nodes[s.live[g].node], s.nodes[b.node]);
    ApartPage(w, s.live[g], b, j, iova, phys);
  }

  lemma FreeDropsOwn(w: Window, s: Space, s': Space, h: nat, iova: nat, phys: nat)
    requires Consistent(w, s) && FreeStep(w, s, s', h)
    requires iova in s'.table && s'.table[iova] == phys
    ensures Translates(w, s'.live, iova, phys)
  {
    hide Entries, EntriesOf, PageAt, PageIs, Placed, Fits, RangeOf, Apart;
    assert Translates(w, s.live, iova, phys);
    var g, j: nat :| g in s.live && PageIs(w, s.live[g], j, iova, phys);
    EntryIs(w, s.live[h], iova, phys);
    assert g in s'.live && s'.live[g] == s.live[g];
  }

  lemma FreeKeepsTable(w: Window, s: Space, s': Space, h: nat)
    requires Consistent(w, s) && FreeStep(w, s, s', h)
    ensures TableExact(w, s')
  {
    hide Consistent, FreeStep, Translates;
    forall iova, phys ensures (iova in s'.table && s'.table[iova] == phys) <==> Translates(w, s'.live, iova, phys) {
      if Translates(w, s'.live, iova, phys) {
        FreeKeepsOther(w, s, s', h, iova, phys);
      } else if iova in s'.table && s'.table[iova] == phys {
        FreeDropsOwn(w, s, s', h, iova, phys);
      }
    }
  }

  lemma FreeKeepsConsistent(w: Window, s: Space, s': Space, h: nat)
    requires Consistent(w, s) && FreeStep(w, s, s', h)
    ensures Consistent(w, s')
  {
    hide Entries, EntriesOf, RangeOf, Translates, Placed, Fits, Apart;
    FreeKeepsTable(w, s, s', h);
    forall n | n in s'.nodes ensures exists g :: g in s'.live && s'.live[g].node == n {
      var g :| g in s.live && s.live[g].node == n;
      assert g in s'.live && s'.live[g].node == n;
    }
  }

  lemma InitConsistent(w: Window, s: Space)
    requires w.page > 0 && Init(s)
    ensures Consistent(w, s)
  {
  }

  // ----- Runs -----

  /** Any sequence of buffer ioctls, with any sizes and any failures. */
  ghost predicate IsRun(w: Window, run: seq<Space>)
    requires w.page > 0
  {
    |run| > 0 && Init(run[0]) && forall i | 0 <= i < |run| - 1 :: Step(w, run[i], run[i + 1])
  }

  /** At every point of every run the page table is exactly the union of the live buffers, and
      live ranges are aligned, inside the window and pairwise apart. */
  lemma {:induction false} RunKeepsConsistent(w: Window, run: seq<Space>, i: nat)
    requires w.page > 0 && IsRun(w, run) && i < |run|
    ensures Consistent(w, run[i])
  {
    hide Consistent, AddStep, FreeStep, Init;
    if i == 0 {
      InitConsistent(w, run[0]);
    } else {
      RunKeepsConsistent(w, run, i - 1);
      var s, s' := run[i - 1], run[i];
      assert Step(w, s, s');
      if h, b :| AddStep(w, s, s', h, b) {
        AddKeepsConsistent(w, s, s', h, b);
      } else if h :| FreeStep(w, s, s', h) {
        FreeKeepsConsistent(w, s, s', h);
      }
    }
  }

  /** Two live buffers never share a device address, and no buffer leaves the window. */
  lemma LiveRangesApart(w: Window, s: Space, g: nat, h: nat)
    requires Consistent(w, s) && g in s.live && h in s.live && g != h
    ensures Apart(RangeOf(w, s.live[g]), RangeOf(w, s.live[h])) && Placed(w, RangeOf(w, s.live[g]))
  {
    assert s.live[g].node != s.live[h].node;
  }

  /** Making a buffer live and freeing it again restores the address space exactly. */
  lemma FreeUndoesAdd(w: Window, s: Space, s1: Space, s2: Space, h: nat, b: Buffer)
    requires Consistent(w, s) && AddStep(w, s, s1, h, b) && FreeStep(w, s1, s2, h)
    ensures s2 == s
  {
    hide Entries, PageAt;
    forall key | key in s.table ensures key !in EntriesOf(w, b) {
      EntriesAre(w, b.iova, b.pages, |b.pages|, key);
      if i: nat :| i < |b.pages| && key == PageAt(w, b.iova, i) {
        HoleIsUnmapped(w, s, b, i);
      }
    }
    assert s2.table == s.table;
    assert s2.nodes == s.nodes;
    assert s2.live == s.live;
  }

  // ----- The 32-bit offsets -----

  /** The size and the offsets as the driver computes them: `u32` shifted left. */
  function Size32(w: Window, npages: nat): nat {
    npages * w.page % 0x1_0000_0000
  }

  /** The device addresses at which the first `n` pages of a buffer are unmapped. */
  function Reached(w: Window, iova: nat, n: nat): set<nat> {
    set i: nat | i < n :: iova + Size32(w, i)
  }

  /** Of a buffer whose size fits these are exactly its own addresses. */
  lemma ReachedIs(w: Window, b: Buffer)
    requires w.page > 0 && Fits(w, |b.pages|)
    ensures Reached(w, b.iova, |b.pages|) == EntriesOf(w, b).Keys
  {
    hide Entries, Size32;
    forall key ensures key in Reached(w, b.iova, |b.pages|) <==> key in EntriesOf(w, b) {
      EntriesAre(w, b.iova, b.pages, |b.pages|, key);
      forall i: nat | i < |b.pages| ensures Size32(w, i) == i * w.page {
        OffsetFits(w, |b.pages|, i);
      }
      if key in Reached(w, b.iova, |b.pages|) {
        var i: nat :| i < |b.pages| && key == b.iova + Size32(w, i);
        assert key == PageAt(w, b.iova, i);
      }
      if i: nat :| i < |b.pages| && key == PageAt(w, b.iova, i) {
        assert key == b.iova + Size32(w, i);
      }
    }
  }

  lemma PagesPerWord(shift: nat)
    requires shift < 32
    ensures Pow2(32 - shift) * Pow2(shift) == 0x1_0000_0000
  {
    hide Pow2;
    Pow2Add(32 - shift, shift);
    Powers();
  }

  /** An offset below 2^32 is computed without loss, and a whole page follows before 2^32. */
  lemma OffsetBelow(w: Window, shift: nat, i: nat)
    requires shift < 32 && w.page == Pow2(shift) && i * w.page < 0x1_0000_0000
    ensures Size32(w, i) == i * w.page && (i + 1) * w.page <= 0x1_0000_0000
  {
    hide Pow2;
    var n := Pow2(32 - shift);
    PagesPerWord(shift);
    if n <= i {
      MulMono(n, i, w.page);
    } else {
      MulStep(i, n, w.page);
      MulDistributes(i, 1, w.page);
    }
  }

  /** The pages of a buffer stay inside the area reserved for it exactly when its size fits. */
  lemma PagesStayReserved(shift: nat, npages: nat)
    requires shift < 32
    ensures var w := Window(0, 0, Pow2(shift));
      (forall i: nat | i < npages :: Size32(w, i) + w.page <= Size32(w, npages)) <==> Fits(w, npages)
  {
    hide Pow2;
    var w := Window(0, 0, Pow2(shift));
    var p, n := Pow2(shift), Pow2(32 - shift);
    PagesPerWord(shift);
    if Fits(w, npages) {
      forall i: nat | i < npages ensures Size32(w, i) + p <= Size32(w, npages) {
        MulStep(i, npages, p);
      }
    } else {
      if npages < n {
        MulStep(npages, n, p);
      }
      LastPageWraps(w, n);
      assert Size32(w, n - 1) + p > Size32(w, npages);
    }
  }

  lemma LastPageWraps(w: Window, n: nat)
    requires n > 0 && w.page > 0 && n * w.page == 0x1_0000_0000
    ensures Size32(w, n - 1) == 0x1_0000_0000 - w.page
  {
    var last: nat := n - 1;
    MulDistributes(last, 1, w.page);
  }

  /** For example, 0x40001 pages of 16 KiB reserve one page, and already the second page of the
      buffer would be mapped outside of it. */
  lemma OversizedExample()
    ensures var w := Window(0, 0, 0x4000);
      !Fits(w, 0x4_0001) && Size32(w, 0x4_0001) == w.page && Size32(w, 1) + w.page > Size32(w, 0x4_0001)
  {
  }

  // ----- Mapping page by page -----

  /** Removing the translation of the last page undoes adding it. */
  lemma UnmapLast(w: Window, table: map<nat, nat>, b: Buffer, n: nat)
    requires w.page > 0 && 0 < n <= |b.pages| && PageAt(w, b.iova, n - 1) !in table
    ensures (table + Entries(w, b.iova, b.pages, n)) - {PageAt(w, b.iova, n - 1)} ==
            table + Entries(w, b.iova, b.pages, n - 1)
  {
    hide PageAt;
    var key := PageAt(w, b.iova, n - 1);
    EntriesAre(w, b.iova, b.pages, n - 1, key);
    if i: nat :| i < n - 1 && key == PageAt(w, b.iova, i) {
      PageAtStrict(w, b.iova, i, n - 1);
    }
  }

  /** The 32-bit offset is the real one as long as the size fits. */
  lemma OffsetFits(w: Window, npages: nat, i: nat)
    requires Fits(w, npages) && i <= npages
    ensures Size32(w, i) == i * w.page
  {
    MulMono(i, npages, w.page);
  }
}
