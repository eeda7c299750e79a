/** The buffers of a network, in `src/libane/ane.c`: setting one up, what many of them hold, and
    what goes into the bootstrap buffer. */
module Channels {
  import opened Words
  import opened Wrappers
  import opened Bits
  import opened HwxFormat
  import opened Platform
  import Bitfields

  const TILE_SIZE := 0x4000

  /** A buffer of the device; handle 0 is no buffer. */
  datatype Channel = Channel(mapping: Option<Mapping>, size: u64, handle: nat)

  const EMPTY := Channel(None, 0, 0)

  // ----- What channels hold -----

  function HandleOf(c: Channel): multiset<nat> {
    if c.handle == 0 then multiset{} else multiset{c.handle}
  }

  function MapOf(c: Channel): multiset<nat> {
    if c.mapping.None? then multiset{} else multiset{c.mapping.value.id}
  }

  function Handles(cs: seq<Channel>, i: nat): multiset<nat>
    requires i <= |cs|
    decreases |cs| - i
  {
    if i == |cs| then multiset{} else HandleOf(cs[i]) + Handles(cs, i + 1)
  }

  function Maps(cs: seq<Channel>, i: nat): multiset<nat>
    requires i <= |cs|
    decreases |cs| - i
  {
    if i == |cs| then multiset{} else MapOf(cs[i]) + Maps(cs, i + 1)
  }

  predicate Blank(c: Channel) {
    c.handle == 0 && c.mapping.None?
  }

  lemma Regrouped(a: multiset<nat>, b: multiset<nat>, c: multiset<nat>)
    ensures a + (b + c) == a + b + c
  {
  }

  lemma Exchanged(a: multiset<nat>, b: multiset<nat>)
    ensures a + b == multiset{} + b + a
  {
  }

  lemma {:induction false} HandlesUpdate(cs: seq<Channel>, k: nat, c: Channel, i: nat)
    requires i <= k < |cs| && Blank(cs[k])
    ensures Handles(cs[k := c], i) == Handles(cs, i) + HandleOf(c)
    decreases k - i
  {
    hide Handles, HandleOf, Blank;
    HandlesStep(cs, i);
    HandlesStep(cs[k := c], i);
    if i < k {
      HandlesUpdate(cs, k, c, i + 1);
      Regrouped(HandleOf(cs[i]), Handles(cs, i + 1), HandleOf(c));
    } else {
      HandlesAfter(cs, k, c, k + 1);
      Exchanged(HandleOf(c), Handles(cs, k + 1));
    }
  }

  lemma HandlesStep(cs: seq<Channel>, i: nat)
    requires i < |cs|
    ensures Handles(cs, i) == HandleOf(cs[i]) + Handles(cs, i + 1)
    ensures Blank(cs[i]) ==> HandleOf(cs[i]) == multiset{}
  {
  }

  lemma {:induction false} HandlesAfter(cs: seq<Channel>, k: nat, c: Channel, i: nat)
    requires k < i <= |cs|
    ensures Handles(cs[k := c], i) == Handles(cs, i)
    decreases |cs| - i
  {
    if i < |cs| {
      HandlesAfter(cs, k, c, i + 1);
    }
  }

  lemma {:induction false} MapsUpdate(cs: seq<Channel>, k: nat, c: Channel, i: nat)
    requires i <= k < |cs| && Blank(cs[k])
    ensures Maps(cs[k := c], i) == Maps(cs, i) + MapOf(c)
    decreases k - i
  {
    hide Maps, MapOf, Blank;
    MapsStep(cs, i);
    MapsStep(cs[k := c], i);
    if i < k {
      MapsUpdate(cs, k, c, i + 1);
      Regrouped(MapOf(cs[i]), Maps(cs, i + 1), MapOf(c));
    } else {
      MapsAfter(cs, k, c, k + 1);
      Exchanged(MapOf(c), Maps(cs, k + 1));
    }
  }

  lemma MapsStep(cs: seq<Channel>, i: nat)
    requires i < |cs|
    ensures Maps(cs, i) == MapOf(cs[i]) + Maps(cs, i + 1)
    ensures Blank(cs[i]) ==> MapOf(cs[i]) == multiset{}
  {
  }

  lemma {:induction false} MapsAfter(cs: seq<Channel>, k: nat, c: Channel, i: nat)
    requires k < i <= |cs|
    ensures Maps(cs[k := c], i) == Maps(cs, i)
    decreases |cs| - i
  {
    if i < |cs| {
      MapsAfter(cs, k, c, i + 1);
    }
  }

  lemma {:induction false} BlankHoldNothing(cs: seq<Channel>, i: nat)
    requires i <= |cs| && forall k | i <= k < |cs| :: Blank(cs[k])
    ensures Handles(cs, i) == multiset{} && Maps(cs, i) == multiset{}
    decreases |cs| - i
  {
    if i < |cs| {
      BlankHoldNothing(cs, i + 1);
    }
  }

  /** `base` and the channels from `i` on. */
  function Rest(base: Resources, cs: seq<Channel>, i: nat): Resources
    requires i <= |cs|
  {
    base.(handles := base.handles + Handles(cs, i), maps := base.maps + Maps(cs, i))
  }

  lemma RestStep(base: Resources, cs: seq<Channel>, i: nat)
    requires i < |cs|
    ensures Rest(base, cs, i) == Plus(Rest(base, cs, i + 1), cs[i])
  {
    hide HandleOf, MapOf, Handles, Maps;
    HandlesStep(cs, i);
    MapsStep(cs, i);
    Turned(base.handles, Handles(cs, i + 1), HandleOf(cs[i]));
    Turned(base.maps, Maps(cs, i + 1), MapOf(cs[i]));
  }

  lemma Turned(a: multiset<nat>, b: multiset<nat>, c: multiset<nat>)
    ensures a + (c + b) == a + b + c
  {
  }

  lemma RestSame(base: Resources, cs: seq<Channel>, k: nat, c: Channel)
    requires k < |cs|
    ensures Rest(base, cs[k := c], k + 1) == Rest(base, cs, k + 1)
  {
    HandlesAfter(cs, k, c, k + 1);
    MapsAfter(cs, k, c, k + 1);
  }

  lemma RestBlank(base: Resources, cs: seq<Channel>, i: nat)
    requires i <= |cs| && forall k | i <= k < |cs| :: Blank(cs[k])
    ensures Rest(base, cs, i) == base
  {
    BlankHoldNothing(cs, i);
    assert base.handles + multiset{} == base.handles && base.maps + multiset{} == base.maps;
  }

  /** One more channel next to a blank one. */
  lemma AddOne(base: Resources, cs: seq<Channel>, k: nat, c: Channel, btsp: Channel)
    requires k < |cs| && Blank(cs[k])
    ensures Plus(Rest(base, cs[k := c], 0), btsp) == Plus(Plus(Rest(base, cs, 0), btsp), c)
  {
    hide HandleOf, MapOf, Handles, Maps, Blank;
    HandlesUpdate(cs, k, c, 0);
    MapsUpdate(cs, k, c, 0);
    Swapped(base.handles, Handles(cs, 0), HandleOf(c), HandleOf(btsp));
    Swapped(base.maps, Maps(cs, 0), MapOf(c), MapOf(btsp));
  }

  lemma Swapped(a: multiset<nat>, b: multiset<nat>, c: multiset<nat>, d: multiset<nat>)
    ensures a + (b + c) + d == a + b + d + c
  {
  }

  // ----- One buffer -----

  /** `ane_bo_init`: a buffer and its mapping, or neither. */
  method AneBoInit(sys: System, bo: Channel) returns (ok: bool, bo': Channel)
    requires sys.Valid() && Blank(bo)
    modifies sys`res, sys`next, sys`faulted
    ensures sys.Valid() && (old(sys.faulted) ==> sys.faulted) && bo'.size == bo.size
    ensures sys.res == Plus(old(sys.res), bo')
    ensures !ok ==> Blank(bo') && (sys.faulted || bo.size == 0)
    ensures ok ==> sys.faulted == old(sys.faulted) && bo.size > 0 && Live(bo') && fresh(bo'.mapping.value.mem)
  {
    hide System.Valid;
    bo' := bo;
    NothingGained(sys.res, bo);
    if bo.size == 0 {
      return false, bo';
    }
    var handle := sys.BoInit();
    if handle == 0 {
      return false, bo';
    }
    var mapping := sys.Mmap(bo.size);
    if mapping.None? {
      ghost var before := sys.res.handles - multiset{handle};
      sys.BoFree(handle);
      assert sys.res.handles == before;
      return false, bo';
    }
    ok, bo' := true, Channel(mapping, bo.size, handle);
  }

  function Plus(r: Resources, c: Channel): Resources {
    r.(handles := r.handles + HandleOf(c), maps := r.maps + MapOf(c))
  }

  predicate Holds(r: Resources, c: Channel) {
    HandleOf(c) <= r.handles && MapOf(c) <= r.maps
  }

  function Minus(r: Resources, c: Channel): Resources {
    r.(handles := r.handles - HandleOf(c), maps := r.maps - MapOf(c))
  }

  lemma MinusPlus(r: Resources, c: Channel)
    ensures Holds(Plus(r, c), c) && Minus(Plus(r, c), c) == r
  {
    var p := Plus(r, c);
    assert p.handles - HandleOf(c) == r.handles && p.maps - MapOf(c) == r.maps;
  }

  lemma NothingGained(r: Resources, c: Channel)
    requires Blank(c)
    ensures Plus(r, c) == r
  {
    assert r.handles + multiset{} == r.handles && r.maps + multiset{} == r.maps;
  }

  /** A buffer that is mapped at its full size. */
  predicate Live(c: Channel) {
    c.handle != 0 && c.mapping.Some? && c.mapping.value.mem.Length == c.size
  }

  /** `ane_bo_free`; a buffer that was never set up is passed over. */
  method AneBoFree(sys: System, bo: Channel) returns (bo': Channel)
    requires sys.Valid() && Holds(sys.res, bo)
    modifies sys`res
    ensures sys.Valid() && Blank(bo') && sys.res == Minus(old(sys.res), bo)
  {
    hide System.Valid;
    if bo.mapping.Some? {
      sys.Munmap(bo.mapping.value);
    }
    if bo.handle != 0 {
      sys.BoFree(bo.handle);
    }
    bo' := bo.(mapping := None, handle := 0);
  }

  // ----- The bootstrap buffer -----

  /** `tile_align`, on 64 bits; `-TILE_SIZE` has the fourteen low bits clear. */
  function TileAlign(x: u32): nat {
    And(x + TILE_SIZE - 1, 0x1_0000_0000_0000_0000 - TILE_SIZE)
  }

  /** The least multiple of the tile size that is not below `x`. */
  lemma TileAlignLeast(x: u32)
    ensures TileAlign(x) % TILE_SIZE == 0 && x <= TileAlign(x) < x + TILE_SIZE
    ensures forall m: nat | m % TILE_SIZE == 0 && x <= m :: TileAlign(x) <= m
  {
    hide And, Low, Shr, Pow2;
    Powers();
    var y := x + TILE_SIZE - 1;
    AndField(y, 14, 50);
    Split(y, 14);
    var q := Shr(y, 14);
    assert q < Pow2(50);
    LowSmall(q, 50);
    assert TileAlign(x) == q * TILE_SIZE;
  }

  /** How many bytes are copied: the three clamps in their order. */
  function CopySize(tdSize: u32, textSize: u64, size: nat): nat {
    var copy := if tdSize == 0 || tdSize > textSize then textSize else tdSize;
    if copy > size then size else copy
  }

  /** The last clamp never acts on a buffer of the aligned size. */
  lemma CopySizeIsMin(tdSize: u32, textSize: u64)
    requires tdSize != 0
    ensures CopySize(tdSize, textSize, TileAlign(tdSize)) == if tdSize <= textSize then tdSize else textSize
  {
    hide TileAlign;
    TileAlignLeast(tdSize);
  }

  function Zeros(n: nat): (r: seq<byte>)
    ensures |r| == n && forall i | 0 <= i < n :: r[i] == 0
  {
    seq(n, _ => 0)
  }

  /** The first `n` bytes of a section, followed by zeros up to `size`. */
  function Padded(b: seq<byte>, text: Section, n: nat, size: nat): (r: seq<byte>)
    requires n <= size && (n > 0 ==> text.offset + n <= |b|)
    ensures |r| == size
  {
    (if n == 0 then [] else b[text.offset..text.offset + n]) + Zeros(size - n)
  }

  /** `data` is `plain` with the network id put into its first word, and nothing else changed. */
  predicate Named(data: seq<byte>, plain: seq<byte>, nid: u32) {
    |data| == |plain| >= 4 && data[4..] == plain[4..] &&
    U32(data, 0) == Bitfields.SetNid(U32(plain, 0), nid)
  }

  lemma SetNidBound(hdr0: u32, nid: nat)
    ensures Bitfields.SetNid(hdr0, nid) < 0x1_0000_0000
  {
    hide And, Low, Shr, Pow2, Bitfields.Write, Bitfields.SetNid;
    Powers();
    var w := Bitfields.Write(Bitfields.NID, hdr0, And(nid, 0xFF));
    Bitfields.SetNidIsFieldWrite(hdr0, nid);
    AndField(w, 0, 28);
  }

  /** In numbers: the low half of the word is kept, the third byte is the id, and of the fourth
      only the low four bits are kept. */
  lemma SetNidIs(hdr0: u32, nid: nat)
    ensures Bitfields.SetNid(hdr0, nid) ==
            hdr0 % 0x1_0000 + nid % 0x100 * 0x1_0000 + hdr0 / 0x100_0000 % 0x10 * 0x100_0000
  {
    hide Or, And, Low, Shr, Pow2;
    Powers();
    var lo, top, id := Low(hdr0, 16), Low(Shr(hdr0, 24), 4), Low(nid, 8);
    AndOnes(nid, 8);
    KeepMask(hdr0);
    LowSmall(id * 0x1_0000, 32);
    Apart(top, lo, id);
    PartsInNumbers(hdr0, nid);
  }

  lemma PartsInNumbers(hdr0: nat, nid: nat)
    ensures Low(hdr0, 16) == hdr0 % 0x1_0000 && Low(nid, 8) == nid % 0x100
    ensures Low(Shr(hdr0, 24), 4) == hdr0 / 0x100_0000 % 0x10
  {
    hide Low, Shr, Pow2;
    Powers();
    Part(hdr0, 16);
    Part(hdr0, 24);
    Part(Shr(hdr0, 24), 4);
    Part(nid, 8);
  }

  /** What the mask of `set_nid` keeps. */
  lemma KeepMask(x: u32)
    ensures And(x, 0x0F00_FFFF) == Low(Shr(x, 24), 4) * 0x100_0000 + Low(x, 16)
  {
    hide And, Low, Shr, Pow2;
    Powers();
    Join(0xF00, 0xFFFF, 16);
    AndParts(x, 0x0F00_FFFF, 16);
    AndField(Shr(x, 16), 8, 4);
    ShrShr(x, 16, 8);
    AndOnes(Low(x, 16), 16);
    LowSmall(Low(x, 16), 16);
    Split(And(x, 0x0F00_FFFF), 16);
  }

  lemma Apart(top: nat, lo: nat, id: nat)
    requires lo < 0x1_0000 && id < 0x100
    ensures Or(top * 0x100_0000 + lo, id * 0x1_0000) == top * 0x100_0000 + lo + id * 0x1_0000
  {
    hide Or, And, Low, Shr, Pow2;
    Powers();
    var a, b := top * 0x100_0000 + lo, id * 0x1_0000;
    Join(top * 0x100, lo, 16);
    Join(id, 0, 16);
    AndParts(a, b, 16);
    Join(top, 0, 8);
    LowSmall(id, 8);
    Split(id, 8);
    AndParts(top * 0x100, id, 8);
    AndZero(lo);
    AndZero(top);
    AndZero(id);
    Split(And(top * 0x100, id), 8);
    Split(And(a, b), 16);
    AndPlusOr(a, b);
  }

  lemma AndZero(x: nat)
    ensures And(x, 0) == 0 && And(0, x) == 0
  {
  }

  /** So of the bytes of a buffer only the third and the upper half of the fourth change. */
  lemma NamedBytes(data: seq<byte>, plain: seq<byte>, nid: u32, i: nat)
    requires Named(data, plain, nid) && i < |data|
    ensures data[i] == if i == 2 then nid % 0x100 else if i == 3 then plain[3] % 0x10 else plain[i]
  {
    if i >= 4 {
      assert data[4..][i - 4] == plain[4..][i - 4];
    } else {
      SetNidIs(U32(plain, 0), nid);
      hide Bitfields.SetNid;
      SameBytes(data, plain, nid);
    }
  }

  lemma SameBytes(data: seq<byte>, plain: seq<byte>, nid: u32)
    requires |data| == |plain| >= 4
    requires var p := U32(plain, 0);
      U32(data, 0) == p % 0x1_0000 + nid % 0x100 * 0x1_0000 + p / 0x100_0000 % 0x10 * 0x100_0000
    ensures data[0] == plain[0] && data[1] == plain[1] && data[2] == nid % 0x100 && data[3] == plain[3] % 0x10
  {
    var p := U32(plain, 0);
    WordParts(plain[0], plain[1], plain[2], plain[3]);
    WordParts(plain[0], plain[1], nid % 0x100, plain[3] % 0x10);
    SameDigits(data[0], data[1], data[2], data[3], plain[0], plain[1], nid % 0x100, plain[3] % 0x10);
  }

  lemma WordParts(b0: byte, b1: byte, b2: byte, b3: byte)
    ensures var p := b0 as int + 0x100 * b1 as int + 0x1_0000 * b2 as int + 0x100_0000 * b3 as int;
      p % 0x1_0000 == b0 as int + 0x100 * b1 as int && p / 0x100_0000 == b3 as int
  {
  }

  lemma SameDigits(a0: byte, a1: byte, a2: byte, a3: byte, b0: byte, b1: byte, b2: byte, b3: byte)
    requires a0 as int + 0x100 * a1 as int + 0x1_0000 * a2 as int + 0x100_0000 * a3 as int ==
             b0 as int + 0x100 * b1 as int + 0x1_0000 * b2 as int + 0x100_0000 * b3 as int
    ensures a0 == b0 && a1 == b1 && a2 == b2 && a3 == b3
  {
    var a, b := a2 as int + 0x100 * a3 as int, b2 as int + 0x100 * b3 as int;
    SameDigit(a0, a1 as int + 0x100 * a, b0, b1 as int + 0x100 * b);
    SameDigit(a1, a, b1, b);
    SameDigit(a2, a3, b2, b3);
  }

  lemma SameDigit(a: byte, x: int, b: byte, y: int)
    requires a as int + 0x100 * x == b as int + 0x100 * y
    ensures a == b && x == y
  {
  }

  /** `set_nid` on the memory of a buffer. */
  method SetNid(td: array<byte>, nid: u32)
    requires td.Length >= 4
    modifies td
    ensures Named(td[..], old(td[..]), nid)
  {
    ghost var plain := td[..];
    var hdr0 := U32(td[..], 0);
    SetNidBound(hdr0, nid);
    var word: u32 := Bitfields.SetNid(hdr0, nid);
    td[0], td[1], td[2], td[3] := word % 0x100, word / 0x100 % 0x100, word / 0x1_0000 % 0x100, word / 0x100_0000;
    assert td[..][4..] == plain[4..];
    hide Bitfields.SetNid;
    assert U32(td[..], 0) == word by { WordBytes(word); }
  }

  lemma WordBytes(w: u32)
    ensures w == w % 0x100 + 0x100 * (w / 0x100 % 0x100) + 0x1_0000 * (w / 0x1_0000 % 0x100) +
                 0x100_0000 * (w / 0x100_0000)
  {
  }
}
