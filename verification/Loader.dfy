/** The ELF segment loader of loader/src/loader.c, running through the tables that the
    loader has just built: every load and store is translated before it reaches memory. */
module Loader {
  import opened Bits
  import opened Memory
  import opened Translation
  import opened Descriptors
  import opened KernelTables
  import opened AddressMap

  const IMAGE_BYTES := 0x10_0000

  // ----- Reading the image -----

  const ELF_MAGIC: seq<byte> := [0x7f, 'E' as int, 'L' as int, 'F' as int]

  const E_ENTRY := 24
  const E_PHOFF := 32
  const E_PHENTSIZE := 54
  const E_PHNUM := 56

  const P_TYPE := 0
  const P_OFFSET := 8
  const P_VADDR := 16
  const P_FILESZ := 32
  const P_MEMSZ := 40
  const PHDR_BYTES := 56

  datatype Segment = Segment(offset: nat, vaddr: nat, filesz: nat, memsz: nat) {
    /** The 32-bit counter of bytes to clear. */
    function Zeroes(): nat {
      (memsz - filesz) % TWO_32
    }

    /** Bytes of memory the loader writes for this segment. */
    function Extent(): nat {
      filesz + Zeroes()
    }

    /** Where the kernel window puts the segment. */
    function Start(): int {
      vaddr - KERNEL_VADDR_BASE
    }

    /** The source lies in the image, and the destination starts in the normal-memory
        window or just behind it. */
    predicate Starts() {
      offset + filesz <= IMAGE_BYTES && 2 * GIB <= Start() <= 3 * GIB
    }

    /** All of it lies in the window. */
    predicate Fits() {
      Starts() && Start() + Extent() <= 3 * GIB
    }

    /** Stores go up to the end of the window, behind which nothing is mapped. */
    predicate Writes(a: int) {
      Start() <= a < Start() + Extent() && a < 3 * GIB
    }
  }

  predicate InMemory(m: seq<byte>, image: nat) {
    GIB <= image && image + IMAGE_BYTES <= 2 * GIB && 3 * GIB <= |m|
  }

  function ImageWord(m: seq<byte>, image: nat, at: nat, size: nat): nat
    requires InMemory(m, image)
  {
    if at + size <= IMAGE_BYTES then Load(m, image + at, size) else 0
  }

  function Phnum(m: seq<byte>, image: nat): nat
    requires InMemory(m, image)
  {
    ImageWord(m, image, E_PHNUM, 2)
  }

  function HeaderAt(m: seq<byte>, image: nat, i: nat): nat
    requires InMemory(m, image)
  {
    HeaderOffset(ImageWord(m, image, E_PHOFF, 8), i, ImageWord(m, image, E_PHENTSIZE, 2))
  }

  function HeaderOffset(phoff: nat, i: nat, phentsize: nat): nat {
    phoff + i * phentsize
  }

  function SegmentAt(m: seq<byte>, image: nat, i: nat): Segment
    requires InMemory(m, image)
  {
    var h := HeaderAt(m, image, i);
    Segment(ImageWord(m, image, h + P_OFFSET, 8), ImageWord(m, image, h + P_VADDR, 8),
            ImageWord(m, image, h + P_FILESZ, 8), ImageWord(m, image, h + P_MEMSZ, 8))
  }

  /** The loader loads a header exactly when bit 0 of its type is set. */
  predicate Loadable(m: seq<byte>, image: nat, i: nat)
    requires InMemory(m, image)
  {
    ImageWord(m, image, HeaderAt(m, image, i) + P_TYPE, 4) % 2 == 1
  }

  /** The loader gets as far as header i: everything before it is loadable and fits. */
  ghost predicate Reaches(m: seq<byte>, image: nat, i: nat)
    requires InMemory(m, image)
  {
    && GoodMagic(m, image)
    && (forall k :: 0 <= k < i ==> Loadable(m, image, k) && SegmentAt(m, image, k).Fits())
  }

  /** Every header the loader reads is inside the image, and every segment it loads starts
      in the window. */
  ghost predicate HeadersFit(m: seq<byte>, image: nat, n: nat)
    requires InMemory(m, image)
  {
    forall i :: 0 <= i < n && Reaches(m, image, i) ==>
      && HeaderAt(m, image, i) + PHDR_BYTES <= IMAGE_BYTES
      && (Loadable(m, image, i) ==> SegmentAt(m, image, i).Starts())
  }

  predicate GoodMagic(m: seq<byte>, image: nat)
    requires InMemory(m, image)
  {
    forall k :: 0 <= k < 4 ==> ELF_MAGIC[k] == m[image + k]
  }

  // ----- What loading means -----

  /** The byte at physical address a after the first n segments, in file order, have
      been copied and zero-filled as far as the window goes; m is memory before loading. */
  function Loaded(m: seq<byte>, image: nat, n: nat, a: nat): byte
    requires InMemory(m, image) && a < |m|
  {
    if n == 0 then m[a]
    else
      var s := SegmentAt(m, image, n - 1);
      if s.Starts() && s.Writes(a) then
        if a < s.Start() + s.filesz then m[image + s.offset + (a - s.Start())] else 0
      else Loaded(m, image, n - 1, a)
  }

  ghost predicate IsLoaded(m0: seq<byte>, m: seq<byte>, image: nat, n: nat)
    requires InMemory(m0, image)
  {
    && |m| == |m0|
    && forall a :: 0 <= a < |m0| ==> m[a] == Loaded(m0, image, n, a)
  }

  /** Tables lie in the gigabyte the loader itself is linked into. */
  ghost predicate TablesReady(m: seq<byte>, t: Tables) {
    && t.Ready(m)
    && forall a: nat :: t.ident.Covers(a) || t.kernel.Covers(a) ==> GIB <= a < 2 * GIB
  }

  lemma BuiltSame(m: seq<byte>, m': seq<byte>, t: TableSet)
    requires |m| == |m'| && t.Aligned(|m|) && t.Built(m)
    requires forall a :: 0 <= a < |m| && t.Covers(a) ==> m[a] == m'[a]
    ensures t.Built(m')
  {
    hide Load64, TableSet.PgdEntry, TableSet.PudEntry, TableSet.PdEntry;
    forall i | 0 <= i < 512 ensures Load64(m', t.pgd + 8 * i) == t.PgdEntry(i) {
      EqualWord(m, m', t.pgd + 8 * i);
    }
    forall i | 0 <= i < 512 ensures Load64(m', t.pud + 8 * i) == t.PudEntry(i) {
      EqualWord(m, m', t.pud + 8 * i);
    }
    forall i, j | 0 <= i < 512 && 0 <= j < 512 ensures Load64(m', t.pds + PAGE * i + 8 * j) == t.PdEntry(i, j) {
      EqualWord(m, m', t.pds + PAGE * i + 8 * j);
    }
  }

  /** Stores into the kernel window cannot reach the tables. */
  lemma WindowStoresKeepTables(m: seq<byte>, m': seq<byte>, t: Tables)
    requires TablesReady(m, t) && SameOutside(m, m', 2 * GIB, 3 * GIB)
    ensures TablesReady(m', t)
  {
    hide TableSet.Built;
    BuiltSame(m, m', t.ident);
    BuiltSame(m, m', t.kernel);
  }

  lemma ImageWordSame(m: seq<byte>, m': seq<byte>, image: nat, at: nat, size: nat)
    requires InMemory(m, image) && SameOutside(m, m', 2 * GIB, 3 * GIB)
    ensures ImageWord(m, image, at, size) == ImageWord(m', image, at, size)
  {
    if at + size <= IMAGE_BYTES {
      LoadSame(m, m', image + at, size);
    }
  }

  /** The n bytes from lo are those that stood at src before. */
  ghost predicate Copied(before: seq<byte>, after: seq<byte>, lo: int, src: nat, n: nat) {
    && 0 <= lo && lo + n <= |after| && src + n <= |before|
    && forall a :: lo <= a < lo + n ==> after[a] == before[src + (a - lo)]
  }

  ghost predicate Cleared(m: seq<byte>, lo: int, hi: int) {
    0 <= lo && hi <= |m| && forall a :: lo <= a < hi ==> m[a] == 0
  }

  // ----- Accesses through the MMU -----

  method LoadByte(mem: array<byte>, t: Tables, va: nat) returns (b: byte)
    requires TablesReady(mem[..], t) && GIB <= va < 2 * GIB <= mem.Length
    ensures b == mem[va]
  {
    hide Translate, Tables.Registers;
    TranslationIsIntended(mem[..], t, va);
    var pa := Translate(mem[..], t.Registers(), va).pa;
    b := mem[pa];
  }

  /** A store, which faults where nothing is mapped. */
  method StoreByte(mem: array<byte>, t: Tables, va: nat, b: byte) returns (ok: bool)
    requires TablesReady(mem[..], t) && 3 * GIB <= mem.Length
    requires KERNEL_VADDR_BASE + 2 * GIB <= va < TWO_64
    modifies mem
    ensures TablesReady(mem[..], t)
    ensures ok <==> va < KERNEL_VADDR_BASE + 3 * GIB
    ensures mem[..] == if ok then old(mem[..])[va - KERNEL_VADDR_BASE := b] else old(mem[..])
  {
    hide Translate, Tables.Registers, TablesReady;
    AtWindow(mem[..], t, va);
    match Translate(mem[..], t.Registers(), va) {
      case Fault =>
        ok := false;
      case Mapped(pa, _, _, _) =>
        mem[pa] := b;
        ok := true;
        WindowStoresKeepTables(old(mem[..]), mem[..], t);
    }
  }

  lemma AtWindow(m: seq<byte>, t: Tables, va: nat)
    requires TablesReady(m, t)
    requires KERNEL_VADDR_BASE + 2 * GIB <= va < TWO_64
    ensures Translate(m, t.Registers(), va) ==
            if va < KERNEL_VADDR_BASE + 3 * GIB then
              Mapped(va - KERNEL_VADDR_BASE, NORMAL_WRITE_BACK, EXECUTABLE, false)
            else Fault
  {
    hide Translate, Tables.Registers;
    TranslationIsIntended(m, t, va);
  }

  /** A little-endian load from the image. */
  method ReadWord(mem: array<byte>, t: Tables, image: nat, at: nat, size: nat) returns (v: nat)
    requires TablesReady(mem[..], t) && InMemory(mem[..], image) && at + size <= IMAGE_BYTES
    ensures v == ImageWord(mem[..], image, at, size)
  {
    hide TablesReady;
    v := 0;
    var k := size;
    while k > 0
      invariant 0 <= k <= size
      invariant v == Load(mem[..], image + at + k, size - k)
    {
      k := k - 1;
      var b := LoadByte(mem, t, image + at + k);
      v := b + 0x100 * v;
    }
  }

  /** Where stores from lo on stop: after n bytes, or at the end of the window. */
  function StoreEnd(lo: int, n: nat): int {
    if lo + n <= 3 * GIB then lo + n else 3 * GIB
  }

  /** The loader's memcpy, from the image into the kernel window, up to a fault. */
  method Memcpy(mem: array<byte>, t: Tables, dst: nat, src: nat, sz: nat) returns (ok: bool)
    requires TablesReady(mem[..], t) && 3 * GIB <= mem.Length
    requires GIB <= src && src + sz <= 2 * GIB
    requires KERNEL_VADDR_BASE + 2 * GIB <= dst <= KERNEL_VADDR_BASE + 3 * GIB
    modifies mem
    ensures TablesReady(mem[..], t)
    ensures var pa := dst - KERNEL_VADDR_BASE;
            var end := StoreEnd(pa, sz);
            && (ok <==> pa + sz <= 3 * GIB)
            && SameOutside(old(mem[..]), mem[..], pa, end)
            && Copied(old(mem[..]), mem[..], pa, src, end - pa)
  {
    hide TablesReady;
    ghost var pa := dst - KERNEL_VADDR_BASE;
    var n, d, s := sz, dst, src;
    ok := true;
    while n > 0
      invariant 0 <= n <= sz && d == dst + (sz - n) && s == src + (sz - n)
      invariant pa + (sz - n) <= 3 * GIB
      invariant TablesReady(mem[..], t)
      invariant SameOutside(old(mem[..]), mem[..], pa, pa + (sz - n))
      invariant Copied(old(mem[..]), mem[..], pa, src, sz - n)
    {
      n := n - 1;
      var b := LoadByte(mem, t, s);
      ok := StoreByte(mem, t, d, b);
      if !ok {
        return;
      }
      d, s := d + 1, s + 1;
    }
  }

  /** int arithmetic in 32 bits. */
  function Int32(x: int): int {
    if x % TWO_32 < 0x8000_0000 then x % TWO_32 else x % TWO_32 - TWO_32
  }

  /** The zero-fill loop after a segment's file bytes, up to a fault. Its index is an int,
      compared with an unsigned count and added to the address with its sign; the window
      ends long before the index would wrap. */
  method ClearTail(mem: array<byte>, t: Tables, s: Segment) returns (ok: bool)
    requires TablesReady(mem[..], t) && 3 * GIB <= mem.Length && s.Starts() && s.Start() + s.filesz <= 3 * GIB
    modifies mem
    ensures TablesReady(mem[..], t)
    ensures ok <==> s.Fits()
    ensures var lo := s.Start() + s.filesz;
            && SameOutside(old(mem[..]), mem[..], lo, StoreEnd(lo, s.Zeroes()))
            && Cleared(mem[..], lo, StoreEnd(lo, s.Zeroes()))
            && (ok && StoreEnd(lo, s.Zeroes()) == s.Start() + s.memsz
                <==> s.filesz <= s.memsz && s.Start() + s.memsz <= 3 * GIB)
  {
    hide TablesReady;
    TailIff(s);
    ghost var lo := s.Start() + s.filesz;
    var numZeroes := (s.memsz - s.filesz) % TWO_32;
    var j := 0;
    ok := true;
    while j % TWO_32 < numZeroes
      invariant 0 <= j <= numZeroes && lo + j <= 3 * GIB
      invariant TablesReady(mem[..], t)
      invariant SameOutside(old(mem[..]), mem[..], lo, lo + j)
      invariant Cleared(mem[..], lo, lo + j)
      decreases numZeroes - j
    {
      ok := StoreByte(mem, t, s.vaddr + s.filesz + j, 0);
      if !ok {
        return;
      }
      j := Int32(j + 1);
    }
  }

  /** The tail ends where p_memsz says exactly if that is behind the file bytes and inside
      the window. */
  lemma TailIff(s: Segment)
    requires s.Starts() && s.Start() + s.filesz <= 3 * GIB
    ensures s.Fits() && StoreEnd(s.Start() + s.filesz, s.Zeroes()) == s.Start() + s.memsz
            <==> s.filesz <= s.memsz && s.Start() + s.memsz <= 3 * GIB
  {
    hide Segment.Zeroes;
    StatedSizeIff(s);
  }

  /** One pass of the loop body: the segment of header i on top of what is loaded, unless
      a store faults. */
  method LoadSegment(mem: array<byte>, t: Tables, image: nat, ghost m0: seq<byte>, i: nat) returns (ok: bool)
    requires InMemory(m0, image) && TablesReady(mem[..], t)
    requires SameOutside(m0, mem[..], 2 * GIB, 3 * GIB) && IsLoaded(m0, mem[..], image, i)
    requires HeaderAt(m0, image, i) + PHDR_BYTES <= IMAGE_BYTES && SegmentAt(m0, image, i).Starts()
    modifies mem
    ensures TablesReady(mem[..], t)
    ensures ok <==> SegmentAt(m0, image, i).Fits()
    ensures SameOutside(m0, mem[..], 2 * GIB, 3 * GIB) && IsLoaded(m0, mem[..], image, i + 1)
  {
    hide TablesReady, ImageWord, Loaded;
    var phoff := ReadWord(mem, t, image, E_PHOFF, 8);
    var phentsize := ReadWord(mem, t, image, E_PHENTSIZE, 2);
    ImageWordSame(m0, mem[..], image, E_PHOFF, 8);
    ImageWordSame(m0, mem[..], image, E_PHENTSIZE, 2);
    var h := HeaderOffset(phoff, i, phentsize);
    var offset := ReadWord(mem, t, image, h + P_OFFSET, 8);
    var vaddr := ReadWord(mem, t, image, h + P_VADDR, 8);
    var filesz := ReadWord(mem, t, image, h + P_FILESZ, 8);
    var memsz := ReadWord(mem, t, image, h + P_MEMSZ, 8);
    ImageWordSame(m0, mem[..], image, h + P_OFFSET, 8);
    ImageWordSame(m0, mem[..], image, h + P_VADDR, 8);
    ImageWordSame(m0, mem[..], image, h + P_FILESZ, 8);
    ImageWordSame(m0, mem[..], image, h + P_MEMSZ, 8);
    var s := Segment(offset, vaddr, filesz, memsz);
    assert s == SegmentAt(m0, image, i);
    ghost var m1 := mem[..];
    ok := Memcpy(mem, t, s.vaddr, image + s.offset, s.filesz);
    ghost var m2 := mem[..];
    if ok {
      ok := ClearTail(mem, t, s);
    }
    SegmentOnTop(m0, m1, m2, mem[..], image, i, s);
  }

  lemma SegmentOnTop(m0: seq<byte>, m1: seq<byte>, m2: seq<byte>, m3: seq<byte>, image: nat, i: nat, s: Segment)
    requires InMemory(m0, image) && s == SegmentAt(m0, image, i) && s.Starts()
    requires SameOutside(m0, m1, 2 * GIB, 3 * GIB) && IsLoaded(m0, m1, image, i)
    requires var mid := StoreEnd(s.Start(), s.filesz);
             && SameOutside(m1, m2, s.Start(), mid) && Copied(m1, m2, s.Start(), image + s.offset, mid - s.Start())
    requires if s.Start() + s.filesz > 3 * GIB then m3 == m2
             else var lo := s.Start() + s.filesz;
                  && SameOutside(m2, m3, lo, StoreEnd(lo, s.Zeroes()))
                  && Cleared(m3, lo, StoreEnd(lo, s.Zeroes()))
    ensures IsLoaded(m0, m3, image, i + 1)
    ensures SameOutside(m0, m3, 2 * GIB, 3 * GIB)
  {
    hide SegmentAt, Segment.Zeroes;
  }

  // ----- copy_kernel -----

  /** The two spin loops, a store that faults, and the ordinary return. */
  datatype LoadResult = BadMagic | NothingToLoad(header: nat) | Faulted(header: nat) | EntryPoint(address: nat)

  method CheckMagic(mem: array<byte>, t: Tables, image: nat) returns (ok: bool)
    requires InMemory(mem[..], image) && TablesReady(mem[..], t)
    ensures ok == GoodMagic(mem[..], image)
  {
    hide TablesReady;
    var i := 0;
    while i < 4
      invariant 0 <= i <= 4
      invariant forall k :: 0 <= k < i ==> ELF_MAGIC[k] == mem[image + k]
    {
      var b := LoadByte(mem, t, image + i);
      if b != ELF_MAGIC[i] {
        return false;
      }
      i := i + 1;
    }
    ok := true;
  }

  method CopyKernel(mem: array<byte>, t: Tables, image: nat) returns (r: LoadResult)
    requires InMemory(mem[..], image) && TablesReady(mem[..], t)
    requires HeadersFit(mem[..], image, Phnum(mem[..], image))
    modifies mem
    ensures TablesReady(mem[..], t)
    ensures SameOutside(old(mem[..]), mem[..], 2 * GIB, 3 * GIB)
    ensures match r
            case BadMagic => !GoodMagic(old(mem[..]), image) && mem[..] == old(mem[..])
            case NothingToLoad(i) =>
              && Reaches(old(mem[..]), image, i) && i < Phnum(old(mem[..]), image)
              && !Loadable(old(mem[..]), image, i)
              && IsLoaded(old(mem[..]), mem[..], image, i)
            case Faulted(i) =>
              && Reaches(old(mem[..]), image, i) && i < Phnum(old(mem[..]), image)
              && Loadable(old(mem[..]), image, i) && !SegmentAt(old(mem[..]), image, i).Fits()
              && IsLoaded(old(mem[..]), mem[..], image, i + 1)
            case EntryPoint(address) =>
              && Reaches(old(mem[..]), image, Phnum(old(mem[..]), image))
              && address == ImageWord(old(mem[..]), image, E_ENTRY, 8)
              && IsLoaded(old(mem[..]), mem[..], image, Phnum(old(mem[..]), image))
  {
    hide TablesReady, ImageWord, GoodMagic, SegmentAt, HeaderAt, SameOutside;
    ghost var m0 := mem[..];
    var ok := CheckMagic(mem, t, image);
    if !ok {
      SameRefl(m0);
      return BadMagic;
    }
    SameRefl(m0);
    var i := 0;
    var phnum := ReadWord(mem, t, image, E_PHNUM, 2);
    while i < phnum
      invariant 0 <= i <= phnum == Phnum(m0, image)
      invariant |mem[..]| == |m0| && InMemory(mem[..], image)
      invariant TablesReady(mem[..], t)
      invariant SameOutside(m0, mem[..], 2 * GIB, 3 * GIB)
      invariant IsLoaded(m0, mem[..], image, i)
      invariant Reaches(m0, image, i)
    {
      var load := TestType(mem, t, image, m0, i);
      if !load {
        return NothingToLoad(i);
      }
      var ok := LoadSegment(mem, t, image, m0, i);
      if !ok {
        return Faulted(i);
      }
      phnum := ReadWord(mem, t, image, E_PHNUM, 2);
      ImageWordSame(m0, mem[..], image, E_PHNUM, 2);
      i := i + 1;
    }
    var entry := ReadWord(mem, t, image, E_ENTRY, 8);
    ImageWordSame(m0, mem[..], image, E_ENTRY, 8);
    r := EntryPoint(entry);
  }

  lemma SameRefl(m: seq<byte>)
    ensures SameOutside(m, m, 2 * GIB, 3 * GIB)
  {
  }

  method TestType(mem: array<byte>, t: Tables, image: nat, ghost m0: seq<byte>, i: nat) returns (load: bool)
    requires InMemory(m0, image) && TablesReady(mem[..], t) && SameOutside(m0, mem[..], 2 * GIB, 3 * GIB)
    requires HeaderAt(m0, image, i) + PHDR_BYTES <= IMAGE_BYTES
    ensures load == Loadable(m0, image, i)
  {
    hide TablesReady, ImageWord;
    var phoff := ReadWord(mem, t, image, E_PHOFF, 8);
    var phentsize := ReadWord(mem, t, image, E_PHENTSIZE, 2);
    ImageWordSame(m0, mem[..], image, E_PHOFF, 8);
    ImageWordSame(m0, mem[..], image, E_PHENTSIZE, 2);
    var h := HeaderOffset(phoff, i, phentsize);
    var ptype := ReadWord(mem, t, image, h + P_TYPE, 4);
    ImageWordSame(m0, mem[..], image, h + P_TYPE, 4);
    LowBit(ptype);
    load := And(ptype, 1) != 0;
  }

  lemma LowBit(x: nat)
    ensures And(x, 1) == x % 2
  {
    AndLow(x, 1);
    assert Low(x, 1) == 2 * Low(x / 2, 0) + x % 2;
  }

  // ----- The loaded image -----

  /** The first n segments fit, and no two of them write the same memory. */
  ghost predicate Disjoint(m: seq<byte>, image: nat, n: nat)
    requires InMemory(m, image)
  {
    && (forall i :: 0 <= i < n ==> SegmentAt(m, image, i).Fits())
    && (forall i, j :: 0 <= i < j < n ==> SegmentsApart(SegmentAt(m, image, i), SegmentAt(m, image, j)))
  }

  predicate SegmentsApart(s: Segment, s': Segment) {
    s.Start() + s.Extent() <= s'.Start() || s'.Start() + s'.Extent() <= s.Start()
  }

  /** Every segment of a disjoint image reads as its file bytes and then zeros,
      whatever was loaded before or after it. */
  lemma {:induction false} SegmentContents(m: seq<byte>, image: nat, n: nat, i: nat, j: nat)
    requires InMemory(m, image) && Disjoint(m, image, n) && i < n
    requires j < SegmentAt(m, image, i).Extent()
    ensures var s := SegmentAt(m, image, i);
            Loaded(m, image, n, s.Start() + j) == if j < s.filesz then m[image + s.offset + j] else 0
  {
    hide SegmentAt, Segment.Zeroes;
    if i < n - 1 {
      assert SegmentsApart(SegmentAt(m, image, i), SegmentAt(m, image, n - 1));
      SegmentContents(m, image, n - 1, i, j);
    }
  }

  /** Loading changes nothing outside the segments. */
  lemma {:induction false} OutsideSegments(m: seq<byte>, image: nat, n: nat, a: nat)
    requires InMemory(m, image) && a < |m|
    requires forall i :: 0 <= i < n ==>
      var s := SegmentAt(m, image, i); !(s.Start() <= a < s.Start() + s.Extent())
    ensures Loaded(m, image, n, a) == m[a]
  {
    hide SegmentAt, Segment.Zeroes;
    if n > 0 {
      OutsideSegments(m, image, n - 1, a);
    }
  }

  /** A segment is loaded without a fault and occupies exactly its p_memsz bytes exactly
      when its file bytes are no more than these and all of them lie in the window. */
  lemma StatedSizeIff(s: Segment)
    requires s.Starts()
    ensures s.Fits() && s.Extent() == s.memsz <==> s.filesz <= s.memsz && s.Start() + s.memsz <= 3 * GIB
  {
    GapInRange(s);
  }

  /** The other segments: a p_memsz below p_filesz always faults, and one that is larger by
      2^32 or more is loaded short if what the counter keeps of it fits. */
  lemma WrongSize(s: Segment)
    requires s.Starts()
    ensures s.memsz < s.filesz ==> !s.Fits()
    ensures s.Fits() ==> (s.Extent() < s.memsz <==> s.memsz >= s.filesz + TWO_32) && s.Extent() <= s.memsz
  {
    GapInRange(s);
  }

  lemma GapInRange(s: Segment)
    requires s.Starts()
    ensures s.filesz <= s.memsz < s.filesz + TWO_32 ==> s.Zeroes() == s.memsz - s.filesz
    ensures s.memsz < s.filesz ==> s.Zeroes() == s.memsz - s.filesz + TWO_32
    ensures s.memsz >= s.filesz + TWO_32 ==> s.Zeroes() < TWO_32 <= s.memsz - s.filesz
  {
  }

  /** A segment of 2^32 + 16 bytes is loaded as 16 bytes, and one with fewer bytes of memory
      than of file faults at the end of the window. */
  lemma WrongSizes()
    ensures var s := Segment(0, KERNEL_VADDR_BASE + 2 * GIB, 8, TWO_32 + 16); s.Fits() && s.Extent() == 16
    ensures var s := Segment(0, KERNEL_VADDR_BASE + 2 * GIB, 8, 4); s.Starts() && !s.Fits()
  {
  }

  /** The window of normal memory holds what loading n segments leaves there. */
  ghost predicate WindowLoaded(m0: seq<byte>, m: seq<byte>, image: nat, n: nat)
    requires InMemory(m0, image)
  {
    && |m| == |m0|
    && forall a :: 2 * GIB <= a < 3 * GIB ==> m[a] == Loaded(m0, image, n, a)
  }

  /** Byte j of a segment as the kernel sees it: executable normal memory at its virtual
      address, holding a file byte or a zero. */
  ghost predicate ByteInPlace(m0: seq<byte>, m: seq<byte>, t: Tables, image: nat, s: Segment, j: nat) {
    && 0 <= s.Start() + j < |m|
    && Translate(m, t.Registers(), s.vaddr + j) == Mapped(s.Start() + j, NORMAL_WRITE_BACK, EXECUTABLE, false)
    && if j < s.filesz then image + s.offset + j < |m0| && m[s.Start() + j] == m0[image + s.offset + j]
       else m[s.Start() + j] == 0
  }

  /** What the kernel sees at a virtual address after loading. */
  lemma SegmentThroughTables(m0: seq<byte>, m: seq<byte>, t: Tables, image: nat, n: nat, i: nat, j: nat)
    requires InMemory(m0, image) && Disjoint(m0, image, n) && i < n
    requires j < SegmentAt(m0, image, i).Extent()
    requires TablesReady(m, t) && WindowLoaded(m0, m, image, n)
    ensures ByteInPlace(m0, m, t, image, SegmentAt(m0, image, i), j)
  {
    hide Translate, Tables.Registers, TablesReady, Loaded, SegmentAt, Segment.Zeroes;
    AtWindow(m, t, SegmentAt(m0, image, i).vaddr + j);
    SegmentContents(m0, image, n, i, j);
  }

  // ----- lmain: build both tables, then load -----

  /** Where the linker put the two sets of tables and the image. */
  ghost predicate Linked(m: seq<byte>, t: Tables, image: nat) {
    && InMemory(m, image) && t.Typed()
    && t.ident == IdentSet(t.ident.pgd, t.ident.pud, t.ident.pds) && t.ident.Placed(|m|) && t.ident.Blank(m)
    && t.kernel == KernelSet(t.kernel.pgd, t.kernel.pud, t.kernel.pds) && t.kernel.Placed(|m|) && t.kernel.Blank(m)
    && (forall a: nat :: t.ident.Covers(a) || t.kernel.Covers(a) ==>
          GIB <= a < 2 * GIB && !(image <= a < image + IMAGE_BYTES))
    && (forall a: nat :: !(t.ident.Covers(a) && t.kernel.Covers(a)))
  }

  /** Memory after lmain has loaded n segments: those on top of the old memory, except
      where the tables now are; the image is as it was. */
  ghost predicate LoadedAround(m0: seq<byte>, m: seq<byte>, t: Tables, image: nat, n: nat)
    requires InMemory(m0, image)
  {
    && |m| == |m0|
    && (forall a :: 0 <= a < |m0| && !t.ident.Covers(a) && !t.kernel.Covers(a) ==> m[a] == Loaded(m0, image, n, a))
    && (forall a :: image <= a < image + IMAGE_BYTES ==> m[a] == m0[a])
  }

  method Lmain(mem: array<byte>, t: Tables, image: nat) returns (r: LoadResult)
    requires Linked(mem[..], t, image)
    requires HeadersFit(mem[..], image, Phnum(mem[..], image))
    modifies mem
    ensures TablesReady(mem[..], t)
    ensures var m0 := old(mem[..]);
            && (r.BadMagic? <==> !GoodMagic(m0, image))
            && (r.EntryPoint? <==> Reaches(m0, image, Phnum(m0, image)))
    ensures var m0 := old(mem[..]);
            match r
            case BadMagic => LoadedAround(m0, mem[..], t, image, 0)
            case NothingToLoad(i) =>
              && i < Phnum(m0, image) && Reaches(m0, image, i) && !Loadable(m0, image, i)
              && LoadedAround(m0, mem[..], t, image, i)
            case Faulted(i) =>
              && i < Phnum(m0, image) && Reaches(m0, image, i) && Loadable(m0, image, i)
              && !SegmentAt(m0, image, i).Fits() && LoadedAround(m0, mem[..], t, image, i + 1)
            case EntryPoint(address) =>
              && address == ImageWord(m0, image, E_ENTRY, 8)
              && LoadedAround(m0, mem[..], t, image, Phnum(m0, image))
              && (Disjoint(m0, image, Phnum(m0, image)) ==> SegmentsInPlace(m0, mem[..], t, image))
  {
    hide TableSet.Built, ImageWord, Loaded, SegmentAt, HeaderAt, Loadable, GoodMagic, SegmentsInPlace, Disjoint,
         LoadedAround;
    ghost var m0 := mem[..];
    SetupIdentMap(mem, t.ident.pgd, t.ident.pud, t.ident.pds);
    ghost var m1 := mem[..];
    KernelSetupTranslationTables(mem, t.kernel.pgd, t.kernel.pud, t.kernel.pds);
    ghost var m2 := mem[..];
    BuiltSame(m1, m2, t.ident);
    ImageSame(m0, m2, image, Phnum(m0, image));
    MagicSame(m0, m2, image);
    r := CopyKernel(mem, t, image);
    WordInImage(m0, m2, image, E_ENTRY, 8);
    match r {
      case BadMagic =>
        NothingLoaded(m2, image);
        LoadedAfter(m0, m2, mem[..], t, image, 0);
      case NothingToLoad(i) =>
        HeaderSame(m0, m2, image, i);
        LoadedAfter(m0, m2, mem[..], t, image, i);
      case Faulted(i) =>
        HeaderSame(m0, m2, image, i);
        LoadedAfter(m0, m2, mem[..], t, image, i + 1);
      case EntryPoint(address) =>
        LoadedAfter(m0, m2, mem[..], t, image, Phnum(m0, image));
        if Disjoint(m0, image, Phnum(m0, image)) {
          AllInPlace(m0, mem[..], t, image);
        }
    }
  }

  lemma NothingLoaded(m: seq<byte>, image: nat)
    requires InMemory(m, image)
    ensures IsLoaded(m, m, image, 0) && SameOutside(m, m, 2 * GIB, 3 * GIB)
  {
  }

  /** Loading after the tables were built, seen from the memory before. */
  lemma LoadedAfter(m0: seq<byte>, m2: seq<byte>, m3: seq<byte>, t: Tables, image: nat, n: nat)
    requires SameImage(m0, m2, image)
    requires forall a :: 0 <= a < |m0| && !t.ident.Covers(a) && !t.kernel.Covers(a) ==> m0[a] == m2[a]
    requires SameOutside(m2, m3, 2 * GIB, 3 * GIB) && IsLoaded(m2, m3, image, n)
    ensures LoadedAround(m0, m3, t, image, n)
  {
    hide Loaded;
    forall a | 0 <= a < |m0| && !t.ident.Covers(a) && !t.kernel.Covers(a)
      ensures m3[a] == Loaded(m0, image, n, a)
    {
      LoadedSame(m0, m2, image, n, a);
    }
  }

  lemma AllInPlace(m0: seq<byte>, m: seq<byte>, t: Tables, image: nat)
    requires InMemory(m0, image) && Disjoint(m0, image, Phnum(m0, image))
    requires TablesReady(m, t) && LoadedAround(m0, m, t, image, Phnum(m0, image))
    ensures SegmentsInPlace(m0, m, t, image)
  {
    hide Translate, Tables.Registers, Loaded, SegmentAt, Segment.Extent, Phnum, Tables.Ready;
    assert WindowLoaded(m0, m, image, Phnum(m0, image));
    forall i: nat, j: nat | i < Phnum(m0, image) && j < SegmentAt(m0, image, i).Extent()
      ensures ByteInPlace(m0, m, t, image, SegmentAt(m0, image, i), j)
    {
      SegmentThroughTables(m0, m, t, image, Phnum(m0, image), i, j);
    }
  }

  /** Every byte of every segment is in place. */
  ghost predicate SegmentsInPlace(m0: seq<byte>, m: seq<byte>, t: Tables, image: nat)
    requires InMemory(m0, image)
  {
    forall i: nat, j: nat :: i < Phnum(m0, image) && j < SegmentAt(m0, image, i).Extent() ==>
      ByteInPlace(m0, m, t, image, SegmentAt(m0, image, i), j)
  }

  /** Building the tables leaves the image as it was. */
  ghost predicate SameImage(m: seq<byte>, m': seq<byte>, image: nat) {
    && InMemory(m, image) && |m| == |m'|
    && forall a :: image <= a < image + IMAGE_BYTES ==> m[a] == m'[a]
  }

  lemma MagicSame(m: seq<byte>, m': seq<byte>, image: nat)
    requires SameImage(m, m', image)
    ensures GoodMagic(m, image) == GoodMagic(m', image)
  {
  }

  lemma WordInImage(m: seq<byte>, m': seq<byte>, image: nat, at: nat, size: nat)
    requires SameImage(m, m', image)
    ensures ImageWord(m, image, at, size) == ImageWord(m', image, at, size)
  {
    if at + size <= IMAGE_BYTES {
      LoadSame(m, m', image + at, size);
    }
  }

  lemma HeaderSame(m: seq<byte>, m': seq<byte>, image: nat, i: nat)
    requires SameImage(m, m', image)
    ensures HeaderAt(m, image, i) == HeaderAt(m', image, i)
    ensures SegmentAt(m, image, i) == SegmentAt(m', image, i)
    ensures Loadable(m, image, i) == Loadable(m', image, i)
  {
    hide ImageWord;
    WordInImage(m, m', image, E_PHOFF, 8);
    WordInImage(m, m', image, E_PHENTSIZE, 2);
    var h := HeaderAt(m, image, i);
    WordInImage(m, m', image, h + P_TYPE, 4);
    WordInImage(m, m', image, h + P_OFFSET, 8);
    WordInImage(m, m', image, h + P_VADDR, 8);
    WordInImage(m, m', image, h + P_FILESZ, 8);
    WordInImage(m, m', image, h + P_MEMSZ, 8);
  }

  lemma ImageSame(m: seq<byte>, m': seq<byte>, image: nat, n: nat)
    requires SameImage(m, m', image) && HeadersFit(m, image, n)
    ensures HeadersFit(m', image, n)
    ensures forall i: nat :: i <= n ==> Reaches(m', image, i) == Reaches(m, image, i)
    ensures Phnum(m, image) == Phnum(m', image)
  {
    hide ImageWord, HeaderAt, SegmentAt, Loadable;
    WordInImage(m, m', image, E_PHNUM, 2);
    forall i: nat | i < n
      ensures HeaderAt(m', image, i) == HeaderAt(m, image, i) && SegmentAt(m', image, i) == SegmentAt(m, image, i)
      ensures Loadable(m', image, i) == Loadable(m, image, i)
    {
      HeaderSame(m, m', image, i);
    }
    forall i: nat | i <= n ensures Reaches(m', image, i) == Reaches(m, image, i) {
    }
  }

  lemma {:induction false} LoadedSame(m: seq<byte>, m': seq<byte>, image: nat, n: nat, a: nat)
    requires SameImage(m, m', image) && a < |m| && m[a] == m'[a]
    ensures Loaded(m, image, n, a) == Loaded(m', image, n, a)
  {
    hide SegmentAt, Segment.Zeroes;
    if n > 0 {
      HeaderSame(m, m', image, n - 1);
      LoadedSame(m, m', image, n - 1, a);
    }
  }
}
