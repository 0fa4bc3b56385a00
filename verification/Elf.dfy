/** ELF64 images as kernel/include/elf.h lays them out, written byte by byte, and what the
    loader makes of them. */
module Elf {
  import opened Bits
  import opened Memory
  import opened AddressMap
  import opened Loader

  // ----- The headers and their bytes -----

  /** Elf64_Ehdr. */
  datatype FileHeader = FileHeader(
    ident: seq<byte>, etype: nat, machine: nat, version: nat, entry: nat, phoff: nat, shoff: nat,
    flags: nat, ehsize: nat, phentsize: nat, phnum: nat, shentsize: nat, shnum: nat, shstrndx: nat)
  {
    predicate Sized() {
      && |ident| == 16 && etype < 0x1_0000 && machine < 0x1_0000 && version < TWO_32
      && entry < TWO_64 && phoff < TWO_64 && shoff < TWO_64 && flags < TWO_32
      && ehsize < 0x1_0000 && phentsize < 0x1_0000 && phnum < 0x1_0000
      && shentsize < 0x1_0000 && shnum < 0x1_0000 && shstrndx < 0x1_0000
    }
  }

  /** Elf64_Phdr. */
  datatype ProgramHeader = ProgramHeader(
    ptype: nat, flags: nat, offset: nat, vaddr: nat, paddr: nat, filesz: nat, memsz: nat, align: nat)
  {
    predicate Sized() {
      && ptype < TWO_32 && flags < TWO_32 && offset < TWO_64 && vaddr < TWO_64
      && paddr < TWO_64 && filesz < TWO_64 && memsz < TWO_64 && align < TWO_64
    }
  }

  /** The low n bytes of v, least significant first. */
  function Bytes(v: nat, n: nat): (b: seq<byte>)
    ensures |b| == n
    decreases n
  {
    if n == 0 then [] else [v % 0x100] + Bytes(v / 0x100, n - 1)
  }

  function EncodeFile(h: FileHeader): seq<byte> {
    h.ident + Bytes(h.etype, 2) + Bytes(h.machine, 2) + Bytes(h.version, 4) +
    Bytes(h.entry, 8) + Bytes(h.phoff, 8) + Bytes(h.shoff, 8) + Bytes(h.flags, 4) +
    Bytes(h.ehsize, 2) + Bytes(h.phentsize, 2) + Bytes(h.phnum, 2) +
    Bytes(h.shentsize, 2) + Bytes(h.shnum, 2) + Bytes(h.shstrndx, 2)
  }

  function EncodeProgram(p: ProgramHeader): seq<byte> {
    Bytes(p.ptype, 4) + Bytes(p.flags, 4) + Bytes(p.offset, 8) + Bytes(p.vaddr, 8) +
    Bytes(p.paddr, 8) + Bytes(p.filesz, 8) + Bytes(p.memsz, 8) + Bytes(p.align, 8)
  }

  /** These bytes stand at address a. */
  predicate Stands(m: seq<byte>, a: nat, bytes: seq<byte>) {
    a + |bytes| <= |m| && m[a..a + |bytes|] == bytes
  }

  // ----- Reading a field back -----

  lemma StandsSplit(m: seq<byte>, a: nat, x: seq<byte>, y: seq<byte>)
    requires Stands(m, a, x + y)
    ensures Stands(m, a, x) && Stands(m, a + |x|, y)
  {
    var t := m[a..a + |x + y|];
    assert t[..|x|] == x && t[|x|..] == y;
    assert m[a..a + |x|] == t[..|x|];
    assert m[a + |x|..a + |x| + |y|] == t[|x|..];
  }

  lemma {:induction false} LoadBytes(m: seq<byte>, a: nat, v: nat, n: nat)
    requires Stands(m, a, Bytes(v, n)) && v < Power256(n)
    ensures Load(m, a, n) == v
    decreases n
  {
    if n > 0 {
      StandsSplit(m, a, [v % 0x100], Bytes(v / 0x100, n - 1));
      assert m[a] == m[a..a + 1][0];
      LoadBytes(m, a + 1, v / 0x100, n - 1);
    }
  }

  lemma Sizes256()
    ensures Power256(2) == 0x1_0000 && Power256(4) == TWO_32 && Power256(8) == TWO_64
  {
    assert Power256(8) == 0x100 * Power256(7) == 0x1_0000 * Power256(6) ==
           0x100_0000 * Power256(5) == 0x1_0000_0000 * Power256(4);
  }

  lemma FileFields(m: seq<byte>, a: nat, h: FileHeader)
    requires h.Sized() && Stands(m, a, EncodeFile(h))
    ensures Stands(m, a, h.ident)
    ensures Load(m, a + 24, 8) == h.entry && Load(m, a + 32, 8) == h.phoff
    ensures Load(m, a + 54, 2) == h.phentsize && Load(m, a + 56, 2) == h.phnum
  {
    hide Bytes, Load, Stands, Power256;
    Sizes256();
    var b1 := h.ident + Bytes(h.etype, 2) + Bytes(h.machine, 2) + Bytes(h.version, 4);
    var b2 := b1 + Bytes(h.entry, 8);
    var b3 := b2 + Bytes(h.phoff, 8);
    var b4 := b3 + Bytes(h.shoff, 8) + Bytes(h.flags, 4) + Bytes(h.ehsize, 2);
    var b5 := b4 + Bytes(h.phentsize, 2);
    var b6 := b5 + Bytes(h.phnum, 2);
    StandsSplit(m, a, b6 + Bytes(h.shentsize, 2) + Bytes(h.shnum, 2), Bytes(h.shstrndx, 2));
    StandsSplit(m, a, b6 + Bytes(h.shentsize, 2), Bytes(h.shnum, 2));
    StandsSplit(m, a, b6, Bytes(h.shentsize, 2));
    StandsSplit(m, a, b5, Bytes(h.phnum, 2));
    StandsSplit(m, a, b4, Bytes(h.phentsize, 2));
    StandsSplit(m, a, b3 + Bytes(h.shoff, 8) + Bytes(h.flags, 4), Bytes(h.ehsize, 2));
    StandsSplit(m, a, b3 + Bytes(h.shoff, 8), Bytes(h.flags, 4));
    StandsSplit(m, a, b3, Bytes(h.shoff, 8));
    StandsSplit(m, a, b2, Bytes(h.phoff, 8));
    StandsSplit(m, a, b1, Bytes(h.entry, 8));
    StandsSplit(m, a, h.ident + Bytes(h.etype, 2) + Bytes(h.machine, 2), Bytes(h.version, 4));
    StandsSplit(m, a, h.ident + Bytes(h.etype, 2), Bytes(h.machine, 2));
    StandsSplit(m, a, h.ident, Bytes(h.etype, 2));
    LoadBytes(m, a + 24, h.entry, 8);
    LoadBytes(m, a + 32, h.phoff, 8);
    LoadBytes(m, a + 54, h.phentsize, 2);
    LoadBytes(m, a + 56, h.phnum, 2);
  }

  lemma ProgramFields(m: seq<byte>, a: nat, p: ProgramHeader)
    requires p.Sized() && Stands(m, a, EncodeProgram(p))
    ensures Load(m, a, 4) == p.ptype && Load(m, a + 8, 8) == p.offset && Load(m, a + 16, 8) == p.vaddr
    ensures Load(m, a + 32, 8) == p.filesz && Load(m, a + 40, 8) == p.memsz
  {
    hide Bytes, Load, Stands, Power256;
    Sizes256();
    var b1 := Bytes(p.ptype, 4) + Bytes(p.flags, 4);
    var b2 := b1 + Bytes(p.offset, 8);
    var b3 := b2 + Bytes(p.vaddr, 8);
    var b4 := b3 + Bytes(p.paddr, 8);
    var b5 := b4 + Bytes(p.filesz, 8);
    StandsSplit(m, a, b5 + Bytes(p.memsz, 8), Bytes(p.align, 8));
    StandsSplit(m, a, b5, Bytes(p.memsz, 8));
    StandsSplit(m, a, b4, Bytes(p.filesz, 8));
    StandsSplit(m, a, b3, Bytes(p.paddr, 8));
    StandsSplit(m, a, b2, Bytes(p.vaddr, 8));
    StandsSplit(m, a, b1, Bytes(p.offset, 8));
    StandsSplit(m, a, Bytes(p.ptype, 4), Bytes(p.flags, 4));
    LoadBytes(m, a, p.ptype, 4);
    LoadBytes(m, a + 8, p.offset, 8);
    LoadBytes(m, a + 16, p.vaddr, 8);
    LoadBytes(m, a + 32, p.filesz, 8);
    LoadBytes(m, a + 40, p.memsz, 8);
  }

  // ----- What the loader reads -----

  /** The image starts with this header. */
  ghost predicate HasHeader(m: seq<byte>, image: nat, h: FileHeader) {
    InMemory(m, image) && h.Sized() && Stands(m, image, EncodeFile(h))
  }

  /** Its program headers are these, and lie inside the image. */
  ghost predicate HasPrograms(m: seq<byte>, image: nat, h: FileHeader, ps: seq<ProgramHeader>) {
    && |ps| == h.phnum
    && forall i :: 0 <= i < |ps| ==> HasProgram(m, image, HeaderOffset(h.phoff, i, h.phentsize), ps[i])
  }

  ghost predicate HasProgram(m: seq<byte>, image: nat, at: nat, p: ProgramHeader) {
    p.Sized() && at + 56 <= IMAGE_BYTES && Stands(m, image + at, EncodeProgram(p))
  }

  /** 0x7f, E, L, F. */
  predicate HasMagic(h: FileHeader) {
    |h.ident| >= 4 && h.ident[0] == 0x7f && h.ident[1] == 0x45 && h.ident[2] == 0x4c && h.ident[3] == 0x46
  }

  /** The loader reads each field of the file header where elf.h puts it. */
  lemma HeaderReads(m: seq<byte>, image: nat, h: FileHeader, i: nat)
    requires HasHeader(m, image, h)
    ensures GoodMagic(m, image) <==> HasMagic(h)
    ensures Phnum(m, image) == h.phnum && ImageWord(m, image, E_ENTRY, 8) == h.entry
    ensures HeaderAt(m, image, i) == h.phoff + i * h.phentsize
  {
    hide Bytes, Load, Power256;
    FileFields(m, image, h);
    forall k | 0 <= k < 4 ensures m[image + k] == h.ident[k] {
      assert m[image..image + 16][k] == h.ident[k];
    }
    assert ELF_MAGIC[0] == 0x7f && ELF_MAGIC[1] == 0x45 && ELF_MAGIC[2] == 0x4c && ELF_MAGIC[3] == 0x46;
    if GoodMagic(m, image) {
      assert m[image + 0] == ELF_MAGIC[0] && m[image + 1] == ELF_MAGIC[1];
      assert m[image + 2] == ELF_MAGIC[2] && m[image + 3] == ELF_MAGIC[3];
    }
  }

  /** And each field of a program header. */
  lemma ProgramReads(m: seq<byte>, image: nat, h: FileHeader, i: nat, p: ProgramHeader)
    requires HasHeader(m, image, h) && HasProgram(m, image, HeaderOffset(h.phoff, i, h.phentsize), p)
    ensures Loadable(m, image, i) <==> p.ptype % 2 == 1
    ensures SegmentAt(m, image, i) == Segment(p.offset, p.vaddr, p.filesz, p.memsz)
  {
    hide Bytes, Load, Power256, Stands;
    HeaderReads(m, image, h, i);
    ProgramFields(m, image + HeaderOffset(h.phoff, i, h.phentsize), p);
  }

  // ----- Loading an ELF image -----

  /** The source lies in the image, and the destination starts in the window. */
  predicate Lands(p: ProgramHeader) {
    p.offset + p.filesz <= 0x10_0000 && 2 * GIB <= p.vaddr - 0xffff_ff80_0000_0000 <= 3 * GIB
  }

  /** File bytes, and as many zeros as 32 bits of the difference say. */
  function Written(p: ProgramHeader): nat {
    p.filesz + (p.memsz - p.filesz) % 0x1_0000_0000
  }

  /** The loader gets past this header. */
  predicate Passes(p: ProgramHeader) {
    p.ptype % 2 == 1 && Lands(p) && p.vaddr - 0xffff_ff80_0000_0000 + Written(p) <= 3 * GIB
  }

  predicate AllPass(ps: seq<ProgramHeader>, n: nat)
    requires n <= |ps|
  {
    forall k :: 0 <= k < n ==> Passes(ps[k])
  }

  /** Every segment the loader gets to starts in the window. */
  predicate Startable(ps: seq<ProgramHeader>) {
    forall i :: 0 <= i < |ps| && AllPass(ps, i) && ps[i].ptype % 2 == 1 ==> Lands(ps[i])
  }

  function SegmentOf(p: ProgramHeader): Segment {
    Segment(p.offset, p.vaddr, p.filesz, p.memsz)
  }

  lemma SegmentIs(p: ProgramHeader)
    ensures SegmentOf(p).Starts() <==> Lands(p)
    ensures SegmentOf(p).Extent() == Written(p)
    ensures Passes(p) <==> p.ptype % 2 == 1 && SegmentOf(p).Fits()
  {
  }

  lemma ReachesIs(m: seq<byte>, image: nat, h: FileHeader, ps: seq<ProgramHeader>, i: nat)
    requires HasHeader(m, image, h) && HasPrograms(m, image, h, ps) && i <= |ps|
    ensures Reaches(m, image, i) <==> HasMagic(h) && AllPass(ps, i)
  {
    hide GoodMagic, HasMagic, Loadable, SegmentAt, Segment.Fits, HasHeader, HasProgram, HeaderOffset, Passes, Phnum,
         ImageWord, HeaderAt;
    assert InMemory(m, image) by { ItsMemory(m, image, h); }
    HeaderReads(m, image, h, 0);
    forall k | 0 <= k < i ensures Loadable(m, image, k) && SegmentAt(m, image, k).Fits() <==> Passes(ps[k]) {
      assert HasProgram(m, image, HeaderOffset(h.phoff, k, h.phentsize), ps[k]);
      ProgramReads(m, image, h, k, ps[k]);
      SegmentIs(ps[k]);
    }
  }

  lemma ItsMemory(m: seq<byte>, image: nat, h: FileHeader)
    requires HasHeader(m, image, h)
    ensures InMemory(m, image)
  {
  }

  lemma ImageFits(m: seq<byte>, image: nat, h: FileHeader, ps: seq<ProgramHeader>)
    requires HasHeader(m, image, h) && HasPrograms(m, image, h, ps) && Startable(ps)
    ensures Phnum(m, image) == |ps| && HeadersFit(m, image, Phnum(m, image))
  {
    hide HasHeader, HasProgram, HeaderOffset, Passes, Phnum, ImageWord, HeaderAt, Loadable, SegmentAt, Reaches,
         Segment.Starts, AllPass;
    assert InMemory(m, image) by { ItsMemory(m, image, h); }
    HeaderReads(m, image, h, 0);
    forall i: nat | i < |ps| && Reaches(m, image, i)
      ensures HeaderAt(m, image, i) + PHDR_BYTES <= IMAGE_BYTES
      ensures Loadable(m, image, i) ==> SegmentAt(m, image, i).Starts()
    {
      ReachesIs(m, image, h, ps, i);
      HeaderReads(m, image, h, i);
      ProgramReads(m, image, h, i, ps[i]);
      SegmentIs(ps[i]);
      HeaderInside(m, image, h, i, ps[i]);
    }
  }

  lemma HeaderInside(m: seq<byte>, image: nat, h: FileHeader, i: nat, p: ProgramHeader)
    requires HasProgram(m, image, HeaderOffset(h.phoff, i, h.phentsize), p)
    ensures h.phoff + i * h.phentsize + PHDR_BYTES <= IMAGE_BYTES
  {
  }

  predicate WrittenApart(p: ProgramHeader, q: ProgramHeader) {
    p.vaddr + Written(p) <= q.vaddr || q.vaddr + Written(q) <= p.vaddr
  }

  /** lmain on an ELF image: the endings, the entry point and the loaded segments in terms
      of the headers' fields. */
  method LoadElf(mem: array<byte>, t: Tables, image: nat, ghost h: FileHeader, ghost ps: seq<ProgramHeader>)
    returns (r: LoadResult)
    requires Linked(mem[..], t, image) && HasHeader(mem[..], image, h) && HasPrograms(mem[..], image, h, ps)
    requires Startable(ps)
    modifies mem
    ensures TablesReady(mem[..], t)
    ensures r.BadMagic? <==> !HasMagic(h)
    ensures r.EntryPoint? <==> HasMagic(h) && AllPass(ps, |ps|)
    ensures match r
            case BadMagic => true
            case NothingToLoad(i) => i < |ps| && AllPass(ps, i) && ps[i].ptype % 2 == 0
            case Faulted(i) => i < |ps| && AllPass(ps, i) && ps[i].ptype % 2 == 1 && !Passes(ps[i])
            case EntryPoint(address) =>
              && address == h.entry
              && ((forall i, j :: 0 <= i < j < |ps| ==> WrittenApart(ps[i], ps[j])) ==>
                   forall i, j: nat :: 0 <= i < |ps| && j < Written(ps[i]) ==>
                     ByteInPlace(old(mem[..]), mem[..], t, image, SegmentOf(ps[i]), j))
  {
    hide HasHeader, HasProgram, HasPrograms, Startable, Linked, TablesReady, Reaches, AllPass, Passes, HeadersFit,
         Phnum, ImageWord, Loadable, SegmentAt, Segment.Fits, LoadedAround, SegmentsInPlace, Disjoint, ByteInPlace,
         WrittenApart, HasMagic, GoodMagic, Written;
    ghost var m0 := mem[..];
    assert InMemory(m0, image) by { ItsMemory(m0, image, h); }
    ImageFits(m0, image, h, ps);
    HeaderReads(m0, image, h, 0);
    ReachesIs(m0, image, h, ps, |ps|);
    r := Lmain(mem, t, image);
    match r {
      case BadMagic =>
      case NothingToLoad(i) =>
        EndingIs(m0, image, h, ps, i);
      case Faulted(i) =>
        EndingIs(m0, image, h, ps, i);
      case EntryPoint(address) =>
        if forall i, j :: 0 <= i < j < |ps| ==> WrittenApart(ps[i], ps[j]) {
          ApartIsDisjoint(m0, image, h, ps);
          ProgramsInPlace(m0, mem[..], t, image, h, ps);
        }
    }
  }

  lemma EndingIs(m: seq<byte>, image: nat, h: FileHeader, ps: seq<ProgramHeader>, i: nat)
    requires HasHeader(m, image, h) && HasPrograms(m, image, h, ps) && i < |ps|
    ensures InMemory(m, image)
    ensures Reaches(m, image, i) ==> AllPass(ps, i)
    ensures Loadable(m, image, i) <==> ps[i].ptype % 2 == 1
    ensures Loadable(m, image, i) && !SegmentAt(m, image, i).Fits() ==> !Passes(ps[i])
  {
    hide HasHeader, HasProgram, Reaches, AllPass, Passes, Loadable, SegmentAt, Segment.Fits, HeaderOffset;
    ItsMemory(m, image, h);
    ReachesIs(m, image, h, ps, i);
    ProgramReads(m, image, h, i, ps[i]);
    SegmentIs(ps[i]);
  }

  lemma ApartIsDisjoint(m: seq<byte>, image: nat, h: FileHeader, ps: seq<ProgramHeader>)
    requires HasHeader(m, image, h) && HasPrograms(m, image, h, ps) && AllPass(ps, |ps|)
    requires forall i, j :: 0 <= i < j < |ps| ==> WrittenApart(ps[i], ps[j])
    ensures InMemory(m, image) && Disjoint(m, image, |ps|)
  {
    hide HasHeader, HasProgram, Passes, SegmentAt, Segment.Fits, HeaderOffset, Written, Segment.Extent;
    ItsMemory(m, image, h);
    forall i | 0 <= i < |ps| ensures SegmentAt(m, image, i) == SegmentOf(ps[i]) && SegmentOf(ps[i]).Fits() {
      assert Passes(ps[i]);
      ProgramReads(m, image, h, i, ps[i]);
      SegmentIs(ps[i]);
    }
    forall i, j | 0 <= i < j < |ps| ensures SegmentsApart(SegmentAt(m, image, i), SegmentAt(m, image, j)) {
      SegmentIs(ps[i]);
      SegmentIs(ps[j]);
      assert WrittenApart(ps[i], ps[j]);
    }
  }

  lemma ProgramsInPlace(m0: seq<byte>, m: seq<byte>, t: Tables, image: nat, h: FileHeader, ps: seq<ProgramHeader>)
    requires HasHeader(m0, image, h) && HasPrograms(m0, image, h, ps)
    requires InMemory(m0, image) && Phnum(m0, image) == |ps| && SegmentsInPlace(m0, m, t, image)
    ensures forall i, j: nat :: 0 <= i < |ps| && j < Written(ps[i]) ==>
              ByteInPlace(m0, m, t, image, SegmentOf(ps[i]), j)
  {
    hide HasHeader, HasProgram, SegmentAt, HeaderOffset, Written, Segment.Extent, ByteInPlace, Phnum;
    forall i, j: nat | 0 <= i < |ps| && j < Written(ps[i])
      ensures ByteInPlace(m0, m, t, image, SegmentOf(ps[i]), j)
    {
      ProgramReads(m0, image, h, i, ps[i]);
      SegmentIs(ps[i]);
    }
  }
}
