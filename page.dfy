/** The page format of page.go: the 16-byte page header, the 16-byte branch
    and leaf element records that follow it, the page-type name, and the
    accessors that locate an element, its key and its value by offset
    arithmetic.

    The Go accessors cast raw pointers into the memory-mapped file. Here a
    page is a `PageView`: an immutable byte sequence (the mapping) and the
    offset at which the page starts. Where Go returns a pointer, the model
    returns the byte address in that sequence; where Go returns a slice
    aliasing the mapping, the model returns the same subrange as a value.
    Fields are decoded little-endian (see module Ints). */
module Page {
  import opened Ints
  import opened Pgids
  import opened Hex

  // ---------------------------------------------------------------------
  // Struct layout

  /** `unsafe.Sizeof(page{})`, `unsafe.Sizeof(branchPageElement{})` and
      `unsafe.Sizeof(leafPageElement{})`. */
  const PageHeaderSize: nat := 16
  const BranchPageElementSize: nat := 16
  const LeafPageElementSize: nat := 16

  /** Field widths in bytes, in declaration order. */
  const PageFields: seq<nat> := [8, 2, 2, 4]             // id, flags, count, overflow
  const BranchPageElementFields: seq<nat> := [4, 4, 8]   // pos, ksize, pgid
  const LeafPageElementFields: seq<nat> := [4, 4, 4, 4]  // flags, pos, ksize, vsize

  /** The first multiple of `align` at or after `off`. */
  function AlignUp(off: nat, align: nat): (r: nat)
    requires align > 0
    ensures off <= r < off + align
  {
    if off % align == 0 then off else off + (align - off % align)
  }

  /** Each field ends at or before the next one starts. */
  predicate FieldsInOrder(offs: seq<nat>, sizes: seq<nat>)
    requires |offs| == |sizes|
  {
    |offs| <= 1 || (offs[0] + sizes[0] <= offs[1] && FieldsInOrder(offs[1..], sizes[1..]))
  }

  /** Go's layout of a struct of unsigned integer fields on a 64-bit target:
      each field starts at the next multiple of its own width. */
  function FieldOffsets(sizes: seq<nat>, off: nat): (offs: seq<nat>)
    requires forall i :: 0 <= i < |sizes| ==> sizes[i] > 0
    ensures |offs| == |sizes|
    ensures offs != [] ==> off <= offs[0]
    ensures FieldsInOrder(offs, sizes)
  {
    if sizes == [] then []
    else
      var o := AlignUp(off, sizes[0]);
      [o] + FieldOffsets(sizes[1..], o + sizes[0])
  }

  /** Fields in order never overlap: every field ends at or before the start
      of every later one. */
  lemma {:induction false} FieldsInOrderPairwise(offs: seq<nat>, sizes: seq<nat>)
    requires |offs| == |sizes| && FieldsInOrder(offs, sizes)
    ensures forall i, j :: 0 <= i < j < |offs| ==> offs[i] + sizes[i] <= offs[j]
  {
    if |offs| > 1 {
      FieldsInOrderPairwise(offs[1..], sizes[1..]);
      forall j | 1 <= j < |offs| ensures offs[0] + sizes[0] <= offs[j] {
        assert offs[1..][0] + sizes[1..][0] <= offs[1..][j - 1] || j == 1;
      }
    }
  }

  function MaxWidth(sizes: seq<nat>): (m: nat)
    ensures forall i :: 0 <= i < |sizes| ==> sizes[i] <= m
    ensures sizes == [] ==> m == 0
    ensures sizes != [] ==> m in sizes
  {
    if sizes == [] then 0
    else
      var rest := MaxWidth(sizes[1..]);
      if sizes[0] > rest then sizes[0] else rest
  }

  /** `unsafe.Sizeof`: the end of the last field rounded up to a multiple of
      the widest field. */
  function SizeOf(sizes: seq<nat>): nat
    requires sizes != [] && forall i :: 0 <= i < |sizes| ==> sizes[i] > 0
  {
    var offs := FieldOffsets(sizes, 0);
    AlignUp(offs[|offs| - 1] + sizes[|sizes| - 1], MaxWidth(sizes))
  }

  /** None of the three structs has padding, and each is 16 bytes. */
  lemma PageHeaderLayout()
    ensures FieldOffsets(PageFields, 0) == [0, 8, 10, 12]
    ensures SizeOf(PageFields) == PageHeaderSize
  {
    PageHeaderOffsets();
    PageHeaderSize16();
  }

  lemma BranchPageElementLayout()
    ensures FieldOffsets(BranchPageElementFields, 0) == [0, 4, 8]
    ensures SizeOf(BranchPageElementFields) == BranchPageElementSize
  {
    BranchPageElementOffsets();
    BranchPageElementSize16();
  }

  lemma LeafPageElementLayout()
    ensures FieldOffsets(LeafPageElementFields, 0) == [0, 4, 8, 12]
    ensures SizeOf(LeafPageElementFields) == LeafPageElementSize
  {
    LeafPageElementOffsets();
    LeafPageElementSize16();
  }

  // Each layout fact is checked on its own: the field lists are literals and
  // their recursive evaluation is spelled out one field at a time.

  lemma PageHeaderOffsets()
    ensures FieldOffsets(PageFields, 0) == [0, 8, 10, 12]
  {
    assert PageFields[1..] == [2, 2, 4];
    assert [2, 2, 4][1..] == [2, 4];
    assert [2, 4][1..] == [4];
    assert AlignUp(12, 4) == 12;
    assert AlignUp(10, 2) == 10;
    assert AlignUp(8, 2) == 8;
    assert AlignUp(0, 8) == 0;
    assert FieldOffsets([4], 12) == [12];
    assert FieldOffsets([2, 4], 10) == [10, 12];
    assert FieldOffsets([2, 2, 4], 8) == [8, 10, 12];
  }

  lemma PageHeaderSize16()
    ensures SizeOf(PageFields) == PageHeaderSize
  {
    PageHeaderOffsets();
    assert PageFields[1..] == [2, 2, 4];
    assert [2, 2, 4][1..] == [2, 4];
    assert [2, 4][1..] == [4];
    assert MaxWidth([4]) == 4;
    assert MaxWidth([2, 4]) == 4;
    assert MaxWidth([2, 2, 4]) == 4;
    assert MaxWidth(PageFields) == 8;
    assert AlignUp(16, 8) == 16;
  }

  lemma BranchPageElementOffsets()
    ensures FieldOffsets(BranchPageElementFields, 0) == [0, 4, 8]
  {
    assert BranchPageElementFields[1..] == [4, 8];
    assert [4, 8][1..] == [8];
    assert AlignUp(8, 8) == 8;
    assert AlignUp(4, 4) == 4;
    assert AlignUp(0, 4) == 0;
    assert FieldOffsets([8], 8) == [8];
    assert FieldOffsets([4, 8], 4) == [4, 8];
  }

  lemma BranchPageElementSize16()
    ensures SizeOf(BranchPageElementFields) == BranchPageElementSize
  {
    BranchPageElementOffsets();
    assert BranchPageElementFields[1..] == [4, 8];
    assert [4, 8][1..] == [8];
    assert MaxWidth([8]) == 8;
    assert MaxWidth([4, 8]) == 8;
    assert MaxWidth(BranchPageElementFields) == 8;
    assert AlignUp(16, 8) == 16;
  }

  lemma LeafPageElementOffsets()
    ensures FieldOffsets(LeafPageElementFields, 0) == [0, 4, 8, 12]
  {
    assert LeafPageElementFields[1..] == [4, 4, 4];
    assert [4, 4, 4][1..] == [4, 4];
    assert [4, 4][1..] == [4];
    assert AlignUp(12, 4) == 12;
    assert AlignUp(8, 4) == 8;
    assert AlignUp(4, 4) == 4;
    assert AlignUp(0, 4) == 0;
    assert FieldOffsets([4], 12) == [12];
    assert FieldOffsets([4, 4], 8) == [8, 12];
    assert FieldOffsets([4, 4, 4], 4) == [4, 8, 12];
  }

  lemma LeafPageElementSize16()
    ensures SizeOf(LeafPageElementFields) == LeafPageElementSize
  {
    LeafPageElementOffsets();
    assert LeafPageElementFields[1..] == [4, 4, 4];
    assert [4, 4, 4][1..] == [4, 4];
    assert [4, 4][1..] == [4];
    assert MaxWidth([4]) == 4;
    assert MaxWidth([4, 4]) == 4;
    assert MaxWidth([4, 4, 4]) == 4;
    assert MaxWidth(LeafPageElementFields) == 4;
    assert AlignUp(16, 4) == 16;
  }

  // ---------------------------------------------------------------------
  // Flags

  const BranchPageFlag: U16 := 0x01
  const LeafPageFlag: U16 := 0x02
  const MetaPageFlag: U16 := 0x04
  const FreelistPageFlag: U16 := 0x10

  /** `flags & flag != 0`. */
  predicate HasFlag(flags: U16, flag: U16)
  {
    (flags as bv16) & (flag as bv16) != 0
  }

  /** `page.typ()`: the name of the first page-type bit set, tested in the
      order branch, leaf, meta, freelist; otherwise the flags in hex. */
  function TypeName(flags: U16): (name: string)
    ensures IsKnownType(flags) <==> name in ["branch", "leaf", "meta", "freelist"]
  {
    if HasFlag(flags, BranchPageFlag) then "branch"
    else if HasFlag(flags, LeafPageFlag) then "leaf"
    else if HasFlag(flags, MetaPageFlag) then "meta"
    else if HasFlag(flags, FreelistPageFlag) then "freelist"
    else
      var u := "unknown<" + FormatHex02(flags) + ">";
      assert u[0] == 'u';
      u
  }

  /** Some page-type bit is set. */
  predicate IsKnownType(flags: U16)
  {
    HasFlag(flags, BranchPageFlag) || HasFlag(flags, LeafPageFlag)
    || HasFlag(flags, MetaPageFlag) || HasFlag(flags, FreelistPageFlag)
  }

  /** Each name is returned exactly when its bit is the first of the four
      set; a flags value with none of them gets the "unknown" form. */
  lemma TypeNameCases(flags: U16)
    ensures TypeName(flags) == "branch" <==> HasFlag(flags, BranchPageFlag)
    ensures TypeName(flags) == "leaf" <==> !HasFlag(flags, BranchPageFlag) && HasFlag(flags, LeafPageFlag)
    ensures TypeName(flags) == "meta" <==>
      !HasFlag(flags, BranchPageFlag) && !HasFlag(flags, LeafPageFlag) && HasFlag(flags, MetaPageFlag)
    ensures TypeName(flags) == "freelist" <==>
      !HasFlag(flags, BranchPageFlag) && !HasFlag(flags, LeafPageFlag) && !HasFlag(flags, MetaPageFlag)
      && HasFlag(flags, FreelistPageFlag)
    ensures !IsKnownType(flags) <==> TypeName(flags) == "unknown<" + FormatHex02(flags) + ">"
  {
    var u := "unknown<" + FormatHex02(flags) + ">";
    assert u[0] == 'u';
    assert |u| >= 11;
  }

  /** The "unknown" name carries the flags themselves: the text between the
      angle brackets is at least two lower-case hex digits and reads back as
      the flags. */
  lemma UnknownTypeNameCarriesFlags(flags: U16)
    requires !IsKnownType(flags)
    ensures var s := TypeName(flags);
      && |s| >= 11 && s[..8] == "unknown<" && s[|s| - 1] == '>'
      && (forall i :: 8 <= i < |s| - 1 ==> IsHexDigit(s[i]))
      && ParseHex(s[8..|s| - 1]) == flags
  {
    var h := FormatHex02(flags);
    var s := TypeName(flags);
    assert s == "unknown<" + h + ">";
    assert s[8..|s| - 1] == h;
  }

  lemma TypeNameExamples()
    ensures TypeName(BranchPageFlag) == "branch"
    ensures TypeName(LeafPageFlag) == "leaf"
    ensures TypeName(MetaPageFlag) == "meta"
    ensures TypeName(FreelistPageFlag) == "freelist"
    ensures TypeName(0x08) == "unknown<08>"
    ensures TypeName(0x03) == "branch"
  {
  }

  // ---------------------------------------------------------------------
  // Records

  /** The page header `{id, flags, count, overflow}`. */
  datatype PageHeader = PageHeader(id: Pgid, flags: U16, count: U16, overflow: U32)

  /** A branch element: the key is `ksize` bytes at `pos` bytes past the
      element's own address; `pgid` is the child page. */
  datatype BranchPageElement = BranchPageElement(pos: U32, ksize: U32, pgid: Pgid)

  /** A leaf element: the key is `ksize` bytes at `pos` bytes past the
      element's own address, and the value the `vsize` bytes right after it. */
  datatype LeafPageElement = LeafPageElement(flags: U32, pos: U32, ksize: U32, vsize: U32)

  function DecodePageHeader(s: seq<Byte>): PageHeader
    requires |s| == PageHeaderSize
  {
    PageHeader(U64At(s, 0), U16At(s, 8), U16At(s, 10), U32At(s, 12))
  }

  function EncodePageHeader(h: PageHeader): (s: seq<Byte>)
    ensures |s| == PageHeaderSize
  {
    EncodeU64(h.id) + EncodeU16(h.flags) + EncodeU16(h.count) + EncodeU32(h.overflow)
  }

  function DecodeBranchPageElement(s: seq<Byte>): BranchPageElement
    requires |s| == BranchPageElementSize
  {
    BranchPageElement(U32At(s, 0), U32At(s, 4), U64At(s, 8))
  }

  function EncodeBranchPageElement(e: BranchPageElement): (s: seq<Byte>)
    ensures |s| == BranchPageElementSize
  {
    EncodeU32(e.pos) + EncodeU32(e.ksize) + EncodeU64(e.pgid)
  }

  function DecodeLeafPageElement(s: seq<Byte>): LeafPageElement
    requires |s| == LeafPageElementSize
  {
    LeafPageElement(U32At(s, 0), U32At(s, 4), U32At(s, 8), U32At(s, 12))
  }

  function EncodeLeafPageElement(e: LeafPageElement): (s: seq<Byte>)
    ensures |s| == LeafPageElementSize
  {
    EncodeU32(e.flags) + EncodeU32(e.pos) + EncodeU32(e.ksize) + EncodeU32(e.vsize)
  }

  lemma DecodeEncodePageHeader(h: PageHeader)
    ensures DecodePageHeader(EncodePageHeader(h)) == h
  {
    var s := EncodePageHeader(h);
    assert s[0..8] == EncodeU64(h.id)[0..8];
    assert s[8..10] == EncodeU16(h.flags)[0..2];
    assert s[10..12] == EncodeU16(h.count)[0..2];
    assert s[12..16] == EncodeU32(h.overflow)[0..4];
  }

  lemma EncodeDecodePageHeader(s: seq<Byte>)
    requires |s| == PageHeaderSize
    ensures EncodePageHeader(DecodePageHeader(s)) == s
  {
    Pow256Widths();
    EncodeDecodeLE(s[0..8]);
    EncodeDecodeLE(s[8..10]);
    EncodeDecodeLE(s[10..12]);
    EncodeDecodeLE(s[12..16]);
    assert s == s[0..8] + s[8..10] + s[10..12] + s[12..16];
  }

  lemma DecodeEncodeBranchPageElement(e: BranchPageElement)
    ensures DecodeBranchPageElement(EncodeBranchPageElement(e)) == e
  {
    var s := EncodeBranchPageElement(e);
    assert s[0..4] == EncodeU32(e.pos)[0..4];
    assert s[4..8] == EncodeU32(e.ksize)[0..4];
    assert s[8..16] == EncodeU64(e.pgid)[0..8];
  }

  lemma EncodeDecodeBranchPageElement(s: seq<Byte>)
    requires |s| == BranchPageElementSize
    ensures EncodeBranchPageElement(DecodeBranchPageElement(s)) == s
  {
    Pow256Widths();
    EncodeDecodeLE(s[0..4]);
    EncodeDecodeLE(s[4..8]);
    EncodeDecodeLE(s[8..16]);
    assert s == s[0..4] + s[4..8] + s[8..16];
  }

  lemma DecodeEncodeLeafPageElement(e: LeafPageElement)
    ensures DecodeLeafPageElement(EncodeLeafPageElement(e)) == e
  {
    var s := EncodeLeafPageElement(e);
    assert s[0..4] == EncodeU32(e.flags)[0..4];
    assert s[4..8] == EncodeU32(e.pos)[0..4];
    assert s[8..12] == EncodeU32(e.ksize)[0..4];
    assert s[12..16] == EncodeU32(e.vsize)[0..4];
  }

  lemma EncodeDecodeLeafPageElement(s: seq<Byte>)
    requires |s| == LeafPageElementSize
    ensures EncodeLeafPageElement(DecodeLeafPageElement(s)) == s
  {
    Pow256Widths();
    EncodeDecodeLE(s[0..4]);
    EncodeDecodeLE(s[4..8]);
    EncodeDecodeLE(s[8..12]);
    EncodeDecodeLE(s[12..16]);
    assert s == s[0..4] + s[4..8] + s[8..12] + s[12..16];
  }

  /** `pages.Less`: pages order by page id. */
  predicate PagesLess(s: seq<PageHeader>, i: int, j: int)
    requires 0 <= i < |s| && 0 <= j < |s|
  {
    s[i].id < s[j].id
  }

  /** The page ids of a list of pages. */
  function Ids(s: seq<PageHeader>): (ids: seq<Pgid>)
    ensures |ids| == |s|
    ensures forall k :: 0 <= k < |s| ==> ids[k] == s[k].id
  {
    if s == [] then [] else [s[0].id] + Ids(s[1..])
  }

  /** `pages.Less` compares two pages exactly as `pgids.Less` compares their
      ids, so a list of pages is in `pages.Less` order exactly when its ids
      are sorted. */
  lemma PagesSortedById(s: seq<PageHeader>)
    ensures forall i, j :: 0 <= i < |s| && 0 <= j < |s| ==> (PagesLess(s, i, j) <==> PgidsLess(Ids(s), i, j))
    ensures Sorted(Ids(s)) <==> forall i, j :: 0 <= i < j < |s| ==> !PagesLess(s, j, i)
  {
    SortedIffNoInversion(Ids(s));
  }

  // ---------------------------------------------------------------------
  // Page view and accessors

  /** A page inside the mapped bytes `buf`, starting at byte `start`. */
  datatype PageView = PageView(buf: seq<Byte>, start: nat)

  predicate HasHeader(p: PageView)
  {
    p.start + PageHeaderSize <= |p.buf|
  }

  function Header(p: PageView): PageHeader
    requires HasHeader(p)
  {
    DecodePageHeader(p.buf[p.start..p.start + PageHeaderSize])
  }

  /** `p.typ()`. */
  function Typ(p: PageView): (name: string)
    requires HasHeader(p)
    ensures name == "branch" <==> HasFlag(Header(p).flags, BranchPageFlag)
    ensures name == "leaf" <==>
      !HasFlag(Header(p).flags, BranchPageFlag) && HasFlag(Header(p).flags, LeafPageFlag)
    ensures IsKnownType(Header(p).flags) <==> name in ["branch", "leaf", "meta", "freelist"]
  {
    TypeNameCases(Header(p).flags);
    TypeName(Header(p).flags)
  }

  /** The address of element `index`: `leafPageElement(index)` and
      `branchPageElement(index)` both step 16 bytes per element from the
      end of the header. */
  function LeafPageElementAddr(p: PageView, index: U16): nat
  {
    p.start + PageHeaderSize + index * LeafPageElementSize
  }

  function BranchPageElementAddr(p: PageView, index: U16): nat
  {
    p.start + PageHeaderSize + index * BranchPageElementSize
  }

  /** The record at a byte address. */
  function LeafElementAtAddr(buf: seq<Byte>, addr: nat): LeafPageElement
    requires addr + LeafPageElementSize <= |buf|
  {
    DecodeLeafPageElement(buf[addr..addr + LeafPageElementSize])
  }

  function BranchElementAtAddr(buf: seq<Byte>, addr: nat): BranchPageElement
    requires addr + BranchPageElementSize <= |buf|
  {
    DecodeBranchPageElement(buf[addr..addr + BranchPageElementSize])
  }

  /** `p.leafPageElement(index)`: like the Go code, no check against
      `count`; the caller keeps the record inside the mapping. */
  function LeafPageElementAt(p: PageView, index: U16): LeafPageElement
    requires LeafPageElementAddr(p, index) + LeafPageElementSize <= |p.buf|
  {
    LeafElementAtAddr(p.buf, LeafPageElementAddr(p, index))
  }

  /** `p.branchPageElement(index)`. */
  function BranchPageElementAt(p: PageView, index: U16): BranchPageElement
    requires BranchPageElementAddr(p, index) + BranchPageElementSize <= |p.buf|
  {
    BranchElementAtAddr(p.buf, BranchPageElementAddr(p, index))
  }

  /** Element `index` is read from the 16 bytes that start `16 * index`
      bytes after the header, and those bytes are exactly its encoding. */
  lemma LeafPageElementAtBytes(p: PageView, index: U16)
    requires p.start + PageHeaderSize + 16 * index + LeafPageElementSize <= |p.buf|
    ensures var a := p.start + PageHeaderSize + 16 * index;
      EncodeLeafPageElement(LeafPageElementAt(p, index)) == p.buf[a..a + LeafPageElementSize]
  {
    var a := LeafPageElementAddr(p, index);
    EncodeDecodeLeafPageElement(p.buf[a..a + LeafPageElementSize]);
  }

  lemma BranchPageElementAtBytes(p: PageView, index: U16)
    requires p.start + PageHeaderSize + 16 * index + BranchPageElementSize <= |p.buf|
    ensures var a := p.start + PageHeaderSize + 16 * index;
      EncodeBranchPageElement(BranchPageElementAt(p, index)) == p.buf[a..a + BranchPageElementSize]
  {
    var a := BranchPageElementAddr(p, index);
    EncodeDecodeBranchPageElement(p.buf[a..a + BranchPageElementSize]);
  }

  /** The `count` records after the header lie inside the mapping. */
  predicate ElementsInBounds(p: PageView)
  {
    HasHeader(p) && p.start + PageHeaderSize + Header(p).count * 16 <= |p.buf|
  }

  /** A byte region cut into consecutive 16-byte slots, the way Go's slice
      header reinterprets the region after the page header as an array of
      elements (both element structs are 16 bytes wide). */
  function Slots(region: seq<Byte>): (slots: seq<seq<Byte>>)
    requires |region| % 16 == 0
    ensures |slots| == |region| / 16
    ensures forall i :: 0 <= i < |slots| ==> |slots[i]| == 16
  {
    if region == [] then [] else [region[..16]] + Slots(region[16..])
  }

  lemma {:induction false} SlotsAt(region: seq<Byte>, i: nat)
    requires |region| % 16 == 0 && i < |region| / 16
    ensures Slots(region)[i] == region[16 * i..16 * i + 16]
  {
    if i > 0 {
      SlotsAt(region[16..], i - 1);
      assert region[16..][16 * (i - 1)..16 * (i - 1) + 16] == region[16 * i..16 * i + 16];
    }
  }

  lemma SubSlice(s: seq<Byte>, lo: nat, hi: nat, i: nat, j: nat)
    requires lo <= hi <= |s| && i <= j <= hi - lo
    ensures s[lo..hi][i..j] == s[lo + i..lo + j]
  {
    assert forall k :: 0 <= k < j - i ==> s[lo..hi][i..j][k] == s[lo + i + k];
  }

  /** The element region of a page. */
  function ElementRegion(p: PageView): (region: seq<Byte>)
    requires ElementsInBounds(p)
    ensures |region| == Header(p).count * 16
  {
    p.buf[p.start + PageHeaderSize..p.start + PageHeaderSize + Header(p).count * 16]
  }

  /** `p.leafPageElements()`: the `count` records after the header; none
      (Go's nil slice) when `count` is 0. */
  function LeafPageElements(p: PageView): (es: seq<LeafPageElement>)
    requires ElementsInBounds(p)
    ensures |es| == Header(p).count
  {
    if Header(p).count == 0 then []
    else
      var slots := Slots(ElementRegion(p));
      seq(|slots|, i requires 0 <= i < |slots| => DecodeLeafPageElement(slots[i]))
  }

  /** `p.branchPageElements()`. */
  function BranchPageElements(p: PageView): (es: seq<BranchPageElement>)
    requires ElementsInBounds(p)
    ensures |es| == Header(p).count
  {
    if Header(p).count == 0 then []
    else
      var slots := Slots(ElementRegion(p));
      seq(|slots|, i requires 0 <= i < |slots| => DecodeBranchPageElement(slots[i]))
  }

  /** The slice of all elements has exactly `count` entries, and entry i is
      the record `leafPageElement(i)` points at. */
  lemma LeafPageElementsAt(p: PageView, i: U16)
    requires ElementsInBounds(p) && i < Header(p).count
    ensures LeafPageElementAddr(p, i) + LeafPageElementSize <= |p.buf|
    ensures LeafPageElements(p)[i] == LeafPageElementAt(p, i)
  {
    var region := ElementRegion(p);
    SlotsAt(region, i);
    var lo := p.start + PageHeaderSize;
    SubSlice(p.buf, lo, lo + Header(p).count * 16, 16 * i, 16 * i + 16);
  }

  /** The same for `branchPageElements` and `branchPageElement(i)`. */
  lemma BranchPageElementsAt(p: PageView, i: U16)
    requires ElementsInBounds(p) && i < Header(p).count
    ensures BranchPageElementAddr(p, i) + BranchPageElementSize <= |p.buf|
    ensures BranchPageElements(p)[i] == BranchPageElementAt(p, i)
  {
    var region := ElementRegion(p);
    SlotsAt(region, i);
    var lo := p.start + PageHeaderSize;
    SubSlice(p.buf, lo, lo + Header(p).count * 16, 16 * i, 16 * i + 16);
  }

  /** With no elements, both element slices are empty. */
  lemma EmptyPageElements(p: PageView)
    requires ElementsInBounds(p) && Header(p).count == 0
    ensures LeafPageElements(p) == [] && BranchPageElements(p) == []
  {
  }

  // ---------------------------------------------------------------------
  // Keys and values

  /** The key of the branch element at `addr` lies inside the mapping. */
  predicate BranchKeyInBounds(buf: seq<Byte>, addr: nat)
  {
    && addr + BranchPageElementSize <= |buf|
    && var e := BranchElementAtAddr(buf, addr);
       addr + e.pos + e.ksize <= |buf|
  }

  /** `branchPageElement.key()`: `ksize` bytes at `pos` past the element. */
  function BranchKey(buf: seq<Byte>, addr: nat): (key: seq<Byte>)
    requires BranchKeyInBounds(buf, addr)
    ensures |key| == BranchElementAtAddr(buf, addr).ksize
  {
    var e := BranchElementAtAddr(buf, addr);
    buf[addr + e.pos..addr + e.pos + e.ksize]
  }

  predicate LeafKeyInBounds(buf: seq<Byte>, addr: nat)
  {
    && addr + LeafPageElementSize <= |buf|
    && var e := LeafElementAtAddr(buf, addr);
       addr + e.pos + e.ksize <= |buf|
  }

  predicate LeafValueInBounds(buf: seq<Byte>, addr: nat)
  {
    && addr + LeafPageElementSize <= |buf|
    && var e := LeafElementAtAddr(buf, addr);
       addr + e.pos + e.ksize + e.vsize <= |buf|
  }

  /** `leafPageElement.key()`. */
  function LeafKey(buf: seq<Byte>, addr: nat): (key: seq<Byte>)
    requires LeafKeyInBounds(buf, addr)
    ensures |key| == LeafElementAtAddr(buf, addr).ksize
  {
    var e := LeafElementAtAddr(buf, addr);
    buf[addr + e.pos..addr + e.pos + e.ksize]
  }

  /** `leafPageElement.value()`: `vsize` bytes right after the key. */
  function LeafValue(buf: seq<Byte>, addr: nat): (value: seq<Byte>)
    requires LeafValueInBounds(buf, addr)
    ensures |value| == LeafElementAtAddr(buf, addr).vsize
  {
    var e := LeafElementAtAddr(buf, addr);
    buf[addr + e.pos + e.ksize..addr + e.pos + e.ksize + e.vsize]
  }

  /** Key and value are adjacent and do not overlap: together they are the
      `ksize + vsize` bytes at `pos` past the element. */
  lemma LeafKeyValueAdjacent(buf: seq<Byte>, addr: nat)
    requires LeafValueInBounds(buf, addr)
    ensures LeafKeyInBounds(buf, addr)
    ensures var e := LeafElementAtAddr(buf, addr);
      LeafKey(buf, addr) + LeafValue(buf, addr) == buf[addr + e.pos..addr + e.pos + e.ksize + e.vsize]
  {
  }
}
