/** A reference writer for the page format, used as the partner of the
    accessors in module Page: it lays out a leaf or branch page the way the
    element records describe it (header, then `count` 16-byte records, then
    the key and value bytes in element order), and the round-trip lemmas
    show that reading such a page back through `leafPageElement(i)`,
    `key()` and `value()` (or their branch counterparts) returns exactly the
    entries written. */
module PageWrite {
  import opened Ints
  import opened Pgids
  import opened Page

  datatype Option<T> = None | Some(value: T)

  // ---------------------------------------------------------------------
  // Concatenating byte strings

  /** The byte strings of `ss`, one after the other. */
  function Concat(ss: seq<seq<Byte>>): (r: seq<Byte>)
  {
    if ss == [] then [] else Concat(ss[..|ss| - 1]) + ss[|ss| - 1]
  }

  lemma {:induction false} ConcatAppend(x: seq<seq<Byte>>, y: seq<seq<Byte>>)
    ensures Concat(x + y) == Concat(x) + Concat(y)
    decreases |y|
  {
    if y == [] {
      assert x + y == x;
    } else {
      var y' := y[..|y| - 1];
      assert (x + y)[..|x + y| - 1] == x + y';
      ConcatAppend(x, y');
    }
  }

  /** Where piece i begins in `Concat(ss)`. */
  function StartOf(ss: seq<seq<Byte>>, i: nat): nat
    requires i <= |ss|
  {
    |Concat(ss[..i])|
  }

  /** Piece i sits at `StartOf(ss, i)` in the concatenation. */
  lemma ConcatPiece(ss: seq<seq<Byte>>, i: nat)
    requires i < |ss|
    ensures StartOf(ss, i) + |ss[i]| <= |Concat(ss)|
    ensures Concat(ss)[StartOf(ss, i)..StartOf(ss, i) + |ss[i]|] == ss[i]
  {
    assert ss == ss[..i + 1] + ss[i + 1..];
    ConcatAppend(ss[..i + 1], ss[i + 1..]);
    assert ss[..i + 1][..i] == ss[..i];
    assert Concat(ss[..i + 1]) == Concat(ss[..i]) + ss[i];
  }

  /** When every piece is 16 bytes long, piece i begins at byte 16 * i. */
  lemma {:induction false} ConcatUniform(ss: seq<seq<Byte>>, i: nat)
    requires forall k :: 0 <= k < |ss| ==> |ss[k]| == 16
    requires i <= |ss|
    ensures StartOf(ss, i) == 16 * i
  {
    if i > 0 {
      ConcatUniform(ss, i - 1);
      assert ss[..i][..i - 1] == ss[..i - 1];
    }
  }

  lemma ConcatLength(ss: seq<seq<Byte>>)
    requires forall k :: 0 <= k < |ss| ==> |ss[k]| == 16
    ensures |Concat(ss)| == 16 * |ss|
  {
    ConcatUniform(ss, |ss|);
    assert ss[..|ss|] == ss;
  }

  /** The bytes of a page laid out as a 16-byte header, then 16-byte
      records, then a data area. */
  function Layout(h: seq<Byte>, rs: seq<seq<Byte>>, data: seq<seq<Byte>>): seq<Byte>
  {
    h + Concat(rs) + Concat(data)
  }

  /** In such a layout the header is at the page start, followed by the
      records. */
  lemma LayoutHeader(pre: seq<Byte>, h: seq<Byte>, rs: seq<seq<Byte>>, data: seq<seq<Byte>>)
    requires |h| == 16
    requires forall k :: 0 <= k < |rs| ==> |rs[k]| == 16
    ensures |pre| + 16 + 16 * |rs| <= |pre + Layout(h, rs, data)|
    ensures (pre + Layout(h, rs, data))[|pre|..|pre| + 16] == h
  {
    ConcatLength(rs);
    var buf := pre + Layout(h, rs, data);
    assert buf == (pre + h) + (Concat(rs) + Concat(data));
    SubSlice(pre + h + Concat(rs) + Concat(data), 0, |pre + h|, |pre|, |pre| + 16);
    SubSlice(pre + h, |pre|, |pre| + |h|, 0, 16);
    assert h[0..16] == h;
  }

  /** Record i is at byte 16 + 16 * i of the page. */
  lemma LayoutRecord(pre: seq<Byte>, h: seq<Byte>, rs: seq<seq<Byte>>, data: seq<seq<Byte>>, i: nat)
    requires |h| == 16 && i < |rs|
    requires forall k :: 0 <= k < |rs| ==> |rs[k]| == 16
    ensures |pre| + 16 + 16 * i + 16 <= |pre + Layout(h, rs, data)|
    ensures (pre + Layout(h, rs, data))[|pre| + 16 + 16 * i..|pre| + 16 + 16 * i + 16] == rs[i]
  {
    var buf := pre + Layout(h, rs, data);
    var c := Concat(rs);
    ConcatUniform(rs, i);
    ConcatPiece(rs, i);
    assert buf == (pre + h + c) + Concat(data);
    var lo := |pre| + 16 + 16 * i;
    SubSlice(pre + h + c + Concat(data), 0, |pre + h + c|, lo, lo + 16);
    SubSlice(pre + h + c, |pre + h|, |pre + h| + |c|, 16 * i, 16 * i + 16);
  }

  /** Data piece i is at byte `16 + 16 * |rs| + StartOf(data, i)` of the
      page. */
  lemma LayoutData(pre: seq<Byte>, h: seq<Byte>, rs: seq<seq<Byte>>, data: seq<seq<Byte>>, i: nat)
    requires |h| == 16 && i < |data|
    requires forall k :: 0 <= k < |rs| ==> |rs[k]| == 16
    ensures var lo := |pre| + 16 + 16 * |rs| + StartOf(data, i);
      && lo + |data[i]| <= |pre + Layout(h, rs, data)|
      && (pre + Layout(h, rs, data))[lo..lo + |data[i]|] == data[i]
  {
    var buf := pre + Layout(h, rs, data);
    var c := Concat(rs);
    ConcatLength(rs);
    ConcatPiece(data, i);
    var s := StartOf(data, i);
    assert buf == (pre + h + c) + Concat(data);
    SubSlice(pre + h + c + Concat(data), |pre + h + c|, |pre + h + c| + |Concat(data)|, s, s + |data[i]|);
  }

  /** A key followed by its value, cut back apart. */
  lemma SplitKeyValue(buf: seq<Byte>, lo: nat, key: seq<Byte>, value: seq<Byte>)
    requires lo + |key| + |value| <= |buf|
    requires buf[lo..lo + |key| + |value|] == key + value
    ensures buf[lo..lo + |key|] == key
    ensures buf[lo + |key|..lo + |key| + |value|] == value
  {
    var hi := lo + |key| + |value|;
    SubSlice(buf, lo, hi, 0, |key|);
    SubSlice(buf, lo, hi, |key|, |key| + |value|);
    assert (key + value)[0..|key|] == key;
    assert (key + value)[|key|..|key| + |value|] == value;
  }

  /** The accessors read only inside the page: bytes after it in the
      mapping (the rest of the page, later pages) change neither the header
      nor whether the records fit. */
  lemma HeaderExtend(p: PageView, post: seq<Byte>)
    requires HasHeader(p)
    ensures var q := PageView(p.buf + post, p.start);
      && HasHeader(q) && Header(q) == Header(p)
      && (ElementsInBounds(p) ==> ElementsInBounds(q))
  {
    var buf := p.buf + post;
    assert buf[0..|p.buf|] == p.buf;
    SubSlice(buf, 0, |p.buf|, p.start, p.start + PageHeaderSize);
  }

  // ---------------------------------------------------------------------
  // Leaf pages

  /** One key/value entry of a leaf page, with the element's flags. */
  datatype LeafEntry = LeafEntry(flags: U32, key: seq<Byte>, value: seq<Byte>)

  /** The data area of a leaf page: each key followed by its value. */
  function LeafData(es: seq<LeafEntry>): (data: seq<seq<Byte>>)
    ensures |data| == |es|
  {
    seq(|es|, i requires 0 <= i < |es| => es[i].key + es[i].value)
  }

  /** The entries fit a page: `count` is a u16 and every `pos` a u32. */
  predicate LeafPageFits(es: seq<LeafEntry>)
  {
    |es| < 0x1_0000 && PageHeaderSize + 16 * |es| + |Concat(LeafData(es))| < 0x1_0000_0000
  }

  /** The record of entry i: its key starts `pos` bytes past the record. */
  function LeafRecord(es: seq<LeafEntry>, i: nat): LeafPageElement
    requires LeafPageFits(es) && i < |es|
  {
    var data := LeafData(es);
    ConcatPiece(data, i);
    LeafPageElement(es[i].flags, 16 * (|es| - i) + StartOf(data, i), |es[i].key|, |es[i].value|)
  }

  function LeafRecords(es: seq<LeafEntry>): (rs: seq<seq<Byte>>)
    requires LeafPageFits(es)
    ensures |rs| == |es|
    ensures forall k :: 0 <= k < |rs| ==> |rs[k]| == 16
  {
    seq(|es|, i requires 0 <= i < |es| => EncodeLeafPageElement(LeafRecord(es, i)))
  }

  /** A leaf page with page id `id` holding `es`. */
  function EncodeLeafPage(id: Pgid, es: seq<LeafEntry>): seq<Byte>
    requires LeafPageFits(es)
  {
    Layout(EncodePageHeader(PageHeader(id, LeafPageFlag, |es|, 0)), LeafRecords(es), LeafData(es))
  }

  /** Every leaf element's value (and so its key) lies inside the mapping. */
  predicate LeafEntriesInBounds(p: PageView)
    requires ElementsInBounds(p)
  {
    forall i :: 0 <= i < Header(p).count ==> LeafValueInBounds(p.buf, LeafPageElementAddr(p, i))
  }

  /** Reads the entries of a leaf page through the accessors:
      `leafPageElement(i)`, its flags, `key()` and `value()` for each of
      the `count` elements; None when a record, key or value would lie
      outside the mapping. */
  function ReadLeafEntries(p: PageView): (r: Option<seq<LeafEntry>>)
    ensures r.Some? ==> ElementsInBounds(p) && |r.value| == Header(p).count
  {
    if !ElementsInBounds(p) || !LeafEntriesInBounds(p) then None
    else
      Some(seq(Header(p).count, i requires 0 <= i < Header(p).count =>
        var addr := LeafPageElementAddr(p, i);
        LeafEntry(LeafPageElementAt(p, i).flags, LeafKey(p.buf, addr), LeafValue(p.buf, addr))))
  }

  /** Element i of `p` holds entry `x`. */
  predicate LeafEntryIs(p: PageView, i: U16, x: LeafEntry)
  {
    var addr := LeafPageElementAddr(p, i);
    && LeafValueInBounds(p.buf, addr)
    && LeafElementAtAddr(p.buf, addr).flags == x.flags
    && LeafKey(p.buf, addr) == x.key
    && LeafValue(p.buf, addr) == x.value
  }

  /** Bytes after a leaf element's key and value do not change what it
      holds. */
  lemma LeafEntryExtend(p: PageView, post: seq<Byte>, i: U16, x: LeafEntry)
    requires LeafEntryIs(p, i, x)
    ensures LeafEntryIs(PageView(p.buf + post, p.start), i, x)
  {
    var buf := p.buf + post;
    assert buf[0..|p.buf|] == p.buf;
    var addr := LeafPageElementAddr(p, i);
    SubSlice(buf, 0, |p.buf|, addr, addr + LeafPageElementSize);
    var e := LeafElementAtAddr(p.buf, addr);
    SubSlice(buf, 0, |p.buf|, addr + e.pos, addr + e.pos + e.ksize);
    SubSlice(buf, 0, |p.buf|, addr + e.pos + e.ksize, addr + e.pos + e.ksize + e.vsize);
  }

  /** A page whose `count` elements hold the entries `es` reads back as
      `es`. */
  lemma ReadLeafEntriesOf(p: PageView, es: seq<LeafEntry>)
    requires ElementsInBounds(p) && Header(p).count == |es|
    requires forall i :: 0 <= i < |es| ==> LeafEntryIs(p, i, es[i])
    ensures ReadLeafEntries(p) == Some(es)
  {
    forall i | 0 <= i < |es|
      ensures LeafValueInBounds(p.buf, LeafPageElementAddr(p, i))
    {
      assert LeafEntryIs(p, i, es[i]);
    }
    var r := ReadLeafEntries(p);
    assert r.Some?;
    forall i | 0 <= i < |es|
      ensures r.value[i] == es[i]
    {
      assert LeafEntryIs(p, i, es[i]);
    }
    assert r.value == es;
  }

  /** A page whose elements hold `es` still reads back as `es` when more
      bytes follow it in the mapping. */
  lemma ReadLeafEntriesExtend(p: PageView, es: seq<LeafEntry>, post: seq<Byte>)
    requires ElementsInBounds(p) && Header(p).count == |es|
    requires forall i :: 0 <= i < |es| ==> LeafEntryIs(p, i, es[i])
    ensures var q := PageView(p.buf + post, p.start);
      && ElementsInBounds(q) && Header(q) == Header(p)
      && ReadLeafEntries(q) == Some(es)
  {
    var q := PageView(p.buf + post, p.start);
    HeaderExtend(p, post);
    forall i | 0 <= i < |es|
      ensures LeafEntryIs(q, i, es[i])
    {
      LeafEntryExtend(p, post, i, es[i]);
    }
    ReadLeafEntriesOf(q, es);
  }

  /** A leaf record written for element i, with its key and value written
      `pos` bytes further on, is what the accessors return. */
  lemma LeafElementReadsBack(p: PageView, i: U16, e: LeafPageElement, x: LeafEntry)
    requires var addr := p.start + 16 + 16 * i;
      && addr + 16 <= |p.buf| && LeafElementAtAddr(p.buf, addr) == e
      && e.flags == x.flags && e.ksize == |x.key| && e.vsize == |x.value|
      && addr + e.pos + |x.key| + |x.value| <= |p.buf|
      && p.buf[addr + e.pos..addr + e.pos + |x.key| + |x.value|] == x.key + x.value
    ensures LeafEntryIs(p, i, x)
  {
    var addr := p.start + 16 + 16 * i;
    assert LeafPageElementAddr(p, i) == addr;
    SplitKeyValue(p.buf, addr + e.pos, x.key, x.value);
  }

  /** A leaf record written at `addr` is what is read there. */
  lemma LeafRecordDecodes(buf: seq<Byte>, addr: nat, r: LeafPageElement)
    requires addr + 16 <= |buf| && buf[addr..addr + 16] == EncodeLeafPageElement(r)
    ensures LeafElementAtAddr(buf, addr) == r
  {
    DecodeEncodeLeafPageElement(r);
  }

  /** Record i of a written leaf page decodes as `LeafRecord(es, i)`. */
  lemma LeafRecordPlaced(pre: seq<Byte>, h: seq<Byte>, es: seq<LeafEntry>, i: nat)
    requires |h| == 16 && LeafPageFits(es) && i < |es|
    ensures var buf := pre + Layout(h, LeafRecords(es), LeafData(es));
      var addr := |pre| + 16 + 16 * i;
      addr + 16 <= |buf| && LeafElementAtAddr(buf, addr) == LeafRecord(es, i)
  {
    var buf := pre + Layout(h, LeafRecords(es), LeafData(es));
    var addr := |pre| + 16 + 16 * i;
    LayoutRecord(pre, h, LeafRecords(es), LeafData(es), i);
    assert buf[addr..addr + 16] == EncodeLeafPageElement(LeafRecord(es, i));
    LeafRecordDecodes(buf, addr, LeafRecord(es, i));
  }

  /** The key and value of entry i sit `pos` bytes past its record. */
  lemma LeafDataPlaced(pre: seq<Byte>, h: seq<Byte>, es: seq<LeafEntry>, i: nat)
    requires |h| == 16 && LeafPageFits(es) && i < |es|
    ensures var buf := pre + Layout(h, LeafRecords(es), LeafData(es));
      var addr := |pre| + 16 + 16 * i;
      var e := LeafRecord(es, i);
      && e.flags == es[i].flags && e.ksize == |es[i].key| && e.vsize == |es[i].value|
      && addr + e.pos + |es[i].key| + |es[i].value| <= |buf|
      && buf[addr + e.pos..addr + e.pos + |es[i].key| + |es[i].value|] == es[i].key + es[i].value
  {
    LayoutData(pre, h, LeafRecords(es), LeafData(es), i);
  }

  /** Entry i of a written leaf page reads back through its record. */
  lemma LeafEntryReadsBack(pre: seq<Byte>, h: seq<Byte>, es: seq<LeafEntry>, i: nat)
    requires |h| == 16 && LeafPageFits(es) && i < |es|
    ensures LeafEntryIs(PageView(pre + Layout(h, LeafRecords(es), LeafData(es)), |pre|), i, es[i])
  {
    LeafRecordPlaced(pre, h, es, i);
    LeafDataPlaced(pre, h, es, i);
    LeafElementReadsBack(PageView(pre + Layout(h, LeafRecords(es), LeafData(es)), |pre|), i, LeafRecord(es, i), es[i]);
  }

  /** A written leaf page carries the header written and is typed "leaf". */
  lemma LeafPageHeader(pre: seq<Byte>, id: Pgid, es: seq<LeafEntry>)
    requires LeafPageFits(es)
    ensures var p := PageView(pre + EncodeLeafPage(id, es), |pre|);
      && ElementsInBounds(p)
      && Header(p) == PageHeader(id, LeafPageFlag, |es|, 0)
      && Typ(p) == "leaf"
  {
    var hdr := PageHeader(id, LeafPageFlag, |es|, 0);
    LayoutHeader(pre, EncodePageHeader(hdr), LeafRecords(es), LeafData(es));
    DecodeEncodePageHeader(hdr);
    assert TypeName(LeafPageFlag) == "leaf";
  }

  lemma LeafPageEntries(pre: seq<Byte>, id: Pgid, es: seq<LeafEntry>)
    requires LeafPageFits(es)
    ensures forall i :: 0 <= i < |es| ==> LeafEntryIs(PageView(pre + EncodeLeafPage(id, es), |pre|), i, es[i])
  {
    forall i | 0 <= i < |es|
      ensures LeafEntryIs(PageView(pre + EncodeLeafPage(id, es), |pre|), i, es[i])
    {
      LeafEntryReadsBack(pre, EncodePageHeader(PageHeader(id, LeafPageFlag, |es|, 0)), es, i);
    }
  }

  /** A written leaf page reads back as exactly the entries written,
      wherever it sits in the mapping: after any bytes `pre` and before any
      bytes `post` (its unused tail, later pages). */
  lemma LeafPageRoundTrip(pre: seq<Byte>, id: Pgid, es: seq<LeafEntry>, post: seq<Byte>)
    requires LeafPageFits(es)
    ensures var p := PageView(pre + EncodeLeafPage(id, es) + post, |pre|);
      && ElementsInBounds(p)
      && Header(p) == PageHeader(id, LeafPageFlag, |es|, 0)
      && Typ(p) == "leaf"
      && ReadLeafEntries(p) == Some(es)
  {
    var written := PageView(pre + EncodeLeafPage(id, es), |pre|);
    LeafPageHeader(pre, id, es);
    LeafPageEntries(pre, id, es);
    ReadLeafEntriesExtend(written, es, post);
  }

  // ---------------------------------------------------------------------
  // Branch pages

  /** One entry of a branch page: a separator key and its child page. */
  datatype BranchEntry = BranchEntry(key: seq<Byte>, child: Pgid)

  function BranchData(es: seq<BranchEntry>): (data: seq<seq<Byte>>)
    ensures |data| == |es|
  {
    seq(|es|, i requires 0 <= i < |es| => es[i].key)
  }

  predicate BranchPageFits(es: seq<BranchEntry>)
  {
    |es| < 0x1_0000 && PageHeaderSize + 16 * |es| + |Concat(BranchData(es))| < 0x1_0000_0000
  }

  function BranchRecord(es: seq<BranchEntry>, i: nat): BranchPageElement
    requires BranchPageFits(es) && i < |es|
  {
    var data := BranchData(es);
    ConcatPiece(data, i);
    BranchPageElement(16 * (|es| - i) + StartOf(data, i), |es[i].key|, es[i].child)
  }

  function BranchRecords(es: seq<BranchEntry>): (rs: seq<seq<Byte>>)
    requires BranchPageFits(es)
    ensures |rs| == |es|
    ensures forall k :: 0 <= k < |rs| ==> |rs[k]| == 16
  {
    seq(|es|, i requires 0 <= i < |es| => EncodeBranchPageElement(BranchRecord(es, i)))
  }

  /** A branch page with page id `id` holding `es`. */
  function EncodeBranchPage(id: Pgid, es: seq<BranchEntry>): seq<Byte>
    requires BranchPageFits(es)
  {
    Layout(EncodePageHeader(PageHeader(id, BranchPageFlag, |es|, 0)), BranchRecords(es), BranchData(es))
  }

  predicate BranchEntriesInBounds(p: PageView)
    requires ElementsInBounds(p)
  {
    forall i :: 0 <= i < Header(p).count ==> BranchKeyInBounds(p.buf, BranchPageElementAddr(p, i))
  }

  /** Reads the entries of a branch page: `key()` and `pgid` of each of the
      `count` elements; None when a record or key lies outside the mapping. */
  function ReadBranchEntries(p: PageView): (r: Option<seq<BranchEntry>>)
    ensures r.Some? ==> ElementsInBounds(p) && |r.value| == Header(p).count
  {
    if !ElementsInBounds(p) || !BranchEntriesInBounds(p) then None
    else
      Some(seq(Header(p).count, i requires 0 <= i < Header(p).count =>
        var addr := BranchPageElementAddr(p, i);
        BranchEntry(BranchKey(p.buf, addr), BranchPageElementAt(p, i).pgid)))
  }

  /** Element i of `p` holds entry `x`. */
  predicate BranchEntryIs(p: PageView, i: U16, x: BranchEntry)
  {
    var addr := BranchPageElementAddr(p, i);
    && BranchKeyInBounds(p.buf, addr)
    && BranchElementAtAddr(p.buf, addr).pgid == x.child
    && BranchKey(p.buf, addr) == x.key
  }

  /** Bytes after a branch element's key do not change what it holds. */
  lemma BranchEntryExtend(p: PageView, post: seq<Byte>, i: U16, x: BranchEntry)
    requires BranchEntryIs(p, i, x)
    ensures BranchEntryIs(PageView(p.buf + post, p.start), i, x)
  {
    var buf := p.buf + post;
    assert buf[0..|p.buf|] == p.buf;
    var addr := BranchPageElementAddr(p, i);
    SubSlice(buf, 0, |p.buf|, addr, addr + BranchPageElementSize);
    var e := BranchElementAtAddr(p.buf, addr);
    SubSlice(buf, 0, |p.buf|, addr + e.pos, addr + e.pos + e.ksize);
  }

  lemma ReadBranchEntriesOf(p: PageView, es: seq<BranchEntry>)
    requires ElementsInBounds(p) && Header(p).count == |es|
    requires forall i :: 0 <= i < |es| ==> BranchEntryIs(p, i, es[i])
    ensures ReadBranchEntries(p) == Some(es)
  {
    forall i | 0 <= i < |es|
      ensures BranchKeyInBounds(p.buf, BranchPageElementAddr(p, i))
    {
      assert BranchEntryIs(p, i, es[i]);
    }
    var r := ReadBranchEntries(p);
    assert r.Some?;
    forall i | 0 <= i < |es|
      ensures r.value[i] == es[i]
    {
      assert BranchEntryIs(p, i, es[i]);
    }
    assert r.value == es;
  }

  /** A branch page whose elements hold `es` still reads back as `es` when
      more bytes follow it in the mapping. */
  lemma ReadBranchEntriesExtend(p: PageView, es: seq<BranchEntry>, post: seq<Byte>)
    requires ElementsInBounds(p) && Header(p).count == |es|
    requires forall i :: 0 <= i < |es| ==> BranchEntryIs(p, i, es[i])
    ensures var q := PageView(p.buf + post, p.start);
      && ElementsInBounds(q) && Header(q) == Header(p)
      && ReadBranchEntries(q) == Some(es)
  {
    var q := PageView(p.buf + post, p.start);
    HeaderExtend(p, post);
    forall i | 0 <= i < |es|
      ensures BranchEntryIs(q, i, es[i])
    {
      BranchEntryExtend(p, post, i, es[i]);
    }
    ReadBranchEntriesOf(q, es);
  }

  /** A branch record written at `addr` is what is read there. */
  lemma BranchRecordDecodes(buf: seq<Byte>, addr: nat, r: BranchPageElement)
    requires addr + 16 <= |buf| && buf[addr..addr + 16] == EncodeBranchPageElement(r)
    ensures BranchElementAtAddr(buf, addr) == r
  {
    DecodeEncodeBranchPageElement(r);
  }

  /** A branch record written for element i, with its key written `pos`
      bytes further on, is what the accessors return. */
  lemma BranchElementReadsBack(p: PageView, i: U16, e: BranchPageElement, x: BranchEntry)
    requires var addr := p.start + 16 + 16 * i;
      && addr + 16 <= |p.buf| && BranchElementAtAddr(p.buf, addr) == e
      && e.pgid == x.child && e.ksize == |x.key|
      && addr + e.pos + |x.key| <= |p.buf|
      && p.buf[addr + e.pos..addr + e.pos + |x.key|] == x.key
    ensures BranchEntryIs(p, i, x)
  {
    assert BranchPageElementAddr(p, i) == p.start + 16 + 16 * i;
  }

  lemma BranchRecordPlaced(pre: seq<Byte>, h: seq<Byte>, es: seq<BranchEntry>, i: nat)
    requires |h| == 16 && BranchPageFits(es) && i < |es|
    ensures var buf := pre + Layout(h, BranchRecords(es), BranchData(es));
      var addr := |pre| + 16 + 16 * i;
      addr + 16 <= |buf| && BranchElementAtAddr(buf, addr) == BranchRecord(es, i)
  {
    var buf := pre + Layout(h, BranchRecords(es), BranchData(es));
    var addr := |pre| + 16 + 16 * i;
    LayoutRecord(pre, h, BranchRecords(es), BranchData(es), i);
    assert buf[addr..addr + 16] == EncodeBranchPageElement(BranchRecord(es, i));
    BranchRecordDecodes(buf, addr, BranchRecord(es, i));
  }

  lemma BranchDataPlaced(pre: seq<Byte>, h: seq<Byte>, es: seq<BranchEntry>, i: nat)
    requires |h| == 16 && BranchPageFits(es) && i < |es|
    ensures var buf := pre + Layout(h, BranchRecords(es), BranchData(es));
      var addr := |pre| + 16 + 16 * i;
      var e := BranchRecord(es, i);
      && e.pgid == es[i].child && e.ksize == |es[i].key|
      && addr + e.pos + |es[i].key| <= |buf|
      && buf[addr + e.pos..addr + e.pos + |es[i].key|] == es[i].key
  {
    LayoutData(pre, h, BranchRecords(es), BranchData(es), i);
  }

  /** Entry i of a written branch page reads back through its record. */
  lemma BranchEntryReadsBack(pre: seq<Byte>, h: seq<Byte>, es: seq<BranchEntry>, i: nat)
    requires |h| == 16 && BranchPageFits(es) && i < |es|
    ensures BranchEntryIs(PageView(pre + Layout(h, BranchRecords(es), BranchData(es)), |pre|), i, es[i])
  {
    BranchRecordPlaced(pre, h, es, i);
    BranchDataPlaced(pre, h, es, i);
    BranchElementReadsBack(PageView(pre + Layout(h, BranchRecords(es), BranchData(es)), |pre|), i, BranchRecord(es, i), es[i]);
  }

  /** A written branch page carries the header written and is typed
      "branch". */
  lemma BranchPageHeader(pre: seq<Byte>, id: Pgid, es: seq<BranchEntry>)
    requires BranchPageFits(es)
    ensures var p := PageView(pre + EncodeBranchPage(id, es), |pre|);
      && ElementsInBounds(p)
      && Header(p) == PageHeader(id, BranchPageFlag, |es|, 0)
      && Typ(p) == "branch"
  {
    var hdr := PageHeader(id, BranchPageFlag, |es|, 0);
    LayoutHeader(pre, EncodePageHeader(hdr), BranchRecords(es), BranchData(es));
    DecodeEncodePageHeader(hdr);
    assert TypeName(BranchPageFlag) == "branch";
  }

  lemma BranchPageEntries(pre: seq<Byte>, id: Pgid, es: seq<BranchEntry>)
    requires BranchPageFits(es)
    ensures forall i :: 0 <= i < |es| ==> BranchEntryIs(PageView(pre + EncodeBranchPage(id, es), |pre|), i, es[i])
  {
    forall i | 0 <= i < |es|
      ensures BranchEntryIs(PageView(pre + EncodeBranchPage(id, es), |pre|), i, es[i])
    {
      BranchEntryReadsBack(pre, EncodePageHeader(PageHeader(id, BranchPageFlag, |es|, 0)), es, i);
    }
  }

  /** A written branch page reads back as exactly the entries written,
      wherever it sits in the mapping: after any bytes `pre` and before any
      bytes `post`. */
  lemma BranchPageRoundTrip(pre: seq<Byte>, id: Pgid, es: seq<BranchEntry>, post: seq<Byte>)
    requires BranchPageFits(es)
    ensures var p := PageView(pre + EncodeBranchPage(id, es) + post, |pre|);
      && ElementsInBounds(p)
      && Header(p) == PageHeader(id, BranchPageFlag, |es|, 0)
      && Typ(p) == "branch"
      && ReadBranchEntries(p) == Some(es)
  {
    var written := PageView(pre + EncodeBranchPage(id, es), |pre|);
    BranchPageHeader(pre, id, es);
    BranchPageEntries(pre, id, es);
    ReadBranchEntriesExtend(written, es, post);
  }
}
