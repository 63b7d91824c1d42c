# bbolt page format and page-id merge, in Dafny

This project models `page.go` of bbolt, the embedded key/value store. It
covers two parts.

- **The page format.** A page starts with a 16-byte header
  `{id u64, flags u16, count u16, overflow u32}`. `count` element records of
  16 bytes each follow it: `{pos, ksize, pgid}` on a branch page and
  `{flags, pos, ksize, vsize}` on a leaf page. Element i sits at byte
  `16 + 16*i` of the page. Its key is the `ksize` bytes that begin `pos`
  bytes past the element, and a leaf element's value is the `vsize` bytes
  right after the key. `typ()` names a page by the first of its type bits
  that is set, in the order branch, leaf, meta, freelist. With none of them
  set, it falls back to `unknown<%02x>`.
- **The page-id merge.** `mergepgids` writes the merge of two page-id lists
  into a buffer. It copies whole runs: a binary search (`sort.Search`)
  finds the longest prefix of the list with the lower head that does not
  go past the other list's head. `pgids.merge` allocates the buffer.

The Go accessors cast pointers into the memory-mapped file. In the model a
page is a `PageView`: the mapped bytes as an immutable sequence, plus the
offset where the page starts. A Go pointer becomes a byte address, and a
slice that aliases the mapping becomes the same byte range as a value.
Every field is decoded little-endian.

Files:

- `ints.dfy`, module `Ints`: fixed-width integers and the little-endian field codec.
- `pgids.dfy`, module `Pgids`: page-id lists, `pgids.Less`, the reference merge `Merged`, `sort.Search`, `mergepgids` (imperative, over an `array`) and `pgids.merge`.
- `hex.dfy`, module `Hex`: `%02x` formatting and its inverse.
- `page.dfy`, module `Page`: struct layout, flags, `typ()`, the header and element records, the element and slice accessors, `key()`/`value()` and `pages.Less`.
- `page_write.dfy`, module `PageWrite`: the partner of the accessors. It is a reference writer that lays out a leaf or branch page, and readers built only from the accessors. Round-trip lemmas tie the two together.

The `mergepgids` loop is proved against `Merged`, a reference merge written
element by element. Three facts are proved about `Merged`:

- it is a permutation of `a ++ b`;
- it is sorted when both inputs are sorted;
- it is the only sorted permutation of `a ++ b` (`SortedUnique`).

## Model

| member | source | states |
|---|---|---|
| `Ints.DecodeLE` | page.go:37-46 | An n-byte field always decodes to a value below 256^n. |
| `Ints.EncodeLE` | page.go:37-46 | The encoding of a value is exactly n bytes long. |
| `Ints.DecodeEncodeLE` | page.go:37-46 | Decoding the n-byte encoding of v gives back v. |
| `Ints.EncodeDecodeLE` | page.go:37-46 | Re-encoding a decoded byte string gives back the same bytes. |
| `Ints.EncodeU16` | page.go:41-43 | A u16 field's encoding is 2 bytes and reads back as the value. |
| `Ints.EncodeU32` | page.go:45 | A u32 field's encoding is 4 bytes and reads back as the value. |
| `Ints.EncodeU64` | page.go:39 | A u64 field's encoding is 8 bytes and reads back as the value. |
| `Pgids.PgidsLessStrictOrder` | page.go:186 | `pgids.Less` is a strict order that ranks positions by their ids: irreflexive, true in at most one direction, transitive, and false both ways exactly between equal ids. |
| `Pgids.SortedIffNoInversion` | page.go:186 | A page-id list is ascending exactly when `pgids.Less` finds no later id below an earlier one. |
| `Pgids.Merged` | page.go:188 | The reference merge has len(a)+len(b) ids. |
| `Pgids.MergedMultiset` | page.go:188 | The reference merge holds exactly the ids of a and b, counted with multiplicity. Ids present in both are kept twice. |
| `Pgids.MergedSorted` | page.go:188 | The reference merge of two sorted lists is sorted. |
| `Pgids.SortedUnique` | page.go:202 | Two sorted lists with the same multiset of ids are equal, so any sorted permutation of a ++ b is `Merged(a, b)`. |
| `Pgids.Search` | page.go:231 | The result n is at most len(lead). When n < len(lead), `lead[n] > x`; when n > 0, `lead[n-1] <= x`. On a sorted `lead`, every id before n is at most x and every id from n on is above x. |
| `Pgids.CopyInto` | page.go:232 | `copy`/`append` into the buffer: the first at+len(src) slots become the old prefix followed by src, and every later slot is unchanged. |
| `Pgids.RunsStart` | page.go:222-226 | The list with the lower head becomes `lead`, which establishes the loop invariant, including `lead[0] <= follow[0]`. |
| `Pgids.RunStep` | page.go:229-239 | Each pass copies at least one id, which gives termination. If `lead` is not used up, the invariant holds again with the roles swapped; otherwise the output plus `follow` is complete. |
| `Pgids.MultisetSplit` | page.go:232 | Moving a prefix of `lead` to the output preserves the combined multiset. |
| `Pgids.RunSorted` | page.go:229-235 | On sorted input, appending a run that stays at or below `follow[0]` keeps the output sorted and no higher than what is left. |
| `Pgids.MergeFinished` | page.go:241-242 | On sorted input, the output plus the remaining `follow` is sorted and equals `Merged(a, b)`. |
| `Pgids.CopyLeadRuns` | page.go:219-239 | The loop ends with the output in `dst[..merged]` and a tail `follow`. Together they hold every id of a and b, are `Merged(a, b)` on sorted input, and leave slots from `merged` on untouched. |
| `Pgids.MergeRuns` | page.go:219-242 | On two non-empty inputs, `dst[..len(a)+len(b)]` is a permutation of a ++ b, equals `Merged(a, b)` on sorted input, and nothing after it changes. |
| `Pgids.MergeInto` | page.go:202-243 | `mergepgids`: requires the buffer to hold len(a)+len(b) ids (otherwise the source panics). It copies the other input when one is empty. The output is a permutation of a ++ b, sorted and equal to `Merged(a, b)` when both inputs are sorted. Slots after len(a)+len(b) are unchanged. |
| `Pgids.Merge` | page.go:188-200 | `pgids.merge` returns b when a is empty and a when b is empty. The result is a permutation of a ++ b, and the sorted merge on sorted input. |
| `Hex.DigitChar` | page.go:60 | Every digit below 16 prints as a lower-case hex digit. |
| `Hex.DigitValue` | page.go:60 | A hex digit's value is below 16 and prints back as the same digit. |
| `Hex.HexDigits` | page.go:60 | `%x` prints at least one hex digit, with no leading zero for a non-zero value. |
| `Hex.ParseHexDigits` | page.go:60 | The `%x` form of v reads back as v. |
| `Hex.FormatHex02` | page.go:60 | `%02x` prints at least two lower-case hex digits, pads only up to two, and reads back as the value. |
| `Page.AlignUp` | page.go:12 | The aligned offset is at or after the offset and less than one alignment step past it. |
| `Page.FieldOffsets` | page.go:12 | There is one offset per field. The first field starts at or after the starting offset, and each field ends at or before the next one starts. |
| `Page.FieldsInOrderPairwise` | page.go:12 | Fields laid out in order never overlap: every field ends at or before the start of every later field. |
| `Page.MaxWidth` | page.go:12 | The result is at least as wide as every field, is one of the field widths, and is 0 only for a struct with no fields. |
| `Page.PageHeaderLayout` | page.go:12 | The header's fields lie at 0, 8, 10 and 12, and `unsafe.Sizeof(page{})` is 16. |
| `Page.BranchPageElementLayout` | page.go:16 | The branch element's fields lie at 0, 4 and 8, and its size is 16. |
| `Page.LeafPageElementLayout` | page.go:17 | The leaf element's fields lie at 0, 4, 8 and 12, and its size is 16. |
| `Page.TypeName` | page.go:50-61 | The name is one of "branch", "leaf", "meta" and "freelist" exactly when one of the four type bits is set. |
| `Page.TypeNameCases` | page.go:50-61 | Each of "branch", "leaf", "meta" and "freelist" is returned exactly when its bit is the first of the four that is set (both directions). The `unknown<..>` form is returned exactly when none is set. |
| `Page.UnknownTypeNameCarriesFlags` | page.go:60 | The unknown form is `unknown<`, then at least two hex digits that read back as the flags, then `>`. |
| `Page.TypeNameExamples` | page.go:50-61 | Concrete names, including "branch" for flags 0x03 (branch wins over leaf) and "unknown<08>" for 0x08. |
| `Page.DecodeEncodePageHeader` | page.go:37-46 | `DecodePageHeader` undoes `EncodePageHeader`: writing a header and reading it back gives the same header. |
| `Page.EncodeDecodePageHeader` | page.go:37-46 | `DecodePageHeader` loses nothing: any 16 header bytes are the encoding of the header read from them. |
| `Page.DecodeEncodeBranchPageElement` | page.go:123-130 | `DecodeBranchPageElement` undoes `EncodeBranchPageElement`: writing a branch element and reading it back gives the same element. |
| `Page.EncodeDecodeBranchPageElement` | page.go:123-130 | `DecodeBranchPageElement` loses nothing: any 16 bytes are the encoding of the branch element read from them. |
| `Page.DecodeEncodeLeafPageElement` | page.go:145-154 | `DecodeLeafPageElement` undoes `EncodeLeafPageElement`: writing a leaf element and reading it back gives the same element. |
| `Page.EncodeDecodeLeafPageElement` | page.go:145-154 | `DecodeLeafPageElement` loses nothing: any 16 bytes are the encoding of the leaf element read from them. |
| `Page.Ids` | page.go:115 | The list of page ids has one id per page, in order. |
| `Page.PagesSortedById` | page.go:119 | `PagesLess`, that is `pages.Less`, agrees with `pgids.Less` on the pages' ids. A list of pages is in `pages.Less` order exactly when its ids are sorted. |
| `Page.Typ` | page.go:50-61 | `p.typ()` is "branch" exactly when the branch bit of the page's flags is set, and "leaf" exactly when the leaf bit is set and the branch bit is not. It is a known name exactly when a type bit is set. |
| `Page.LeafPageElementAtBytes` | page.go:70-73 | `leafPageElement(index)` reads the 16 bytes that start 16 + 16*index bytes into the page, and those bytes are exactly the encoding of the element returned. |
| `Page.BranchPageElementAtBytes` | page.go:88-91 | `branchPageElement(index)` reads the 16 bytes that start 16 + 16*index bytes into the page, and those bytes are exactly the encoding of the element returned. |
| `Page.Slots` | page.go:80-84 | The element region splits into `len/16` slots of 16 bytes each. |
| `Page.SlotsAt` | page.go:80-84 | Slot i is the 16 bytes at offset 16*i of the region. |
| `Page.ElementRegion` | page.go:80-84 | The region after the header is `count * 16` bytes long. |
| `Page.LeafPageElements` | page.go:76-85 | `leafPageElements()` has exactly `count` entries. |
| `Page.BranchPageElements` | page.go:94-103 | `branchPageElements()` has exactly `count` entries. |
| `Page.LeafPageElementsAt` | page.go:70-85 | For i < count, element i lies inside the mapping, and entry i of the slice is the record `leafPageElement(i)` points at. |
| `Page.BranchPageElementsAt` | page.go:88-103 | For i < count, entry i of the slice is the record `branchPageElement(i)` points at. |
| `Page.EmptyPageElements` | page.go:77-79 | With `count` 0, both element slices are empty (Go's nil). |
| `Page.BranchKey` | page.go:133-139 | A branch key is `ksize` bytes long. |
| `Page.LeafKey` | page.go:157-163 | A leaf key is `ksize` bytes long. |
| `Page.LeafValue` | page.go:166-172 | A leaf value is `vsize` bytes long. |
| `Page.LeafKeyValueAdjacent` | page.go:141-144 | The key and value are adjacent and do not overlap. Together they are the `ksize + vsize` bytes at `pos` past the element. |
| `PageWrite.ConcatAppend` | page.go:141-144 | Laying out two lists of byte strings one after the other is the same as laying out their concatenation. |
| `PageWrite.ConcatPiece` | page.go:141-144 | Piece i of a layout sits at its start offset, inside the layout. |
| `PageWrite.ConcatUniform` | page.go:71-72 | In a run of 16-byte records, record i begins at 16*i. |
| `PageWrite.LayoutHeader` | page.go:37-46 | In a written page, the header is the first 16 bytes and the records fit after it. |
| `PageWrite.LayoutRecord` | page.go:70-73 | In a written page, record i is the 16 bytes at 16 + 16*i. |
| `PageWrite.LayoutData` | page.go:141-144 | In a written page, data piece i lies at its offset past the records. |
| `PageWrite.SplitKeyValue` | page.go:166-172 | The bytes of key ++ value split back into the key and the value. |
| `PageWrite.LeafData` | page.go:141-144 | There is one key-and-value piece per leaf entry. |
| `PageWrite.LeafRecords` | page.go:145-154 | There is one 16-byte record per leaf entry. |
| `PageWrite.ReadLeafEntries` | page.go:70-73 | A successful read of a leaf page returns `count` entries, and only when the element records lie inside the mapping. |
| `PageWrite.ReadLeafEntriesOf` | page.go:157-172 | A page whose `count` elements hold the entries es reads back as exactly es. |
| `PageWrite.HeaderExtend` | page.go:37-46 | Bytes after a page in the mapping change neither its header nor whether its records fit. |
| `PageWrite.LeafEntryExtend` | page.go:157-172 | `leafPageElement(i)`, `key()` and `value()` read only the element's own bytes, so bytes after them do not change what element i holds. |
| `PageWrite.ReadLeafEntriesExtend` | page.go:157-172 | A leaf page that reads back as es still reads back as es, with the same header, when more bytes follow it in the mapping. |
| `PageWrite.LeafElementReadsBack` | page.go:157-172 | A record at element i's address, with the key and value written `pos` bytes further on, is what `leafPageElement(i)`, `key()` and `value()` return. |
| `PageWrite.LeafRecordPlaced` | page.go:70-73 | Element i of a written leaf page decodes as the record written for entry i. |
| `PageWrite.LeafDataPlaced` | page.go:141-144 | The key and value of written entry i sit `pos` bytes past its record, and the record's sizes match them. |
| `PageWrite.LeafEntryReadsBack` | page.go:157-172 | Element i of a written leaf page has the entry's flags, key and value. |
| `PageWrite.LeafPageEntries` | page.go:157-172 | Every element of a written leaf page holds its entry. |
| `PageWrite.LeafPageHeader` | page.go:50-61 | A written leaf page carries the header written, has its records inside the mapping, and `typ()` is "leaf". |
| `PageWrite.LeafPageRoundTrip` | page.go:68-172 | A written leaf page reads back through the accessors as exactly the entries written, with its header and `typ()` "leaf". This holds wherever it sits in the mapping, with any bytes before it and any bytes after it (its unused tail, later pages). |
| `PageWrite.BranchData` | page.go:121-130 | There is one key piece per branch entry. |
| `PageWrite.BranchRecords` | page.go:123-130 | There is one 16-byte record per branch entry. |
| `PageWrite.ReadBranchEntries` | page.go:88-91 | A successful read of a branch page returns `count` entries. |
| `PageWrite.ReadBranchEntriesOf` | page.go:133-139 | A page whose `count` elements hold the entries es reads back as exactly es. |
| `PageWrite.BranchEntryExtend` | page.go:133-139 | `branchPageElement(i)` and `key()` read only the element's own bytes, so bytes after them do not change what element i holds. |
| `PageWrite.ReadBranchEntriesExtend` | page.go:133-139 | A branch page that reads back as es still reads back as es, with the same header, when more bytes follow it in the mapping. |
| `PageWrite.BranchElementReadsBack` | page.go:133-139 | A record at element i's address, with the key written `pos` bytes further on, is what `branchPageElement(i)` and `key()` return. |
| `PageWrite.BranchRecordPlaced` | page.go:88-91 | Element i of a written branch page decodes as the record written for entry i. |
| `PageWrite.BranchDataPlaced` | page.go:121-130 | The key of written entry i sits `pos` bytes past its record, and the record's `ksize` and `pgid` match the entry. |
| `PageWrite.BranchEntryReadsBack` | page.go:133-139 | Element i of a written branch page has the entry's key and child page id. |
| `PageWrite.BranchPageEntries` | page.go:133-139 | Every element of a written branch page holds its entry. |
| `PageWrite.BranchPageHeader` | page.go:50-61 | A written branch page carries the header written, and `typ()` is "branch". |
| `PageWrite.BranchPageRoundTrip` | page.go:87-139 | A written branch page reads back as exactly the entries written, with its header and `typ()` "branch". This holds wherever it sits in the mapping, with any bytes before it and any bytes after it. |

## Left out

- `hexdump` (page.go:106-113) writes to standard error. It is pure I/O.
- `meta()` (page.go:64-66) returns a pointer 16 bytes past the page start, the same address as element 0. The meta struct is defined in a file that is not part of this model.
- `bucketLeafFlag` (page.go:31) is read by the bucket code, which is not part of this model. A leaf element's flags are carried as the raw u32.
- `PageInfo` (page.go:175-180) is a plain record that nothing here uses. `minKeysPerPage` (page.go:14) is not used in page.go.
- The `Len`/`Swap` methods of `pages` and `pgids` are sort boilerplate. Only `Less` is modelled.
- `Pgids.MergeInto` and `Pgids.Merge` take their inputs as values, so aliasing between `dst` and `a` or `b` is not modelled. `pgids.merge` returns its argument slice itself when the other argument is empty; the model returns an equal value.
- Sortedness of the inputs is not a precondition of the merge, because the Go code runs on any input. Sortedness and equality with `Merged` are promised only when both inputs are sorted. The permutation property and the frame are promised always.
- Zero-copy slices, their lifetimes, and writes through the returned pointers are not modelled. Accessors return values read from an immutable byte sequence.
- Byte order: Go reads the fields in host byte order. The model fixes little-endian.
- The accessors do no bounds checks, as in Go. The model's functions instead require that the record, key or value lies inside the mapping. Reading past it would be undefined behaviour in Go, not a value.
- `Page.AlignUp`: does not state that the result is a multiple of the alignment, only that it lies within one step of the offset. The layout lemmas check the resulting offsets by computation instead.
- Overflow pages are not interpreted. `overflow` is carried in the header only.
- `PageWrite` is a reference writer, not bbolt's own writer (`node.write` in node.go), which is not part of this model.
