# The P9-XIP image container, its DD containers and the bit buffer, verified

A P9-XIP image is a flat buffer: a header with a table of 15 sections, the section bodies, a table of
contents (`.toc`), the names it uses (`.strings`) and a small hashed index of one section (`.fixed_toc` for
`.fixed`). The library that edits it is an allocator and an index in one: it appends and deletes sections in
place, moves the others when one in the middle goes, turns linked addresses into section offsets, sorts the
table of contents, and looks names up in three different ways. A section may itself hold a DD container, a
growable map from a chip's DD level to a block of bytes. `fapi2::buffer` moves bit fields between machine words.

This project models that code in place, as it is written (classes with mutable fields, arrays, loops, an
explicit sort stack, roll-back from a saved copy), and proves what it is for:

- **Layout over every run.** In every run of appends, deletes and normalizations, successful or not, sections
  stay disjoint, aligned and inside the image, the image ends at its highest section rounded up to 8, and the
  bounds checks of `p9_xip_validate` keep passing (`XipRuns`).
- **Append** to a laid-out image succeeds if and only if the section is empty or the highest one and its new end fits
  (`AppendSucceedsIff`); every byte it leaves is known (`AppendWrites`), a failing one changes nothing that is in use,
  and 128 bytes of slack are enough (`SlackSuffices`).
- **Delete** pops sections and appends the survivors again. It terminates, and it leaves exactly the other
  sections, in order, with their bytes; or it restores every byte (`XipRepack`, `XipDeleteLaws`). It overflows
  if and only if the sections above the target, packed behind the highest end below it, are larger than the
  image was, a test on the section table before the call (`DeleteSucceedsIff`). That can happen on a legal image
  (`UnalignedDeleteOverflows`), but never when the sections start on multiples of 8, and append always puts them
  there (`DeleteFitsWhenAligned`, `RunDeletesFit`).
- **Relocation is invisible to lookups**: over any run of deletes and appends that leaves `.toc` and `.strings`
  alone a name gives the same item at the same place of its section with the same bytes, although moving `.toc`
  silently replaces binary by linear search (`RelocationInvisible`, `LookupsSurviveDeletes`, `LookupsSurvive`).
  Normalizing again, which sorts the table and makes the search binary once more, is invisible too when names are
  distinct, alone and in such runs (`RenormalizationInvisible`, `LookupsFollow`).
- **Validation by self-lookup is sound and complete** on every image that the bounds checks admit, laid out or
  not: it succeeds exactly when the sorted table is strictly increasing (`SelfLookupIffSorted`, `ValidatesIff`).
- **The sort** terminates, permutes, sorts and keeps its unguarded scans inside the range (`XipSort`). How many
  stack slots it takes is computed from the names (`Slots`); the source's 64 suffice for every table of n entries
  if and only if n is at most 65, and a worst table is given for every n (`XipSortStack`).
- **Normalization** of a linked image succeeds under a condition on the addresses in its table that is stated and
  proved exact (`XipLinked`). It preserves the meaning of the table and is idempotent. It is not all or nothing: a
  failing one leaves exactly the entries before its first error rewritten, and a linked image is given that it leaves
  half rewritten (`XipNormalizeLaws`, `XipNormalizeFails`). The hashed index answers for the full one after this has
  been deleted, and through every run that neither touches `.fixed_toc` by an append or delete nor deletes `.fixed`
  (`XipMiniToc`).
- **A DD container is a map** over every run of adds, and the DD-level view of a section is exact through every
  run of image operations (`DdContainerLaws`, `XipDdSection`, `XipDdRuns`).
- **Names are ordered** by their unsigned bytes, a prefix first, whatever computes the order (`LessIff`, `SortedIff`),
  and **structures are read** where their field lists have them: table entries, DD containers, the header
  (`XipStructs`).
- **Address translation** round-trips on every byte of every section, and on no offset past one (`XipAddress`).
- **Bit fields and bit reversal** do what their bit numbers say, for all widths (`BitBuffer`).

## How the model is built

`XipTypes.XipImage` is the image object: the memory is an `array<byte>`, and the header fields and section
table are mutable fields beside it. `State()` is its value at one moment. The operations are methods on that
object (`*Impl` modules, `XipSort`, `XipValidate`); each is proved equal to a function or relation on such
values, and the laws are lemmas about those. TOC entries, hashed records and DD block headers are real
big-endian bytes in the memory, read and written there.

Conventions worth knowing:

- The header is kept decoded. Its bytes in the image exist (the `.header` section has at least 348 of them) but
  the model does not read or write fields through them; `CopyImage` copies fields and bytes together, as the
  source's `memcpy` does.
- The buffer of a delete is a second image object with its own memory.
- The hash function is a parameter: nothing but the collision check is needed of it.
- A string that is not closed by a NUL in memory is taken to end where memory does; the source would read on.
- 32-bit sums that could wrap are preconditions (`NoWrap`, `DeleteAllowed`, `Extensible`) or
  are modelled with their wrap-around (`Sum32`, `Low32`): the bounds test of validation, the offsets of a DD
  container, the range checks of the bit buffer. Link addresses and sums with them are unbounded.
- Where names are rewritten, sorted or followed to another place, `.strings` ends in a NUL, so that every name
  in it ends there (`StringsEnd`, `NamesOk`).
- Reading the tables needs an image that lies in memory with its sections (`Bounded`), nothing else of the layout.
- The slots of the sort stack are a parameter whose default is the source's 64. A run is a sequence of calls that the
  methods allow (`Allowed`), with that stack.
- `Mod` is the remainder, defined by recursion and proved equal to `%` (`ModIsRemainder`).
- A machine word is the sequence of its bits, left-most first; C's shifts and casts are defined on it and proved
  to be multiplication, division and remainder by powers of two (`Words`).

Where code and documentation disagree the model follows the code:

- `p9_xip_section2image` is documented to take an offset in the section, but compares it with the end of the
  section in the image. `SectionAddressRoundTrip` says exactly for which accepted offsets the translation is
  undone by `p9_xip_image2section`, and `SectionToImageAcceptsTooMuch` gives one for which it is not.
- `buffer::setBit`, `clearBit` and `getBit` check their range on a 32-bit sum. A pair whose sum wraps is accepted
  and names the bits it wraps onto; `RangeCheckExact` and `RangeCheckWraps` state when.
- `buffer::insert` checks both windows on 32-bit sums as well, and accepts windows of which both sums wrap;
  `WindowCheckExact` states when, and `WindowCheckWraps` gives such windows for every pair of widths.
- `p9_xip_find` called without an item is documented to tell whether a name is indexed in the TOC. With a full TOC
  it also looks at the data: `LookupIsIndexedIff` says exactly when it tells what is documented, and
  `DeletedStillIndexed` that after a delete it gives DataNotPresent for every indexed name of the deleted section.
- `p9_xip_get_section` is documented to locate the section it is asked for. With a DD level it looks at the caller's
  structure even when the section number is out of range: `OutOfRangeReported` says exactly when that number is
  reported, and `OutOfRangeAnswers` gives the calls that return Ok and a block of another section.

## Model

| member | source | states |
|---|---|---|
| XipLayout.PowerOfTwoTest | import/chips/p9/xip/p9_xip_image.C:1312-1318 | the alignments that pass the bit test of the source are exactly the powers of two that fit 8 bits |
| XipLayout.PadToLeast | import/chips/p9/xip/p9_xip_image.C:1320-1336 | padding gives the least multiple of the alignment that is not below the size |
| XipLayout.PaddingBound | import/chips/p9/xip/p9_xip_image.C:1320-1336 | on a size that is a multiple of 8, padding costs nothing up to alignment 8 and at most the alignment less 8 above |
| XipLayout.FinalIsHighest | import/chips/p9/xip/p9_xip_image.C:438-472 | all other sections end before the final one starts |
| XipAppendImpl.FinalSection | import/chips/p9/xip/p9_xip_image.C:438-472 | the scan finds the non-empty section with the highest offset, or reports an empty image |
| XipAppendImpl.PadImage | import/chips/p9/xip/p9_xip_image.C:1304-1343 | zero padding up to a power-of-two alignment; nothing changes on an error |
| XipAppendImpl.FinalAlignment | import/chips/p9/xip/p9_xip_image.C:217-230 | the recorded size becomes the next multiple of 8 |
| XipAppendImpl.Append | import/chips/p9/xip/p9_xip_image.C:2819-2974 | return code, new image and returned section offset of an append, in place; on an overflow all is restored but padding past the final section |
| XipAppend.AppendKeepsLayout | import/chips/p9/xip/p9_xip_image.C:2819-2974 | a successful append keeps the layout invariant, fits the allocation and makes the section the final one |
| XipAppend.AppendKeepsBodies | import/chips/p9/xip/p9_xip_image.C:2819-2974 | the section gains exactly the data at its old size; every other section keeps its table entry and its bytes |
| XipAppend.FailedAppendKeepsImage | import/chips/p9/xip/p9_xip_image.C:2812-2817 | a failing append leaves table, size, flags and every byte of every section as they were |
| XipAppend.AppendSucceedsIff | import/chips/p9/xip/p9_xip_image.C:2819-2974 | on a laid-out image an append of data succeeds if and only if the section is empty or every other one ends at or below its start, and the new end rounded up to 8 fits the allocation; otherwise the code says which of the two fails |
| XipAppend.AppendAnswers | import/chips/p9/xip/p9_xip_image.C:2837-2856 | the errors that come before that, and an append of nothing, which changes nothing |
| XipAppend.AppendWrites | import/chips/p9/xip/p9_xip_image.C:2819-2974 | every byte afterwards: the data at the end of the section, zeros between the old image and a new section, and all others as they were |
| XipAppend.AppendedEntry | import/chips/p9/xip/p9_xip_image.C:2819-2974 | the section's table entry with the caller's DD support, the image size and the flags |
| XipAppend.SlackSuffices | import/chips/p9/xip/p9_xip_tool.C:1228 | with the data and 128 bytes more than the image size as allocation, every append to an empty or the highest section succeeds |
| XipAppendImpl.ZerosAppended | import/chips/p9/xip/p9_xip_image.C:2919-2927 | an append without data extends the section by zeros |
| XipDeleteImpl.DeleteLastSection | import/chips/p9/xip/p9_xip_image.C:660-702 | removing the final section leaves an image that ends at the next highest one |
| XipDeleteImpl.PopSections | import/chips/p9/xip/p9_xip_image.C:2647-2693 | the pop loop terminates at the target, without reaching .header, and records at least one section |
| XipDeleteImpl.ReappendSections | import/chips/p9/xip/p9_xip_image.C:2695-2722 | appends the recorded sections from the saved copy, last recorded first, stopping at the first error; memory past the old size stays |
| XipDeleteImpl.DeleteSection | import/chips/p9/xip/p9_xip_image.C:2541-2739 | return code and image of a delete for every section number, buffer and laid-out image; every failing call leaves the whole image as it was, and the buffer gets a copy of it |
| XipDelete.PopToPops | import/chips/p9/xip/p9_xip_image.C:2647-2693 | popping empties exactly the target and what lies above it, and records the others once each from the highest down |
| XipDeleteLaws.DeleteRepacks | import/chips/p9/xip/p9_xip_image.C:2541-2739 | a successful delete leaves exactly the other sections, with size, attributes, bytes and relative order; below the target nothing moves and the image does not grow |
| XipDeleteLaws.DeleteKeepsLayout | import/chips/p9/xip/p9_xip_image.C:2541-2739 | the layout invariant survives every delete, successful or not |
| XipDeleteLaws.DeleteRefusals | import/chips/p9/xip/p9_xip_image.C:2562-2607 | the calls that are refused before any section is looked at, in the order of the checks |
| XipDeleteLaws.DeleteWithoutRebuild | import/chips/p9/xip/p9_xip_image.C:2609-2645 | an empty section is deleted without a change, the highest one also without a buffer and nothing else moves, and one with others above it not without a buffer |
| XipDeleteLaws.DeletedEntries | import/chips/p9/xip/p9_xip_image.C:2541-2739 | every entry of the section table after a successful delete |
| XipDeleteLaws.DeleteSucceedsIff | import/chips/p9/xip/p9_xip_image.C:2695-2722 | a delete succeeds if and only if the sections above the target, listed from the highest down and packed behind the highest end below it, fit the old size; then that is the new size |
| XipDeleteLaws.OneOrder | import/chips/p9/xip/p9_xip_image.C:2647-2693 | the sections above the target can be listed from the highest down in one way only |
| XipDeleteLaws.DeleteFitsWhenAligned | import/chips/p9/xip/p9_xip_image.C:2695-2722 | when the sections above the target start on multiples of 8, the delete succeeds and no section moves up |
| XipDeleteLaws.UnalignedDeleteOverflows | import/chips/p9/xip/p9_xip_image.C:2695-2722 | a laid-out image with byte-aligned sections on which deleting .strings fails with WouldOverflow |
| XipDeleteLaws.DeleteSorted | import/chips/p9/xip/p9_xip_image.C:2955-2958 | a delete clears the sorted flag exactly when .toc had to be moved |
| XipRepack.ReappendRepacks | import/chips/p9/xip/p9_xip_image.C:2695-2722 | appending all pending sections lowest first puts every survivor back with its bytes and in order |
| XipRepackFits.ReappendSucceedsIff | import/chips/p9/xip/p9_xip_image.C:2695-2722 | the rebuild runs through if and only if the packed size fits, and then that is the new size |
| XipRepackFits.RepackingFits | import/chips/p9/xip/p9_xip_image.C:2695-2722 | with 8-aligned sections no re-append overflows and no section ends up above its old place |
| XipToc.TocWritten | import/chips/p9/xip/p9_xip_image.C:410-432 | an entry written to memory is read back and leaves entries it does not overlap alone |
| XipStructs.TocEntryFields | import/chips/p9/xip/p9_xip_image.h:464-505 | a TOC entry is read field by field from the places of its structure |
| XipStructs.HashedEntryFields | import/chips/p9/xip/p9_xip_image.h:528-548 | so is a hashed record |
| XipStructs.TocOfBytes | import/chips/p9/xip/p9_xip_image.C:703-758 | the TOC is what its section holds, as many whole entries as fit it, one behind the other |
| XipStructs.FixedTocOfBytes | import/chips/p9/xip/p9_xip_image.C:1346-1372 | so is the mini-TOC |
| XipStructs.NameOfBytes | import/chips/p9/xip/p9_xip_image.C:839-875 | a name is what .strings holds from the entry's offset up to the first NUL |
| XipStructs.SectionNumbers | import/chips/p9/xip/p9_xip_image.h:105-127 | the numbers of the common sections go with their names, and the header has an entry for each number |
| XipStructs.QuickCheckIs | import/chips/p9/xip/p9_xip_image.C:320-371 | the check of every entry point: the letters of the magic number, the version, and normalization when asked for |
| CStrings.BigEndianOrder | import/chips/p9/xip/p9_xip_image.C:410-432 | words in the image are ordered like their bytes: the most significant one is stored first |
| CStrings.CStringEnds | import/chips/p9/xip/p9_xip_image.C:839-875 | a string in memory ends at the first NUL |
| XipFindImpl.LinearSearch | import/chips/p9/xip/p9_xip_image.C:839-875 | finds the first entry with the name, or reports that there is none |
| XipFindImpl.BinarySearch | import/chips/p9/xip/p9_xip_image.C:880-938 | takes the branches of the search tree over the names, sorted or not; refuses an unsorted TOC |
| XipFindImpl.DecodeToc | import/chips/p9/xip/p9_xip_image.C:1147-1211 | the item of an entry: name, type, count, address; no data when the section is gone |
| XipFindImpl.FixedSearch | import/chips/p9/xip/p9_xip_image.C:1376-1452 | finds the first record with the name's hash and gives its place in .fixed |
| XipFindImpl.HeaderSearch | import/chips/p9/xip/p9_xip_image.C:1467-1564 | finds a header field by name in the built-in table |
| XipFindImpl.FindItem | import/chips/p9/xip/p9_xip_image.C:2102-2174 | the dispatch between the searches and the fall back to the mini tables, with an item to fill in |
| XipFindImpl.LookupOnly | import/chips/p9/xip/p9_xip_image.C:2102-2174 | the same call without an item: it does not look at the data of what the mini tables hold |
| XipFindImpl.MapToc | import/chips/p9/xip/p9_xip_image.C:3185-3233 | decodes and validates the entries in order and reports the first error |
| CStrings.LessIff | import/chips/p9/xip/p9_xip_image.C:762-772 | the order of names: a proper prefix comes first, and otherwise the lower unsigned byte where two names part |
| XipSearch.StrictlyIncreasingIff | import/chips/p9/xip/p9_xip_image.C:880-938 | strictly increasing in those terms, which is what binary search needs |
| XipSearch.SelfLookupIffSorted | import/chips/p9/xip/p9_xip_image.C:880-972 | every entry finds itself by binary search if and only if the names are strictly increasing |
| XipSearch.SearchesAgree | import/chips/p9/xip/p9_xip_image.C:839-938 | on a strictly increasing table binary and linear search agree on every key |
| XipSearch.LinearSelfLookupIffDistinct | import/chips/p9/xip/p9_xip_image.C:839-972 | every entry finds itself by linear search if and only if no name occurs twice |
| XipFind.ValidationIffSorted | import/chips/p9/xip/p9_xip_image.C:941-972 | with all data present, validation of a TOC flagged as sorted succeeds exactly when it is strictly increasing; of another one exactly when names are distinct |
| XipFind.ValidationNeedsData | import/chips/p9/xip/p9_xip_image.C:1183-1196 | validation succeeds only when the data of every entry is present |
| XipFind.FindWithoutToc | import/chips/p9/xip/p9_xip_image.C:2128-2138 | without a TOC exactly the names with a record in the mini-TOC, when .fixed is there, and the header's field names are found |
| XipFind.NotFoundWithoutToc | import/chips/p9/xip/p9_xip_image.C:2128-2138 | for all other names the code is ItemNotFound |
| XipFind.FoundInToc | import/chips/p9/xip/p9_xip_image.C:1147-1211 | what is found through a TOC: an entry with the name, its type and count, at its offset in its section, as a full item |
| XipFind.FirstRecordAnswers | import/chips/p9/xip/p9_xip_image.C:1376-1452 | what is found through the mini-TOC: the place, type and count of the first record with the name's hash, as a partial item, or no data when .fixed is gone |
| XipFind.NoRecord | import/chips/p9/xip/p9_xip_image.C:1376-1452 | without such a record nothing is found |
| XipFind.FindRefuses | import/chips/p9/xip/p9_xip_image.C:2110-2118 | a lookup reports the error of the header check |
| XipFind.LookupAnswers | import/chips/p9/xip/p9_xip_image.C:2102-2174 | the codes of the call without an item on all paths |
| XipStructs.HeaderFieldFound | import/chips/p9/xip/p9_xip_image.C:1467-1564 | without a TOC, and without an answer of the mini-TOC, each named header field is found at its place in the header structure, with its type and one element |
| XipStructs.HeaderFieldsAre | import/chips/p9/xip/p9_xip_image.C:1485-1503 | no other name is a header field's |
| XipStructs.TableIsStruct | import/chips/p9/xip/p9_xip_image.C:1485-1503 | the built-in table gives for each named field the bytes that the fields before it take, and the type that goes with its width |
| XipStructs.HeaderEnds | import/chips/p9/xip/p9_xip_image.h:368-444 | the structure takes 348 bytes, and the least image 352 |
| XipFind.LookupOnlyIff | import/chips/p9/xip/p9_xip_image.C:2102-2174 | the call without an item succeeds exactly when the one with an item does, or when a record is left although .toc and .fixed are gone |
| XipFind.LookupIsIndexedIff | import/chips/p9/xip/p9_xip_image.C:2102-2174 | the call without an item tells whether the name is indexed, except exactly when a TOC entry for it is there and does not decode |
| XipRelocate.ValidatedIsSearchable | import/chips/p9/xip/p9_xip_image.C:941-972 | a validated image is one whose lookups can be relied on |
| XipRelocate.RelocationInvisible | import/chips/p9/xip/p9_xip_image.C:2541-2739 | after a successful delete every name gives the same item at the same place of its section with the same bytes, and items of the deleted section give DataNotPresent |
| XipRelocate.DeletedStillIndexed | import/chips/p9/xip/p9_xip_image.C:2102-2174 | after a successful delete every name whose item lay in the deleted section is still indexed, and the call without an item gives DataNotPresent for it |
| XipRelocate.SearchKept | import/chips/p9/xip/p9_xip_image.C:2955-2958 | the search ends at the same entry although a moved .toc is searched linearly |
| XipRenormalize.RenormalizationInvisible | import/chips/p9/xip/p9_xip_image.C:1901-2007 | normalizing a searchable image with distinct names again succeeds, flags the table as sorted, and every name gives the same error or the same item, up to the index of its entry |
| XipRenormalize.RenormalizedSearchable | import/chips/p9/xip/p9_xip_image.C:1901-2007 | the image it leaves can be searched by name if and only if no name occurs twice |
| XipSort.QuickSort | import/chips/p9/xip/p9_xip_image.C:777-834 | terminates, permutes the table in place, sorts it by name and writes nothing else, on a stack that has the slots that the names take; of an empty table it only reads a pivot |
| XipSort.ScanUp | import/chips/p9/xip/p9_xip_image.C:802-805 | the scan without a bounds test stops inside the range, at the first entry not below the pivot |
| XipSort.ScanDown | import/chips/p9/xip/p9_xip_image.C:807-810 | the scan from the other end stops inside the range, at the first entry not above the pivot |
| XipSort.Partition | import/chips/p9/xip/p9_xip_image.C:795-821 | one pass splits a popped range around the pivot and touches nothing outside it |
| XipSort.SortTopRange | import/chips/p9/xip/p9_xip_image.C:789-833 | one turn keeps pending ranges disjoint and everything outside one pending range in order, and lowers the work left |
| XipSortStack.SlotsBound | import/chips/p9/xip/p9_xip_image.C:777-834 | no table of n entries takes more than twice n / 2 slots, or two |
| XipSortStack.WorstSlots | import/chips/p9/xip/p9_xip_image.C:777-834 | for every n a table of n entries that takes as many |
| XipSortStack.StackSufficesIff | import/chips/p9/xip/p9_xip_image.C:777-834 | a stack suffices for every table of n entries if and only if it has twice n / 2 slots, and two |
| XipSortStack.SixtyFourSuffice | import/chips/p9/xip/p9_xip_image.C:777-834 | the 64 slots of the source suffice for every table of n entries if and only if n is at most 65 |
| XipSortStack.PassSplits | import/chips/p9/xip/p9_xip_image.C:795-821 | the scans and exchanges of one pass leave no entry above the pivot left of the split and none below it right of it, inside the range only |
| XipSortSpec.TwoSlotsPerRange | import/chips/p9/xip/p9_xip_image.C:823-833 | pending ranges with at least two entries each take at most as many stack slots as they have entries |
| XipSortSpec.PassOrders | import/chips/p9/xip/p9_xip_image.C:789-833 | after a pass, entries that are not in one pending range are in order |
| XipSortSpec.PassPending | import/chips/p9/xip/p9_xip_image.C:823-833 | the pushed halves are disjoint from all that is pending and have at least two entries |
| XipSortSpec.SortedIff | import/chips/p9/xip/p9_xip_image.C:762-834 | a sorted table in terms of bytes: of two names the one that stands first is the same or comes before the other |
| XipNormalizeImpl.NormalizeToc | import/chips/p9/xip/p9_xip_image.C:1014-1107 | one entry and, for .fixed, its record are rewritten in memory; on an error nothing is written |
| XipNormalizeImpl.HashCollides | import/chips/p9/xip/p9_xip_image.C:1113-1141 | reports a collision exactly when two records have the same hash |
| XipNormalizeImpl.SortToc | import/chips/p9/xip/p9_xip_image.C:1260-1297 | sorts the table by name unless it is flagged as sorted; only .toc is written and its entries are permuted |
| XipNormalizeImpl.Normalize | import/chips/p9/xip/p9_xip_image.C:1901-2007 | return code and image of a normalization; after a failing one exactly the entries before the first error are rewritten and their records written; sections other than the two tables keep their bytes |
| XipNormalizeLaws.NormalizationPreservesMeaning | import/chips/p9/xip/p9_xip_image.C:1901-2007 | decoding all entries afterwards gives the multiset of names, addresses, types and counts that the linked entries denoted |
| XipNormalizeLaws.EntryMeaningKept | import/chips/p9/xip/p9_xip_image.C:1014-1107 | one normalized entry decodes to what it denoted when linked |
| XipNormalizeLaws.NormalizeTwice | import/chips/p9/xip/p9_xip_image.C:1901-2007 | a second normalization succeeds and changes nothing |
| XipNormalizeLaws.NormalizeKeepsLayout | import/chips/p9/xip/p9_xip_image.C:1901-2007 | the layout invariant survives normalization, successful or not |
| XipNormalizeLaws.NormalizedTable | import/chips/p9/xip/p9_xip_image.C:1975-2004 | the section table and the flags after a success: offsets of empty sections are cleared, nothing else changes |
| XipLinked.NormalizeSucceedsIff | import/chips/p9/xip/p9_xip_image.C:1901-2007 | a linked image normalizes if and only if every name's address lies in .strings and every data address in some section, what lies in .fixed does so below 65536 and is as many items as there are records, and the hashes of their names differ |
| XipLinked.FirstErrorDecides | import/chips/p9/xip/p9_xip_image.C:1014-1107 | the code of a failing loop is that of the first entry whose addresses are wrong, by the checks in their order, and the loop stops there |
| XipLinked.TablesDecide | import/chips/p9/xip/p9_xip_image.C:1957-1971 | without such an entry the number of records decides, and then their hashes |
| XipLinked.HeaderDecides | import/chips/p9/xip/p9_xip_image.C:1901-1925 | an image that fails the header check reports that, and one that is normalized already succeeds |
| XipLinked.NormalizedEntryIs | import/chips/p9/xip/p9_xip_image.C:1014-1107 | every field of a normalized entry, from the addresses of the linked one |
| XipLinked.RecordIs | import/chips/p9/xip/p9_xip_image.C:1083-1097 | every field of the record of an item of .fixed |
| XipNormalizeFails.FailedNormalizationImage | import/chips/p9/xip/p9_xip_image.C:1901-2007 | what a failing normalization leaves: entries up to the first error are normalized with their records, the others are linked, and the image is marked as not normalized |
| XipNormalizeFails.FailedNormalizationUndoneIff | import/chips/p9/xip/p9_xip_image.C:1901-2007 | a failing normalization leaves the table of contents as it was if and only if its first entry is already in error |
| XipNormalizeFails.HalfwayFails | import/chips/p9/xip/p9_xip_image.C:1901-2007 | a laid-out linked image, byte by byte, whose normalization fails at its second entry |
| XipNormalizeFails.HalfwayRewritten | import/chips/p9/xip/p9_xip_image.C:1901-2007 | what that call leaves is marked as not normalized, and its table is not the linked one any more |
| XipMiniToc.NormalizeIndexes | import/chips/p9/xip/p9_xip_image.C:1071-1097 | normalization leaves in .fixed_toc exactly the records of the .fixed entries, with distinct hashes and untruncated offsets |
| XipMiniToc.MiniTocRefinesToc | import/chips/p9/xip/p9_xip_image.C:2128-2138 | after .toc has been deleted, a name that the full TOC placed in .fixed is found at the same place of it with the same type and count |
| XipMiniToc.MiniTocAnswersIff | import/chips/p9/xip/p9_xip_image.C:1376-1452 | the mini-TOC answers for a name exactly when some .fixed item's name has its hash |
| XipMiniToc.FixedItemsSurvive | import/chips/p9/xip/p9_xip_image.C:2102-2974 | after every run that spares .fixed_toc and does not delete .fixed, what the full TOC placed in .fixed is still found there with its bytes: through .toc while it stands, spared like .strings, and through the mini-TOC once it is gone, whatever became of .strings; normalizing again is allowed, with distinct names while .toc stands |
| XipMiniToc.MiniTocSurvives | import/chips/p9/xip/p9_xip_image.C:1376-1452 | over every run that spares .fixed_toc and does not delete .fixed the mini-TOC gives every key the answer it gave at first |
| XipMiniToc.IndexKept | import/chips/p9/xip/p9_xip_image.C:1071-1097 | the mini-TOC stays the index of the .fixed entries when the TOC has the same entries in any order with the same names |
| XipAddressImpl.FindPlace | import/chips/p9/xip/p9_xip_image.C:584-655 | the scan finds the first section that contains the address |
| XipAddress.SectionAddressRoundTrip | import/chips/p9/xip/p9_xip_image.C:2977-3052 | an address that section2image stores, aligned or not, is undone by image2section if and only if the offset is below the section's size |
| XipAddress.EveryByteHasAddress | import/chips/p9/xip/p9_xip_image.C:2977-3052 | every byte of every section gets an address that translates back to it, and an error beside it exactly when it is no multiple of 4 |
| XipAddress.ImageAddressRoundTrip | import/chips/p9/xip/p9_xip_image.C:2977-3052 | image2section gives a byte of a section and is undone by section2image, which reports addresses that are no multiple of 4 |
| XipAddress.HostAddressRoundTrip | import/chips/p9/xip/p9_xip_image.C:3055-3125 | host2image gives back every address of the image that image2host translated, and reports those that are no multiple of 4 |
| XipAddress.HostAnswers | import/chips/p9/xip/p9_xip_image.C:3055-3125 | addresses of the image and of the host are as far from their bases, and others are refused in both directions |
| XipAddress.HostByte | import/chips/p9/xip/p9_xip_image.C:2977-3086 | the host address of a section's offset is that of the section's byte there |
| XipAddress.PlaceIs | import/chips/p9/xip/p9_xip_image.C:584-655 | an address goes to the section it lies in; outside the image it is an invalid argument and between sections an error |
| XipAddress.SectionToImageAnswers | import/chips/p9/xip/p9_xip_image.C:2977-3026 | the codes of section2image in the order of its checks, and when an address is stored |
| XipAddress.FullAddressRecovers | import/chips/p9/xip/p9_xip_image.C:371-377 | the low 32 bits of an address in the image give it back when the image does not cross 4 GiB |
| XipAddress.SectionToImageAcceptsTooMuch | import/chips/p9/xip/p9_xip_image.C:3008-3012 | the first offset past a section is accepted and does not translate back |
| XipValidate.Validate | import/chips/p9/xip/p9_xip_image.C:1571-1726 | the return code of validation for every image in memory, first failing check first |
| XipValidate.BoundsTest | import/chips/p9/xip/p9_xip_image.C:1675-1689 | the three 32-bit comparisons, wrapped sum included, mean that the section does not lie in the image |
| XipValidate.BoundsOkIff | import/chips/p9/xip/p9_xip_image.C:1625-1704 | the bounds and alignment checks pass exactly on images whose sections all lie in the image on their alignment |
| XipValidate.CheckedIsBounded | import/chips/p9/xip/p9_xip_image.C:1625-1726 | an image that passes them has all its sections in memory, so that mapping its TOC reads nothing else |
| XipValidate.LayoutPassesBounds | import/chips/p9/xip/p9_xip_image.C:1625-1704 | an image that keeps the layout invariant passes the checks of its sections, and all of them if and only if link address and size do not wrap |
| XipValidate.ValidatesIff | import/chips/p9/xip/p9_xip_image.C:1571-1726 | every image that passes the bounds checks, laid out or not, validates exactly when all data is present and its names are strictly increasing, or distinct when it is not flagged as sorted |
| XipValidate.ValidatesWithoutToc | import/chips/p9/xip/p9_xip_image.C:1706-1720 | a linked image, and one without a TOC, validate once the bounds checks pass |
| XipValidate.BoundsFirst | import/chips/p9/xip/p9_xip_image.C:1571-1726 | a failing bounds check is what validation reports |
| XipValidate.BoundsRefusals | import/chips/p9/xip/p9_xip_image.C:1616-1665 | the codes of the checks of header, sizes and address range |
| XipValidate.FirstBadSection | import/chips/p9/xip/p9_xip_image.C:1675-1699 | then the first section that leaves the image or its alignment decides, with its code |
| XipValidate.FirstBadEntry | import/chips/p9/xip/p9_xip_image.C:941-972 | then the first entry that does not decode, is not found by its name or is found elsewhere |
| XipRuns.StepKeeps | import/chips/p9/xip/p9_xip_image.C:1901-2974 | one append, delete or normalization, successful or not, keeps layout, tight end and the header fields |
| XipRuns.NewSectionOnEight | import/chips/p9/xip/p9_xip_image.C:2866-2880 | append puts an empty section on a multiple of 8, whatever its alignment |
| XipRuns.RunKeepsLayout | import/chips/p9/xip/p9_xip_image.C:1901-2974 | every image of every run keeps the layout invariant, the tight end, and sections on multiples of 8 |
| XipRuns.RunKeepsValidating | import/chips/p9/xip/p9_xip_image.C:1625-1704 | in every run the checks on the sections keep passing, and all bounds and alignment checks do if and only if link address and size do not wrap |
| XipRuns.RunDeletesFit | import/chips/p9/xip/p9_xip_image.C:2541-2739 | in every run from sections on multiples of 8 no delete ever overflows |
| XipRuns.LookupsSurviveDeletes | import/chips/p9/xip/p9_xip_image.C:2102-2739 | after any number of deletes every lookup still finds what it found at first, unless its section is one of the deleted ones |
| XipRuns.RunKeepsSections | import/chips/p9/xip/p9_xip_image.C:1901-2974 | over every run, failed calls included, a section keeps its bytes unless a call has touched it, and begins with them unless one has deleted or rewritten it |
| XipRuns.LookupsSurvive | import/chips/p9/xip/p9_xip_image.C:2102-2974 | over every run of appends and deletes that leaves .toc and .strings alone each search ends at the same index, and an item whose section has not been deleted is found at its place with its old bytes; otherwise the section's presence decides |
| XipRuns.LookupsFollow | import/chips/p9/xip/p9_xip_image.C:1901-2974 | the same over runs that normalize as well, from an image with distinct names: each search ends at the same entry, wherever that stands in the table |
| XipRuns.NormalizationsSucceed | import/chips/p9/xip/p9_xip_image.C:1901-2007 | in such a run every normalization succeeds and leaves a table flagged as sorted |
| DdContainerImpl.DdIterator.Next | import/chips/p9/utils/imageProcs/p9_dd_container.c:57-72 | gives the positions of the block headers one after the other, and then no more |
| DdContainerImpl.List | import/chips/p9/utils/imageProcs/p9_dd_container_tool.c:234-254 | going on with p9_dd_next from the start until there is no more yields every block header in order |
| DdContainerImpl.GetBlock | import/chips/p9/utils/imageProcs/p9_dd_container.c:88-115 | offset and size of the first block with the level, or the error of the source |
| DdContainerImpl.ShiftOffsets | import/chips/p9/utils/imageProcs/p9_dd_container.c:234-242 | every stored offset is raised by 12, modulo 2 to the 32, and no other byte changes |
| DdContainerImpl.PlaceBlock | import/chips/p9/utils/imageProcs/p9_dd_container.c:244-261 | the blocks are moved up as a whole, the data stored behind them, its header filled in, and the count raised |
| DdContainerImpl.Add | import/chips/p9/utils/imageProcs/p9_dd_container.c:164-266 | return code, reported size and bytes of the new container; on an error the old one stays |
| DdContainerLaws.GetHeld | import/chips/p9/utils/imageProcs/p9_dd_container.c:88-115 | a level's block is given with exactly its bytes, other levels are not found |
| DdContainerLaws.AddHolds | import/chips/p9/utils/imageProcs/p9_dd_container.c:164-266 | adding a block keeps all others readable and stores the new one; the length is exactly what is needed |
| DdContainerLaws.ReservedBytes | import/chips/p9/utils/imageProcs/p9_dd_container.c:249-261 | reserved bytes stay, and those of a new block header are zero |
| DdContainerLaws.NoContainer | import/chips/p9/utils/imageProcs/p9_dd_container.c:20-40 | what does not start with the letters of a container has no levels and takes none |
| XipStructs.DdBlockFields | import/chips/p9/utils/imageProcs/p9_dd_container.h:45-51 | a block header is read field by field from the places of its structure |
| XipStructs.DdContFields | import/chips/p9/utils/imageProcs/p9_dd_container.h:54-60 | so is a container, which starts with the letters DDCO; block headers follow it |
| DdContainerLaws.RunHolds | import/chips/p9/utils/imageProcs/p9_dd_container.c:164-266 | after every run of adds the buffer holds exactly the blocks of the adds that were no duplicates, contiguous and in order |
| DdContainerLaws.RunIsMap | import/chips/p9/utils/imageProcs/p9_dd_container.c:88-266 | after every run of adds a level gives exactly the bytes of the first add for it, and LevelNotFound if there was none |
| DdContainerLaws.RunEnumerates | import/chips/p9/utils/imageProcs/p9_dd_container.c:57-144 | after every run of adds what that iteration yields are the headers of the accepted blocks in the order of the adds, pointing at their bytes: exactly the levels that have been added, each once |
| DdContainerLaws.DuplicatesRejected | import/chips/p9/utils/imageProcs/p9_dd_container.c:188-211 | in every run an add is rejected exactly when its level has been added before |
| XipDdSection.ReadSection | import/chips/p9/xip/p9_xip_image.C:2026-2096 | the section, or the place of a level's block in it, with the source's return codes |
| XipDdSection.WholeSection | import/chips/p9/xip/p9_xip_image.C:2026-2050 | asking for the whole of a section gives Ok and the image's own table entry, which describes the section's bytes |
| XipDdSection.NoSupport | import/chips/p9/xip/p9_xip_image.C:2088-2093 | a level of a section without DD support is an invalid argument |
| XipDdSection.NoContainer | import/chips/p9/xip/p9_xip_image.C:2070-2086 | a level of a section with DD support that holds no container gives NoDdLevelSupport |
| XipDdSection.OutOfRangeReported | import/chips/p9/xip/p9_xip_image.C:2026-2096 | a section number out of range is reported exactly when the whole section is asked for or the caller's structure has no DD support |
| XipDdSection.OutOfRangeAnswers | import/chips/p9/xip/p9_xip_image.C:2026-2096 | with a structure filled in for a section with a container, any such number is answered like that section's, with Ok for every level it holds |
| XipDdSection.LevelViewExact | import/chips/p9/xip/p9_xip_image.C:2026-2096 | the place given for a level lies inside the section and holds exactly the level's block |
| XipDdSection.DeleteKeepsDdSection | import/chips/p9/xip/p9_xip_image.C:2541-2739 | a section that holds a container still does after another one has been deleted |
| XipDdSection.BuiltSectionAnswers | import/chips/p9/xip/p9_xip_image.C:2026-2096 | a container built by any run of adds and appended to an empty section answers exactly for every level, also after a delete |
| XipDdRuns.RunKeepsLevelView | import/chips/p9/xip/p9_xip_image.C:2026-2096 | the DD-level view stays exact through every run of calls that do not address the section |
| XipDdRuns.RunKeepsWholeSection | import/chips/p9/xip/p9_xip_image.C:2026-2050 | through every run that does not touch it, a whole section is given with the size, attributes and bytes that it had at first |
| Words.ShlMultiplies | import/hwpf/fapi2/include/buffer.H:610-626 | a left shift multiplies modulo the width |
| Words.ShrDivides | import/hwpf/fapi2/include/buffer.H:610-626 | a right shift divides |
| BitBuffer.Buffer.SetBit | import/hwpf/fapi2/include/buffer.H:202-214 | sets exactly the named bits, or rejects the range and changes nothing |
| BitBuffer.Buffer.ClearBit | import/hwpf/fapi2/include/buffer.H:242-260 | clears exactly the named bits, or rejects the range and changes nothing |
| BitBuffer.Buffer.GetBit | import/hwpf/fapi2/include/buffer.H:341-353 | true exactly when the range is accepted and one of its bits is on |
| BitBuffer.RangeCheckExact | import/hwpf/fapi2/include/buffer.H:205-208 | the range check accepts exactly the ranges in the word and those whose 32-bit sum wraps |
| BitBuffer.RangeCheckWraps | import/hwpf/fapi2/include/buffer.H:205-208 | a range outside every word that is accepted, and the bit it names |
| BitBuffer.WindowCheckExact | import/hwpf/fapi2/include/buffer.H:577-600 | the four comparisons accept exactly the windows that lie in their words and those whose two 32-bit sums wrap |
| BitBuffer.WindowCheckWraps | import/hwpf/fapi2/include/buffer.H:577-600 | for every pair of widths, windows in no word that are accepted |
| BitBuffer.Buffer.Insert | import/hwpf/fapi2/include/buffer.H:569-630 | for all widths the window gets the source's bits and all others stay; accepted exactly when both windows lie in their words or both 32-bit sums wrap |
| BitBuffer.Buffer.InsertFromRight | import/hwpf/fapi2/include/buffer.H:667-693 | inserts the right-most bits of the source, or rejects |
| BitBuffer.Buffer.Extract | import/hwpf/fapi2/include/buffer.H:744-760 | copies a window of the buffer into a word, or leaves it alone |
| BitBuffer.Buffer.ExtractToRight | import/hwpf/fapi2/include/buffer.H:800-806 | copies a window into the right-most bits, or leaves the word alone |
| BitBuffer.FieldRoundTrip | import/hwpf/fapi2/include/buffer.H:667-806 | extractToRight after insertFromRight gives the value modulo 2 to the length, whatever the widths |
| BitBuffer.FieldsApart | import/hwpf/fapi2/include/buffer.H:569-630 | inserts into windows that do not overlap commute |
| BitBuffer.Buffer.Reverse | import/hwpf/fapi2/include/buffer_traits.H:140-155 | the loop that ends early and the last shift put bit i at position n-1-i |
| BitBuffer.ReverseTwice | import/hwpf/fapi2/include/buffer_traits.H:140-155 | reversing twice is the identity |

## Left out

- XipNormalizeImpl.Normalize: requires a laid-out image; .strings that ends in a NUL when there are names to normalize or to sort; names that start in .strings and a stack with the slots that they take when they come to be sorted, or memory to read a pivot from when the table is empty. The source reads past .strings and writes past its 64 slots.
- XipNormalizeImpl.SortToc: the same for the table it sorts.
- XipNormalizeImpl.NormalizeToc: requires that .strings ends in a NUL; the source would hash what follows it.
- XipSort.QuickSort: requires a stack with the slots that the names take; the source writes past its 64 slots when they are fewer.
- XipDeleteImpl.DeleteSection: requires a laid-out image and, when sections are to be re-appended, that twice the image size and 136 fit 32 bits, so that no sum in a re-append wraps.
- XipAppendImpl.Append: requires that image, padding and data together fit 32 bits; the source's sums would wrap and it would write behind the wrapped size.
- XipAppendImpl.PadImage: the same for image and padding.
- XipValidate.Validate: requires non-zero alignments, since the source divides by them; compile-time size checks are not modelled.
- DdContainerImpl.Add: requires fewer than 255 blocks and a size that fits 32 bits; the source's count and sizes would wrap. Failing allocations are not modelled.
- DdContainerImpl.GetBlock: requires the block headers to lie in memory; the source does not check that.
- BitBuffer.Buffer.Insert: what it writes for an accepted length of 0 or for accepted windows that wrap is not stated, since C does not define those shifts (`LengthDefined`); signed types, whose conversion extends the sign, are not modelled, and the compile-time variants are covered by the run-time ones.
- BitBuffer.Buffer.Extract: the same, as it is an insert.
- BitBuffer.Buffer.SetBit: requires, of an accepted range only, shifts that C defines (`ShiftsDefined`): no more bits than the word has, and not 0 of a type as wide as int or wider.
- Reading the header fields through their bytes, and byte order of the header: fields are modelled in host form.
- p9_xip_get_item, p9_xip_set_scalar, p9_xip_set_element, p9_xip_set_string and the 64-bit accessors: one memory access behind a lookup.
- p9_xip_duplicate_section and p9_xip_validate2 with its ignore mask: variants of what is modelled.
- xipHash32 itself: any function will do for what is proved.
- writeBit, flipBit, flush and set of the bit buffer: compositions, a fill, and a pointer cast that depends on byte order; variable_buffer is not part of this model.
- Lookups over runs that normalize an image with repeated names again: the search is binary then and may end at another entry of that name.
- Command-line tools but for the listing of a DD container, memory mapping, tracing, null arguments and allocation failures.
- Ring, TOR and compression data inside sections, and all constant tables of rings and addresses.
