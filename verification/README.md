# A verified model of the deterministic CBOR engine

This project models, in Dafny 4.11, the deterministic CBOR library that the
repository ships as Rust (`cbordetveraux.rs` and its interface `cbordetver.rs`):
RFC 8949 section 3 with definite lengths and without floating-point values,
the core deterministic encoding of RFC 8949 section 4.2.1, and UTF-8 as in
section 4 of RFC 3629.  A second, smaller part models the copy-then-validate
pair of loops of `SpecializeDep1.c`.

## How it is built

* **One specification.**  `Item.Item` is a raw data item: a head (major type and
  an argument with the width chosen for it), string bytes, and children (those of
  a map alternate keys and values).  `Item.Ser` encodes it, `Item.ParseItems` is
  the recursive grammar, `Det.IsDet` says that arguments are shortest and map keys
  strictly increasing at every level, and `Canonical.ValueOf` is the meaning that
  forgets widths and the order of map entries.
* **The program's objects.**  `Raw.CborRaw` has the nine cases of the program,
  three of which keep their payload serialized.  `Raw.Abs` gives the item an
  object stands for, `Raw.Enc` its encoding, `Raw.Valid` the invariant of objects.
* **The program's loops.**  Validators, jumpers, passes, iterators, comparison,
  rotation, merge sort, sizing, writing and map insertion are methods over arrays
  and cells, each proved against the specification.  `byte`, `u64` and `usize` are
  range types: a value stored in one is proved to be in range, so that no
  addition or subtraction of the loops wraps.

The modules follow that order: `Machine`, `Sequences`, `Lex`, `Utf8`, `Header`,
`HeaderIO`, `Item`, `Validator`, `Raw`, `Iterator`, `Compare`, `Det`, `Canonical`,
`Serializer`, `Rotation`, `Sort`, `MapInsert`, `Build`, `Normalize`, `Api`,
`MapRoutes`, `Access`, `RoundTrips`, `Wire`, and `Tlv` for the C part.

## Main results

1. The constant-space validator, with one offset and one counter of items owed,
   accepts exactly what the recursive grammar parses and stops where it stops
   (`Validator.ValidateRawDataItem`); jumping without checks lands in the same
   place (`Validator.JumpRawDataItem`).
2. The deterministic validator finds the deterministic item at the front of the
   input exactly when there is one (`Det.ValidateDet`), and there is at most one
   (`Det.OnlyItem`).
3. Comparing objects as trees gives the order of their encodings, for every mix
   of constructed and serialized nodes (`Compare.CompareWithDepth`).
4. The cycle-following rotation is the rotation (`Rotation.RotateLeft`), the
   in-place merge sort permutes, sorts and reports exactly the repeated keys
   (`Sort.SortAux`), and the insertion into a serialized map keeps it strictly
   increasing (`MapInsert.RawMapInsert`).
5. Any run of insertions, in any order, ends with the bytes of the map that
   sorting the same entries constructs, and is cut short only by a repeated key
   (`Build.RunIsSorting`); the two ways, called on the same entries, agree
   (`MapRoutes.BuildBothWays`).
6. Whatever the constructors build serializes, and parses back from any longer
   input, to an equal object (`Api.RoundTrip`, `Api.SerializeParseEqual`); and
   deterministic items with the same meaning are the same item
   (`Canonical.DeterministicIsCanonical`), and there is one for every meaning in
   which no map gives a key two values (`Normalize.DeterministicExists`).
7. Constructing and taking apart are inverse to each other, for every kind of
   object (`RoundTrips.Rebuild` and the members beside it), and looking a key up
   in a constructed map finds the very value given with it (`RoundTrips.LookUp`).
8. The definitions come to what the standards say in plain bytes: heads, items,
   shortest forms and key order (`Header.ShortLayout`, `Wire.ItemLayout`,
   `Wire.ShortestBytes`, `Wire.KeysAscend`), what each constructor encodes to
   (`Api.MkInt64` and the members beside it), and UTF-8 (`Utf8.CorrectBytes`,
   `Utf8.CodePointCorrect`).
9. In the C part, copying a record piece by piece and copying it at once accept
   exactly the same memories (`Tlv.ValidateEntry`).  The input is read at
   positions truncated to 32 bits; that the answer is about the position asked
   for is false from 2^32 on, with inputs that show it, and true for all inputs
   below (`Tlv.TlvReadExact`, `Tlv.WrapperReadExact`), as from the position 0
   that the offered check starts from (`Tlv.CheckEntry`).

## Model

| member | source | states |
|---|---|---|
| Machine.U64LteSizet | src/cose/rust/src/cbordetveraux.rs:4895-4908 | The test by repeated quotients is `a <= b` for every 64-bit number and size. |
| Machine.SizetFitsU64 | src/cose/rust/src/cbordetveraux.rs:4871-4878 | Every size of a 64-bit target passes, so the constructors never reject for length. |
| Lex.LexCompareBytes | src/cose/rust/src/cbordetveraux.rs:175-222 | The loop with two indices computes the recursive lexicographic order, a proper prefix being below. |
| Lex.LexZero | src/cose/rust/src/cbordetveraux.rs:175-222 | Comparing gives zero exactly on equal byte sequences. |
| Lex.LexAntisymmetric | src/cose/rust/src/cbordetveraux.rs:175-222 | Swapping the operands negates the sign, which is -1, 0 or 1. |
| Lex.LexTransitive | src/cose/rust/src/cbordetveraux.rs:175-222 | Being below is transitive; with the two rows above, the order is total. |
| Lex.LexFirstDifference | src/cose/rust/src/cbordetveraux.rs:175-222 | `a` is below `b` exactly when it is a proper prefix or has the smaller byte at the first difference. |
| Lex.LexConcat | src/cose/rust/src/cbordetveraux.rs:4165-4704 | If the first parts are prefix-free, concatenations compare part by part; what lets the tree comparison stop early. |
| Utf8.ImplCorrect | src/cose/rust/src/cbordetveraux.rs:377-450 | True exactly when the bytes are a concatenation of encodings of Unicode scalar values. |
| Utf8.StepLengthIsDecode | src/cose/rust/src/cbordetveraux.rs:385-447 | The byte ranges tested at each position accept exactly the bytes that decode to a scalar value without overlong forms, and consume exactly its encoding. |
| Utf8.DecompositionUnique | src/cose/rust/src/cbordetveraux.rs:377-450 | Encoded text splits into scalar values in only one way. |
| Utf8.CorrectBytes | src/cose/rust/src/cbordetveraux.rs:398-440 | In accepted text, byte by byte: never C0, C1 or above F4; ED followed by at most 9F, E0 by at least A0, F0 by at least 90, F4 by at most 8F; and as many continuation bytes as the lead byte asks for. |
| Utf8.CodePointCorrect | src/cose/rust/src/cbordetveraux.rs:377-450 | Every code point in 0 to D7FF or E000 to 10FFFF, written out in the bit layout of section 3 of RFC 3629, is accepted. |
| Utf8.CorrectConcat | src/cose/rust/src/cbordetveraux.rs:377-450 | Accepted texts one after the other are accepted, and so is the empty text. |
| Header.OptimalIsShortest | src/cose/rust/src/cbordetveraux.rs:1382-1391 | The test for shortest form accepts exactly the width chosen on construction, and exactly when no smaller width could hold the value. |
| Header.BigEndianOrder | src/cose/rust/src/cbordetveraux.rs:4072-4076 | Equally wide big-endian numbers order lexicographically as they do numerically. |
| Header.HeadOrder | src/cose/rust/src/cbordetveraux.rs:4072-4076 | The order of the bytes of two heads is major type, then width, then value, as the argument comparison has it. |
| Header.ParseHeadSound | src/cose/rust/src/cbordetveraux.rs:566-758 | What parses as a head is a legal head whose bytes are the ones read. |
| Header.ParseHeadComplete | src/cose/rust/src/cbordetveraux.rs:566-758 | The bytes of every legal head parse to it, whatever follows. |
| Header.HeadPrefixFree | src/cose/rust/src/cbordetveraux.rs:566-758 | No head is a proper prefix of another, and different heads have different bytes. |
| Header.HeadLayout | src/cose/rust/src/cbordetveraux.rs:2689-2835 | The bytes of a head written out: 32 times the major type plus the argument or 24 to 27, then the argument with its most significant byte first. |
| Header.ShortLayout | src/cose/rust/src/cbordetveraux.rs:161-170 | The shortest form written out: one byte below 24, then 2, 3, 5 or 9 bytes below 2^8, 2^16, 2^32 and 2^64, and which bytes. |
| Header.InitialByteByShifts | src/cose/rust/src/cbordetveraux.rs:9-13 | For every byte, the two fields that are read, as quotient and remainder, are the bit fields that the shifts extract. |
| Header.InitialByteByMasks | src/cose/rust/src/cbordetveraux.rs:15-24 | For every two fields, the byte that is written is the one that the masks compose, and reading it gives both fields back. |
| Header.ReadHeaderParses | src/cose/rust/src/cbordetveraux.rs:463-564 | Where a head parses, the straight-line big-endian reads give its header. |
| Header.HeaderOfFields | src/cose/rust/src/cbordetveraux.rs:68-153 | Converting an argument to a header and back gives the same argument, and the casts lose nothing. |
| HeaderIO.ValidateHeader | src/cose/rust/src/cbordetveraux.rs:566-758 | Succeeds exactly when a head parses at the offset, and moves past it. |
| HeaderIO.JumpHeaderParses | src/cose/rust/src/cbordetveraux.rs:760-804 | Where a head parses, jumping by the initial byte alone advances by the length of the head's bytes. |
| HeaderIO.HeaderRoundTrip | src/cose/rust/src/cbordetveraux.rs:463-804 | Over the bytes of any legal head, whatever follows: it parses, is jumped over exactly, and is read back as the header written. |
| HeaderIO.SizeHeader | src/cose/rust/src/cbordetveraux.rs:2837-2904 | Succeeds exactly when the head's bytes fit the budget, and charges exactly their number. |
| HeaderIO.WriteHeader | src/cose/rust/src/cbordetveraux.rs:2689-2835 | Writes exactly the head's bytes at the offset, returns the position after them, changes nothing else. |
| Item.ParseSound | src/cose/rust/src/cbordetveraux.rs:937-1119 | What the grammar parses is well-formed and encodes back to exactly the bytes consumed. |
| Item.ParseComplete | src/cose/rust/src/cbordetveraux.rs:937-1119 | The encoding of any well-formed items, whatever follows, parses to those items and that rest. |
| Item.ParseOne | src/cose/rust/src/cbordetveraux.rs:1375-1380 | An item starts the input exactly when the grammar parses it there. |
| Item.SerPrefixFree | src/cose/rust/src/cbordetveraux.rs:1121-1214 | No encoding is a proper prefix of another, and different items have different encodings. |
| Item.SplitUnique | src/cose/rust/src/cbordetveraux.rs:1121-1214 | A concatenation of a known number of items splits in only one way. |
| Item.RestAdd | src/cose/rust/src/cbordetveraux.rs:937-1119 | Owing `a + b` items is owing `a` and then `b`: one counter is enough for the recursion. |
| Item.FlatStep | src/cose/rust/src/cbordetveraux.rs:937-1119 | One step of the flat walk, a leaf paying for one item and owing its children, keeps what the recursive grammar leaves over. |
| Item.ItemOrder | src/cose/rust/src/cbordetveraux.rs:4165-4704 | Encodings order by major type, then argument, then what follows the head. |
| Item.SequenceOrder | src/cose/rust/src/cbordetveraux.rs:4165-4704 | Concatenated encodings order item by item. |
| Wire.ItemLayout | src/cose/rust/src/cbordetveraux.rs:806-913 | By the first byte of an encoding, with the eight major types as numbers: how many string bytes and how many items follow its head, that text is UTF-8, and which simple values there are. |
| Wire.ShortestBytes | src/cose/rust/src/cbordetveraux.rs:1382-1439 | An argument passes as shortest exactly when its first argument byte is at least 24 in the one-byte form, or the more significant half of its bytes is not all zero in the longer ones. |
| Wire.KeysAscend | src/cose/rust/src/cbordetveraux.rs:1441-1672 | At the first byte in which two keys of a deterministic map differ, the earlier key has the smaller byte. |
| Validator.ValidateRecursiveStepCountLeaf | src/cose/rust/src/cbordetveraux.rs:806-892 | Stores the number of items a leaf owes, or reports that it exceeds the bound; doubling for maps cannot wrap. |
| Validator.ValidateLeaf | src/cose/rust/src/cbordetveraux.rs:952-1065 | Succeeds exactly when a head with its string bytes (text being UTF-8) starts at the offset, and moves past it. |
| Validator.OwedStep | src/cose/rust/src/cbordetveraux.rs:944-1115 | The early rejections (more items owed than bytes left, count above the bound) reject only what the grammar rejects, and the bytes left strictly decrease. |
| Validator.ValidateRawDataItem | src/cose/rust/src/cbordetveraux.rs:937-1119 | Succeeds exactly when the recursive grammar parses one item at the offset, and ends where it ends. |
| Validator.CborValidate | src/cose/rust/src/cbordetveraux.rs:1375-1380 | 0 exactly when no well-formed item starts the input, else the length of the one that does. |
| Validator.JumpRecursiveStepCountLeaf | src/cose/rust/src/cbordetveraux.rs:894-935 | The unchecked count of a leaf is the number of items it owes. |
| Validator.JumpRawDataItem | src/cose/rust/src/cbordetveraux.rs:1121-1214 | On the encoding of an item, whatever follows, lands at its end, in bounds and without wrapping. |
| Raw.ValidAbs | src/cose/rust/src/cbordetveraux.rs:1216-1373 | A valid object, constructed or serialized at any level, stands for a well-formed item. |
| Raw.CborReadItem | src/cose/rust/src/cbordetveraux.rs:1216-1373 | Reading one level of the encoding of an item gives a valid object that stands for that item. |
| Iterator.InitYieldsChildren | src/cose/rust/src/cbordetveraux.rs:2415-2434 | A new array or map iterator has yet to yield exactly the children that the full parse finds, in order, with no bytes after them. |
| Iterator.ArrayItemsLength | src/cose/rust/src/cbordetveraux.rs:2436-2460 | The reported length is the number of items left, and emptiness that there are none. |
| Iterator.TruncateYieldsPrefix | src/cose/rust/src/cbordetveraux.rs:2494-2527 | Truncated to no more than its length, an iterator yields exactly the first `len` items, and the first `len` objects, of the original. |
| Iterator.TruncateBeyond | src/cose/rust/src/cbordetveraux.rs:2239-2242 | A serialized iterator given a greater length, which the code does not check, is usable exactly when the bytes beyond its items hold that many more; never so for a new iterator. |
| Iterator.SerializedNext | src/cose/rust/src/cbordetveraux.rs:2165-2200 | The element yielded is the first item, what is kept is exactly the bytes after it, and the rest parses as before. |
| Iterator.ArrayIteratorNext | src/cose/rust/src/cbordetveraux.rs:2462-2492 | Yields the first item left and leaves the others in order, the bytes beyond them unchanged; the object itself is the first of the elements left. |
| Iterator.RunYieldsElements | src/cose/rust/src/cbordetveraux.rs:2462-2492 | Over any run, the objects yielded are the elements of the first iterator in order, followed by those still left. |
| Iterator.MapSerializedNext | src/cose/rust/src/cbordetveraux.rs:2262-2326 | The key and value yielded are the first two items, and what is kept is exactly the bytes after them. |
| Iterator.MapIteratorNext | src/cose/rust/src/cbordetveraux.rs:2568-2599 | Yields the first entry left and leaves the others in order, the bytes beyond them unchanged; the entry itself is the first of the elements left. |
| Iterator.RunYieldsEntries | src/cose/rust/src/cbordetveraux.rs:2568-2599 | Over any run, the entries yielded are the elements of the first iterator in order, followed by those still left. |
| Iterator.NewMapElements | src/cose/rust/src/cbordetveraux.rs:2529-2549 | The elements of a new iterator are the constructed entries, or the objects that reading the keys and values of the full parse gives. |
| Iterator.IteratorHolds | src/cose/rust/src/cbordetveraux.rs:2138-2326 | A serialized iterator holds exactly the encodings of what it has yet to yield and the bytes beyond; an exhausted one has consumed its payload. |
| Compare.ObjectOrder | src/cose/rust/src/cbordetveraux.rs:4036-4067 | Valid objects order by major type, then argument, then what follows the head. |
| Compare.CompareSerialized | src/cose/rust/src/cbordetveraux.rs:364-371 | Comparing two payloads as bytes orders the children they encode. |
| Compare.CompareArrays | src/cose/rust/src/cbordetveraux.rs:4165-4704 | The loop over two array iterators orders the concatenated encodings of the elements. |
| Compare.CompareMaps | src/cose/rust/src/cbordetveraux.rs:4165-4704 | The loop over two map iterators, key before value, orders the concatenated encodings of the entries. |
| Compare.TaggedPayload | src/cose/rust/src/cbordetveraux.rs:2394-2403 | The object under a tag is valid and stands for the only child. |
| Compare.CompareWithDepth | src/cose/rust/src/cbordetveraux.rs:4165-4704 | For any two valid objects, the result is the lexicographic comparison of their full encodings. |
| Det.CborRawIntsOptimal | src/cose/rust/src/cbordetveraux.rs:1393-1439 | Decides whether the first item's argument is shortest, from its bytes. |
| Det.MapKeyOrder | src/cose/rust/src/cbordetveraux.rs:1441-1445 | The key order is strict lexicographic order of the encodings. |
| Det.CborRawSorted | src/cose/rust/src/cbordetveraux.rs:1447-1672 | Decides whether the first item, if a map, has strictly increasing keys (every pair of keys, not only neighbours). |
| Det.OptimalStep | src/cose/rust/src/cbordetveraux.rs:1712-1798 | Replacing an item by its children keeps whether every argument at every level is shortest. |
| Det.SortedStep | src/cose/rust/src/cbordetveraux.rs:1803-1890 | Replacing an item by its children keeps whether every map at every level is sorted. |
| Det.IntsOptimalPass | src/cose/rust/src/cbordetveraux.rs:1674-1893 | The first pass decides whether all arguments at every nesting level are shortest. |
| Det.SortedPass | src/cose/rust/src/cbordetveraux.rs:1674-1893 | The second pass decides whether all maps at every nesting level are strictly sorted. |
| Det.ValidateDet | src/cose/rust/src/cbordetveraux.rs:1674-1893 | 0 exactly when no deterministic item starts the input, else the length of the one whose encoding is that prefix. |
| Det.OnlyItem | src/cose/rust/src/cbordetveraux.rs:1674-1893 | At most one item starts the input, so the item validated is unique. |
| Canonical.DeterministicIsCanonical | src/cbor/pulse/det/rust/src/cbordet.rs:258-268 | Deterministic items with the same meaning (maps as sets of entries, numbers without widths) are the same item. |
| Normalize.DeterministicExists | src/cbor/pulse/det/rust/src/cbordet.rs:25-38 | A well-formed item has a deterministic item with the same meaning exactly when no map in it, at any level, gives a key two values. |
| Wire.WidthForgotten | src/cbor/pulse/det/rust/src/cbordet.rs:258-268 | Meaning does not depend on the width of an argument. |
| Wire.OrderForgotten | src/cbor/pulse/det/rust/src/cbordet.rs:258-268 | Meaning does not depend on the order of the entries of a map. |
| Rotation.GcdLoop | src/cose/rust/src/cbordetveraux.rs:1981-1996 | The remainder loop ends with the greatest common divisor, by its universal property, with its cofactors and Bezout coefficients. |
| Rotation.StepsNext | src/cose/rust/src/cbordetveraux.rs:2010-2034 | Each step of a cycle stays in its residue class modulo the gcd and advances by one around a cycle of length n/gcd. |
| Rotation.StepsInjective | src/cose/rust/src/cbordetveraux.rs:1996-2041 | No two positions of a residue class are equally far around: the cycles are disjoint and cover the slice. |
| Rotation.RotatedAt | src/cose/rust/src/cbordetveraux.rs:1979-2042 | Position i of the rotated slice holds the old element (i + l) mod n. |
| Rotation.RotateLeft | src/cose/rust/src/cbordetveraux.rs:1979-2042 | The in-place loops terminate and leave the slice rotated left by l, the rest unchanged; also for l = 0 and l = n. |
| Sort.CompareEntries | src/cose/rust/src/cbordetveraux.rs:4714-4715 | Entries compare as the encodings of their keys, equal exactly when these are. |
| Sort.MergeMove | src/cose/rust/src/cbordetveraux.rs:4761-4843 | Moving the lesser head of the right run to the front by a rotation keeps the merge invariant. |
| Sort.Merge | src/cose/rust/src/cbordetveraux.rs:4739-4849 | Merging adjacent increasing runs permutes the slice, succeeds exactly when keys are distinct, and then it is increasing. |
| Sort.IncreasingIsDistinct | src/cose/rust/src/cbordetveraux.rs:4717-4853 | A strictly increasing run has no equal keys. |
| Sort.DistinctPermutation | src/cose/rust/src/cbordetveraux.rs:4717-4853 | Reordering neither makes nor removes equal keys, so a duplicate found midway is one of the input. |
| Sort.SortAux | src/cose/rust/src/cbordetveraux.rs:4717-4853 | Always a permutation of the slice and nothing outside it; true exactly when no two keys are equal, and then strictly increasing. |
| Serializer.EncodingParts | src/cose/rust/src/cbordetveraux.rs:2960-3046 | The header computed for an object is that of its head, and its encoding is the head's bytes, string bytes and children. |
| Serializer.BodyOf | src/cose/rust/src/cbordetveraux.rs:3050-3414 | What follows the head is the string, the stored payload, or the encodings of the constructed parts, case by case. |
| Serializer.EncodingsInOrder | src/cose/rust/src/cbordetveraux.rs:3087-3414 | The encodings of elements follow one another in order, and those of entries key before value. |
| Serializer.Siz | src/cose/rust/src/cbordetveraux.rs:3416-3774 | Succeeds exactly when the whole encoding fits the budget, and charges its exact length; the shallow constructed tag case is unreachable. |
| Serializer.Write | src/cose/rust/src/cbordetveraux.rs:3087-3414 | Writes exactly the encoding at the offset, returns the position after it, changes nothing else; the shallow constructed tag case is unreachable. |
| Serializer.CborSize | src/cose/rust/src/cbordetveraux.rs:3782-3794 | The exact length of the encoding when it fits the bound, 0 otherwise. |
| Serializer.CborSerialize | src/cose/rust/src/cbordetveraux.rs:3776-3780 | Writes exactly the encoding at the front and leaves the bytes after it. |
| MapInsert.InsertPermutation | src/cose/rust/src/cbordetveraux.rs:1944-2060 | An insertion adds exactly the one entry. |
| MapInsert.InsertOrdered | src/cose/rust/src/cbordetveraux.rs:1944-2060 | Inserting a new key keeps the run strictly increasing. |
| MapInsert.SearchStep | src/cose/rust/src/cbordetveraux.rs:1952-2051 | The outcome of one key comparison decides: go on, key present, or this is the place and the key is absent from all the run. |
| MapInsert.OrderedSetUnique | src/cose/rust/src/cbordetveraux.rs:1944-2060 | Strictly increasing runs with the same members are the same run. |
| MapInsert.SerPairsInjective | src/cose/rust/src/cbordetveraux.rs:1944-2060 | The bytes of a run are those of one run only. |
| MapInsert.RawMapInsert | src/cose/rust/src/cbordetveraux.rs:1944-2060 | True exactly when the key is new, and then the slice holds the strictly increasing run with the entry in its place; otherwise the slice is unchanged. Bytes after the slice never change. |
| Build.SerializeArray | src/cose/rust/src/cbordetveraux.rs:3804-3880 | The payload in [0, off) becomes head and payload when the head fits, else 0 and the buffer is unchanged; if the payload was the encodings of that many items, the buffer starts with the encoding of their array. |
| Build.SerializeString | src/cose/rust/src/cbordetveraux.rs:3882-3956 | The same for a string payload, whose length is the argument; unless it is text that is not UTF-8, the buffer starts with the encoding of that string. |
| Build.SerializeMap | src/cose/rust/src/cbordetveraux.rs:3958-4034 | The same for a map payload; if it was the encodings of that many keys and values, the buffer starts with the encoding of their map. |
| Build.SerializeTag | src/cose/rust/src/cbordetveraux.rs:3796-3802 | Writes exactly the head of a tag at the front when it fits, else 0 and the buffer is unchanged; any item encoded after that head completes a tagged item. |
| Build.InsertAllSorts | src/cose/rust/src/cbordetveraux.rs:1944-2060 | Inserting entries one by one succeeds exactly when keys are distinct, and gives a strictly increasing run of exactly those entries. |
| Build.InsertionOrderIrrelevant | src/cose/rust/src/cbordetver.rs:569-570 | The order in which entries are inserted changes neither the outcome nor the run. |
| Build.RunInsertsAll | src/cose/rust/src/cbordetver.rs:569-570 | After any run of successful insertions from an empty buffer, the buffer holds the run of all entries inserted. |
| Build.InsertingIsSorting | src/cose/rust/src/cbordetver.rs:214-253 | Inserting and prepending the head gives the encoding of the map that sorting constructs; each way reports a repeated key exactly when the other does. |
| Build.RunIsSorting | src/cose/rust/src/cbordetver.rs:569-576 | Over whole runs of buffers: a complete run ends with the payload of the sorted map; a rejected run means that sorting finds a repeated key. |
| MapRoutes.InsertEntries | src/cose/rust/src/cbordetver.rs:569-570 | Serializing all entries in any order and inserting each into the run before it: the run of all entries, or a repeated key, or no room only when the encodings do not fit. |
| MapRoutes.BuildBothWays | src/cose/rust/src/cbordetver.rs:214-253 | On the same entries and with room for them, inserting and prepending the head reports a repeated key exactly when the sorting constructor does, and otherwise writes exactly the encoding of the object it constructs. |
| Api.Parse | src/cose/rust/src/cbordetver.rs:21-44 | Returns the deterministic object at the front and exactly the bytes after it, or nothing exactly when there is none. |
| Api.Size | src/cose/rust/src/cbordetver.rs:53-57 | The exact length of the encoding, or nothing exactly when it exceeds the bound. |
| Api.Serialize | src/cose/rust/src/cbordetver.rs:59-73 | Writes exactly the encoding when it fits and touches nothing past it; otherwise changes nothing. What the encoding is in plain bytes is stated by each constructor below. |
| Api.RoundTrip | src/cbor/pulse/det/rust/src/cbordet.rs:25-50 | Parsing the encoding of a deterministic object followed by any suffix gives that suffix and an object for the same item. |
| Api.SerializeParseEqual | src/cbor/pulse/det/rust/tests/unit.rs:6-24 | For every deterministic object and large enough buffer: serialize, parse, compare gives equal. |
| Api.Equal | src/cose/rust/src/cbordetver.rs:255-260 | True exactly when both stand for the same item, exactly when encodings are equal, and for deterministic objects exactly when meanings are. |
| Api.MkSimpleValue | src/cose/rust/src/cbordetver.rs:82-95 | Nothing exactly for 24 to 31; otherwise a deterministic object encoded as E0 plus the value below 24, and as F8 and the value from 32 on. |
| Api.MkInt64 | src/cose/rust/src/cbordetver.rs:104-120 | A deterministic object for that integer, encoded as the shortest form of major type 0 or, if negative, 1; below 24 as that number or 20 (hexadecimal) plus it. |
| Api.MkString | src/cose/rust/src/cbordetver.rs:131-168 | Rejects exactly text that is not UTF-8; otherwise a deterministic object encoded as the shortest form of the length, of major type 2 for bytes and 3 for text, then those bytes. |
| Api.MkTagged | src/cose/rust/src/cbordetver.rs:170-178 | A tag over a deterministic object is deterministic, encoded as the shortest form of the tag, of major type 6, then that object. |
| Api.MkArray | src/cose/rust/src/cbordetver.rs:190-212 | An array of deterministic objects is deterministic, with those elements in order, encoded as the shortest form of their number, of major type 4, then the elements. |
| Api.MapIsDet | src/cose/rust/src/cbordetver.rs:214-253 | A map of deterministic entries in increasing key order is deterministic. |
| Api.MkMap | src/cose/rust/src/cbordetver.rs:214-253 | Sorts the entries in place; rejects exactly a repeated key; otherwise a deterministic map of exactly those entries, encoded as the shortest form of their number, of major type 5, then the sorted entries. |
| Access.Destruct | src/cose/rust/src/cbordetver.rs:291-371 | The view has the right kind, its parts are those of the item, the object under a constructed tag is the one it was given, and the object under any tag is deterministic again. |
| RoundTrips.DestructInt64 | src/cose/rust/src/cbordetver.rs:104-120 | Taking apart what the integer constructor made gives back kind and number. |
| RoundTrips.DestructString | src/cose/rust/src/cbordetver.rs:131-168 | Taking apart what the string constructor made gives back kind and bytes. |
| RoundTrips.DestructTagged | src/cose/rust/src/cbordetver.rs:170-178 | Taking apart what the tag constructor made gives back the tag and the very object under it. |
| RoundTrips.DestructSimpleValue | src/cose/rust/src/cbordetver.rs:82-95 | Taking apart what the simple value constructor made gives back the value. |
| RoundTrips.Rebuild | src/cose/rust/src/cbordetver.rs:291-371 | For every deterministic object: taking it apart and calling the constructor of its kind on the parts gives an object that compares equal. |
| Access.GetArrayLength | src/cose/rust/src/cbordetver.rs:373-386 | The number of elements that the full parse finds. |
| Access.SerializedArrayItem | src/cose/rust/src/cbordetveraux.rs:2065-2136 | Jumping over i items reads the i-th item of the recursive parse, as the object that reading its encoding gives. |
| Access.ArrayItem | src/cose/rust/src/cbordetveraux.rs:2405-2413 | The i-th element of either representation stands for the i-th child, and is the very object that any run of a new iterator yields as its i-th. |
| Access.GetArrayItem | src/cose/rust/src/cbordetver.rs:423-435 | Nothing exactly when the index is out of range; otherwise that deterministic element. |
| Access.StopHere | src/cose/rust/src/cbordetver.rs:505-530 | In a sorted map, past a key above the target no entry can have the target key. |
| Access.MapGet | src/cose/rust/src/cbordetver.rs:487-548 | The early-stopping lookup finds nothing exactly when no entry has the key; a hit is the very value of an entry, among those a new iterator yields, whose key stands for the one looked up; for either representation. |
| RoundTrips.LookUp | src/cose/rust/src/cbordetver.rs:487-548 | In a map constructed from entries in any order, looking up a key that was given finds the very value given with it, and looking up any other key finds nothing. |
| Iterator.ElementsStandFor | src/cose/rust/src/cbordetveraux.rs:2529-2549 | The entries of a new iterator stand, in order, for the keys and values of the map. |
| Tlv.ValidateUnion | doc/3d-snapshot/SpecializeDep1.c:9-105 | Succeeds exactly when an element of the width the tag selects fits and the position after it is not an error code, ending there. |
| Tlv.RecordLayout | doc/3d-snapshot/SpecializeDep1.c:183-354 | A record written out: a tag, the length as two bytes with the less significant first and two zero bytes, and a payload of that length, even for tag 1 and a multiple of four for tags from 2 on. |
| Tlv.ValidatePayload | doc/3d-snapshot/SpecializeDep1.c:279-335 | The payload loop succeeds exactly when whole elements of the width the tag selects fill the payload, and ends there. |
| Tlv.ValidateTlv | doc/3d-snapshot/SpecializeDep1.c:183-354 | Succeeds exactly when the code reads a record with the given length, its tag and length being read at positions truncated to 32 bits, ending at 5 + Len after it; from a position below 2^32 - 1, exactly when such a record, written out in bytes, is there. |
| Tlv.TlvReadHigh | doc/3d-snapshot/SpecializeDep1.c:242-261 | From position 2^32 - 1 on, an input for which the truncated reads reject a record that is there. |
| Tlv.TlvReadExact | doc/3d-snapshot/SpecializeDep1.c:242-261 | The truncated reads recognise exactly the records at a position, for all inputs, if and only if the position is below 2^32 - 1. |
| Tlv.Probe.CopyBytes | doc/3d-snapshot/SpecializeDep1.c:108-127 | Copies and moves both offsets when both ranges are in bounds; otherwise sets the failure flag and changes nothing else. |
| Tlv.Probe.ProbeUnion | doc/3d-snapshot/SpecializeDep1.c:130-180 | The same for one element of the width the tag selects. |
| Tlv.Probe.ProbePayload | doc/3d-snapshot/SpecializeDep1.c:431-460 | The byte-budget loop succeeds exactly when all of it can be copied and the budget is a whole number of elements, having copied exactly that many bytes. |
| Tlv.Probe.ProbeTlv | doc/3d-snapshot/SpecializeDep1.c:357-461 | Succeeds exactly when nothing failed before, 5 + Len bytes can be copied and Len is a multiple of the element width, having copied exactly those bytes and nothing else. |
| Tlv.Probe.ProbeWhole | doc/3d-snapshot/SpecializeDep1.c:810-849 | Copies as many bytes as announced at once exactly when nothing failed before and both ranges are in bounds; otherwise moves and changes nothing. |
| Tlv.AcceptCopy | doc/3d-snapshot/SpecializeDep1.c:560-599 | Accepts exactly when the copy did not fail and holds a record. |
| Tlv.WrapperReadHigh | doc/3d-snapshot/SpecializeDep1.c:541-541 | From position 2^32 on, an input and two memories: one where the truncated load of the pointer misses a record, one where it finds a record that the pointer at the position does not name. |
| Tlv.WrapperReadExact | doc/3d-snapshot/SpecializeDep1.c:704-705 | The truncated load recognises exactly the wrappers at a position, for all inputs and memories, if and only if the position is below 2^32 (or all 32-bit pointers convert to one address). |
| Tlv.PointerLayout | doc/3d-snapshot/SpecializeDep1.c:541-541 | A pointer of four or eight bytes written out, the least significant byte first. |
| Tlv.ValidateWrapper | doc/3d-snapshot/SpecializeDep1.c:464-639 | Accepts, ending after the pointer, exactly when there is room for a header, the eight-byte pointer is in the input, the buffer was initialised, and a record of the announced length is at the address loaded; the buffer is then that record. Below 2^32 the address loaded is the one at the position. |
| Tlv.ValidateSpecializedWrapper32 | doc/3d-snapshot/SpecializeDep1.c:642-807 | The same with a four-byte pointer: copying part by part accepts exactly what copying at once accepts. |
| Tlv.ValidateEntry | doc/3d-snapshot/SpecializeDep1.c:852-930 | Both kinds of requestor get the same answer about the memory that the pointer loaded names. |
| Tlv.CheckEntry | doc/3d-snapshot/SpecializeDep1Wrapper.c:29-45 | From position 0 of fewer than 2^32 bytes: accepts exactly the inputs that start with the pointer to a record of the announced length, and then the buffer is what is at that pointer, written out in bytes. |

## Left out

- Narrower targets: `usize` has 64 bits here; the truncations that the code makes on smaller targets are not modelled.
- The permission-reset copies and the `_with_depth` duplicates, whose bodies repeat those of the functions modelled.
- The five inlined copies of the rotation are one method, `Rotation.RotateLeft`; likewise the argument of a header, the leaf of the validator, the first pair and loop of the sortedness check, and the two passes of the deterministic validator, which the code writes in line, are methods of their own.
- Slices: a sub-slice of a mutable buffer is a pair of offsets into the array, a read-only slice is a sequence; how slices alias is not modelled. One-element cells that no call receives are local variables.
- Ghost parameters: several methods take the item or head at the front of their input as a ghost argument. It is determined by the bytes and stands for what the caller has validated.
- Iterator.ArrayIteratorTruncate: a slice is truncated to no more than its length; beyond it the code stops with a panic.
- The cases that `Serializer.Write` and `Serializer.Siz` prove unreachable (an object with constructed parts that is a string, a serialized payload or a leaf, and a constructed tag without one) have no statements of their own.
- Machine.SizetFitsU64: always true with 64-bit sizes, so the rejection of longer inputs by the constructors is dead here.
- Stack depth: the documented bounds on stack space are not modelled, except that the walks are loops.
- The safe Rust wrapper `cbordet.rs`, lifetimes, the map length and map entry accessors, and the constructor of a map entry, which would only add easy members.
- The crate for non-deterministic CBOR and the COSE layer, which rest on code that is not part of this model.
- Error handlers of the C part: a result is a position or nothing.
- Tlv.ValidateEntry: the environment of the C part is a parameter. A memory gives the bytes readable from an address, and the conversion of 32-bit pointers is any function; a copy succeeds exactly when both ranges are in bounds, and a failed one leaves the destination unchanged; the buffer has the announced length, and whether initialising it succeeded is given.
- Error codes: a position with one of its four high bits set is an error (`src/3d/prelude/EverParse3d.ErrorCode.fst:9-23`); which error it is is not modelled.
- The branch of the entry point for a requestor that is neither 32-bit nor 64-bit, which a boolean excludes.
- `MapRoutes` and `RoundTrips` are not functions of the code but clients of it: they call its functions one after the other on the same data.
- The other validators of the C snapshots, mostly straight-line bounds checks.
