# StringTable and RingBuffer, modelled in Dafny

Two small in-memory containers of a C++ utility library are modelled here.

- **StringTable** is an append-only byte arena. `addStr` copies a byte string onto
  the tail of its `data` vector, optionally followed by a 0 byte. It returns the
  old size as the string's offset. `addTable` appends another table's bytes,
  `setChar` overwrites one byte, and `getStr` gives read access from an offset on.
- **CachingStringTable** is a StringTable with an interning cache from string
  contents to offsets. The cache is used only when the call is 0-terminated and the
  arena is empty or already ends in a 0 byte. In that case a string already cached
  is not stored again and its first offset is returned.
- **RingBuffer<T>** is a fixed-capacity circular buffer. Its fields are the storage
  `data`, the write cursor `ptr` and the logical length `len`. Logical index `i`
  lives in slot `(ptr + C - len + i) % C`. `add` overwrites the oldest element once
  the buffer is full. It also has `get`, `last`, `clear`, `initTo`, equality and a
  forward iterator.

Files and modules:

- `byte_arena.dfy`, module `ByteArena`: the arena on values. It holds the bytes an
  `addStr` call names (`InputBytes`, with `StrLen` for `std::strlen`), the arena
  after an append (`Appended`), and the C string read back from an offset
  (`CStringAt`). It also holds one step of the caching table (`Intern`) and the
  cache invariant (`CacheValid`), with the lemmas about them.
- `string_table.dfy`, module `StringTables`: the classes `StringTable` (the `data`
  field is a `seq<byte>` the methods reassign) and `CachingStringTable`. Each
  method's `ensures` ties the new state to the functions of `ByteArena`.
- `ring_index.dfy`, module `RingIndex`: the index arithmetic on values. It holds
  `Slot`, the logical contents `Logical`, the last `c` elements `Window`, and
  `Replay`, the contents after a series of adds.
- `ring_buffer.dfy`, module `RingBuffers`: the classes `RingBuffer<T>` (over an
  `array<T>`) and `Iterator<T>`, and `Traverse`, a range-for loop over a buffer.

Modelling choices:

- C++ inheritance is modelled by composition. `CachingStringTable.table` is the
  base-class part. The members the caching table inherits unchanged (`size`,
  `getStr`, `setChar`, `addTable`) are calls on that object.
- The pointer arguments of `addStr` become two values. `str` is the memory readable
  from the start pointer on. `strEnd` is the end pointer as an offset from the
  start, or `None` for the default null pointer. `DU_ASSERT(str_end >= str)`
  becomes a precondition, and so does the need for a terminating 0 when `strEnd`
  is omitted.
- `getStr` returns a pointer. It is modelled as the suffix of `data` it gives
  access to, and `CStringAt` is the 0-terminated string a caller reads there.
- Exceptions (`std::runtime_error`) become `Result.Err` / `Outcome.Fail` values
  carrying the source's message.
- `size_t` arithmetic is written out where it matters. In `last()`, `size() - 1`
  wraps to `SIZE_MAX` on an empty buffer (`SizeSub`). Capacity is bounded by
  `PTRDIFF_MAX`, so `ptr + C - len + ind` cannot wrap.

Boundary behaviour of the source:

- `get(len)` passes the bounds check and reads the slot under the write cursor,
  the one after the newest element. When the buffer is full, that is the slot of
  index 0 (the oldest element). Otherwise it lies outside the logical contents.
  See `RingBuffer.Get` and `PastEndSlot`.
- `add` on a zero-capacity buffer throws "ptr out of bounds".
- Changing one added value changes the contents only while that value is still
  among the last `C` added. An evicted value does not affect equality
  (`ReplaySameIff`).
- `Iterator::operator==` compares the two buffers with `RingBuffer::operator==`,
  which is content equality, and then the indices.

## Model

| member | source | states |
|---|---|---|
| `ByteArena.StrLen` | src/comp/StringTable.h:43-44 | the length `strlen` finds is the index of the first 0 byte: that byte is 0 and none before it is |
| `ByteArena.InputBytes` | src/comp/StringTable.h:42-46 | the copied range is a prefix of the readable memory; with an end pointer it has length `str_end - str`; without one it is 0-free and is followed by the 0 byte `strlen` stopped at |
| `ByteArena.Appended` | src/comp/StringTable.h:47-55 | after an append the size grows by `len` or `len + 1`, the old bytes are the prefix, bytes `[off, off+len)` are the input, and a 0 byte follows when `nullTerm` |
| `ByteArena.CStringAt` | src/comp/StringTable.h:64-66 | the string read through `getStr(off)` is 0-free, lies inside `data` from `off` on, and is followed by a 0 byte |
| `ByteArena.ReadBack` | src/comp/StringTable.h:41-57 | appending a 0-free string with its terminator and reading the C string at the returned offset gives exactly that string |
| `ByteArena.PrefixStable` | src/comp/StringTable.h:49-52 | an append leaves every range of the old bytes unchanged |
| `ByteArena.CStringStable` | src/comp/StringTable.h:64-66 | a string readable at an offset still reads the same after any later append (offsets are stable) |
| `ByteArena.FooBarExample` | src/comp/StringTable.h:41-57 | appending "foo" then "bar" to an empty arena puts "bar" at offset 4, and it reads back as "bar" |
| `ByteArena.CacheValid` | src/comp/StringTable.h:174-176 | the cache invariant: every entry `k ↦ off` has `k` followed by a 0 byte at `off` inside `data`, and no two entries share an offset; its contract states that every cached offset lies inside `data` |
| `ByteArena.CachedReadsBack` | src/comp/StringTable.h:174-176 | under the cache invariant, the C string read at the cached offset of a 0-free key is exactly that key |
| `ByteArena.UsesCache` | src/comp/StringTable.h:161 | the cache is used exactly when the call is null-terminated and every offset of the arena already has a 0 byte after it, that is, no string is left open |
| `ByteArena.Intern` | src/comp/StringTable.h:160-179 | one caching `addStr`: the old bytes stay a prefix, existing cache entries keep their offsets, only the key `s` can be added, and the result is either the old size or a cache hit that leaves the state unchanged |
| `ByteArena.EmptyValid` | src/comp/StringTable.h:155-158 | an empty arena with an empty cache, as `clear` leaves it, satisfies the cache invariant |
| `ByteArena.AppendKeepsCacheValid` | src/comp/StringTable.h:69-78 | appending any bytes without touching the cache (`addTable`, a bypassed `addStr`) keeps every cache entry pointing at a terminated copy of its key |
| `ByteArena.SetCharKeepsCacheValid` | src/comp/StringTable.h:60-62 | overwriting a byte outside every cached string and its terminator keeps the cache invariant |
| `ByteArena.InternKeepsCacheValid` | src/comp/StringTable.h:160-179 | every branch of the caching `addStr` (bypass, hit, miss) keeps the cache invariant |
| `ByteArena.InternStores` | src/comp/StringTable.h:169-178 | on the cache path the returned offset holds the string followed by a 0 byte, whether the call hit or missed |
| `ByteArena.BypassIsPlainAppend` | src/comp/StringTable.h:161-163 | when `nullTerm` is false, or the arena's last byte is not 0, the result and new bytes are those of the plain append and the cache is unchanged |
| `ByteArena.HitOrMiss` | src/comp/StringTable.h:169-178 | a hit returns the cached offset and leaves bytes and cache as they were; a miss appends the string with a terminator at the old size and records it under its contents |
| `ByteArena.CachePathStaysOpen` | src/comp/StringTable.h:174-176 | after a call on the cache path the arena ends in 0, so the next terminated call also uses the cache, and the string is cached at the returned offset |
| `ByteArena.InternTwice` | src/comp/StringTable.h:169-178 | interning the same terminated string twice in a row returns the same offset, and the size grows only once, by its length plus one |
| `ByteArena.InternDistinct` | src/comp/StringTable.h:169-178 | interning two different terminated strings one after the other returns two different offsets |
| `ByteArena.AddTableAsWritten` | src/comp/StringTable.h:69-78 | as written, appending another table gives the concatenation, but appending a non-empty table to itself copies past the end of the grown buffer |
| `ByteArena.SelfAddTableOverruns` | src/comp/StringTable.h:71-74 | a one-byte table appended to itself overruns, as written |
| `StringTables.StringTable.constructor` | src/comp/StringTable.h:21-23 | a new table is empty |
| `StringTables.StringTable.Clear` | src/comp/StringTable.h:25-27 | `clear` empties the arena |
| `StringTables.StringTable.Size` | src/comp/StringTable.h:37-39 | the size is the number of bytes stored |
| `StringTables.StringTable.AddStr` | src/comp/StringTable.h:41-58 | returns the old size; the new bytes are the old ones followed by the named range and, if `nullTerm`, a 0 byte; the prefix is unchanged |
| `StringTables.StringTable.SetChar` | src/comp/StringTable.h:60-62 | changes exactly the byte at `off` (which must be inside the arena) to `c` and nothing else |
| `StringTables.StringTable.GetStr` | src/comp/StringTable.h:64-67 | for `off < size()`, gives the non-empty suffix of the arena starting at `off` |
| `StringTables.StringTable.AddTable` | src/comp/StringTable.h:69-78 | returns the old size and leaves `data == old data ++ table.data`; an empty table changes nothing. For a distinct table this is what the source does; for the table appended to itself it is the corrected behaviour of the Findings row, where the source overruns |
| `StringTables.CachingStringTable.constructor` | src/comp/StringTable.h:151-153 | a new caching table has an empty arena and an empty cache, and satisfies the cache invariant |
| `StringTables.CachingStringTable.Clear` | src/comp/StringTable.h:155-158 | `clear` empties both the cache and the arena |
| `StringTables.CachingStringTable.AddStr` | src/comp/StringTable.h:160-179 | the new state and the returned offset are one `Intern` step (bypass, hit or miss); it keeps the cache invariant; on the cache path the offset holds the string and a 0 byte |
| `RingIndex.Slot` | src/ringBuffer.h:70 | the physical slot of a logical index is inside the storage and lies `len - ind` slots behind the write cursor, wrapping past slot 0 |
| `RingIndex.Logical` | src/ringBuffer.h:67-72 | the logical contents have exactly `len` elements |
| `RingIndex.LogicalSegments` | src/ringBuffer.h:70 | the logical contents are the `len` slots just behind the cursor: one segment, or the storage's tail followed by its head when they wrap |
| `RingIndex.Window` | src/ringBuffer.h:83-85 | the window of the elements added keeps `min(|xs|, c)` of them, as `len = min(len+1, size)` does |
| `RingIndex.AddStep` | src/ringBuffer.h:80-86 | writing at the cursor, advancing it modulo `C` and growing the length up to `C` keeps cursor and length in range and turns the contents into the last `C` elements of `old contents ++ [t]` |
| `RingIndex.PastEndSlot` | src/ringBuffer.h:67-72 | index `len` maps to the cursor's slot, which is the slot of index 0 when the buffer is full |
| `RingIndex.ReplayIsWindow` | src/ringBuffer.h:80-86 | adding a sequence of elements leaves the last `C` elements of everything added |
| `RingIndex.ReplayFromEmpty` | src/ringBuffer.h:80-86 | from empty, up to `C` adds leave exactly the added elements in order; after `C + k` adds index 0 holds the `(k+1)`-th element and index `C-1` the latest |
| `RingIndex.ReplayExample` | src/ringBuffer.h:80-86 | capacity 3 with adds of 10, 20, 30, 40 retains 20, 30, 40 |
| `RingIndex.ReplaySameIff` | src/ringBuffer.h:104-112 | two add sequences of equal length leave equal contents exactly when they agree on the last `C` elements |
| `RingBuffers.SizeSub` | src/ringBuffer.h:100-102 | `size_t` subtraction: exact when it does not underflow, otherwise wraps modulo 2^64 |
| `RingBuffers.RingBuffer.constructor` | src/ringBuffer.h:57-59 | a new buffer has capacity `size_`, length 0, cursor 0 and empty contents |
| `RingBuffers.RingBuffer.InitTo` | src/ringBuffer.h:61-65 | every physical slot becomes `v`; cursor and length are unchanged, so every retained element reads as `v` |
| `RingBuffers.RingBuffer.Get` | src/ringBuffer.h:67-72 | fails with the index error exactly when `ind > len`; below `len` gives the logical element; at `len` gives the cursor's slot, which is index 0 when full |
| `RingBuffers.RingBuffer.Add` | src/ringBuffer.h:80-86 | fails with "ptr out of bounds" exactly for capacity 0 and changes nothing; otherwise writes at the cursor, keeps cursor and length in range, sets length to `min(len+1, C)`, contents to the last `C` of `old ++ [t]`, and `last() == t` |
| `RingBuffers.RingBuffer.Size` | src/ringBuffer.h:88-90 | the size is the logical length and never exceeds the capacity |
| `RingBuffers.RingBuffer.SizeMax` | src/ringBuffer.h:91-93 | the capacity is the storage size |
| `RingBuffers.RingBuffer.Clear` | src/ringBuffer.h:95-98 | length and cursor become 0, contents become empty, storage is untouched |
| `RingBuffers.RingBuffer.Last` | src/ringBuffer.h:100-102 | fails with the index error exactly on an empty buffer; otherwise gives the newest element |
| `RingBuffers.RingBuffer.Equals` | src/ringBuffer.h:104-112 | true exactly when lengths and capacities agree and `get(i)` agrees for every `i < len`, which is the same as equal logical contents |
| `RingBuffers.RingBuffer.Begin` | src/ringBuffer.h:114-116 | a new iterator on this buffer at index 0 |
| `RingBuffers.RingBuffer.End` | src/ringBuffer.h:117-119 | a new iterator on this buffer at index `len` |
| `RingBuffers.Iterator.constructor` | src/ringBuffer.h:28-30 | an iterator holds its buffer and index |
| `RingBuffers.Iterator.Deref` | src/ringBuffer.h:32-34 | dereferencing gives `get(ind)`: the logical element below `len`, an error above it |
| `RingBuffers.Iterator.Next` | src/ringBuffer.h:39-42 | `++` advances the index by one |
| `RingBuffers.Iterator.Equals` | src/ringBuffer.h:49-54 | iterators are equal exactly when their buffers compare equal and their indices agree |
| `RingBuffers.Traverse` | src/ringBuffer.h:114-125 | iterating from `begin()` until `end()` visits `get(0), ..., get(len-1)` in order, that is, the logical contents |

## Findings

| source | as written | input that shows it | evidently intended | confidence | as-written member | corrected member |
|---|---|---|---|---|---|---|
| src/comp/StringTable.h:69-78 | `addTable` grows `data` by `table.data.size()` read before the resize, then copies `table.data.size()` bytes read after it | `t.addTable(t)` on a table holding one byte: the buffer grows to 2 bytes but 2 bytes are copied to offset 1 | append one copy of the table's bytes as they were before the call | not executed; the overrun follows from the order of the reads, though self-append may never happen in practice | `ByteArena.AddTableAsWritten` | `StringTables.StringTable.AddTable` |

## Left out

- The disabled second `StringTable` (the `#else` branch of `#if 1`) is dead code.
- `shrinkToFit` and `reserve` only change allocation capacity, not contents.
- Cache keys are owned byte sequences compared by content. In the source a key is a
  `std::string_view` into `data`, and a later growth of `data` may reallocate it and
  leave the key dangling. That aliasing is not modelled.
- `StringTables.StringTable.AddStr`: takes the bytes to copy as a value fixed
  before the call. In the source, `addStr` may be given a pointer into the table's
  own `data` (such as one from `getStr`). The resize may then reallocate `data`,
  and `memcpy` reads freed memory. That aliasing is not modelled.
- The base `StringTable::clear` is not virtual, so it can be called on a
  `CachingStringTable` (in the model, `table.Clear()`). It empties `data` and
  leaves the cache entries stale. The model does not promise the cache invariant
  after such a call; only `CachingStringTable.Clear` empties both.
- The cache is a Dafny `map`; the hashing of `std::unordered_map` is not modelled.
- `setChar` on a caching table is not guarded by the source and can break the cache
  invariant. The model states only that a write outside every cached string keeps
  it (`SetCharKeepsCacheValid`). `CachingStringTable.AddStr` promises the invariant
  only if it held before the call.
- `std::memcpy` and `&data[0]` are modelled as sequence concatenation.
  `DU_ASSERT` (from `DataUtils.h`, which is not part of this model) is a
  precondition.
- Arena sizes beyond 2^64 bytes are not modelled, so `size_t` overflow in `addStr`
  cannot happen. Allocation failure (`std::bad_alloc`) is not modelled either.
- The iterator's type members, `operator->` and post-increment are not modelled.
  The const and non-const variants are one model.
- Writes through the `T&` references returned by `get`, `last` and `operator*` are
  not modelled; those results are values.
- Iterator invalidation by `add` or `clear` is not modelled.
- `RingBuffers.RingBuffer.Get`: requires a non-zero capacity whenever `ind <= len`,
  because the source then computes `% 0`, which is undefined behaviour.
- `RingBuffers.RingBuffer.constructor`: does not state that the slots hold `T`'s
  value-initialised default, because that value has no name in Dafny (the slots
  hold Dafny's default for `T`). The constructor requires a capacity up to
  `PTRDIFF_MAX`; a larger one makes `std::vector` throw, which is not modelled.
- `T::operator==` is Dafny's equality on `T`.
