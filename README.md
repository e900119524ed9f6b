# Arena allocator: a verified Dafny model

This project models the tagged bump ("arena") allocator of the
Arena-Allocator repository (`Arena/Arena.h`, `Arena/Arena.cpp`,
`Arena/Main.cpp`), and proves properties of that model.

`ArenaManager` is a registry of one `Arena_t {base, top, capacity}` per tag.
All the arenas sit over one backing buffer. `ArenaAllocator` is a scope bound
to one tag:
- its constructor snapshots the arena's `top`, and its destructor puts it back;
- `Allocate(size, alignment = 4)` pushes a frame laid out as
  `[padding][payload][4-byte size footer]`;
- `Free(ptr = nullptr)` reads the footer below `top` and pops that frame;
- `DumpArena` walks the frames from `top` down to `base`.

The model has five modules:

- `Footer` (footer.dfy): the uint32 footer as four bytes. The code only reads
  back what it wrote, so the fixed little-endian order is faithful. Proved:
  `Decode(Encode(x)) == x` and `Encode(Decode(b)) == b`.
- `Alignment` (alignment.dfy): `CalculatePadding`, computed as the source
  does, through an unbounded bitwise AND with `alignment - 1`. It is proved
  to be
  - the remainder for power-of-two alignments;
  - the least offset that aligns the address;
  - unchanged by the source's `(uint32_t)` cast of the address.
- `Frames` (frames.dfy): the frame protocol on values. It covers Allocate,
  Free and the frame stack (`WellFramed`, `FrameSizes`), and proves:
  - the full success/failure behaviour of one Allocate;
  - that a Free undoes the Allocate before it;
  - that N allocations followed by N frees give back the arena.
- `Arenas` (arenas.dfy): `ArenaManager` and `ArenaAllocator` as classes.
  - The arena table is an `array<Arena>` and the buffer an `array<byte>`,
    both updated in place.
  - Allocate and Free are specified by the functions of `Frames`.
  - `TotalUsed`, `TotalFree`, `Init` and the DumpArena walk keep the
    source's loops, with invariants.
- `Client` (client.dfy): the two clients in `Main.cpp`, as verified scenario
  methods.
  - **`main`'s five allocations and five frees.** These leave the frame stack
    as it was, so the walk in DumpArena then finds no frames.
  - **The recursive `binaryDepthTest`.**
    - Every return path leaves every arena as it found it.
    - `*data` gains exactly the call count, modulo 256.
    - That count is computed in closed form: a full binary tree, cut off where
      the arena runs out.

Addresses are unbounded naturals. `base` and `top` are absolute addresses,
as the source's pointers are. `memory[0]` lies at `baseAddress`, the address
`new[]` returned, which is a parameter of `Init`. Padding depends on that
address, so the alignment arithmetic works as in the source.

The code is followed where it differs from a richer design:
- `Init` never advances its `offset` (Arena/Arena.cpp:34, 45-48), so every
  arena has `base == _base`. The model's invariant says exactly that, and the
  regions are not claimed to be disjoint.
- There is no persist flag and no check of the active scope. `Free` checks
  only `base <= prevTop`.

## Model

| member | source | states |
|---|---|---|
| Footer.DecodeEncode | Arena/Arena.cpp:154-156 | Reading back a footer gives the frame size that was stored, for every uint32 value. |
| Footer.EncodeDecode | Arena/Arena.cpp:172 | Every four-byte pattern is the encoding of the value it decodes to, so the codec is a bijection between uint32 values and footers. |
| Alignment.MaskIsRemainder | Arena/Arena.cpp:121-122 | For a power-of-two alignment, `addr & (alignment - 1)` equals `addr % alignment`. |
| Alignment.CalculatePadding | Arena/Arena.cpp:119-124 | The padding is below the alignment and makes `addr + padding` a multiple of it. The padding is zero exactly when `addr` is already aligned. |
| Alignment.PaddingAligns | Arena/Arena.cpp:122-123 | The misalignment the mask yields is the remainder, and the non-zero branch `alignment - misalignment` reaches a multiple of the alignment. |
| Alignment.PaddingIsMinimal | Arena/Arena.cpp:119-124 | No offset smaller than the padding aligns `addr`: the padding is the least one. |
| Alignment.TruncationKeepsPadding | Arena/Arena.cpp:122 | The cast of the pointer to uint32_t does not change the padding for any power-of-two uint32 alignment. |
| Alignment.PowerDivides | Arena/Arena.cpp:122 | A power of two divides every larger power of two, so 2^32 is a multiple of every alignment. |
| Alignment.Uint32RangeIsPowerOfTwo | Arena/Arena.cpp:122 | 2^32, the modulus of the uint32_t cast, is a power of two. |
| Frames.Remaining | Arena/Arena.cpp:91-94 | Used plus Free equals the capacity of a bounded arena. |
| Frames.WriteFooter | Arena/Arena.cpp:154-156 | Storing a footer keeps the buffer length and every byte outside the four footer bytes, and the footer then reads back as the stored value. |
| Frames.AllocateFrame | Arena/Arena.cpp:126-165 | Allocate keeps the arena inside its buffer, keeps `base` and `capacity`, and keeps the buffer length. |
| Frames.AllocateFailure | Arena/Arena.cpp:142-147 | Allocate returns null exactly when `Used + padding + size + 4 > capacity`. In that case the arena and the buffer are unchanged, because the test comes before any write. |
| Frames.AllocateSuccess | Arena/Arena.cpp:137-164 | On success the result is the old `top + padding`, a multiple of the alignment, and the new `top` is the old `top + padding + size + 4`. The payload ends at `top - 4`, the footer there holds the frame size, and every other byte is unchanged. |
| Frames.ExactFitSucceeds | Arena/Arena.cpp:144 | The test is a strict `>`, so a frame that exactly fills what is left succeeds and leaves nothing free. |
| Frames.FreeFrame | Arena/Arena.cpp:167-178 | Free keeps the arena inside its buffer, keeps `base` and `capacity`, and never raises `top`. |
| Frames.FreeAfterAllocate | Arena/Arena.cpp:172-177 | Free right after a successful Allocate is admissible, because the footer leads to a top not below `base`, and it restores the arena exactly. |
| Frames.FrameSizesSum | Arena/Arena.cpp:194-203 | The frame sizes the walk reports add up to `top - base`. Each is at least the footer size, and there are none exactly when `top == base`. |
| Frames.FramesLocal | Arena/Arena.cpp:194-203 | The frame stack between two addresses depends only on the bytes between them. |
| Frames.AllocatePushesFrame | Arena/Arena.cpp:150-156 | A successful Allocate pushes exactly its own frame size on the frame stack and keeps the frames below it. |
| Frames.PushAfterWrite | Arena/Arena.cpp:154-156 | A footer written at the new top that leads down to the old top extends the frame stack by one frame, whatever other bytes the write left untouched. |
| Frames.PopFrame | Arena/Arena.cpp:197-202 | A non-empty frame stack has a footer at `top - 4` whose size leads to the well-formed stack below. |
| Frames.FreePopsFrame | Arena/Arena.cpp:172-177 | On a non-empty frame stack, Free is admissible and pops exactly the newest frame. |
| Frames.RequestAdmissible | Arena/Arena.cpp:142-143 | A request that fits the uint32 arithmetic for the capacity is admissible in every bounded state of the arena, whatever its padding. |
| Frames.AllocateEach | Arena/Main.cpp:19-23 | A run of Allocate calls keeps the arena inside its buffer, keeps `base` and `capacity`, and returns one pointer per request. |
| Frames.AllocateEachPushes | Arena/Main.cpp:19-23 | A run of N successful allocations pushes exactly N frames on top of the frames that were there. |
| Frames.FirstPushes | Arena/Main.cpp:19 | In a run of successful allocations the first one succeeds, pushes its frame, and the rest of the run has no null result. |
| Frames.FreeEachPops | Arena/Main.cpp:25-29 | N frees on a stack of at least N frames never fault and pop exactly N frames. |
| Frames.AllocateThenFreeRestores | Arena/Main.cpp:19-29 | N successful allocations followed by N frees give back the arena exactly as it was. |
| Arenas.SharedBaseCorruptsFrames | Arena/Arena.cpp:45-48 | Because every arena gets the same `base`, an `Allocate(1, 1)` in one tag followed by an `Allocate(0, 1)` in another leaves the first tag's newest footer reading 0. The first tag's bytes are then no frame stack, and its Free leaves `top` where it was. |
| Arenas.OverlappingFooters | Arena/Arena.cpp:154-156 | A footer 5 stored one byte above the base, then a footer 4 stored at the base, leave 0 in the four bytes below base + 5. |
| Arenas.UnalignedFrame | Arena/Arena.cpp:137-156 | With alignment 1 there is no padding: a fitting Allocate returns `top`, advances it by `size + 4` and stores `size + 4` right after the payload. |
| Arenas.UsedPlusRemaining | Arena/Arena.cpp:80-105 | Summed over all tags, Used plus Free equals the total capacity. |
| Arenas.CapacitiesMatchConfig | Arena/Arena.cpp:37-42 | Arenas whose capacities are the configured ones sum to the configured total. |
| Arenas.SumsAppend | Arena/Arena.cpp:83-86 | Adding one arena to a prefix adds its Used and its Free to the running sums. |
| Arenas.ArenaManager.Init | Arena/Arena.cpp:31-48 | After Init, arena `i` is `{base = top = _base, capacity = config[i]}`, so Used is 0 and every arena shares `_base`. `_capacity` is the sum of the configured capacities. There is one arena per tag `0..COUNT-1`. |
| Arenas.ArenaManager.Capacity | Arena/Arena.cpp:62-66 | The tag's capacity is the one it was configured with. |
| Arenas.ArenaManager.TotalCapacity | Arena/Arena.cpp:68-72 | `_capacity` equals the sum of the capacities of all arenas. |
| Arenas.ArenaManager.Used | Arena/Arena.cpp:74-78 | Used never exceeds the tag's capacity. |
| Arenas.ArenaManager.Free | Arena/Arena.cpp:91-94 | Used plus Free equals the tag's capacity. |
| Arenas.ArenaManager.TotalUsed | Arena/Arena.cpp:80-89 | The loop returns the sum of Used over all tags. |
| Arenas.ArenaManager.TotalFree | Arena/Arena.cpp:96-105 | The loop returns the sum of Free over all tags, and with TotalUsed it makes up TotalCapacity. |
| Arenas.SumAtLeastElement | Arena/Arena.cpp:40-43 | Each configured capacity is at most the total, so every arena fits in the backing buffer. |
| Arenas.ArenaAllocator.constructor | Arena/Arena.cpp:107-112 | The allocator is bound to the tag's arena, and `_oldTop` is that arena's `top` at construction. |
| Arenas.ArenaAllocator.Destroy | Arena/Arena.cpp:114-117 | The destructor sets the arena's `top` back to `_oldTop`, whatever happened in between. No other arena and no other field changes. |
| Arenas.ArenaAllocator.Allocate | Arena/Arena.cpp:126-165 | In place, the arena table and the buffer become what AllocateFrame gives, and only this tag's arena changes. The alignment defaults to 4 (Arena.h:79). |
| Arenas.ArenaAllocator.Free | Arena/Arena.cpp:167-178 | In place, this tag's arena becomes what FreeFrame gives. The result does not depend on `ptr`, which defaults to null (Arena.h:82). |
| Arenas.ArenaAllocator.DumpArena | Arena/Arena.cpp:194-203 | The walk returns the newest-first frame sizes, which add up to Used. |
| Arenas.WalkFrames | Arena/Arena.cpp:194-203 | The `frameTop` loop collects exactly FrameSizes, and their sum is `top - base`. |
| Arenas.StoreFooter | Arena/Arena.cpp:154-156 | The store through `uint32_t*` replaces exactly four bytes with the encoded size. |
| Client.UnitFrame | Arena/Main.cpp:50-51 | `Allocate(1, 1)` takes exactly 5 bytes: padding 0, one payload byte and the footer. It fails exactly when fewer than 5 bytes are left, and on success returns the old `top` and writes only the footer. |
| Client.AllocateUnit | Arena/Main.cpp:50-51 | One `Allocate(1, 1)` in place: null exactly when fewer than 5 bytes are free, and then nothing changes. Otherwise it returns the old `top`, `top` advances by 5, and only the footer bytes are written. |
| Client.AllocateChildren | Arena/Main.cpp:50-53 | Both child allocations succeed exactly when 10 bytes are free, at the old `top` and 5 bytes above it. Only `top` moves, and no byte below the old `top` is written. |
| Client.TreeCount | Arena/Main.cpp:41-63 | The count a call adds to `*data` is `2^(levels+1) - 1` modulo 256, where `levels = min(depth, free / 10)`. |
| Client.WrapAdd | Arena/Main.cpp:46-62 | The three wrapping `+=` on the uint8_t `*data` add up to one wrapping add of the call's count. |
| Client.BinaryDepthTest | Arena/Main.cpp:41-63 | On every return path every arena is as at entry, because of the destructor. `*data` gains exactly the call count modulo 256: 1 at depth 0 or when a child allocation fails. No byte below the entry `top` changes except `*data`, and at depth 0 no byte of the buffer other than `*data` changes at all: the call allocates nothing. |
| Client.VisitChildren | Arena/Main.cpp:55-59 | After zeroing both child cells and recursing into each, both cells hold the child count and the arenas are unchanged. No other byte below `top` changes. |
| Client.AllocateOnStack | Arena/Main.cpp:19-23 | An Allocate that fits even with the worst padding returns an aligned pointer and pushes its frame size on the frame stack. Only this arena's `top` moves. |
| Client.FreeOnStack | Arena/Main.cpp:25-29 | A Free on a non-empty stack pops its newest frame, whatever `ptr` is. |
| Client.AllocateFive | Arena/Main.cpp:19-23 | With 61 bytes free, the five allocations all succeed, pointers 2 to 5 are aligned to 2, 4, 8 and 16, and five frames go on the frame stack. |
| Client.FreeFive | Arena/Main.cpp:25-29 | The five frees, the last with `ptr1`, pop exactly five frames. |
| Client.DumpTest | Arena/Main.cpp:18-32 | The scope's walk finds exactly the frames the arena held before the scope, adding up to its Used at entry. Every pointer is non-null and aligned, and on leaving the scope every arena is as before. |
| Client.RunMain | Arena/Main.cpp:8-35 | After Init, the DumpTest scope's frame walk finds no frames: the five frees undo the five allocations. |

## Left out

- Console and process I/O: the `std::cout` output of `DumpArena` is left out, since only its frame walk is modelled. So are `std::system("pause")` and the return code of `main`.
- The singleton `ArenaManager::instance()` and its static storage: the registry is an explicit `ArenaManager` object passed to each allocator.
- `NoCopyAssign` is left out because copy suppression has no behaviour.
- `GetName` and the tag names are left out, as they are only used for printing.
- `new[]`/`delete[]` and `Deinit`: the buffer is a fresh Dafny array, and allocation failure of the buffer is not modelled.
- The fresh buffer's bytes are unconstrained in the model, as the bytes of `new uint8_t[]` are indeterminate.
- Arena/ArenaDeclarations.h is not part of this model. The per-tag capacities are the `config` parameter of `Init`, and tags are its indices.
- `ArenaManager::DumpArena` is declared (Arena/Arena.h:60) but never defined, so there is nothing to model.
- The persist flag and the active-scope check do not exist in the code (Arena/Arena.h:11 lists them as TODO), so they are not modelled.
- Frames.AllocateAdmissible: `size_t` and `uint32_t` overflow of `allocationSize` and `requiredCapacity` is excluded by preconditions. Addresses and totals are otherwise unbounded.
- Frames.AllocateAdmissible: the alignment must be a power of two. The source accepts any uint32 alignment, but 0 fails its `assert(padding < alignment)` (Arena/Arena.cpp:158) and other non-powers give unaligned padding. Every caller in the source passes a power of two.
- Frames.FreeAdmissible: the `assert(_arena->base <= prevTop)` of Free is a precondition, rather than an abort. So is the existence of a footer below `top`, since Free with `top == base` reads outside the arena.
- Client.BinaryDepthTest: the recursion writes through `uint8_t*`, modelled as a cell of an array, which is either the backing buffer or a caller's local. The two child cells are passed as buffer indices.
- Client.BinaryDepthTest: the body is split across AllocateChildren and VisitChildren, and its early returns leave through the same `Destroy` as its normal exit. The commented-out call from `main` is not modelled.
- Client.DumpTest: requires 61 free bytes, the space the five frames take with the worst padding, whatever the address of `top`: 15 payload bytes, 20 footer bytes and at most 0 + 1 + 3 + 7 + 15 padding bytes. With a well-aligned `top` less is enough (41 bytes from a multiple of 16); the model does not state that tighter bound. It also requires a capacity small enough for the uint32 arithmetic.
- Client.RunMain: requires the DumpTest capacity to be at least 61, the worst-padding bound of Client.DumpTest; the bound the source really needs depends on the buffer address. The capacity comes from the configuration, which is not part of this model.
- Arenas.ArenaAllocator.DumpArena: the frame walk is modelled only on a well-formed frame stack (`WellFramed`). The source walks any chain of footers: it ends on any chain of positive sizes and never ends on a zero footer. Because all arenas share `_base`, one tag's allocations can overwrite another tag's footers and make such a chain (Arenas.SharedBaseCorruptsFrames); the walk on such a stack is not modelled.
- Arenas.WalkFrames: the same restriction to well-formed frame stacks as DumpArena.
- The unused pointers the source keeps are returned by DumpTest only so that their non-null and alignment facts can be stated.
