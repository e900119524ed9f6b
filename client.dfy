/** The two clients of Arena/Main.cpp, as scenarios over the classes of
    module Arenas: the allocate/free sequence of `main` on the DumpTest
    arena, and the recursive `binaryDepthTest` on the RecursiveTest arena. */
module Client {
  import opened Footer
  import opened Alignment
  import opened Frames
  import opened Arenas

  /** 2 to the power `n`. */
  function Pow2(n: nat): (r: nat)
    ensures r >= 1
  {
    if n == 0 then 1 else 2 * Pow2(n - 1)
  }

  function Min(x: nat, y: nat): nat
  {
    if x <= y then x else y
  }

  /** Allocate(1, 1) takes exactly five bytes: alignment 1 needs no padding,
      then one payload byte and the four-byte footer. It succeeds exactly
      when five bytes are left, returns the old `top`, and writes no byte
      below the footer. */
  lemma UnitFrame(a: Arena, mem: seq<byte>, origin: nat)
    requires InBuffer(a, origin, |mem|) && AllocateAdmissible(a, 1, 1)
    ensures FrameSize(a.top, 1, 1) == 5
    ensures var r := AllocateFrame(a, mem, origin, 1, 1);
      (r.result == Null <==> Remaining(a) < 5) &&
      (r.result == Null ==> r.arena == a && r.mem == mem) &&
      (r.result != Null ==>
         r.result == Address(a.top) && r.arena == a.(top := a.top + 5) &&
         forall j :: 0 <= j < |mem| && !(a.top + 1 - origin <= j < a.top + 5 - origin) ==> r.mem[j] == mem[j])
  {
    AllocateFailure(a, mem, origin, 1, 1);
    if Remaining(a) >= 5 {
      AllocateSuccess(a, mem, origin, 1, 1);
    }
  }

  /** What one binaryDepthTest(depth, data) call adds to `*data`, when its
      arena has `free` bytes left: 1 for itself, and, when it goes on and both
      ten bytes of child cells fit, the counts of its two children, which see
      the same arena (the first child's scope is closed before the second
      opens). `*data` is a uint8_t, so every addition wraps modulo 256. */
  function DepthCount(depth: nat, free: nat): byte
  {
    if depth == 0 || free < 10 then 1
    else
      var c := DepthCount(depth - 1, free - 10);
      AddU8(AddU8(1, c), c)
  }

  /** `x += y` on a uint8_t. */
  function AddU8(x: byte, y: nat): byte
  {
    (x + y) % 256
  }

  /** Adding a multiple of 256 does not change a uint8_t. */
  lemma ModAddMultiple(y: nat, q: nat)
    ensures (y + 256 * q) % 256 == y % 256
  {
    DivModUnique(y + 256 * q, 256, y / 256 + q, y % 256);
  }

  /** The recursion visits a full binary tree truncated where the arena runs
      out: it descends `Min(depth, free / 10)` levels, since each level takes
      ten bytes, so it counts 2^(levels + 1) - 1 calls, modulo 256. */
  lemma {:induction false} TreeCount(depth: nat, free: nat)
    ensures DepthCount(depth, free) == (Pow2(Min(depth, free / 10) + 1) - 1) % 256
  {
    if depth == 0 || free < 10 {
      assert Min(depth, free / 10) == 0;
    } else {
      var levels := Min(depth - 1, (free - 10) / 10);
      assert Min(depth, free / 10) == levels + 1;
      TreeCount(depth - 1, free - 10);
      var x := Pow2(levels + 1) - 1;
      var c := DepthCount(depth - 1, free - 10);
      assert c == x % 256;
      assert DepthCount(depth, free) == ((1 + c) % 256 + c) % 256;
      ModAdd(1 + c, c);
      assert x == 256 * (x / 256) + c;
      ModAddMultiple(1 + 2 * c, 2 * (x / 256));
      assert Pow2(levels + 2) - 1 == 1 + 2 * c + 256 * (2 * (x / 256));
    }
  }

  /** The three wrapping `+=` of binaryDepthTest add up to one wrapping add
      of the call's count. */
  lemma WrapAdd(x: byte, c: byte)
    ensures AddU8(AddU8(AddU8(x, 1), c), c) == AddU8(x, AddU8(AddU8(1, c), c))
  {
    ModAdd(x + 1, c);
    ModAdd(x + 1 + c, c);
    ModAdd(1 + c, c);
    ModAdd(1 + 2 * c, x);
  }

  /** Reducing a summand modulo 256 first does not change a wrapping sum. */
  lemma ModAdd(a: nat, b: nat)
    ensures (a % 256 + b) % 256 == (a + b) % 256
  {
    assert a + b == (a % 256 + b) + 256 * (a / 256);
    ModAddMultiple(a % 256 + b, a / 256);
  }

  /** binaryDepthTest(depth, data): `cell[index]` is `*data`. It may be a
      byte of the backing buffer (a child cell of the caller's frame, below
      `top`) or a byte outside it (the caller's local). The call adds its
      count DepthCount modulo 256, writes no byte of the buffer below the
      `top` it started from other than `*data`, and on every return path
      leaves every arena as it found it, through the destructor. At depth 0
      it allocates nothing and writes no byte but `*data`. */
  method BinaryDepthTest(manager: ArenaManager, tag: nat, depth: nat, cell: array<byte>, index: nat)
    requires manager.Valid() && tag < manager.Count()
    requires manager.config[tag] + 5 < UINT32_LIMIT
    requires index < cell.Length
    requires cell == manager.memory ==> manager.baseAddress + index < manager.arenas[tag].top
    modifies manager.arenas, manager.memory, cell
    ensures manager.Valid()
    ensures manager.arenas[..] == old(manager.arenas[..])
    ensures cell[index] == AddU8(old(cell[index]), DepthCount(depth, old(manager.Free(tag))))
    ensures forall j :: 0 <= j < old(manager.arenas[tag].top) - manager.baseAddress && (cell != manager.memory || j != index) ==>
      manager.memory[j] == old(manager.memory[j])
    ensures cell != manager.memory ==> forall j :: 0 <= j < cell.Length && j != index ==> cell[j] == old(cell[j])
    ensures depth == 0 ==> forall j :: 0 <= j < manager.memory.Length && (cell != manager.memory || j != index) ==>
      manager.memory[j] == old(manager.memory[j])
    decreases depth, 0
  {
    var alloc := new ArenaAllocator(manager, tag);
    ghost var free := manager.Free(tag);
    ghost var top := manager.arenas[tag].top;
    ghost var x := cell[index];
    cell[index] := AddU8(cell[index], 1);
    // Both early returns of the source run the destructor, as does the
    // normal exit: all three leave through the Destroy below.
    if depth > 0 {
      var child0, child1 := AllocateChildren(alloc);
      if child0 != Null && child1 != Null {
        ghost var v1 := cell[index];
        ghost var c := DepthCount(depth - 1, free - 10);
        assert manager.Free(tag) == free - 10;
        var count0, count1 := VisitChildren(manager, tag, depth - 1, child0.addr - manager.baseAddress, child1.addr - manager.baseAddress);
        assert cell[index] == v1 && count0 == c && count1 == c;
        cell[index] := AddU8(cell[index], count0);
        cell[index] := AddU8(cell[index], count1);
        WrapAdd(x, c);
      } else {
        assert free < 10;
      }
    }
    assert cell[index] == AddU8(x, DepthCount(depth, free));
    alloc.Destroy();
  }

  /** `alloc.Allocate(1, 1)` as binaryDepthTest uses it, restated through
      UnitFrame: it returns the old `top` and advances it by five when five
      bytes are left, else returns null and changes nothing; it writes only
      the footer bytes above the payload byte. */
  method AllocateUnit(alloc: ArenaAllocator) returns (p: Pointer)
    requires alloc.Valid() && alloc.manager.config[alloc.tag] + 5 < UINT32_LIMIT
    modifies alloc.manager.arenas, alloc.manager.memory
    ensures alloc.Valid()
    ensures p == Null <==> old(Remaining(alloc.Arena())) < 5
    ensures p == Null ==> alloc.manager.arenas[..] == old(alloc.manager.arenas[..]) && alloc.manager.memory[..] == old(alloc.manager.memory[..])
    ensures p != Null ==>
      p == Address(old(alloc.Arena().top)) &&
      alloc.manager.arenas[..] == old(alloc.manager.arenas[..])[alloc.tag := old(alloc.Arena()).(top := old(alloc.Arena().top) + 5)]
    ensures forall j ::
      (0 <= j < alloc.manager.memory.Length &&
       !(old(alloc.Arena().top) + 1 <= alloc.manager.baseAddress + j < old(alloc.Arena().top) + 5)) ==>
      alloc.manager.memory[j] == old(alloc.manager.memory[j])
  {
    UnitFrame(alloc.Arena(), alloc.manager.memory[..], alloc.manager.baseAddress);
    p := alloc.Allocate(1, 1);
  }

  /** The two `alloc.Allocate(1, 1)` calls of binaryDepthTest: both
      succeed exactly when ten bytes are left, and then return the old `top`
      and the address five bytes above it. Only the arena's `top` moves,
      and no byte below the old `top` is written. */
  method AllocateChildren(alloc: ArenaAllocator) returns (child0: Pointer, child1: Pointer)
    requires alloc.Valid() && alloc.manager.config[alloc.tag] + 5 < UINT32_LIMIT
    modifies alloc.manager.arenas, alloc.manager.memory
    ensures alloc.Valid()
    ensures child0 != Null && child1 != Null <==> old(Remaining(alloc.Arena())) >= 10
    ensures child0 != Null && child1 != Null ==>
      child0 == Address(old(alloc.Arena().top)) && child1 == Address(old(alloc.Arena().top) + 5) &&
      alloc.Arena().top == old(alloc.Arena().top) + 10
    ensures alloc.manager.arenas[..] == old(alloc.manager.arenas[..])[alloc.tag := old(alloc.Arena()).(top := alloc.Arena().top)]
    ensures forall j :: 0 <= j < alloc.manager.memory.Length && alloc.manager.baseAddress + j < old(alloc.Arena().top) ==>
      alloc.manager.memory[j] == old(alloc.manager.memory[j])
  {
    child0 := AllocateUnit(alloc);
    child1 := AllocateUnit(alloc);
  }

  /** The part of binaryDepthTest between a successful pair of child
      allocations and the summing: zero both child cells, which lie below
      `top`, and run the recursion on each. Both cells end holding the
      child count, the arenas are as before, and no other byte below `top`
      changes. */
  method VisitChildren(manager: ArenaManager, tag: nat, depth: nat, i0: nat, i1: nat) returns (count0: byte, count1: byte)
    requires manager.Valid() && tag < manager.Count()
    requires manager.config[tag] + 5 < UINT32_LIMIT
    requires i0 != i1
    requires manager.baseAddress + i0 < manager.arenas[tag].top && manager.baseAddress + i1 < manager.arenas[tag].top
    modifies manager.arenas, manager.memory
    ensures manager.Valid()
    ensures manager.arenas[..] == old(manager.arenas[..])
    ensures count0 == manager.memory[i0] == DepthCount(depth, old(manager.Free(tag)))
    ensures count1 == manager.memory[i1] == DepthCount(depth, old(manager.Free(tag)))
    ensures forall j :: 0 <= j < old(manager.arenas[tag].top) - manager.baseAddress && j != i0 && j != i1 ==>
      manager.memory[j] == old(manager.memory[j])
    decreases depth, 1
  {
    ghost var c := DepthCount(depth, manager.Free(tag));
    manager.memory[i0] := 0;
    manager.memory[i1] := 0;
    BinaryDepthTest(manager, tag, depth, manager.memory, i0);
    assert manager.memory[i0] == c && manager.memory[i1] == 0;
    BinaryDepthTest(manager, tag, depth, manager.memory, i1);
    count0 := manager.memory[i0];
    count1 := manager.memory[i1];
  }

  /** The scope state `main` works in: the allocator is valid, the table
      differs from `table` at most in this allocator's arena, and that
      arena's frames are well formed from its `base` up. */
  ghost predicate OnStack(alloc: ArenaAllocator, table: seq<Arena>)
    reads alloc, alloc.manager, alloc.manager.arenas, alloc.manager.memory
  {
    alloc.Valid() && |table| == alloc.manager.arenas.Length &&
    alloc.manager.arenas[..] == table[alloc.tag := alloc.Arena()] &&
    WellFramed(alloc.manager.memory[..], alloc.manager.baseAddress, alloc.Arena().base, alloc.Arena().top)
  }

  /** The sizes of the frames of the allocator's arena, newest first: what
      DumpArena prints. */
  ghost function Stack(alloc: ArenaAllocator, table: seq<Arena>): seq<nat>
    reads alloc, alloc.manager, alloc.manager.arenas, alloc.manager.memory
    requires OnStack(alloc, table)
  {
    FrameSizes(alloc.manager.memory[..], alloc.manager.baseAddress, alloc.Arena().base, alloc.Arena().top)
  }

  /** One Allocate that fits even with the worst padding: the returned
      address is aligned, the new frame goes on top of the frame stack, and
      only this arena's `top` moves, by at most `alignment - 1 + size + 4`. */
  method AllocateOnStack(alloc: ArenaAllocator, size: nat, alignment: nat, ghost table: seq<Arena>) returns (p: Pointer)
    requires OnStack(alloc, table) && RequestFits(alloc.Arena().capacity, Request(size, alignment))
    requires Used(alloc.Arena()) + (alignment - 1) + size + FOOTER_SIZE <= alloc.Arena().capacity
    modifies alloc.manager.arenas, alloc.manager.memory
    ensures OnStack(alloc, table)
    ensures p == Address(old(alloc.Arena().top) + CalculatePadding(old(alloc.Arena().top), alignment))
    ensures p.addr % alignment == 0
    ensures alloc.Arena() == old(alloc.Arena()).(top := old(alloc.Arena().top) + FrameSize(old(alloc.Arena().top), size, alignment))
    ensures alloc.Arena().top <= old(alloc.Arena().top) + (alignment - 1) + size + FOOTER_SIZE
    ensures Stack(alloc, table) == [FrameSize(old(alloc.Arena().top), size, alignment)] + old(Stack(alloc, table))
  {
    RequestAdmissible(alloc.Arena(), Request(size, alignment));
    AllocateSuccess(alloc.Arena(), alloc.manager.memory[..], alloc.manager.baseAddress, size, alignment);
    AllocatePushesFrame(alloc.Arena(), alloc.manager.memory[..], alloc.manager.baseAddress, alloc.Arena().base, size, alignment);
    ghost var before := alloc.Arena();
    p := alloc.Allocate(size, alignment);
    UpdateTwice(table, alloc.tag, before, alloc.Arena());
  }

  /** One Free on a non-empty frame stack pops its newest frame; `ptr` plays
      no part. */
  method FreeOnStack(alloc: ArenaAllocator, ptr: Pointer, ghost table: seq<Arena>)
    requires OnStack(alloc, table) && alloc.Arena().base < alloc.Arena().top
    modifies alloc.manager.arenas
    ensures OnStack(alloc, table)
    ensures alloc.Arena() == old(alloc.Arena()).(top := alloc.Arena().top)
    ensures Stack(alloc, table) == old(Stack(alloc, table))[1..]
  {
    FreePopsFrame(alloc.Arena(), alloc.manager.memory[..], alloc.manager.baseAddress, alloc.Arena().base);
    ghost var before := alloc.Arena();
    alloc.Free(ptr);
    UpdateTwice(table, alloc.tag, before, alloc.Arena());
  }

  /** Writing one arena of the table twice leaves only the second write. */
  lemma UpdateTwice(s: seq<Arena>, i: nat, a: Arena, b: Arena)
    requires i < |s|
    ensures s[i := a][i := b] == s[i := b]
  {
  }

  /** A stack one frame higher than `below`, itself `k` frames above some
      stack, is `k + 1` frames above it. */
  lemma DropPushed(above: seq<nat>, below: seq<nat>, k: nat)
    requires |above| == |below| + 1 && above[1..] == below && k <= |below|
    ensures above[k + 1..] == below[k..]
  {
    assert above[k + 1..] == above[1..][k..];
  }

  /** The five allocations of `main`: sizes 1 to 5 with alignments 1, 2, 4,
      8 and 16. With the worst padding the five frames take at most 61
      bytes, so when that much is free every pointer is non-null and
      aligned, and five frames go on top of the frame stack. */
  method AllocateFive(arena: ArenaAllocator, ghost table: seq<Arena>)
      returns (ptr1: Pointer, ptr2: Pointer, ptr3: Pointer, ptr4: Pointer, ptr5: Pointer)
    requires OnStack(arena, table) && arena.manager.config[arena.tag] + 32 < UINT32_LIMIT
    requires Remaining(arena.Arena()) >= 61
    modifies arena.manager.arenas, arena.manager.memory
    ensures OnStack(arena, table)
    ensures arena.Arena() == old(arena.Arena()).(top := arena.Arena().top)
    ensures ptr1 != Null && ptr2 != Null && ptr3 != Null && ptr4 != Null && ptr5 != Null
    ensures ptr2.addr % 2 == 0 && ptr3.addr % 4 == 0 && ptr4.addr % 8 == 0 && ptr5.addr % 16 == 0
    ensures |Stack(arena, table)| == 5 + |old(Stack(arena, table))| && Stack(arena, table)[5..] == old(Stack(arena, table))
  {
    ghost var s0 := Stack(arena, table);
    ptr1 := AllocateOnStack(arena, 1, 1, table);
    ghost var s1 := Stack(arena, table);
    ptr2 := AllocateOnStack(arena, 2, 2, table);
    ghost var s2 := Stack(arena, table);
    ptr3 := AllocateOnStack(arena, 3, 4, table);
    ghost var s3 := Stack(arena, table);
    ptr4 := AllocateOnStack(arena, 4, 8, table);
    ghost var s4 := Stack(arena, table);
    ptr5 := AllocateOnStack(arena, 5, 16, table);
    ghost var s5 := Stack(arena, table);
    DropPushed(s1, s0, 0);
    DropPushed(s2, s1, 1);
    DropPushed(s3, s2, 2);
    DropPushed(s4, s3, 3);
    DropPushed(s5, s4, 4);
  }

  /** The five Free calls of `main`, the last one given `ptr1`: on a stack
      of at least five frames they pop exactly five. */
  method FreeFive(arena: ArenaAllocator, ptr1: Pointer, ghost table: seq<Arena>)
    requires OnStack(arena, table) && |Stack(arena, table)| >= 5
    modifies arena.manager.arenas
    ensures OnStack(arena, table)
    ensures arena.Arena() == old(arena.Arena()).(top := arena.Arena().top)
    ensures Stack(arena, table) == old(Stack(arena, table))[5..]
  {
    ghost var s0 := Stack(arena, table);
    FrameSizesSum(arena.manager.memory[..], arena.manager.baseAddress, arena.Arena().base, arena.Arena().top);
    FreeOnStack(arena, Null, table);
    FrameSizesSum(arena.manager.memory[..], arena.manager.baseAddress, arena.Arena().base, arena.Arena().top);
    FreeOnStack(arena, Null, table);
    FrameSizesSum(arena.manager.memory[..], arena.manager.baseAddress, arena.Arena().base, arena.Arena().top);
    FreeOnStack(arena, Null, table);
    FrameSizesSum(arena.manager.memory[..], arena.manager.baseAddress, arena.Arena().base, arena.Arena().top);
    FreeOnStack(arena, Null, table);
    FrameSizesSum(arena.manager.memory[..], arena.manager.baseAddress, arena.Arena().base, arena.Arena().top);
    FreeOnStack(arena, ptr1, table);
    assert Stack(arena, table) == s0[1..][1..][1..][1..][1..];
    assert s0[1..][1..][1..][1..][1..] == s0[5..];
  }

  /** The scope of `main` on the DumpTest arena: AllocateFive, FreeFive and
      the frame walk of DumpArena. The walk finds exactly the frames the
      arena held before the scope, and on leaving the scope every arena is
      as it was. */
  method DumpTest(manager: ArenaManager, tag: nat)
      returns (frames: seq<nat>, ptr1: Pointer, ptr2: Pointer, ptr3: Pointer, ptr4: Pointer, ptr5: Pointer)
    requires manager.Valid() && tag < manager.Count()
    requires manager.config[tag] + 32 < UINT32_LIMIT
    requires manager.Free(tag) >= 61
    requires WellFramed(manager.memory[..], manager.baseAddress, manager.arenas[tag].base, manager.arenas[tag].top)
    modifies manager.arenas, manager.memory
    ensures manager.Valid() && manager.arenas[..] == old(manager.arenas[..])
    ensures ptr1 != Null && ptr2 != Null && ptr3 != Null && ptr4 != Null && ptr5 != Null
    ensures ptr2.addr % 2 == 0 && ptr3.addr % 4 == 0 && ptr4.addr % 8 == 0 && ptr5.addr % 16 == 0
    ensures frames == old(FrameSizes(manager.memory[..], manager.baseAddress, manager.arenas[tag].base, manager.arenas[tag].top))
    ensures Sum(frames) == old(manager.Used(tag))
  {
    var arena := new ArenaAllocator(manager, tag);
    ghost var table := manager.arenas[..];
    assert table == table[tag := arena.Arena()];
    FrameSizesSum(manager.memory[..], manager.baseAddress, manager.arenas[tag].base, manager.arenas[tag].top);
    ptr1, ptr2, ptr3, ptr4, ptr5 := AllocateFive(arena, table);
    FreeFive(arena, ptr1, table);
    frames := arena.DumpArena();
    assert arena.Arena() == table[tag];
    arena.Destroy();
    assert manager.arenas[..] == table[tag := table[tag]];
  }

  /** `main`: Init, then the DumpTest scope on a fresh arena. Every arena
      starts empty, so the frame walk at the end of the scope finds no frame
      at all: the five frees undid exactly the five allocations. */
  method RunMain(config: seq<nat>, bufferAddress: nat, dumpTag: nat)
      returns (frames: seq<nat>)
    requires dumpTag < |config|
    requires 61 <= config[dumpTag] && config[dumpTag] + 32 < UINT32_LIMIT
    ensures frames == []
  {
    var manager := new ArenaManager.Init(config, bufferAddress);
    var ptr1, ptr2, ptr3, ptr4, ptr5;
    frames, ptr1, ptr2, ptr3, ptr4, ptr5 := DumpTest(manager, dumpTag);
  }
}
