/** The region registry (ArenaManager) and the scoped allocator
    (ArenaAllocator) of Arena/Arena.h and Arena/Arena.cpp, as classes whose
    methods update the arena table and the backing buffer in place. Each
    mutating method is specified by the functions of module Frames. */
module Arenas {
  import opened Footer
  import opened Alignment
  import opened Frames

  /** Sum of the capacities of a run of arenas. */
  function SumCapacity(s: seq<Arena>): nat
  {
    if s == [] then 0 else s[0].capacity + SumCapacity(s[1..])
  }

  /** Sum of the bytes in use of a run of bounded arenas. */
  function SumUsed(s: seq<Arena>): nat
    requires forall i :: 0 <= i < |s| ==> Bounded(s[i])
  {
    if s == [] then 0 else Used(s[0]) + SumUsed(s[1..])
  }

  /** Sum of the bytes still free of a run of bounded arenas. */
  function SumRemaining(s: seq<Arena>): nat
    requires forall i :: 0 <= i < |s| ==> Bounded(s[i])
  {
    if s == [] then 0 else Remaining(s[0]) + SumRemaining(s[1..])
  }

  /** Over all arenas, what is used and what is free make up the capacity. */
  lemma {:induction false} UsedPlusRemaining(s: seq<Arena>)
    requires forall i :: 0 <= i < |s| ==> Bounded(s[i])
    ensures SumUsed(s) + SumRemaining(s) == SumCapacity(s)
  {
    if s != [] {
      UsedPlusRemaining(s[1..]);
    }
  }

  /** The arenas' capacities are the configured ones, so they add up to the
      configured total. */
  lemma {:induction false} CapacitiesMatchConfig(s: seq<Arena>, config: seq<nat>)
    requires |s| == |config| && forall i :: 0 <= i < |s| ==> s[i].capacity == config[i]
    ensures SumCapacity(s) == Sum(config)
  {
    if s != [] {
      CapacitiesMatchConfig(s[1..], config[1..]);
    }
  }

  /** Extending a prefix by one arena adds that arena to the running sums
      kept by TotalUsed and TotalFree. */
  lemma {:induction false} SumsAppend(s: seq<Arena>, a: Arena)
    requires (forall i :: 0 <= i < |s| ==> Bounded(s[i])) && Bounded(a)
    ensures SumUsed(s + [a]) == SumUsed(s) + Used(a)
    ensures SumRemaining(s + [a]) == SumRemaining(s) + Remaining(a)
  {
    if s == [] {
      assert [] + [a] == [a];
    } else {
      assert (s + [a])[1..] == s[1..] + [a];
      SumsAppend(s[1..], a);
    }
  }

  /** Init gives every arena the same `base`, so allocating in one tag can
      overwrite the frames of another. Tag 0 allocates one byte (its footer,
      5, sits at base + 1 .. base + 5); tag 1 then allocates zero bytes, and
      its footer, 4, lands at base .. base + 4. Tag 0's newest footer now
      reads 0: its frames are no longer a stack, and a Free on tag 0 leaves
      `top` where it is. */
  lemma SharedBaseCorruptsFrames(mem: seq<byte>, origin: nat, c0: nat, c1: nat)
    requires 5 <= c0 <= |mem| && 4 <= c1 <= |mem| && c0 + 5 < UINT32_LIMIT && c1 + 4 < UINT32_LIMIT
    ensures var o0 := AllocateFrame(Arena(origin, origin, c0), mem, origin, 1, 1);
      var o1 := AllocateFrame(Arena(origin, origin, c1), o0.mem, origin, 0, 1);
      o0.result == Address(origin) && o1.result == Address(origin) &&
      o0.arena.top == origin + 5 && WellFramed(o0.mem, origin, origin, origin + 5) &&
      ReadFooter(o1.mem, origin, origin + 5) == 0 && !WellFramed(o1.mem, origin, origin, origin + 5) &&
      FreeFrame(o0.arena, o1.mem, origin) == o0.arena
  {
    var a0, a1 := Arena(origin, origin, c0), Arena(origin, origin, c1);
    var m1 := WriteFooter(mem, origin, origin + 1, 5);
    var m2 := WriteFooter(m1, origin, origin, 4);
    UnalignedFrame(a0, mem, origin, 1);
    var o0 := AllocateFrame(a0, mem, origin, 1, 1);
    assert o0.mem == m1 && o0.arena == a0.(top := origin + 5);
    UnalignedFrame(a1, m1, origin, 0);
    var o1 := AllocateFrame(a1, m1, origin, 0, 1);
    assert o1.mem == m2;
    OverlappingFooters(mem, origin);
    assert WellFramed(m1, origin, origin, origin + 5) by {
      assert WellFramed(m1, origin, origin, origin);
    }
    assert FreeFrame(o0.arena, m2, origin) == o0.arena;
  }

  /** An Allocate with alignment 1 that fits: no padding, so `top` advances
      by `size + 4` and the footer goes right after the payload. */
  lemma UnalignedFrame(a: Arena, mem: seq<byte>, origin: nat, size: nat)
    requires InBuffer(a, origin, |mem|) && AllocateAdmissible(a, size, 1)
    requires Used(a) + size + FOOTER_SIZE <= a.capacity
    ensures AllocateFrame(a, mem, origin, size, 1) ==
      Outcome(a.(top := a.top + size + FOOTER_SIZE), WriteFooter(mem, origin, a.top + size, size + FOOTER_SIZE), Address(a.top))
  {
    assert CalculatePadding(a.top, 1) == 0;
  }

  /** The byte view of SharedBaseCorruptsFrames: a footer 5 written at
      `origin + 1`, then a footer 4 at `origin`, leave zero in the four bytes
      below `origin + 5`. */
  lemma OverlappingFooters(mem: seq<byte>, origin: nat)
    requires 5 <= |mem|
    ensures var m1 := WriteFooter(mem, origin, origin + 1, 5);
      ReadFooter(m1, origin, origin + 5) == 5 &&
      ReadFooter(WriteFooter(m1, origin, origin, 4), origin, origin + 5) == 0
  {
    var m1 := WriteFooter(mem, origin, origin + 1, 5);
    var m2 := WriteFooter(m1, origin, origin, 4);
    assert Encode(4) == [4, 0, 0, 0] && Encode(5) == [5, 0, 0, 0];
    assert m1 == mem[..1] + Encode(5) + mem[5..];
    assert m1[4] == 0;
    assert m2 == m1[..0] + Encode(4) + m1[4..];
    assert m2[1..5] == [0, 0, 0, 0];
  }

  /** ArenaManager: one Arena_t per tag, all over one backing buffer.
      `config` is the static `(name, capacity)` list of ArenaDeclarations.h,
      reduced to the capacities; tags are its indices 0 .. COUNT - 1. */
  class ArenaManager {
    /** The per-tag capacities the arenas were configured with. */
    const config: seq<nat>
    /** _arenas, indexed by tag. */
    const arenas: array<Arena>
    /** The backing buffer that _base points to. */
    const memory: array<byte>
    /** _base: the address of memory[0]. */
    const baseAddress: nat
    /** _capacity: the size of the backing buffer. */
    const capacity: nat

    /** The registry invariant. Every arena starts at `baseAddress`, because
        Init never advances its offset, and stays within its configured
        capacity, which the backing buffer covers. */
    ghost predicate Valid()
      reads this, arenas
    {
      arenas.Length == |config| &&
      capacity == Sum(config) && memory.Length == capacity &&
      forall i :: 0 <= i < arenas.Length ==>
        arenas[i].base == baseAddress && arenas[i].capacity == config[i] &&
        InBuffer(arenas[i], baseAddress, memory.Length)
    }

    /** The number of tags, ArenaTag_e::COUNT. */
    function Count(): nat
    {
      |config|
    }

    /** ArenaManager::Init: set every arena's capacity from the configuration,
        sum them into one buffer, and set every arena's `base` and `top` to
        the start of that buffer (`offset` stays 0). `bufferAddress` is the
        address new[] returns for the buffer. */
    constructor Init(config: seq<nat>, bufferAddress: nat)
      ensures Valid() && fresh(arenas) && fresh(memory)
      ensures this.config == config && baseAddress == bufferAddress
      ensures capacity == Sum(config)
      ensures forall i :: 0 <= i < |config| ==> arenas[i] == Arena(bufferAddress, bufferAddress, config[i])
    {
      var count := |config|;
      var table := new Arena[count];
      var offset := 0;
      var total := 0;
      for i := 0 to count
        invariant total == Sum(config[..i])
        invariant forall j :: 0 <= j < i ==> table[j] == Arena(0, 0, config[j])
      {
        table[i] := Arena(0, 0, config[i]);
        total := total + config[i];
        assert config[..i + 1] == config[..i] + [config[i]];
        SumAppend(config[..i], config[i]);
      }
      assert config[..count] == config;
      var buffer := new byte[total];
      forall j | 0 <= j < count ensures config[j] <= total {
        SumAtLeastElement(config, j);
      }
      for i := 0 to count
        invariant forall j :: 0 <= j < i ==> table[j] == Arena(bufferAddress + offset, bufferAddress + offset, config[j])
        invariant forall j :: i <= j < count ==> table[j] == Arena(0, 0, config[j])
      {
        table[i] := table[i].(base := bufferAddress + offset, top := bufferAddress + offset);
      }
      this.config := config;
      arenas := table;
      memory := buffer;
      baseAddress := bufferAddress;
      capacity := total;
    }

    /** ArenaManager::Capacity: the tag's configured capacity. */
    function Capacity(tag: nat): (r: nat)
      reads this, arenas
      requires Valid() && tag < Count()
      ensures r == config[tag]
    {
      arenas[tag].capacity
    }

    /** ArenaManager::TotalCapacity: the size of the backing buffer, which is
        the sum of the arenas' capacities. */
    function TotalCapacity(): (r: nat)
      reads this, arenas
      requires Valid()
      ensures r == SumCapacity(arenas[..])
    {
      CapacitiesMatchConfig(arenas[..], config);
      capacity
    }

    /** ArenaManager::Used: top - base. */
    function Used(tag: nat): (r: nat)
      reads this, arenas
      requires Valid() && tag < Count()
      ensures r <= Capacity(tag)
    {
      arenas[tag].top - arenas[tag].base
    }

    /** ArenaManager::Free: capacity - Used; with Used, it makes up the capacity. */
    function Free(tag: nat): (r: nat)
      reads this, arenas
      requires Valid() && tag < Count()
      ensures Used(tag) + r == Capacity(tag)
    {
      arenas[tag].capacity - Used(tag)
    }

    /** ArenaManager::TotalUsed: a running sum of Used over all tags. */
    method TotalUsed() returns (totalUsed: nat)
      requires Valid()
      ensures totalUsed == SumUsed(arenas[..])
    {
      totalUsed := 0;
      for i := 0 to arenas.Length
        invariant totalUsed == SumUsed(arenas[..i])
      {
        assert arenas[..i + 1] == arenas[..i] + [arenas[i]];
        SumsAppend(arenas[..i], arenas[i]);
        totalUsed := totalUsed + Used(i);
      }
      assert arenas[..arenas.Length] == arenas[..];
    }

    /** ArenaManager::TotalFree: a running sum of Free over all tags. */
    method TotalFree() returns (totalFree: nat)
      requires Valid()
      ensures totalFree == SumRemaining(arenas[..])
      ensures totalFree + SumUsed(arenas[..]) == TotalCapacity()
    {
      totalFree := 0;
      for i := 0 to arenas.Length
        invariant totalFree == SumRemaining(arenas[..i])
      {
        assert arenas[..i + 1] == arenas[..i] + [arenas[i]];
        SumsAppend(arenas[..i], arenas[i]);
        totalFree := totalFree + Free(i);
      }
      assert arenas[..arenas.Length] == arenas[..];
      UsedPlusRemaining(arenas[..]);
    }
  }

  /** An element of a sequence of counts is at most its sum. */
  lemma {:induction false} SumAtLeastElement(s: seq<nat>, i: nat)
    requires i < |s|
    ensures s[i] <= Sum(s)
  {
    if i > 0 {
      SumAtLeastElement(s[1..], i - 1);
    }
  }

  /** ArenaAllocator: a scope bound to one arena. Construction remembers the
      arena's `top`; destruction puts it back. */
  class ArenaAllocator {
    /** _tag; const, so the allocator stays bound to one arena. */
    const tag: nat
    /** The registry whose arenas[tag] is *_arena. */
    const manager: ArenaManager
    /** _oldTop: the arena's `top` when the scope was opened. */
    var oldTop: nat

    ghost predicate Valid()
      reads this, manager, manager.arenas
    {
      manager.Valid() && tag < manager.Count() &&
      manager.baseAddress <= oldTop <= manager.baseAddress + manager.config[tag]
    }

    /** The arena this allocator works in, *_arena. */
    function Arena(): Frames.Arena
      reads this, manager, manager.arenas
      requires Valid()
    {
      manager.arenas[tag]
    }

    /** ArenaAllocator(tag): bind to the tag's arena and snapshot its `top`. */
    constructor (manager: ArenaManager, tag: nat)
      requires manager.Valid() && tag < manager.Count()
      ensures Valid() && this.manager == manager && this.tag == tag
      ensures oldTop == manager.arenas[tag].top
    {
      this.tag := tag;
      this.manager := manager;
      oldTop := manager.arenas[tag].top;
    }

    /** ~ArenaAllocator: put the arena's `top` back where it was when this
        scope was opened, whatever was allocated or freed meanwhile. */
    method Destroy()
      requires Valid()
      modifies manager.arenas
      ensures Valid()
      ensures manager.arenas[..] == old(manager.arenas[..])[tag := old(Arena()).(top := oldTop)]
    {
      manager.arenas[tag] := manager.arenas[tag].(top := oldTop);
    }

    /** ArenaAllocator::Allocate(size, alignment = 4): one step of AllocateFrame
        on this arena and the backing buffer. */
    method Allocate(size: nat, alignment: nat := 4) returns (p: Pointer)
      requires Valid() && AllocateAdmissible(Arena(), size, alignment)
      modifies manager.arenas, manager.memory
      ensures Valid()
      ensures var o := AllocateFrame(old(Arena()), old(manager.memory[..]), manager.baseAddress, size, alignment);
        manager.arenas[..] == old(manager.arenas[..])[tag := o.arena] &&
        manager.memory[..] == o.mem && p == o.result
    {
      var arena := manager.arenas[tag];
      var base := arena.top;
      var padding := CalculatePadding(base, alignment);
      var alignedBase := base + padding;
      var allocationSize := padding + size + FOOTER_SIZE;
      var requiredCapacity := (arena.top - arena.base) + allocationSize;
      if requiredCapacity > arena.capacity {
        return Null;
      }
      manager.arenas[tag] := arena.(top := arena.top + allocationSize);
      var sizePtr := alignedBase + size;
      StoreFooter(manager.memory, sizePtr - manager.baseAddress, allocationSize);
      p := Address(alignedBase);
    }

    /** ArenaAllocator::Free(ptr = nullptr): one step of FreeFrame on this
        arena. `ptr` takes no part in locating the frame. */
    method Free(ptr: Pointer := Null)
      requires Valid() && FreeAdmissible(Arena(), manager.memory[..], manager.baseAddress)
      modifies manager.arenas
      ensures Valid()
      ensures manager.arenas[..] == old(manager.arenas[..])[tag := FreeFrame(old(Arena()), manager.memory[..], manager.baseAddress)]
    {
      var arena := manager.arenas[tag];
      var at := arena.top - FOOTER_SIZE - manager.baseAddress;
      var allocationSize := Decode(manager.memory[at .. at + FOOTER_SIZE]);
      var prevTop := arena.top - allocationSize;
      assert arena.base <= prevTop;
      manager.arenas[tag] := arena.(top := prevTop);
    }

    /** The frame walk of ArenaAllocator::DumpArena: from `top` down to `base`,
        the size of every open frame, newest first. */
    method DumpArena() returns (frames: seq<nat>)
      requires Valid()
      requires WellFramed(manager.memory[..], manager.baseAddress, Arena().base, Arena().top)
      ensures frames == FrameSizes(manager.memory[..], manager.baseAddress, Arena().base, Arena().top)
      ensures Sum(frames) == manager.Used(tag)
    {
      var arena := manager.arenas[tag];
      frames := WalkFrames(manager.memory[..], manager.baseAddress, arena.base, arena.top);
    }
  }

  /** The loop of DumpArena: walk `frameTop` down from `top` to `base`, one
      footer at a time, collecting the frame sizes. */
  method WalkFrames(mem: seq<byte>, origin: nat, base: nat, top: nat) returns (frames: seq<nat>)
    requires WellFramed(mem, origin, base, top)
    ensures frames == FrameSizes(mem, origin, base, top)
    ensures Sum(frames) == top - base
  {
    var frameTop: nat := top;
    frames := [];
    while frameTop > base
      invariant WellFramed(mem, origin, base, frameTop)
      invariant frames + FrameSizes(mem, origin, base, frameTop) == FrameSizes(mem, origin, base, top)
      decreases frameTop
    {
      PopFrame(mem, origin, base, frameTop);
      var allocationSize := ReadFooter(mem, origin, frameTop);
      var frameBottom := frameTop - allocationSize;
      ghost var below := FrameSizes(mem, origin, base, frameBottom);
      assert (frames + [allocationSize]) + below == frames + ([allocationSize] + below);
      frames := frames + [allocationSize];
      frameTop := frameBottom;
    }
    FrameSizesSum(mem, origin, base, top);
  }

  /** `*(uint32_t*) (buffer + at) = v`: four bytes of the buffer become the
      footer `v`, and nothing else changes. */
  method StoreFooter(buffer: array<byte>, at: nat, v: nat)
    requires at + FOOTER_SIZE <= buffer.Length && v < UINT32_LIMIT
    modifies buffer
    ensures buffer[..] == old(buffer[..])[..at] + Encode(v) + old(buffer[..])[at + FOOTER_SIZE..]
  {
    var bytes := Encode(v);
    buffer[at] := bytes[0];
    buffer[at + 1] := bytes[1];
    buffer[at + 2] := bytes[2];
    buffer[at + 3] := bytes[3];
    assert buffer[..] == old(buffer[..])[..at] + bytes + old(buffer[..])[at + FOOTER_SIZE..];
  }
}
