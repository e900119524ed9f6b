/** The frame protocol of ArenaAllocator::Allocate and ArenaAllocator::Free
    (Arena/Arena.cpp:126-178), stated on values: one arena, the bytes of the
    backing buffer and the address of its first byte. The classes in module
    Arenas perform these steps in place and are specified by these functions.

    A frame is laid out, low to high, as [padding][payload][4-byte footer];
    the footer holds the frame's total size, so the frames of an arena form
    a stack that can be walked down from `top` (ArenaAllocator::DumpArena). */
module Frames {
  import opened Footer
  import opened Alignment

  /** Arena_t: `base` and `top` are addresses, `capacity` a byte count. */
  datatype Arena = Arena(base: nat, top: nat, capacity: nat)

  /** The `void*` Allocate returns: null, or the address of the payload. */
  datatype Pointer = Null | Address(addr: nat)

  datatype Option<T> = None | Some(value: T)

  /** The region invariant: base <= top <= base + capacity. */
  predicate Bounded(a: Arena)
  {
    a.base <= a.top <= a.base + a.capacity
  }

  /** The arena lies within a buffer of `size` bytes whose first byte is at
      address `origin`. */
  predicate InBuffer(a: Arena, origin: nat, size: nat)
  {
    Bounded(a) && origin <= a.base && a.base + a.capacity <= origin + size
  }

  /** ArenaManager::Used: top - base. */
  function Used(a: Arena): nat
    requires Bounded(a)
  {
    a.top - a.base
  }

  /** ArenaManager::Free: the bytes left, capacity - Used. */
  function Remaining(a: Arena): (r: nat)
    requires Bounded(a)
    ensures Used(a) + r == a.capacity
  {
    a.capacity - Used(a)
  }

  /** Sum of a sequence of byte counts. */
  function Sum(s: seq<nat>): nat
  {
    if s == [] then 0 else s[0] + Sum(s[1..])
  }

  /** Adding one more count at the end adds it to the sum: the step of every
      running-sum loop. */
  lemma {:induction false} SumAppend(s: seq<nat>, x: nat)
    ensures Sum(s + [x]) == Sum(s) + x
  {
    if s == [] {
      assert [] + [x] == [x];
    } else {
      assert (s + [x])[1..] == s[1..] + [x];
      SumAppend(s[1..], x);
    }
  }

  /** Bytes one frame takes above `top`: padding, payload and footer
      (allocationSize, Arena/Arena.cpp:142). */
  function FrameSize(top: nat, size: nat, alignment: nat): nat
    requires IsPowerOfTwo(alignment)
  {
    CalculatePadding(top, alignment) + size + FOOTER_SIZE
  }

  /** The uint32 footer that ends just below address `end`. */
  function ReadFooter(mem: seq<byte>, origin: nat, end: nat): nat
    requires origin + FOOTER_SIZE <= end <= origin + |mem|
  {
    Decode(mem[end - FOOTER_SIZE - origin .. end - origin])
  }

  /** `*(uint32_t*) at = v`: the buffer with the four bytes at address `at`
      replaced by the footer `v`. */
  function WriteFooter(mem: seq<byte>, origin: nat, at: nat, v: nat): (r: seq<byte>)
    requires origin <= at && at + FOOTER_SIZE <= origin + |mem| && v < UINT32_LIMIT
    ensures |r| == |mem|
    ensures forall j :: 0 <= j < |mem| && !(at - origin <= j < at - origin + FOOTER_SIZE) ==> r[j] == mem[j]
    ensures ReadFooter(r, origin, at + FOOTER_SIZE) == v
  {
    var k := at - origin;
    var r := mem[..k] + Encode(v) + mem[k + FOOTER_SIZE..];
    assert r[k .. k + FOOTER_SIZE] == Encode(v);
    DecodeEncode(v);
    r
  }

  /** What Allocate demands of its caller: a power-of-two alignment and a frame
      whose size and whose required capacity fit the uint32 arithmetic of
      Arena/Arena.cpp:142-143. */
  predicate AllocateAdmissible(a: Arena, size: nat, alignment: nat)
  {
    IsPowerOfTwo(alignment) && alignment < UINT32_LIMIT && size < UINT32_LIMIT &&
    Bounded(a) && Used(a) + FrameSize(a.top, size, alignment) < UINT32_LIMIT
  }

  /** The arena, the buffer and the returned pointer after one Allocate. */
  datatype Outcome = Outcome(arena: Arena, mem: seq<byte>, result: Pointer)

  /** ArenaAllocator::Allocate(size, alignment): pad `top` up to `alignment`,
      and if padding, payload and footer fit in what is left, advance `top`
      over them and store the frame size in the footer. */
  function AllocateFrame(a: Arena, mem: seq<byte>, origin: nat, size: nat, alignment: nat): (r: Outcome)
    requires InBuffer(a, origin, |mem|) && AllocateAdmissible(a, size, alignment)
    ensures InBuffer(r.arena, origin, |r.mem|) && |r.mem| == |mem|
    ensures r.arena.base == a.base && r.arena.capacity == a.capacity
  {
    var base := a.top;
    var padding := CalculatePadding(base, alignment);
    var alignedBase := base + padding;
    var allocationSize := padding + size + FOOTER_SIZE;
    var requiredCapacity := (a.top - a.base) + allocationSize;
    if requiredCapacity > a.capacity then
      Outcome(a, mem, Null)
    else
      var sizePtr := alignedBase + size;
      Outcome(a.(top := a.top + allocationSize), WriteFooter(mem, origin, sizePtr, allocationSize), Address(alignedBase))
  }

  /** Allocate returns null exactly when the frame does not fit, and then
      changes neither the arena nor the buffer: the capacity test comes
      before any write. */
  lemma AllocateFailure(a: Arena, mem: seq<byte>, origin: nat, size: nat, alignment: nat)
    requires InBuffer(a, origin, |mem|) && AllocateAdmissible(a, size, alignment)
    ensures var r := AllocateFrame(a, mem, origin, size, alignment);
      (r.result == Null <==> Used(a) + FrameSize(a.top, size, alignment) > a.capacity) &&
      (r.result == Null ==> r.arena == a && r.mem == mem)
  {
  }

  /** A successful Allocate advances `top` by the frame size, returns the
      padded old `top`, which is a multiple of `alignment`, ends the payload
      at the footer, records the frame size there, and leaves every other
      byte of the buffer as it was. */
  lemma AllocateSuccess(a: Arena, mem: seq<byte>, origin: nat, size: nat, alignment: nat)
    requires InBuffer(a, origin, |mem|) && AllocateAdmissible(a, size, alignment)
    requires Used(a) + FrameSize(a.top, size, alignment) <= a.capacity
    ensures var r := AllocateFrame(a, mem, origin, size, alignment);
      var fs := FrameSize(a.top, size, alignment);
      r.result == Address(a.top + CalculatePadding(a.top, alignment)) &&
      r.result.addr % alignment == 0 &&
      r.arena == a.(top := a.top + fs) &&
      r.result.addr + size == r.arena.top - FOOTER_SIZE &&
      ReadFooter(r.mem, origin, r.arena.top) == fs &&
      (forall j :: 0 <= j < |mem| && !(r.arena.top - FOOTER_SIZE - origin <= j < r.arena.top - origin) ==>
         r.mem[j] == mem[j])
  {
  }

  /** The capacity test is strict: a frame that exactly fills what is left
      succeeds and leaves the arena full. */
  lemma ExactFitSucceeds(a: Arena, mem: seq<byte>, origin: nat, size: nat, alignment: nat)
    requires InBuffer(a, origin, |mem|) && AllocateAdmissible(a, size, alignment)
    requires Used(a) + FrameSize(a.top, size, alignment) == a.capacity
    ensures var r := AllocateFrame(a, mem, origin, size, alignment);
      r.result != Null && Used(r.arena) == a.capacity && Remaining(r.arena) == 0
  {
  }

  /** What Free demands: a footer lies inside the arena below `top`
      (otherwise the read at `top - 4` leaves the arena), and the previous
      top it leads to is not below `base` (the assert of Arena/Arena.cpp:175). */
  predicate FreeAdmissible(a: Arena, mem: seq<byte>, origin: nat)
  {
    InBuffer(a, origin, |mem|) && a.top >= a.base + FOOTER_SIZE &&
    ReadFooter(mem, origin, a.top) <= a.top - a.base
  }

  /** ArenaAllocator::Free: read the frame size from the footer below `top`
      and rewind `top` by it. The buffer is not written. */
  function FreeFrame(a: Arena, mem: seq<byte>, origin: nat): (r: Arena)
    requires FreeAdmissible(a, mem, origin)
    ensures InBuffer(r, origin, |mem|) && r.base == a.base && r.capacity == a.capacity && r.top <= a.top
  {
    var allocationSize := ReadFooter(mem, origin, a.top);
    var prevTop := a.top - allocationSize;
    a.(top := prevTop)
  }

  /** Free right after a successful Allocate is admissible and restores the
      arena exactly. */
  lemma FreeAfterAllocate(a: Arena, mem: seq<byte>, origin: nat, size: nat, alignment: nat)
    requires InBuffer(a, origin, |mem|) && AllocateAdmissible(a, size, alignment)
    requires Used(a) + FrameSize(a.top, size, alignment) <= a.capacity
    ensures var r := AllocateFrame(a, mem, origin, size, alignment);
      FreeAdmissible(r.arena, r.mem, origin) && FreeFrame(r.arena, r.mem, origin) == a
  {
    AllocateSuccess(a, mem, origin, size, alignment);
  }

  /** The bytes from address `lo` to address `hi` are a stack of frames: walking
      down from `hi` by the footer sizes reaches `lo` exactly, and every footer
      is at least as large as the footer itself. */
  predicate WellFramed(mem: seq<byte>, origin: nat, lo: nat, hi: nat)
    decreases hi
  {
    origin <= lo <= hi <= origin + |mem| &&
    (hi == lo ||
     (hi >= lo + FOOTER_SIZE &&
      FOOTER_SIZE <= ReadFooter(mem, origin, hi) <= hi - lo &&
      WellFramed(mem, origin, lo, hi - ReadFooter(mem, origin, hi))))
  }

  /** The frame sizes between `lo` and `hi`, newest first: what the frame
      walk of DumpArena reports. */
  function FrameSizes(mem: seq<byte>, origin: nat, lo: nat, hi: nat): seq<nat>
    requires WellFramed(mem, origin, lo, hi)
    decreases hi
  {
    if hi == lo then []
    else
      var s := ReadFooter(mem, origin, hi);
      [s] + FrameSizes(mem, origin, lo, hi - s)
  }

  /** The frames add up to the bytes between `lo` and `hi`, each at least a
      footer; there are none exactly when `lo == hi`. */
  lemma {:induction false} FrameSizesSum(mem: seq<byte>, origin: nat, lo: nat, hi: nat)
    requires WellFramed(mem, origin, lo, hi)
    ensures Sum(FrameSizes(mem, origin, lo, hi)) == hi - lo
    ensures forall i :: 0 <= i < |FrameSizes(mem, origin, lo, hi)| ==> FrameSizes(mem, origin, lo, hi)[i] >= FOOTER_SIZE
    ensures FrameSizes(mem, origin, lo, hi) == [] <==> hi == lo
    decreases hi
  {
    if hi != lo {
      var s := ReadFooter(mem, origin, hi);
      FrameSizesSum(mem, origin, lo, hi - s);
      var rest := FrameSizes(mem, origin, lo, hi - s);
      assert FrameSizes(mem, origin, lo, hi) == [s] + rest;
      assert ([s] + rest)[1..] == rest;
    }
  }

  /** The frame stack between `lo` and `hi` depends only on those bytes. */
  lemma {:induction false} FramesLocal(mem1: seq<byte>, mem2: seq<byte>, origin: nat, lo: nat, hi: nat)
    requires origin <= lo <= hi <= origin + |mem1| && hi <= origin + |mem2|
    requires forall j :: lo - origin <= j < hi - origin ==> mem1[j] == mem2[j]
    ensures WellFramed(mem1, origin, lo, hi) == WellFramed(mem2, origin, lo, hi)
    ensures WellFramed(mem1, origin, lo, hi) ==> FrameSizes(mem1, origin, lo, hi) == FrameSizes(mem2, origin, lo, hi)
    decreases hi
  {
    if hi >= lo + FOOTER_SIZE {
      var k := hi - origin;
      assert mem1[k - FOOTER_SIZE .. k] == mem2[k - FOOTER_SIZE .. k];
      var s := ReadFooter(mem1, origin, hi);
      assert s == ReadFooter(mem2, origin, hi);
      if FOOTER_SIZE <= s <= hi - lo {
        FramesLocal(mem1, mem2, origin, lo, hi - s);
      }
    }
  }

  /** A successful Allocate pushes its frame on the frame stack of any scope
      whose frames end at the old `top`. */
  lemma AllocatePushesFrame(a: Arena, mem: seq<byte>, origin: nat, lo: nat, size: nat, alignment: nat)
    requires InBuffer(a, origin, |mem|) && AllocateAdmissible(a, size, alignment)
    requires Used(a) + FrameSize(a.top, size, alignment) <= a.capacity
    requires WellFramed(mem, origin, lo, a.top)
    ensures var r := AllocateFrame(a, mem, origin, size, alignment);
      WellFramed(r.mem, origin, lo, r.arena.top) &&
      FrameSizes(r.mem, origin, lo, r.arena.top) == [FrameSize(a.top, size, alignment)] + FrameSizes(mem, origin, lo, a.top)
  {
    var r := AllocateFrame(a, mem, origin, size, alignment);
    var fs := FrameSize(a.top, size, alignment);
    AllocateSuccess(a, mem, origin, size, alignment);
    PushAfterWrite(mem, r.mem, origin, lo, a.top, r.arena.top);
  }

  /** Writing a footer at `hi` that leads down to `mid`, above the frame stack
      that ends at `mid`, extends the stack by one frame. */
  lemma PushAfterWrite(mem: seq<byte>, mem': seq<byte>, origin: nat, lo: nat, mid: nat, hi: nat)
    requires WellFramed(mem, origin, lo, mid)
    requires |mem'| == |mem| && mid + FOOTER_SIZE <= hi <= origin + |mem|
    requires forall j :: 0 <= j < |mem| && !(hi - FOOTER_SIZE - origin <= j < hi - origin) ==> mem'[j] == mem[j]
    requires ReadFooter(mem', origin, hi) == hi - mid
    ensures WellFramed(mem', origin, lo, hi)
    ensures FrameSizes(mem', origin, lo, hi) == [hi - mid] + FrameSizes(mem, origin, lo, mid)
  {
    FramesLocal(mem, mem', origin, lo, mid);
    PushFrame(mem', origin, lo, mid, hi);
  }

  /** A footer at `hi` that leads down to the top `mid` of a frame stack
      extends that stack by one frame. */
  lemma PushFrame(mem: seq<byte>, origin: nat, lo: nat, mid: nat, hi: nat)
    requires WellFramed(mem, origin, lo, mid)
    requires mid + FOOTER_SIZE <= hi <= origin + |mem|
    requires ReadFooter(mem, origin, hi) == hi - mid
    ensures WellFramed(mem, origin, lo, hi)
    ensures FrameSizes(mem, origin, lo, hi) == [hi - mid] + FrameSizes(mem, origin, lo, mid)
  {
  }

  /** The newest frame of a non-empty frame stack, and the stack below it. */
  lemma PopFrame(mem: seq<byte>, origin: nat, lo: nat, hi: nat)
    requires WellFramed(mem, origin, lo, hi) && lo < hi
    ensures origin + FOOTER_SIZE <= hi <= origin + |mem|
    ensures FOOTER_SIZE <= ReadFooter(mem, origin, hi) <= hi - lo
    ensures WellFramed(mem, origin, lo, hi - ReadFooter(mem, origin, hi))
    ensures FrameSizes(mem, origin, lo, hi) ==
            [ReadFooter(mem, origin, hi)] + FrameSizes(mem, origin, lo, hi - ReadFooter(mem, origin, hi))
  {
  }

  /** Free on a non-empty frame stack that starts at or above `base` is
      admissible and pops the newest frame. */
  lemma FreePopsFrame(a: Arena, mem: seq<byte>, origin: nat, lo: nat)
    requires InBuffer(a, origin, |mem|) && a.base <= lo < a.top
    requires WellFramed(mem, origin, lo, a.top)
    ensures FreeAdmissible(a, mem, origin)
    ensures var b := FreeFrame(a, mem, origin);
      WellFramed(mem, origin, lo, b.top) &&
      FrameSizes(mem, origin, lo, b.top) == FrameSizes(mem, origin, lo, a.top)[1..]
  {
  }

  /** The outcome of a succession of Allocate calls. */
  datatype Run = Run(arena: Arena, mem: seq<byte>, results: seq<Pointer>)

  /** One Allocate call: payload size and alignment. */
  datatype Request = Request(size: nat, alignment: nat)

  /** A request whose frame fits the uint32 arithmetic in an arena of this
      capacity, whatever its `top`. */
  predicate RequestFits(capacity: nat, q: Request)
  {
    IsPowerOfTwo(q.alignment) && q.size < UINT32_LIMIT &&
    capacity + q.alignment + q.size + FOOTER_SIZE < UINT32_LIMIT
  }

  /** A fitting request is admissible in every bounded state of the arena. */
  lemma RequestAdmissible(a: Arena, q: Request)
    requires Bounded(a) && RequestFits(a.capacity, q)
    ensures AllocateAdmissible(a, q.size, q.alignment)
  {
    assert CalculatePadding(a.top, q.alignment) < q.alignment;
  }

  /** Allocate called once per request, in order. */
  function AllocateEach(a: Arena, mem: seq<byte>, origin: nat, qs: seq<Request>): (r: Run)
    requires InBuffer(a, origin, |mem|)
    requires forall i :: 0 <= i < |qs| ==> RequestFits(a.capacity, qs[i])
    ensures InBuffer(r.arena, origin, |r.mem|) && |r.mem| == |mem| && |r.results| == |qs|
    ensures r.arena.base == a.base && r.arena.capacity == a.capacity
    decreases |qs|
  {
    if qs == [] then Run(a, mem, [])
    else
      RequestAdmissible(a, qs[0]);
      var o := AllocateFrame(a, mem, origin, qs[0].size, qs[0].alignment);
      var rest := AllocateEach(o.arena, o.mem, origin, qs[1..]);
      Run(rest.arena, rest.mem, [o.result] + rest.results)
  }

  /** Free called `n` times; None when one of them would fault. */
  function FreeEach(a: Arena, mem: seq<byte>, origin: nat, n: nat): Option<Arena>
    requires InBuffer(a, origin, |mem|)
    decreases n
  {
    if n == 0 then Some(a)
    else if !FreeAdmissible(a, mem, origin) then None
    else FreeEach(FreeFrame(a, mem, origin), mem, origin, n - 1)
  }

  /** Successful allocations push one frame each on the frame stack. */
  lemma {:induction false} AllocateEachPushes(a: Arena, mem: seq<byte>, origin: nat, lo: nat, qs: seq<Request>)
    requires InBuffer(a, origin, |mem|)
    requires forall i :: 0 <= i < |qs| ==> RequestFits(a.capacity, qs[i])
    requires WellFramed(mem, origin, lo, a.top)
    requires Null !in AllocateEach(a, mem, origin, qs).results
    ensures var r := AllocateEach(a, mem, origin, qs);
      WellFramed(r.mem, origin, lo, r.arena.top) &&
      |FrameSizes(r.mem, origin, lo, r.arena.top)| == |qs| + |FrameSizes(mem, origin, lo, a.top)| &&
      FrameSizes(r.mem, origin, lo, r.arena.top)[|qs|..] == FrameSizes(mem, origin, lo, a.top)
    decreases |qs|
  {
    if qs != [] {
      var q := qs[0];
      RequestAdmissible(a, q);
      var o := AllocateFrame(a, mem, origin, q.size, q.alignment);
      FirstPushes(a, mem, origin, lo, qs);
      AllocateEachPushes(o.arena, o.mem, origin, lo, qs[1..]);
      var r := AllocateEach(a, mem, origin, qs);
      SuffixAfterPush(FrameSizes(r.mem, origin, lo, r.arena.top), FrameSizes(o.mem, origin, lo, o.arena.top),
                      FrameSizes(mem, origin, lo, a.top), FrameSize(a.top, q.size, q.alignment), |qs|);
    } else {
      assert AllocateEach(a, mem, origin, qs) == Run(a, mem, []);
    }
  }

  /** The first of a run of successful allocations pushes its frame, and the
      rest of the run continues from there with no null result. */
  lemma FirstPushes(a: Arena, mem: seq<byte>, origin: nat, lo: nat, qs: seq<Request>)
    requires InBuffer(a, origin, |mem|) && qs != []
    requires forall i :: 0 <= i < |qs| ==> RequestFits(a.capacity, qs[i])
    requires WellFramed(mem, origin, lo, a.top)
    requires Null !in AllocateEach(a, mem, origin, qs).results
    ensures AllocateAdmissible(a, qs[0].size, qs[0].alignment)
    ensures var o := AllocateFrame(a, mem, origin, qs[0].size, qs[0].alignment);
      var rest := AllocateEach(o.arena, o.mem, origin, qs[1..]);
      o.result != Null &&
      WellFramed(o.mem, origin, lo, o.arena.top) &&
      FrameSizes(o.mem, origin, lo, o.arena.top) == [FrameSize(a.top, qs[0].size, qs[0].alignment)] + FrameSizes(mem, origin, lo, a.top) &&
      Null !in rest.results &&
      AllocateEach(a, mem, origin, qs) == Run(rest.arena, rest.mem, [o.result] + rest.results)
  {
    var q := qs[0];
    RequestAdmissible(a, q);
    var o := AllocateFrame(a, mem, origin, q.size, q.alignment);
    var rest := AllocateEach(o.arena, o.mem, origin, qs[1..]);
    var r := AllocateEach(a, mem, origin, qs);
    assert r == Run(rest.arena, rest.mem, [o.result] + rest.results);
    assert o.result in r.results;
    assert forall p :: p in rest.results ==> p in r.results;
    AllocateFailure(a, mem, origin, q.size, q.alignment);
    AllocatePushesFrame(a, mem, origin, lo, q.size, q.alignment);
  }

  /** Sequence bookkeeping of AllocateEachPushes: `n - 1` frames pushed on
      top of one frame pushed on `before`. */
  lemma SuffixAfterPush(after: seq<nat>, middle: seq<nat>, before: seq<nat>, f: nat, n: nat)
    requires n > 0 && middle == [f] + before
    requires |after| == n - 1 + |middle| && after[n - 1..] == middle
    ensures |after| == n + |before| && after[n..] == before
  {
    assert after[n..] == after[n - 1..][1..];
  }

  /** `n` Free calls on a stack of at least `n` frames pop exactly `n`. */
  lemma {:induction false} FreeEachPops(a: Arena, mem: seq<byte>, origin: nat, lo: nat, n: nat)
    requires InBuffer(a, origin, |mem|) && a.base <= lo
    requires WellFramed(mem, origin, lo, a.top)
    requires n <= |FrameSizes(mem, origin, lo, a.top)|
    ensures FreeEach(a, mem, origin, n).Some?
    ensures var b := FreeEach(a, mem, origin, n).value;
      b.base == a.base && b.capacity == a.capacity &&
      WellFramed(mem, origin, lo, b.top) &&
      FrameSizes(mem, origin, lo, b.top) == FrameSizes(mem, origin, lo, a.top)[n..]
    decreases n
  {
    if n > 0 {
      FrameSizesSum(mem, origin, lo, a.top);
      FreePopsFrame(a, mem, origin, lo);
      var a1 := FreeFrame(a, mem, origin);
      FreeEachPops(a1, mem, origin, lo, n - 1);
      assert FrameSizes(mem, origin, lo, a.top)[1..][n - 1..] == FrameSizes(mem, origin, lo, a.top)[n..];
    }
  }

  /** N successful allocations followed by N frees give back the arena as it
      was: LIFO frames unwind exactly. */
  lemma AllocateThenFreeRestores(a: Arena, mem: seq<byte>, origin: nat, qs: seq<Request>)
    requires InBuffer(a, origin, |mem|)
    requires forall i :: 0 <= i < |qs| ==> RequestFits(a.capacity, qs[i])
    requires Null !in AllocateEach(a, mem, origin, qs).results
    ensures var r := AllocateEach(a, mem, origin, qs);
      FreeEach(r.arena, r.mem, origin, |qs|) == Some(a)
  {
    var r := AllocateEach(a, mem, origin, qs);
    AllocateEachPushes(a, mem, origin, a.top, qs);
    FreeEachPops(r.arena, r.mem, origin, a.top, |qs|);
    var b := FreeEach(r.arena, r.mem, origin, |qs|).value;
    FrameSizesSum(r.mem, origin, a.top, b.top);
  }
}
