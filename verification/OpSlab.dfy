/** The pinned slab itself: chunks, freelist, the address index and the in-flight
    counter, each kept consistent with the protocol of OpLifecycle. */
module OpSlabs {
  import opened Words
  import opened OpLifecycle

  /** One entry of the address index: where a chunk starts, and which chunk. */
  datatype Entry = Entry(base: nat, chunk: nat)

  ghost predicate StrictlySorted(s: seq<Entry>) {
    forall i, j :: 0 <= i < j < |s| ==> s[i].base < s[j].base
  }

  /** `p` is the address of the payload of slot `i` of the chunk at `base`. */
  predicate IsDataPtr(p: nat, base: nat, i: nat, stride: nat, dataOff: nat) {
    p == base + i * stride + dataOff
  }

  lemma DataPtrIs(p: nat, base: nat, i: nat, stride: nat, dataOff: nat)
    ensures IsDataPtr(p, base, i, stride, dataOff) <==> p == base + i * stride + dataOff
  {
  }

  /** Chunks occupy disjoint address ranges. */
  ghost predicate Disjoint(addrs: seq<nat>, size: nat) {
    forall i, j :: 0 <= i < j < |addrs| ==> addrs[i] + size <= addrs[j] || addrs[j] + size <= addrs[i]
  }

  /** The index lists every chunk once, with its address, in address order. */
  ghost predicate Indexes(byAddr: seq<Entry>, addrs: seq<nat>) {
    && |byAddr| == |addrs|
    && StrictlySorted(byAddr)
    && (forall k :: 0 <= k < |byAddr| ==> byAddr[k].chunk < |addrs| && byAddr[k].base == addrs[byAddr[k].chunk])
    && (forall c :: 0 <= c < |addrs| ==> Entry(addrs[c], c) in byAddr)
  }

  ghost function Flatten(chunks: seq<seq<Slot>>): (f: seq<Slot>)
    requires forall c :: 0 <= c < |chunks| ==> |chunks[c]| == CHUNK
    ensures |f| == |chunks| * CHUNK
  {
    seq(|chunks| * CHUNK, i requires 0 <= i < |chunks| * CHUNK => chunks[i / CHUNK][i % CHUNK])
  }

  lemma FlattenUpdate(chunks: seq<seq<Slot>>, index: nat, s: Slot)
    requires forall c :: 0 <= c < |chunks| ==> |chunks[c]| == CHUNK
    requires index < |chunks| * CHUNK
    ensures Flatten(chunks[index / CHUNK := chunks[index / CHUNK][index % CHUNK := s]]) == Flatten(chunks)[index := s]
  {
  }

  lemma FlattenGrow(chunks: seq<seq<Slot>>)
    requires forall c :: 0 <= c < |chunks| ==> |chunks[c]| == CHUNK
    ensures Flatten(chunks + [FreshChunk()]) == Flatten(chunks) + FreshChunk()
  {
  }

  /** Number of entries that start below (or, with `inclusive`, at or below) an address:
      the standard library's `partition_point` on a sorted slice. */
  method PartitionPoint(s: seq<Entry>, addr: nat, inclusive: bool) returns (at: nat)
    requires StrictlySorted(s)
    ensures at <= |s|
    ensures forall k :: 0 <= k < |s| ==> (k < at <==> s[k].base < addr || (inclusive && s[k].base == addr))
  {
    var lo, hi := 0, |s|;
    while lo < hi
      invariant 0 <= lo <= hi <= |s|
      invariant forall k :: 0 <= k < lo ==> s[k].base < addr || (inclusive && s[k].base == addr)
      invariant forall k :: hi <= k < |s| ==> !(s[k].base < addr || (inclusive && s[k].base == addr))
    {
      var mid := (lo + hi) / 2;
      if s[mid].base < addr || (inclusive && s[mid].base == addr) {
        lo := mid + 1;
      } else {
        hi := mid;
      }
    }
    at := lo;
  }

  lemma SortedInsert(s: seq<Entry>, e: Entry, at: nat)
    requires StrictlySorted(s) && at <= |s|
    requires forall k :: 0 <= k < |s| ==> if k < at then s[k].base < e.base else e.base < s[k].base
    ensures StrictlySorted(s[..at] + [e] + s[at..])
  {
  }

  /** Inserting a new chunk's entry at its partition point keeps the index exact. */
  lemma IndexInsert(byAddr: seq<Entry>, addrs: seq<nat>, addr: nat, at: nat)
    requires Indexes(byAddr, addrs)
    requires at <= |byAddr| && addr !in addrs
    requires forall k :: 0 <= k < |byAddr| ==> (k < at <==> byAddr[k].base < addr)
    ensures Indexes(byAddr[..at] + [Entry(addr, |addrs|)] + byAddr[at..], addrs + [addr])
  {
    var e := Entry(addr, |addrs|);
    var b := byAddr[..at] + [e] + byAddr[at..];
    forall k | 0 <= k < |byAddr| ensures byAddr[k].base != addr {
      assert byAddr[k].base in addrs;
    }
    SortedInsert(byAddr, e, at);
    hide StrictlySorted;
    assert byAddr == byAddr[..at] + byAddr[at..];
    assert forall x :: x in b <==> x in byAddr || x == e;
    forall k | 0 <= k < |b| ensures b[k].chunk <= |addrs| && b[k].base == (addrs + [addr])[b[k].chunk] {
      assert b[k] in b;
    }
  }

  lemma ModUnique(x: nat, d: nat, q: nat, r: nat)
    requires r < d && x == q * d + r
    ensures x % d == r
  {
    assert x == x / d * d + x % d;
    MulMono(q + 1, x / d, d);
    MulMono(x / d + 1, q, d);
    MulNext(q, d);
    MulNext(x / d, d);
    MulMono(q, 0, d);
    MulMono(x / d, 0, d);
  }

  /** Within the one candidate chunk, the offset test is exact. */
  lemma OffsetTest(p: nat, base: nat, stride: nat, dataOff: nat)
    requires base <= p && dataOff < stride
    ensures p - base < stride * CHUNK && (p - base) % stride == dataOff <==>
            exists i :: 0 <= i < CHUNK && IsDataPtr(p, base, i, stride, dataOff)
  {
    var off := p - base;
    if off < stride * CHUNK && off % stride == dataOff {
      var i := off / stride;
      assert off == i * stride + dataOff;
      MulMono(CHUNK, i, stride);
      MulNext(i, stride);
      assert IsDataPtr(p, base, i, stride, dataOff);
    }
    if i :| 0 <= i < CHUNK && IsDataPtr(p, base, i, stride, dataOff) {
      SlotInChunk(i, stride, dataOff);
      ModUnique(off, stride, i, dataOff);
    }
  }

  lemma SlotInChunk(i: nat, stride: nat, dataOff: nat)
    requires i < CHUNK && dataOff < stride
    ensures 0 <= i * stride
    ensures i * stride + dataOff < stride * CHUNK
  {
    MulMono(i + 1, CHUNK, stride);
    MulNext(i, stride);
    MulMono(0, i, stride);
    MulMono(i, 0, stride);
  }

  /** The freelist holds exactly the indices of the Free slots, each once. */
  ghost predicate Frees(slots: seq<Slot>, freelist: seq<u32>) {
    && (forall k :: 0 <= k < |freelist| ==> freelist[k] < |slots| && slots[freelist[k]].state == Free)
    && (forall i: u32 :: i < |slots| && slots[i].state == Free ==> i in freelist)
    && (forall j, k :: 0 <= j < k < |freelist| ==> freelist[j] != freelist[k])
  }

  lemma FreesPop(slots: seq<Slot>, freelist: seq<u32>, s: Slot)
    requires Frees(slots, freelist) && freelist != [] && s.state != Free
    ensures Frees(slots[Last(freelist) := s], ButLast(freelist))
  {
    var index, rest := Last(freelist), ButLast(freelist);
    var slots' := slots[index := s];
    forall i: u32 | i < |slots'| && slots'[i].state == Free ensures i in rest {
      assert i in freelist && i != index;
    }
  }

  /** The world with the slot of `id` posted. */
  ghost function Posting(w: World, id: OpId, kind: OpKind): World
    requires id.index < |w.slots|
  {
    World(w.slots[id.index := Slot(Posted, id.generation, kind)], w.kernel + {id})
  }

  /** Posting the last freelist slot is a step that keeps kernel and freelist exact. */
  lemma PostLast(w: World, freelist: seq<u32>, kind: OpKind)
    requires Exact(w) && Frees(w.slots, freelist) && freelist != []
    ensures var index := Last(freelist);
      && index < |w.slots|
      && var id := OpId(index, w.slots[index].generation);
         var w' := Posting(w, id, kind);
         && Step(w, Event.Post(kind, false, id), w') && id !in w.kernel
         && Exact(w') && Frees(w'.slots, ButLast(freelist))
  {
    var index := Last(freelist);
    var s := Slot(Posted, w.slots[index].generation, kind);
    var id := OpId(index, s.generation);
    FreesPop(w.slots, freelist, s);
    StepKeepsExact(w, Event.Post(kind, false, id), Posting(w, id, kind));
  }

  /** Posting from the freelist `free`, which is what was left or what growing made: a step
      while there is room, and otherwise slot 0 over again, which is occupied. */
  lemma PostFrom(w: World, was: seq<u32>, pre: World, free: seq<u32>, kind: OpKind)
    requires Exact(w) && Frees(w.slots, was) && free != []
    requires was != [] ==> pre == w && free == was
    requires was == [] ==> pre == World(w.slots + FreshChunk(), w.kernel) && Last(free) == Wrap32(|w.slots|)
    requires was == [] && |w.slots| < TWO32 ==> Exact(pre) && Frees(pre.slots, free)
    ensures var index, room := Last(free), was != [] || |w.slots| < TWO32;
      && index < |pre.slots|
      && var id := OpId(index, pre.slots[index].generation);
         var w' := Posting(pre, id, kind);
         && (Resolves(w, id) <==> !room)
         && (Exact(w') <==> room)
         && (room ==> Frees(w'.slots, ButLast(free)) && id !in w.kernel && Step(w, Event.Post(kind, was == [], id), w'))
  {
    if was != [] || |w.slots| < TWO32 {
      PostLast(pre, free, kind);
    }
  }

  lemma GrowKeepsExact(w: World)
    requires Exact(w) && |w.slots| + CHUNK <= TWO32
    ensures Exact(World(w.slots + FreshChunk(), w.kernel))
  {
  }

  lemma FreesPush(slots: seq<Slot>, freelist: seq<u32>, index: u32, s: Slot)
    requires Frees(slots, freelist) && index < |slots| && slots[index].state != Free && s.state == Free
    ensures Frees(slots[index := s], freelist + [index])
  {
    var slots' := slots[index := s];
    forall i: u32 | i < |slots'| && slots'[i].state == Free ensures i in freelist + [index] {
      assert i == index || i in freelist;
    }
  }

  lemma FreesUpdate(slots: seq<Slot>, freelist: seq<u32>, index: u32, s: Slot)
    requires Frees(slots, freelist) && index < |slots| && slots[index].state != Free && s.state != Free
    ensures Frees(slots[index := s], freelist)
  {
  }

  /** A grown slab's freelist: the new chunk's indices, highest first. */
  lemma FreesGrow(slots: seq<Slot>, freelist: seq<u32>)
    requires NoneFree(slots) && |slots| + CHUNK <= TWO32 && |freelist| == CHUNK
    requires forall k :: 0 <= k < CHUNK ==> freelist[k] == |slots| + CHUNK - 1 - k
    ensures Frees(slots + FreshChunk(), freelist)
  {
    var all := slots + FreshChunk();
    forall i: u32 | i < |all| && all[i].state == Free ensures i in freelist {
      assert freelist[|slots| + CHUNK - 1 - i] == i;
    }
  }

  ghost predicate Ordered(ids: seq<OpId>) {
    forall j, k :: 0 <= j < k < |ids| ==> ids[j].index < ids[k].index
  }

  /** The ids of the in-flight slots below `n`, in index order. */
  ghost predicate Listed(slots: seq<Slot>, out: seq<OpId>, n: nat) {
    && n <= |slots| <= TWO32
    && (forall k :: 0 <= k < |out| ==> IsListed(slots, out[k], n))
    && (forall i: u32 :: i < n && InFlight(slots[i].state) ==> OpId(i, slots[i].generation) in out)
    && Ordered(out)
  }

  predicate IsListed(slots: seq<Slot>, id: OpId, n: nat) {
    id.index < n && id.index < |slots|
    && InFlight(slots[id.index].state) && slots[id.index].generation == id.generation
  }

  lemma ListedNext(slots: seq<Slot>, out: seq<OpId>, n: nat)
    requires Listed(slots, out, n) && n < |slots|
    ensures Listed(slots, if InFlight(slots[n].state) then out + [OpId(n, slots[n].generation)] else out, n + 1)
  {
    assert forall k :: 0 <= k < |out| ==> IsListed(slots, out[k], n + 1) && out[k].index < n;
    hide InFlight;
  }

  lemma {:induction false} ListedAll(ids: seq<OpId>, s: set<OpId>)
    requires Ordered(ids) && forall id :: id in ids <==> id in s
    ensures |ids| == |s|
    decreases |ids|
  {
    if ids == [] {
      assert s == {};
    } else {
      var last := ids[|ids| - 1];
      assert ids == ids[..|ids| - 1] + [last] && last !in ids[..|ids| - 1];
      ListedAll(ids[..|ids| - 1], s - {last});
    }
  }

  class OpSlab {
    var chunks: seq<seq<Slot>>
    var byAddr: seq<Entry>
    var freelist: seq<u32>
    var inFlight: nat
    /** Layout of one slot: its size, and where its payload sits in it. */
    const stride: nat
    const dataOff: nat
    /** Where the allocator put each chunk. */
    ghost var addrs: seq<nat>
    /** The ops handed to the kernel and not yet reaped. */
    ghost var kernel: set<OpId>

    ghost predicate Shape()
      reads this
    {
      && 0 < stride && dataOff <= stride
      && (forall c :: 0 <= c < |chunks| ==> |chunks[c]| == CHUNK)
      && |addrs| == |chunks|
    }

    ghost function World(): World
      requires Shape()
      reads this
    {
      OpLifecycle.World(Flatten(chunks), kernel)
    }

    ghost predicate Valid()
      reads this
    {
      && Shape()
      && Exact(World())
      && Frees(World().slots, freelist)
      && inFlight == |kernel|
      && Disjoint(addrs, stride * CHUNK)
      && Indexes(byAddr, addrs)
    }

    constructor (stride: nat, dataOff: nat)
      requires 0 < stride && dataOff <= stride
      ensures Valid() && World() == OpLifecycle.World([], {})
      ensures this.stride == stride && this.dataOff == dataOff && addrs == []
    {
      this.stride, this.dataOff := stride, dataOff;
      chunks, byAddr, freelist, inFlight := [], [], [], 0;
      addrs, kernel := [], {};
    }

    /** Bounds-checked lookup: `None` past the allocated chunks. */
    function SlotAt(index: u32): (r: Option<Slot>)
      requires Shape()
      reads this
      ensures r == if index < |Flatten(chunks)| then Some(Flatten(chunks)[index]) else None
    {
      if index / CHUNK < |chunks| then Some(chunks[index / CHUNK][index % CHUNK]) else None
    }

    /** `get`: the slot of a live op, `None` for stale and foreign ids. */
    function Get(id: OpId): (r: Option<Slot>)
      requires Shape()
      reads this
      ensures r.Some? <==> Resolves(World(), id)
      ensures r.Some? ==> r.value == Flatten(chunks)[id.index]
    {
      var s := SlotAt(id.index);
      if s.Some? && s.value.generation == id.generation && s.value.state != Free then s else None
    }

    method SetSlot(index: u32, s: Slot)
      requires Shape() && index < |chunks| * CHUNK
      modifies this`chunks
      ensures Shape() && Flatten(chunks) == old(Flatten(chunks))[index := s]
    {
      FlattenUpdate(chunks, index, s);
      chunks := chunks[index / CHUNK := chunks[index / CHUNK][index % CHUNK := s]];
    }

    /** Append a chunk at the address the allocator chose. Its indices are truncated to 32
        bits: they name the new slots just while fewer than 2^32 existed. */
    method Grow(addr: nat)
      requires Valid() && freelist == [] && Disjoint(addrs + [addr], stride * CHUNK)
      modifies this
      ensures Shape() && (Valid() <==> |old(World()).slots| < TWO32)
      ensures World() == OpLifecycle.World(old(World()).slots + FreshChunk(), old(kernel))
      ensures inFlight == old(inFlight) && addrs == old(addrs) + [addr]
      ensures Indexes(byAddr, addrs) && Disjoint(addrs, stride * CHUNK)
      ensures |freelist| == 256 && Last(freelist) == Wrap32(|old(World()).slots|)
      ensures |old(World()).slots| < TWO32 ==>
        forall k :: 0 <= k < 256 ==> freelist[k] == |old(World()).slots| + 255 - k
    {
      var base := |chunks| * CHUNK;
      FreshIndicesExact(base, CHUNK);
      var at := PartitionPoint(byAddr, addr, false);
      assert addr !in addrs by {
        var a := addrs + [addr];
        forall c | 0 <= c < |addrs| ensures addrs[c] != addr {
          assert a[c] == addrs[c] && a[|addrs|] == addr;
        }
      }
      IndexInsert(byAddr, addrs, addr, at);
      FlattenGrow(chunks);
      byAddr := byAddr[..at] + [Entry(addr, |chunks|)] + byAddr[at..];
      chunks := chunks + [FreshChunk()];
      addrs := addrs + [addr];
      var i := CHUNK;
      while i > 0
        invariant 0 <= i <= CHUNK && |freelist| == CHUNK - i
        invariant forall k :: 0 <= k < |freelist| ==> freelist[k] == FreshIndex(base, CHUNK, CHUNK - 1 - k)
        invariant chunks == old(chunks) + [FreshChunk()] && Shape()
        invariant kernel == old(kernel) && inFlight == old(inFlight) && addrs == old(addrs) + [addr]
        invariant Indexes(byAddr, addrs)
      {
        i := i - 1;
        freelist := freelist + [FreshIndex(base, CHUNK, i)];
      }
      if base < TWO32 {
        FreesGrow(old(World()).slots, freelist);
        GrowKeepsExact(old(World()));
      }
    }

    /** A free slot, or one that growing can still number. */
    ghost predicate HasRoom()
      reads this
    {
      freelist != [] || |chunks| * CHUNK < TWO32
    }

    /** Free -> Posted. The kernel is handed the new op. A slab of 2^32 occupied slots has no
        number left for another, and hands out the id of an op that is still there. */
    method Post(kind: OpKind, addr: nat) returns (id: OpId)
      requires Valid() && (freelist == [] ==> Disjoint(addrs + [addr], stride * CHUNK))
      modifies this
      ensures Valid() <==> old(HasRoom())
      ensures Resolves(old(World()), id) <==> !old(HasRoom())
      ensures old(HasRoom()) ==> Step(old(World()), Event.Post(kind, old(freelist) == [], id), World())
      ensures addrs == if old(freelist) == [] then old(addrs) + [addr] else old(addrs)
      ensures inFlight == old(inFlight) + 1
      ensures old(freelist) != [] ==> id.index == Last(old(freelist)) && freelist == ButLast(old(freelist))
      ensures old(freelist) == [] ==> id.index == Wrap32(|old(World()).slots|)
    {
      hide Exact, Frees, Step, Indexes, Disjoint, Flatten;
      ghost var w, was := World(), freelist;
      if freelist == [] {
        Grow(addr);
      }
      PostFrom(w, was, World(), freelist, kind);
      id := TakeFree(kind);
    }

    /** Mark the slot at the end of the freelist Posted, whatever it was. */
    method TakeFree(kind: OpKind) returns (id: OpId)
      requires Shape() && freelist != [] && Last(freelist) < |World().slots|
      modifies this`chunks, this`freelist, this`inFlight, this`kernel
      ensures Shape() && id == OpId(Last(old(freelist)), old(World()).slots[Last(old(freelist))].generation)
      ensures World() == Posting(old(World()), id, kind)
      ensures inFlight == old(inFlight) + 1 && freelist == ButLast(old(freelist))
    {
      var index := Last(freelist);
      var slot := SlotAt(index).value;
      id := OpId(index, slot.generation);
      freelist := ButLast(freelist);
      inFlight := inFlight + 1;
      SetSlot(index, slot.(state := Posted, kind := kind));
      kernel := kernel + {id};
    }

    /** Posted -> Cancelled; true only on that edge. */
    method MarkCancelled(id: OpId) returns (first: bool)
      requires Valid()
      modifies this`chunks
      ensures Valid()
      ensures Step(old(World()), Cancel(id, first), World())
    {
      ghost var w := World();
      var slot := Get(id);
      if slot.None? {
        return false;
      }
      match slot.value.state {
        case Posted =>
          first := true;
          FreesUpdate(w.slots, freelist, id.index, slot.value.(state := Cancelled));
          SetSlot(id.index, slot.value.(state := Cancelled));
          StepKeepsExact(w, Cancel(id, first), World());
        case Cancelled => first := false;
        case Completed => first := false;
      }
    }

    /** {Posted, Cancelled} -> Completed when a completion is reaped: the kernel no
        longer holds the op. Anything else changes nothing and answers `None`. */
    method Complete(id: OpId) returns (outcome: Option<(OpKind, bool)>)
      requires Valid()
      modifies this
      ensures Valid() && addrs == old(addrs)
      ensures Step(old(World()), Reap(id, outcome), World())
      ensures outcome.Some? <==> id in old(kernel)
      ensures inFlight == if outcome.Some? then old(inFlight) - 1 else old(inFlight)
    {
      ghost var w := World();
      var slot := SlotAt(id.index);
      if slot.None? || slot.value.generation != id.generation {
        return None;
      }
      var wasCancelled;
      match slot.value.state {
        case Posted => wasCancelled := false;
        case Cancelled => wasCancelled := true;
        case Free => return None;
        case Completed => return None;
      }
      assert id in kernel;
      FreesUpdate(w.slots, freelist, id.index, slot.value.(state := Completed));
      SetSlot(id.index, slot.value.(state := Completed));
      kernel := kernel - {id};
      inFlight := inFlight - 1;
      outcome := Some((slot.value.kind, wasCancelled));
      StepKeepsExact(w, Reap(id, outcome), World());
    }

    /** Completed -> Free: the only transition that recycles a slot. */
    method Release(id: OpId)
      requires Valid()
      modifies this`chunks, this`freelist
      ensures Valid()
      ensures Step(old(World()), Event.Release(id), World())
      ensures freelist == if Recycles(old(World()), id) then old(freelist) + [id.index] else old(freelist)
    {
      ghost var w := World();
      var slot := SlotAt(id.index);
      if slot.None? {
        return;
      }
      if slot.value.generation == id.generation && slot.value.state == Completed {
        var recycled := slot.value.(state := Free, generation := Next32(slot.value.generation));
        FreesPush(w.slots, freelist, id.index, recycled);
        SetSlot(id.index, recycled);
        freelist := freelist + [id.index];
        StepKeepsExact(w, Event.Release(id), World());
      }
    }

    /** Every in-flight op once, in index order: exactly what the kernel still holds. */
    method InFlightIds() returns (out: seq<OpId>)
      requires Valid()
      ensures forall id :: id in out <==> id in kernel
      ensures forall j, k :: 0 <= j < k < |out| ==> out[j].index < out[k].index
      ensures |out| == inFlight
    {
      out := [];
      ghost var slots := World().slots;
      var ci := 0;
      while ci < |chunks|
        invariant 0 <= ci <= |chunks|
        invariant Listed(slots, out, ci * CHUNK)
      {
        var si := 0;
        while si < CHUNK
          invariant 0 <= si <= CHUNK
          invariant Listed(slots, out, ci * CHUNK + si)
        {
          SlotInFlat(ci, si);
          ListedNext(slots, out, ci * CHUNK + si);
          var slot := chunks[ci][si];
          if slot.state == Posted || slot.state == Cancelled {
            var id := OpId(Wrap32(ci * CHUNK + si), slot.generation);
            out := out + [id];
          }
          si := si + 1;
        }
        ci := ci + 1;
      }
      ListedAll(out, kernel);
    }

    lemma SlotInFlat(ci: nat, si: nat)
      requires Shape() && |World().slots| <= TWO32 && ci < |chunks| && si < CHUNK
      ensures ci * CHUNK + si < |World().slots| <= TWO32
      ensures World().slots[ci * CHUNK + si] == chunks[ci][si]
      ensures Wrap32(ci * CHUNK + si) == ci * CHUNK + si
    {
    }

    /** Is `p` exactly the payload address of some slot of this slab? A payload without a
        size may lie at the very end of its slot, and is then never found. */
    method ContainsDataPtr(p: nat) returns (found: bool)
      requires Valid()
      ensures found <==> dataOff < stride && exists c, i ::
        0 <= c < |addrs| && 0 <= i < 256 && IsDataPtr(p, addrs[c], i, stride, dataOff)
    {
      var at := PartitionPoint(byAddr, p, true);
      if at == 0 {
        NoCandidate(p);
        return false;
      }
      var e := byAddr[at - 1];
      var offset := p - e.base;
      if dataOff < stride {
        OffsetTest(p, e.base, stride, dataOff);
        OnlyCandidate(p, at);
      }
      if offset >= stride * CHUNK {
        return false;
      }
      found := offset % stride == dataOff;
    }

    lemma NoCandidate(p: nat)
      requires Valid() && forall k :: 0 <= k < |byAddr| ==> byAddr[k].base > p
      ensures dataOff < stride ==> forall c, i ::
        0 <= c < |addrs| && 0 <= i < CHUNK ==> !IsDataPtr(p, addrs[c], i, stride, dataOff)
    {
      if dataOff < stride {
        forall c, i | 0 <= c < |addrs| && 0 <= i < CHUNK ensures !IsDataPtr(p, addrs[c], i, stride, dataOff) {
          var k :| 0 <= k < |byAddr| && byAddr[k] == Entry(addrs[c], c);
          SlotInChunk(i, stride, dataOff);
        }
      }
    }

    /** The last chunk starting at or below `p` is the only one that can contain it. */
    lemma OnlyCandidate(p: nat, at: nat)
      requires Valid() && 0 < at <= |byAddr| && dataOff < stride
      requires forall k :: 0 <= k < |byAddr| ==> (k < at <==> byAddr[k].base <= p)
      ensures forall c, i | 0 <= c < |addrs| && 0 <= i < CHUNK && IsDataPtr(p, addrs[c], i, stride, dataOff) ::
        addrs[c] == byAddr[at - 1].base
    {
      forall c, i | 0 <= c < |addrs| && 0 <= i < CHUNK && IsDataPtr(p, addrs[c], i, stride, dataOff)
        ensures addrs[c] == byAddr[at - 1].base
      {
        var k :| 0 <= k < |byAddr| && byAddr[k] == Entry(addrs[c], c);
        SlotInChunk(i, stride, dataOff);
        assert addrs[c] <= p < addrs[c] + stride * CHUNK;
        assert k <= at - 1;
        assert addrs[byAddr[at - 1].chunk] == byAddr[at - 1].base <= p;
      }
    }
  }
}
