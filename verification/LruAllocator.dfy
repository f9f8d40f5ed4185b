/** The pooling allocator: recycled buffers, and the ledger of what the backend gave out and got back. */
module LruPool {

  datatype BufferSpec = BufferSpec(cpuAccess: bool, nolru: bool)

  datatype Key = Key(size: nat, spec: BufferSpec)

  /** A buffer handle knows what it was allocated as. */
  datatype RawBuffer = RawBuffer(id: nat, key: Key)

  datatype AllocResult = Ok(buffer: RawBuffer) | Err(error: nat)

  datatype ZeroOutcome = Zeroed | CannotZero | ZeroFailed(error: nat)

  /** What the backend does on each of its calls; call numbers make every failure pattern possible. */
  datatype Behaviour = Behaviour(allocFails: nat -> bool, fenceFails: nat -> bool, zeroing: nat -> ZeroOutcome)

  function Zeros(n: nat): (r: seq<nat>)
    ensures |r| == n && forall i :: 0 <= i < n ==> r[i] == 0
  {
    seq(n, i => 0)
  }

  function Stale(n: nat): seq<nat> {
    seq(n, i => 0xcd)
  }

  /** The backend allocator. Freeing needs a buffer that is out, so a caller that verifies never frees twice. */
  class Backend {
    const behaviour: Behaviour
    var calls: nat
    var next: nat
    var contents: map<RawBuffer, seq<nat>>
    ghost var live: set<RawBuffer>
    ghost var allocs: nat
    ghost var frees: nat

    ghost predicate Valid()
      reads this
    {
      (forall b :: b in live ==> b.id < next) && allocs == frees + |live|
    }

    function Bytes(b: RawBuffer): seq<nat>
      reads this
    {
      if b in contents then contents[b] else []
    }

    constructor (behaviour: Behaviour)
      ensures Valid() && live == {} && allocs == 0 && this.behaviour == behaviour
    {
      this.behaviour, calls, next, contents := behaviour, 0, 0, map[];
      live, allocs, frees := {}, 0, 0;
    }

    method Alloc(size: nat, spec: BufferSpec, zero: bool) returns (r: AllocResult)
      requires Valid()
      modifies this
      ensures Valid() && calls == old(calls) + 1 && r.Err? == behaviour.allocFails(old(calls))
      ensures r.Err? ==> r.error == old(calls) && live == old(live) && contents == old(contents)
      ensures r.Ok? ==> r.buffer !in old(live) && live == old(live) + {r.buffer} && r.buffer.key == Key(size, spec)
      ensures r.Ok? ==> (zero ==> Bytes(r.buffer) == Zeros(size)) && forall b ::
        b != r.buffer ==> Bytes(b) == old(Bytes(b))
    {
      calls := calls + 1;
      if behaviour.allocFails(calls - 1) { return Err(calls - 1); }
      var b := RawBuffer(next, Key(size, spec));
      r := Ok(b);
      assert b !in live && |live + {b}| == |live| + 1;
      contents := contents[b := if zero then Zeros(size) else Stale(size)];
      live, allocs, next := live + {b}, allocs + 1, next + 1;
    }

    method Free(b: RawBuffer, size: nat, spec: BufferSpec)
      requires Valid() && b in live && b.key == Key(size, spec)
      modifies this`calls, this`live, this`frees
      ensures Valid() && calls == old(calls) + 1 && live == old(live) - {b} && frees == old(frees) + 1
    {
      calls, live, frees := calls + 1, live - {b}, frees + 1;
    }

    /** Waits for the storage's recorded producers. */
    method Fence(b: RawBuffer) returns (ok: bool, error: nat)
      requires b in live
      modifies this`calls
      ensures ok == !behaviour.fenceFails(old(calls)) && error == old(calls) && calls == old(calls) + 1
    {
      ok, error, calls := !behaviour.fenceFails(calls), calls, calls + 1;
    }

    method ZeroCached(b: RawBuffer) returns (r: ZeroOutcome)
      requires b in live
      modifies this`calls, this`contents
      ensures r == behaviour.zeroing(old(calls)) && calls == old(calls) + 1
      ensures forall x :: x != b ==> Bytes(x) == old(Bytes(x))
      ensures r.Zeroed? ==> Bytes(b) == Zeros(b.key.size)
    {
      r, calls := behaviour.zeroing(calls), calls + 1;
      if r.Zeroed? { contents := contents[b := Zeros(b.key.size)]; }
    }
  }

  predicate NoRepeats(s: seq<RawBuffer>) {
    forall i, j :: 0 <= i < j < |s| ==> s[i] != s[j]
  }

  function ButLast(s: seq<RawBuffer>): seq<RawBuffer>
    requires s != []
  {
    s[..|s| - 1]
  }

  function LastOf(s: seq<RawBuffer>): RawBuffer
    requires s != []
  {
    s[|s| - 1]
  }

  type Pools = map<Key, seq<RawBuffer>>

  function PoolAt(cache: Pools, key: Key): seq<RawBuffer> {
    if key in cache then cache[key] else []
  }

  predicate Pooled(cache: Pools, b: RawBuffer) {
    b in PoolAt(cache, b.key)
  }

  /** A pool holds buffers of its own key, none twice, within the capacity, and none that must not be pooled. */
  predicate PoolOk(cache: Pools, key: Key, capacity: nat) {
    var pool := PoolAt(cache, key);
    && |pool| <= capacity && NoRepeats(pool) && (key.spec.nolru ==> key !in cache)
    && forall i :: 0 <= i < |pool| ==> pool[i].key == key
  }

  /** Every buffer the backend has out is either held or pooled, not both. */
  ghost predicate Ledger(live: set<RawBuffer>, held: set<RawBuffer>, cache: Pools, capacity: nat) {
    && (forall key :: PoolOk(cache, key, capacity))
    && (forall b :: b in live <==> b in held || Pooled(cache, b))
    && (forall b :: b in held ==> !Pooled(cache, b))
  }

  // ----- when an allocation fails -----

  datatype Expectation = Recycled | Replaced | Refused(error: nat)

  /** What recycling a buffer comes to, from backend call c on: a fence, then perhaps zeroing, and only a buffer
      that cannot be zeroed is freed and replaced by a new one. */
  function RecycleExpectation(behaviour: Behaviour, c: nat, zero: bool): Expectation {
    if behaviour.fenceFails(c) then Refused(c)
    else if !zero then Recycled
    else
      match behaviour.zeroing(c + 1)
      case Zeroed => Recycled
      case ZeroFailed(error) => Refused(error)
      case CannotZero => if behaviour.allocFails(c + 3) then Refused(c + 3) else Replaced
  }

  /** A miss fails only if the backend refuses twice, before and after all pooled buffers were released. */
  predicate MissRefused(behaviour: Behaviour, c: nat, pooled: int) {
    behaviour.allocFails(c) && (c + 1 + pooled >= 0 ==> behaviour.allocFails(c + 1 + pooled))
  }

  // ----- the ledger through each move -----

  lemma PopLedger(live: set<RawBuffer>, held: set<RawBuffer>, cache: Pools, capacity: nat, key: Key, after: Pools)
    requires Ledger(live, held, cache, capacity) && PoolAt(cache, key) != []
    requires PoolAt(after, key) == ButLast(PoolAt(cache, key)) && after - {key} == cache - {key}
    ensures var b := LastOf(PoolAt(cache, key));
      b in live && b !in held && b.key == key && Ledger(live, held + {b}, after, capacity)
  {
    var b := LastOf(PoolAt(cache, key));
    assert PoolOk(cache, key, capacity);
    forall k ensures PoolOk(after, k, capacity) {
      assert PoolOk(cache, k, capacity);
      OtherPool(cache, after, key, k);
    }
    forall x ensures Pooled(after, x) <==> Pooled(cache, x) && x != b {
      OtherPool(cache, after, key, x.key);
      if x.key == key { assert PoolAt(cache, key) == PoolAt(after, key) + [b]; }
    }
  }

  lemma OtherPool(cache: Pools, after: Pools, key: Key, k: Key)
    requires after - {key} == cache - {key}
    ensures k != key ==> PoolAt(after, k) == PoolAt(cache, k) && (k in after <==> k in cache)
  {
    assert k != key ==> (k in cache <==> k in cache - {key}) && (k in after <==> k in after - {key});
  }

  lemma PushLedger(live: set<RawBuffer>, held: set<RawBuffer>, cache: Pools, capacity: nat, b: RawBuffer, after: Pools)
    requires Ledger(live, held, cache, capacity) && b in held && !b.key.spec.nolru && |PoolAt(cache, b.key)| < capacity
    requires after == cache[b.key := PoolAt(cache, b.key) + [b]]
    ensures Ledger(live, held - {b}, after, capacity)
  {
    assert PoolOk(cache, b.key, capacity);
    forall k ensures PoolOk(after, k, capacity) { assert PoolOk(cache, k, capacity); }
    forall x ensures Pooled(after, x) <==> Pooled(cache, x) || x == b { }
  }

  /** An entry for an empty pool makes no difference. */
  lemma EntryLedger(live: set<RawBuffer>, held: set<RawBuffer>, cache: Pools, capacity: nat, key: Key, after: Pools)
    requires Ledger(live, held, cache, capacity) && !key.spec.nolru
    requires after == cache[key := PoolAt(cache, key)] || (PoolAt(cache, key) == [] && after == cache - {key})
    ensures Ledger(live, held, after, capacity)
  {
    forall k
      ensures PoolOk(after, k, capacity) && PoolAt(after, k) == PoolAt(cache, k)
    {
      assert PoolOk(cache, k, capacity);
    }
    forall x ensures Pooled(after, x) <==> Pooled(cache, x) { }
  }

  class LruAllocator {
    const inner: Backend
    const maxBuffersPerSize: nat
    var cache: Pools
    /** The buffers callers hold. */
    ghost var held: set<RawBuffer>

    ghost predicate Valid()
      reads this, inner
    {
      inner.Valid() && Ledger(inner.live, held, cache, maxBuffersPerSize)
    }

    constructor (inner: Backend, maxBuffersPerSize: nat)
      requires inner.Valid() && inner.live == {}
      ensures Valid() && held == {} && cache == map[] && this.inner == inner
        && this.maxBuffersPerSize == maxBuffersPerSize
    {
      this.inner, this.maxBuffersPerSize, cache := inner, maxBuffersPerSize, map[];
      held := {};
    }

    /** Bytes that callers hold do not change. */
    twostate predicate Untouched(bs: set<RawBuffer>)
      reads inner
    {
      forall b :: b in bs ==> inner.Bytes(b) == old(inner.Bytes(b))
    }

    /** Hands the pool's last buffer to the caller. */
    method Pop(key: Key) returns (b: RawBuffer)
      requires Valid() && PoolAt(cache, key) != []
      modifies this`cache, this`held
      ensures Valid() && b == LastOf(PoolAt(old(cache), key)) && b.key == key
      ensures PoolAt(cache, key) == ButLast(PoolAt(old(cache), key)) && cache - {key} == old(cache) - {key}
      ensures b !in old(held) && held == old(held) + {b}
    {
      ghost var before := cache;
      var buffers := cache[key];
      b := buffers[|buffers| - 1];
      buffers := buffers[..|buffers| - 1];
      cache := if buffers == [] then cache - {key} else cache[key := buffers];
      assert cache - {key} == before - {key};
      PopLedger(inner.live, held, before, maxBuffersPerSize, key, cache);
      held := held + {b};
    }

    /** Gives a held buffer back to the backend. */
    method Release(b: RawBuffer, size: nat, spec: BufferSpec)
      requires Valid() && b in held && b.key == Key(size, spec)
      modifies this`held, inner`calls, inner`live, inner`frees
      ensures Valid() && held == old(held) - {b} && inner.live == old(inner.live) - {b}
      ensures inner.calls == old(inner.calls) + 1 && inner.frees == old(inner.frees) + 1
    {
      inner.Free(b, size, spec);
      held := held - {b};
    }

    /** Releases every pooled buffer through the backend. */
    method FreeCache()
      requires Valid()
      modifies this`cache, this`held, inner`calls, inner`live, inner`frees
      ensures Valid() && cache == map[] && held == old(held) && inner.live == held
      ensures inner.calls == old(inner.calls) + |old(inner.live)| - |held|
    {
      while cache != map[]
        invariant Valid() && held == old(held)
        invariant inner.calls - old(inner.calls) == inner.frees - old(inner.frees)
        decreases |cache|
      {
        var key :| key in cache;
        DrainPool(key);
      }
    }

    method DrainPool(key: Key)
      requires Valid() && key in cache
      modifies this`cache, this`held, inner`calls, inner`live, inner`frees
      ensures Valid() && held == old(held) && cache == old(cache) - {key}
      ensures inner.calls - old(inner.calls) == inner.frees - old(inner.frees)
    {
      while PoolAt(cache, key) != []
        invariant inner.calls - old(inner.calls) == inner.frees - old(inner.frees)
        invariant Valid() && held == old(held) && cache - {key} == old(cache) - {key}
        decreases |PoolAt(cache, key)|
      {
        var b := Pop(key);
        Release(b, key.size, key.spec);
      }
      assert PoolOk(cache, key, maxBuffersPerSize);
      if key in cache {
        EntryLedger(inner.live, held, cache, maxBuffersPerSize, key, cache - {key});
        cache := cache - {key};
      }
      assert cache == cache - {key};
    }

    /** The buffer is the caller's, of the requested size and spec, and zero if that was asked. */
    ghost predicate Granted(before: set<RawBuffer>, b: RawBuffer, size: nat, spec: BufferSpec, zero: bool)
      reads this, inner
    {
      b !in before && held == before + {b} && b.key == Key(size, spec) && (zero ==> inner.Bytes(b) == Zeros(size))
    }

    /** Takes a new buffer from the backend. */
    method Fresh(size: nat, spec: BufferSpec, zero: bool) returns (r: AllocResult)
      requires Valid()
      modifies this`held, inner
      ensures Valid() && Untouched(old(held))
      ensures inner.calls == old(inner.calls) + 1 && r.Err? == inner.behaviour.allocFails(old(inner.calls))
      ensures r.Err? ==> held == old(held) && r.error == old(inner.calls) && inner.live == old(inner.live)
      ensures r.Ok? ==> Granted(old(held), r.buffer, size, spec, zero)
      ensures r.Ok? ==> r.buffer !in old(inner.live) && inner.live == old(inner.live) + {r.buffer}
    {
      r := inner.Alloc(size, spec, zero);
      if r.Ok? { held := held + {r.buffer}; }
    }

    /** The outcome is the expected one, and the backend has out what it should. */
    twostate predicate Meets(e: Expectation, b: RawBuffer, r: AllocResult)
      reads inner
    {
      match e
      case Recycled => r == Ok(b) && inner.live == old(inner.live)
      case Replaced => r.Ok? && r.buffer !in old(inner.live) - {b} && inner.live == old(inner.live) - {b} + {r.buffer}
      case Refused(error) => r == Err(error) && inner.live == old(inner.live) - {b}
    }

    /** Zeroes a popped buffer; if the backend cannot, it gets the buffer back, and a new one may replace it. */
    method ZeroOrReplace(b: RawBuffer, size: nat, spec: BufferSpec, ghost c: nat) returns (r: AllocResult)
      requires inner.calls == c + 1 && !inner.behaviour.fenceFails(c)
      requires Valid() && b in held && b.key == Key(size, spec)
      modifies this`held, inner
      ensures Valid() && Untouched(old(held) - {b})
      ensures r.Err? ==> held == old(held) - {b}
      ensures r.Ok? ==> Granted(old(held) - {b}, r.buffer, size, spec, true)
      ensures Meets(RecycleExpectation(inner.behaviour, c, true), b, r)
    {
      var outcome := inner.ZeroCached(b);
      match outcome
      case Zeroed => r := Ok(b);
      case CannotZero => r := Replace(b, size, spec);
      case ZeroFailed(error) =>
        Release(b, size, spec);
        r := Err(error);
    }

    /** Frees a buffer that cannot be zeroed and takes a new one. */
    method Replace(b: RawBuffer, size: nat, spec: BufferSpec) returns (r: AllocResult)
      requires Valid() && b in held && b.key == Key(size, spec)
      modifies this`held, inner
      ensures Valid() && Untouched(old(held) - {b})
      ensures r.Err? ==>
        held == old(held) - {b} && r.error == old(inner.calls) + 1
        && inner.live == old(inner.live) - {b}
      ensures r.Err? == inner.behaviour.allocFails(old(inner.calls) + 1)
      ensures r.Ok? ==> Granted(old(held) - {b}, r.buffer, size, spec, true)
      ensures r.Ok? ==> r.buffer !in old(inner.live) - {b} && inner.live == old(inner.live) - {b} + {r.buffer}
    {
      Release(b, size, spec);
      r := Fresh(size, spec, true);
    }

    /** A popped buffer is fenced, and zeroed if asked, before it is handed out. */
    method Recycle(b: RawBuffer, size: nat, spec: BufferSpec, zero: bool) returns (r: AllocResult)
      requires Valid() && b in held && b.key == Key(size, spec)
      modifies this`held, inner
      ensures Valid() && Untouched(old(held) - {b})
      ensures r.Err? ==> held == old(held) - {b}
      ensures r.Ok? ==> Granted(old(held) - {b}, r.buffer, size, spec, zero)
      ensures Meets(RecycleExpectation(inner.behaviour, old(inner.calls), zero), b, r)
    {
      ghost var c := inner.calls;
      var ok, error := inner.Fence(b);
      if !ok {
        Release(b, size, spec);
        return Err(error);
      }
      if zero { r := ZeroOrReplace(b, size, spec, c); } else { r := Ok(b); }
    }

    /** A cache miss: on failure the pools are emptied and the backend asked once more, keeping the first error. */
    method Miss(size: nat, spec: BufferSpec, zero: bool) returns (r: AllocResult)
      requires Valid()
      modifies this`held, this`cache, inner
      ensures Valid() && Untouched(old(held))
      ensures r.Err? <==> MissRefused(inner.behaviour, old(inner.calls), |old(inner.live)| - |old(held)|)
      ensures r.Err? ==> held == old(held) && r.error == old(inner.calls)
      ensures r.Ok? ==> Granted(old(held), r.buffer, size, spec, zero)
      ensures if inner.behaviour.allocFails(old(inner.calls)) then cache == map[] && inner.live == held
              else cache == old(cache) && inner.live == old(inner.live) + {r.buffer}
    {
      r := Fresh(size, spec, zero);
      if r.Err? {
        FreeCache();
        var again := Fresh(size, spec, zero);
        if again.Ok? { r := again; }
      }
    }

    method Alloc(size: nat, spec: BufferSpec, zero: bool) returns (r: AllocResult)
      requires Valid()
      modifies this`held, this`cache, inner
      ensures Valid() && Untouched(old(held))
      ensures r.Err? ==> held == old(held)
      ensures r.Err? && (spec.nolru || PoolAt(old(cache), Key(size, spec)) == []) ==> r.error == old(inner.calls)
      ensures r.Ok? ==> Granted(old(held), r.buffer, size, spec, zero)
      ensures spec.nolru ==> cache == old(cache) && r.Err? == inner.behaviour.allocFails(old(inner.calls))
      ensures !spec.nolru && PoolAt(old(cache), Key(size, spec)) == [] ==>
        && r.Err? == MissRefused(inner.behaviour, old(inner.calls), |old(inner.live)| - |old(held)|)
        && (cache == if inner.behaviour.allocFails(old(inner.calls)) then map[] else old(cache))
      ensures PoolAt(old(cache), Key(size, spec)) != [] ==>
        && PoolAt(cache, Key(size, spec)) == ButLast(PoolAt(old(cache), Key(size, spec)))
        && cache - {Key(size, spec)} == old(cache) - {Key(size, spec)}
        && Meets(RecycleExpectation(inner.behaviour, old(inner.calls), zero),
          LastOf(PoolAt(old(cache), Key(size, spec))), r)
    {
      var key := Key(size, spec);
      assert PoolOk(cache, key, maxBuffersPerSize);
      if spec.nolru {
        r := Fresh(size, spec, zero);
      } else if key in cache && cache[key] != [] {
        var b := Pop(key);
        r := Recycle(b, size, spec, zero);
      } else {
        r := Miss(size, spec, zero);
      }
    }

    /** Pools the buffer, or gives it back when pooling is barred or the pool is full. */
    method Free(b: RawBuffer, size: nat, spec: BufferSpec)
      requires Valid() && b in held && b.key == Key(size, spec)
      modifies this`cache, this`held, inner`calls, inner`live, inner`frees
      ensures Valid() && held == old(held) - {b}
      ensures b in inner.live <==> !spec.nolru && |PoolAt(old(cache), b.key)| < maxBuffersPerSize
      ensures PoolAt(cache, b.key) == if b in inner.live then PoolAt(old(cache), b.key) + [b]
        else PoolAt(old(cache), b.key)
      ensures cache - {b.key} == old(cache) - {b.key}
    {
      ghost var before := cache;
      assert PoolOk(cache, b.key, maxBuffersPerSize);
      if spec.nolru {
        Release(b, size, spec);
        return;
      }
      var pool := PoolAt(cache, b.key);
      if |pool| < maxBuffersPerSize {
        PushLedger(inner.live, held, cache, maxBuffersPerSize, b, cache[b.key := pool + [b]]);
        cache, held := cache[b.key := pool + [b]], held - {b};
        assert Pooled(cache, b);
      } else {
        EntryLedger(inner.live, held, cache, maxBuffersPerSize, b.key, cache[b.key := pool]);
        cache := cache[b.key := pool];
        Release(b, size, spec);
      }
      assert cache - {b.key} == before - {b.key};
    }

    /** Dropping the allocator returns everything that callers have returned. */
    method Drop()
      requires Valid()
      modifies this`cache, this`held, inner`calls, inner`live, inner`frees
      ensures Valid() && inner.live == held == old(held)
      ensures held == {} ==> inner.allocs == inner.frees
    {
      FreeCache();
    }
  }
}
