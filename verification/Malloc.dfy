/** picol/malloc.c: a bucket allocator with one free list for each power of two. The heap is bytes in
    the 64K memory of the machine, block headers included. */
module Malloc {
  import opened Machine

  const STACK_MARGIN := 200
  const SMALLEST_BUCKET := 8
  const NBUCKETS := 12
  const LARGEST := 16384
  const MEMORY := 65536

  // barrierA, next (2), cap (2), barrierZ
  const HEAD := 6

  type Byte = b: int | 0 <= b < 256

  const BARRIER_A: Byte := 65
  const BARRIER_Z: Byte := 90

  /** Panic leaves the program. Wrapped is the one case that the program does not notice: the block p that it
      is given goes round the end of memory, and the top of the heap has gone round with it. */
  datatype Outcome = Pointer(p: nat) | Done | Panic(message: string) | Wrapped(p: nat)

  function Cap(b: nat): (c: nat)
    ensures c >= SMALLEST_BUCKET
  {
    if b == 0 then SMALLEST_BUCKET else 2 * Cap(b - 1)
  }

  function Size(b: nat): nat {
    HEAD + Cap(b)
  }

  lemma {:induction false} CapGrows(b: nat, c: nat)
    requires b < c
    ensures 2 * Cap(b) <= Cap(c)
    decreases c
  {
    if b < c - 1 {
      CapGrows(b, c - 1);
    }
  }

  lemma CapLargest()
    ensures Cap(NBUCKETS - 1) == LARGEST
  {
    assert Cap(3) == 64;
    assert Cap(6) == 512;
    assert Cap(9) == 4096;
  }

  /** The first bucket from b on whose blocks hold n bytes. */
  function FirstFit(n: int, b: nat): (f: nat)
    requires b <= NBUCKETS
    ensures b <= f <= NBUCKETS && (f < NBUCKETS ==> n <= Cap(f))
    decreases NBUCKETS - b
  {
    if b == NBUCKETS || n <= Cap(b) then b else FirstFit(n, b + 1)
  }

  lemma {:induction false} FitsBelow(n: int, b: nat)
    requires b < NBUCKETS
    ensures FirstFit(n, b) < NBUCKETS <==> n <= LARGEST
    decreases NBUCKETS - b
  {
    CapLargest();
    if b < NBUCKETS - 1 {
      CapGrows(b, NBUCKETS - 1);
      FitsBelow(n, b + 1);
    }
  }

  lemma {:induction false} FitsItself(b: nat, from: nat)
    requires from <= b < NBUCKETS
    ensures FirstFit(Cap(b), from) == b
    decreases b - from
  {
    if from < b {
      CapGrows(from, b);
      FitsItself(b, from + 1);
    }
  }

  lemma CapInRange(b: nat)
    requires b < NBUCKETS
    ensures Cap(b) <= LARGEST && (b < NBUCKETS - 1 ==> 2 * Cap(b) <= LARGEST)
  {
    CapLargest();
    if b < NBUCKETS - 1 {
      CapGrows(b, NBUCKETS - 1);
    }
  }

  /** which_bucket: the first bucket whose blocks are large enough. */
  method WhichBucket(n: Int16) returns (ok: bool, b: nat, cap: Int16)
    ensures ok <==> n <= LARGEST
    ensures ok ==> b == FirstFit(n, 0) < NBUCKETS && cap == Cap(b) <= LARGEST && n <= cap
  {
    b, cap := 0, SMALLEST_BUCKET;
    FitsBelow(n, 0);
    while b < NBUCKETS
      invariant b <= NBUCKETS && (b < NBUCKETS ==> cap == Cap(b)) && FirstFit(n, b) == FirstFit(n, 0)
    {
      CapInRange(b);
      if n <= cap {
        break;
      }
      cap := Wrap16(cap as int + cap as int);
      b := b + 1;
    }
    ok := b < NBUCKETS;
  }

  // ----- Headers in memory -----

  function Word(m: seq<Byte>, a: nat): nat
    requires a + 2 <= |m|
  {
    m[a] as int * 256 + m[a + 1] as int
  }

  function Next(m: seq<Byte>, a: nat): nat
    requires a + HEAD <= |m|
  {
    Word(m, a + 1)
  }

  function CapField(m: seq<Byte>, a: nat): nat
    requires a + HEAD <= |m|
  {
    Word(m, a + 3)
  }

  predicate Barriers(m: seq<Byte>, a: nat)
    requires a + HEAD <= |m|
  {
    m[a] == BARRIER_A && m[a + 5] == BARRIER_Z
  }

  /** A free list in memory: every header points at the next one and the last one at NULL. */
  predicate Chained(m: seq<Byte>, head: nat, list: seq<nat>)
    decreases |list|
  {
    if list == [] then head == 0
    else head == list[0] && head > 0 && head + HEAD <= |m| && Chained(m, Next(m, head), list[1..])
  }

  /** Nothing outside lo..hi has changed. */
  ghost predicate SameOutside(m: seq<Byte>, m': seq<Byte>, lo: nat, hi: nat) {
    |m'| == |m| && forall k :: 0 <= k < |m| && !(lo <= k < hi) ==> m'[k] == m[k]
  }

  lemma {:induction false} ChainKept(m: seq<Byte>, m': seq<Byte>, lo: nat, hi: nat, head: nat, list: seq<nat>)
    requires SameOutside(m, m', lo, hi) && Chained(m, head, list)
    requires forall k :: 0 <= k < |list| ==> list[k] + 3 <= lo || hi <= list[k] + 1
    ensures Chained(m', head, list)
    decreases |list|
  {
    if list != [] {
      assert list[0] + 3 <= lo || hi <= list[0] + 1;
      forall k | 0 <= k < |list[1..]|
        ensures list[1..][k] + 3 <= lo || hi <= list[1..][k] + 1
      {
        assert list[1..][k] == list[k + 1];
      }
      ChainKept(m, m', lo, hi, Next(m, head), list[1..]);
    }
  }

  lemma Within(m: seq<Byte>, m': seq<Byte>, lo: nat, hi: nat, from: nat, to: nat)
    requires SameOutside(m, m', lo, hi) && from <= lo && hi <= to
    ensures SameOutside(m, m', from, to)
  {
  }

  /** The c bytes of the block at h are at the start of the c' bytes of the block at h', followed by
      zeros, and nothing outside the two blocks has changed. */
  ghost predicate MovedBytes(m: seq<Byte>, m': seq<Byte>, h: nat, c: nat, h': nat, c': nat) {
    && |m| == |m'| && h + HEAD + c <= |m| && h' + HEAD + c' <= |m| && c <= c'
    && m'[h' + HEAD..h' + HEAD + c] == m[h + HEAD..h + HEAD + c]
    && (forall k :: h' + HEAD + c <= k < h' + HEAD + c' ==> m'[k] == 0)
    && forall k :: 0 <= k < |m| && !(h <= k < h + HEAD + c) && !(h' <= k < h' + HEAD + c') ==> m'[k] == m[k]
  }

  ghost predicate Transferred(m: seq<Byte>, m': seq<Byte>, h: nat, c: nat, z: nat) {
    && |m| == |m'| == MEMORY && h + HEAD + c <= MEMORY && z + c <= MEMORY
    && m'[z..z + c] == m[h + HEAD..h + HEAD + c]
    && forall k :: 0 <= k < MEMORY && !(h <= k < h + HEAD + c) && !(z <= k < z + c) ==> m'[k] == m[k]
  }

  lemma TransferredBytes(m: seq<Byte>, m': seq<Byte>, m'': seq<Byte>, h: nat, c: nat, z: nat)
    requires |m| == MEMORY && h + HEAD + c <= MEMORY && z + c <= MEMORY && (h + HEAD + c <= z || z + c <= h)
    requires SameOutside(m, m', z, z + c) && m'[z..z + c] == m[h + HEAD..h + HEAD + c]
    requires SameOutside(m', m'', h, h + HEAD + c)
    ensures Transferred(m, m'', h, c, z)
  {
    assert m''[z..z + c] == m'[z..z + c];
  }

  lemma Bytes(m: seq<Byte>, m': seq<Byte>, m'': seq<Byte>, h: nat, c: nat, h': nat, c': nat)
    requires |m| == MEMORY && h + HEAD + c <= MEMORY && h' + HEAD + c' <= MEMORY && c <= c'
    requires h + HEAD + c <= h' || h' + HEAD + c' <= h
    requires SameOutside(m, m', h', h' + HEAD + c')
    requires forall k :: h' + HEAD <= k < h' + HEAD + c' ==> m'[k] == 0
    requires Transferred(m', m'', h, c, h' + HEAD)
    ensures MovedBytes(m, m'', h, c, h', c')
  {
    assert m'[h + HEAD..h + HEAD + c] == m[h + HEAD..h + HEAD + c];
  }

  // ----- The layout of the heap -----

  /** The blocks, by header address, with their buckets: `order` lists them as they fill lo..hi. */
  ghost predicate Spans(buckets: map<nat, nat>, order: seq<nat>, lo: nat, hi: nat)
    decreases |order|
  {
    if order == [] then lo == hi
    else
      var last := order[|order| - 1];
      last in buckets && hi == last + Size(buckets[last]) && Spans(buckets, order[..|order| - 1], lo, last)
  }

  ghost predicate Tiled(buckets: map<nat, nat>, order: seq<nat>, lo: nat, hi: nat) {
    && Spans(buckets, order, lo, hi)
    && (forall a :: a in buckets <==> a in order)
    && (forall a :: a in buckets ==> buckets[a] < NBUCKETS && lo <= a && a + Size(buckets[a]) <= hi)
    && (forall a, c :: a in buckets && c in buckets && a < c ==> a + Size(buckets[a]) <= c)
  }

  /** A block's header: whole barriers, and its capacity, or 0 when it is free. */
  ghost predicate Headed(m: seq<Byte>, buckets: map<nat, nat>, live: set<nat>) {
    forall a :: a in buckets ==>
      && a + HEAD <= |m| && Barriers(m, a)
      && CapField(m, a) == if a in live then Cap(buckets[a]) else 0
  }

  /** Every block is live, or on the free list of its bucket exactly once. */
  ghost predicate Partitioned(buckets: map<nat, nat>, live: set<nat>, lists: seq<seq<nat>>) {
    && |lists| == NBUCKETS && live <= buckets.Keys
    && (forall a :: a in buckets && a !in live && buckets[a] < NBUCKETS ==> a in lists[buckets[a]])
    && (forall b, k :: 0 <= b < NBUCKETS && 0 <= k < |lists[b]| ==>
      lists[b][k] in buckets && buckets[lists[b][k]] == b && lists[b][k] !in live)
    && (forall b, j, k :: 0 <= b < NBUCKETS && 0 <= j < k < |lists[b]| ==> lists[b][j] != lists[b][k])
  }

  /** The counters of a bucket, which are 16-bit ints, against the length of its free list. */
  predicate Balanced(brk: Int16, alloc: Int16, freed: Int16, list: nat) {
    (brk - (alloc - freed) - list) % MEMORY == 0
  }

  lemma OneMoreAllocated(brk: Int16, alloc: Int16, freed: Int16, list: nat)
    requires Balanced(brk, alloc, freed, list)
    ensures list > 0 ==> Balanced(brk, Wrap16(alloc as int + 1), freed, list - 1)
    ensures Balanced(Wrap16(brk as int + 1), Wrap16(alloc as int + 1), freed, list)
    ensures Balanced(brk, alloc, Wrap16(freed as int + 1), list + 1)
  {
    var a, f, b := alloc as int + 1, freed as int + 1, brk as int + 1;
    assert Wrap16(a) as int == if a < 32768 then a else a - MEMORY;
    assert Wrap16(f) as int == if f < 32768 then f else f - MEMORY;
    assert Wrap16(b) as int == if b < 32768 then b else b - MEMORY;
  }

  lemma {:induction false} SpansMore(buckets: map<nat, nat>, order: seq<nat>, lo: nat, hi: nat, more: map<nat, nat>)
    requires Spans(buckets, order, lo, hi) && forall a :: a in buckets ==> a in more && more[a] == buckets[a]
    ensures Spans(more, order, lo, hi)
    decreases |order|
  {
    if order != [] {
      SpansMore(buckets, order[..|order| - 1], lo, order[|order| - 1], more);
    }
  }

  /** Every byte of the heap is in a block. */
  lemma {:induction false} Owned(buckets: map<nat, nat>, order: seq<nat>, lo: nat, hi: nat, k: nat) returns (a: nat)
    requires Spans(buckets, order, lo, hi) && lo <= k < hi
    ensures a in order && a in buckets && a <= k < a + Size(buckets[a])
    decreases |order|
  {
    a := order[|order| - 1];
    if k < a {
      a := Owned(buckets, order[..|order| - 1], lo, a, k);
    }
  }

  /** A layout has one top. */
  lemma SpansOneTop(buckets: map<nat, nat>, order: seq<nat>, lo: nat, hi: nat, hi': nat)
    requires Spans(buckets, order, lo, hi) && hi != hi'
    ensures !Spans(buckets, order, lo, hi')
  {
  }

  lemma TiledMore(buckets: map<nat, nat>, order: seq<nat>, lo: nat, hi: nat, b: nat)
    requires Tiled(buckets, order, lo, hi) && b < NBUCKETS && lo <= hi
    ensures hi !in buckets && Tiled(buckets[hi := b], order + [hi], lo, hi + Size(b))
  {
    var more := buckets[hi := b];
    SpansMore(buckets, order, lo, hi, more);
    assert (order + [hi])[..|order|] == order;
  }

  lemma Apart(buckets: map<nat, nat>, order: seq<nat>, lo: nat, hi: nat, a: nat, c: nat)
    requires Tiled(buckets, order, lo, hi) && a in buckets && c in buckets && a != c
    ensures a + Size(buckets[a]) <= c || c + Size(buckets[c]) <= a
  {
  }

  /** A change inside one block leaves the header of every other block. */
  lemma HeadsKept(m: seq<Byte>, m': seq<Byte>, buckets: map<nat, nat>, order: seq<nat>, lo: nat, hi: nat, a: nat,
                  live: set<nat>, live': set<nat>)
    requires Tiled(buckets, order, lo, hi) && Headed(m, buckets, live) && a in buckets
    requires SameOutside(m, m', a, a + Size(buckets[a]))
    requires forall c :: c in buckets && c != a ==> (c in live <==> c in live')
    requires a + HEAD <= |m'| && Barriers(m', a) && CapField(m', a) == if a in live' then Cap(buckets[a]) else 0
    ensures Headed(m', buckets, live')
  {
    forall c | c in buckets && c != a
      ensures c + HEAD <= |m'| && Barriers(m', c) && CapField(m', c) == CapField(m, c)
    {
      assert c + HEAD <= a || a + Size(buckets[a]) <= c;
    }
  }

  /** And a change that leaves the link of its own header leaves every free list. */
  lemma ChainsKept(m: seq<Byte>, m': seq<Byte>, buckets: map<nat, nat>, order: seq<nat>, lo: nat, hi: nat, a: nat,
                   live: set<nat>, lists: seq<seq<nat>>, b: nat, head: nat, list: seq<nat>)
    requires Tiled(buckets, order, lo, hi) && Partitioned(buckets, live, lists) && a in buckets && b < NBUCKETS
    requires SameOutside(m, m', a, a + Size(buckets[a])) && Chained(m, head, list)
    requires forall k :: 0 <= k < |list| ==> list[k] in buckets && list[k] != a
    ensures Chained(m', head, list)
  {
    forall k | 0 <= k < |list|
      ensures list[k] + 3 <= a || a + Size(buckets[a]) <= list[k] + 1
    {
      assert list[k] < a || a < list[k];
    }
    ChainKept(m, m', a, a + Size(buckets[a]), head, list);
  }

  /** The first block of free list b, changed everywhere but in its barriers and link, is live. */
  lemma Taken(m: seq<Byte>, m': seq<Byte>, buckets: map<nat, nat>, order: seq<nat>, lo: nat, hi: nat,
              live: set<nat>, lists: seq<seq<nat>>, heads: seq<nat>, b: nat)
    requires Tiled(buckets, order, lo, hi) && Headed(m, buckets, live) && Partitioned(buckets, live, lists)
    requires |m| == MEMORY && |heads| == NBUCKETS && b < NBUCKETS && lists[b] != [] && Cap(b) < MEMORY
    requires forall c :: 0 <= c < NBUCKETS ==> Chained(m, heads[c], lists[c])
    requires var h := lists[b][0];
      && h in buckets && SameOutside(m, m', h, h + Size(b)) && h + HEAD <= |m|
      && Barriers(m', h) && CapField(m', h) == Cap(b) && Next(m', h) == Next(m, h)
    ensures var h, rest := lists[b][0], lists[b][1..];
      && Headed(m', buckets, live + {h}) && Partitioned(buckets, live + {h}, lists[b := rest])
      && Chained(m', Next(m', h), rest)
      && forall c :: 0 <= c < NBUCKETS && c != b ==> Chained(m', heads[c], lists[c])
  {
    hide Cap, Tiled, Barriers, CapField;
    var h, rest := lists[b][0], lists[b][1..];
    HeadsKept(m, m', buckets, order, lo, hi, h, live, live + {h});
    forall c | 0 <= c < NBUCKETS && c != b
      ensures Chained(m', heads[c], lists[c])
    {
      ChainsKept(m, m', buckets, order, lo, hi, h, live, lists, c, heads[c], lists[c]);
    }
    assert forall k :: 0 <= k < |rest| ==> rest[k] == lists[b][k + 1];
    assert Chained(m, heads[b], lists[b]);
    ChainsKept(m, m', buckets, order, lo, hi, h, live, lists, b, Next(m, h), rest);
  }

  lemma FirstFree(m: seq<Byte>, buckets: map<nat, nat>, order: seq<nat>, lo: nat, hi: nat,
                  live: set<nat>, lists: seq<seq<nat>>, head: nat, b: nat)
    requires Tiled(buckets, order, lo, hi) && Headed(m, buckets, live) && Partitioned(buckets, live, lists)
    requires b < NBUCKETS && Chained(m, head, lists[b]) && head != 0
    ensures lists[b] != [] && lists[b][0] == head && head in buckets && buckets[head] == b && head !in live
    ensures head + Size(b) <= hi && head + HEAD <= |m| && Barriers(m, head)
  {
    hide Cap;
  }

  /** A change above the heap leaves it as it was. */
  lemma BelowKept(m: seq<Byte>, m': seq<Byte>, buckets: map<nat, nat>, order: seq<nat>, lo: nat, hi: nat, top: nat,
                  live: set<nat>)
    requires Tiled(buckets, order, lo, hi) && Headed(m, buckets, live) && SameOutside(m, m', hi, top)
    ensures Headed(m', buckets, live)
  {
    hide Cap;
    forall c | c in buckets
      ensures c + HEAD <= |m'| && Barriers(m', c) && CapField(m', c) == CapField(m, c)
    {
      assert c + HEAD <= hi;
    }
  }

  lemma ChainBelowKept(m: seq<Byte>, m': seq<Byte>, buckets: map<nat, nat>, order: seq<nat>, lo: nat, hi: nat, top: nat,
                       live: set<nat>, lists: seq<seq<nat>>, b: nat, head: nat)
    requires Tiled(buckets, order, lo, hi) && Partitioned(buckets, live, lists) && SameOutside(m, m', hi, top)
    requires b < NBUCKETS && Chained(m, head, lists[b])
    ensures Chained(m', head, lists[b])
  {
    forall k | 0 <= k < |lists[b]|
      ensures lists[b][k] + 3 <= hi
    {
      assert lists[b][k] in buckets;
    }
    ChainKept(m, m', hi, top, head, lists[b]);
  }

  lemma PartitionedMore(buckets: map<nat, nat>, live: set<nat>, lists: seq<seq<nat>>, h: nat, b: nat)
    requires Partitioned(buckets, live, lists) && h !in buckets && b < NBUCKETS
    ensures Partitioned(buckets[h := b], live + {h}, lists)
  {
  }

  /** A live block whose header now says free and points at the old head of its list. */
  lemma Freed(m: seq<Byte>, m': seq<Byte>, buckets: map<nat, nat>, order: seq<nat>, lo: nat, hi: nat,
              live: set<nat>, lists: seq<seq<nat>>, heads: seq<nat>, h: nat)
    requires Tiled(buckets, order, lo, hi) && Headed(m, buckets, live) && Partitioned(buckets, live, lists)
    requires |m| == MEMORY && |heads| == NBUCKETS && h in live && 0 < h && h + HEAD <= |m|
    requires forall c :: 0 <= c < NBUCKETS ==> Chained(m, heads[c], lists[c])
    requires h in buckets && buckets[h] < NBUCKETS && SameOutside(m, m', h, h + Size(buckets[h]))
    requires Barriers(m', h) && CapField(m', h) == 0 && Next(m', h) == heads[buckets[h]]
    ensures var b := buckets[h];
      && Headed(m', buckets, live - {h}) && Partitioned(buckets, live - {h}, lists[b := [h] + lists[b]])
      && Chained(m', h, [h] + lists[b])
      && forall c :: 0 <= c < NBUCKETS && c != b ==> Chained(m', heads[c], lists[c])
  {
    hide Cap, Tiled, Barriers, CapField;
    HeadsKept(m, m', buckets, order, lo, hi, h, live, live - {h});
    forall c | 0 <= c < NBUCKETS
      ensures Chained(m', heads[c], lists[c])
    {
      ChainsKept(m, m', buckets, order, lo, hi, h, live, lists, c, heads[c], lists[c]);
    }
    assert ([h] + lists[buckets[h]])[1..] == lists[buckets[h]];
  }

  /** A change in the payload of a block leaves every header. */
  lemma PayloadKept(m: seq<Byte>, m': seq<Byte>, buckets: map<nat, nat>, order: seq<nat>, lo: nat, hi: nat,
                    live: set<nat>, lists: seq<seq<nat>>, heads: seq<nat>, h: nat)
    requires Tiled(buckets, order, lo, hi) && Headed(m, buckets, live) && Partitioned(buckets, live, lists)
    requires |heads| == NBUCKETS && h in buckets && SameOutside(m, m', h + HEAD, h + Size(buckets[h]))
    requires forall c :: 0 <= c < NBUCKETS ==> Chained(m, heads[c], lists[c])
    ensures Headed(m', buckets, live)
    ensures forall c :: 0 <= c < NBUCKETS ==> Chained(m', heads[c], lists[c])
  {
    hide Cap;
    HeadsKept(m, m', buckets, order, lo, hi, h, live, live);
    forall c | 0 <= c < NBUCKETS
      ensures Chained(m', heads[c], lists[c])
    {
      forall k | 0 <= k < |lists[c]|
        ensures lists[c][k] + 3 <= h + HEAD || h + Size(buckets[h]) <= lists[c][k] + 1
      {
        assert lists[c][k] in buckets;
      }
      ChainKept(m, m', h + HEAD, h + Size(buckets[h]), heads[c], lists[c]);
    }
  }

  predicate Owns(buckets: map<nat, nat>, a: nat, k: nat) {
    a in buckets && a <= k < a + Size(buckets[a])
  }

  /** Every byte of the heap is in exactly one block. */
  lemma OneOwner(buckets: map<nat, nat>, order: seq<nat>, lo: nat, hi: nat, k: nat)
    requires Tiled(buckets, order, lo, hi) && lo <= k < hi
    ensures exists a :: Owns(buckets, a, k) && (forall c :: Owns(buckets, c, k) ==> c == a)
  {
    hide Cap;
    var a := Owned(buckets, order, lo, hi, k);
    assert Owns(buckets, a, k);
  }

  /** A block just above the heap, with a whole header. */
  lemma Broken(m: seq<Byte>, m': seq<Byte>, buckets: map<nat, nat>, order: seq<nat>, lo: nat, hi: nat,
               live: set<nat>, lists: seq<seq<nat>>, heads: seq<nat>, b: nat)
    requires Tiled(buckets, order, lo, hi) && Headed(m, buckets, live) && Partitioned(buckets, live, lists)
    requires lo <= hi && hi + Size(b) <= |m| && |heads| == NBUCKETS && b < NBUCKETS
    requires forall c :: 0 <= c < NBUCKETS ==> Chained(m, heads[c], lists[c])
    requires SameOutside(m, m', hi, hi + Size(b)) && Barriers(m', hi) && CapField(m', hi) == Cap(b)
    ensures hi !in buckets && hi !in live
    ensures Tiled(buckets[hi := b], order + [hi], lo, hi + Size(b))
    ensures Headed(m', buckets[hi := b], live + {hi}) && Partitioned(buckets[hi := b], live + {hi}, lists)
    ensures forall c :: 0 <= c < NBUCKETS ==> Chained(m', heads[c], lists[c])
  {
    TiledMore(buckets, order, lo, hi, b);
    assert live <= buckets.Keys;
    hide Cap, Barriers, CapField, Tiled, Partitioned, SameOutside;
    BelowKept(m, m', buckets, order, lo, hi, hi + Size(b), live);
    PartitionedMore(buckets, live, lists, hi, b);
    forall c | 0 <= c < NBUCKETS
      ensures Chained(m', heads[c], lists[c])
    {
      ChainBelowKept(m, m', buckets, order, lo, hi, hi + Size(b), live, lists, c, heads[c]);
    }
  }

  // ----- Round the end of memory -----

  /** How far address a is from h, going up and round. */
  function Offset(h: nat, a: nat): (o: nat)
    requires h < MEMORY && a < MEMORY
    ensures o < MEMORY
  {
    if h <= a then a - h else a + MEMORY - h
  }

  function Address(h: nat, k: nat): (a: nat)
    requires h < MEMORY && k < MEMORY
    ensures a < MEMORY && Offset(h, a) == k
  {
    if h + k < MEMORY then h + k else h + k - MEMORY
  }

  /** What malloc puts at each place of a fresh block: the header, and zeros. */
  function FreshByte(cap: nat, k: nat): Byte
    requires cap < MEMORY
  {
    if k == 0 then BARRIER_A
    else if k == 3 then cap / 256
    else if k == 4 then cap % 256
    else if k == 5 then BARRIER_Z
    else 0
  }

  /** A fresh block at h that goes round: its bytes, and all others as they were. */
  ghost predicate PutRound(m: seq<Byte>, m': seq<Byte>, h: nat, cap: nat) {
    && |m| == |m'| == MEMORY && h < MEMORY && cap < MEMORY
    && forall a :: 0 <= a < MEMORY ==>
         m'[a] == if Offset(h, a) < HEAD + cap then FreshByte(cap, Offset(h, a)) else m[a]
  }

  /** Where the top of the heap is after a block at `brk` that goes round. */
  function TopAfter(brk: nat, b: nat): int {
    brk + Size(b) - MEMORY
  }

  lemma SizeInRange(b: nat)
    requires b < NBUCKETS
    ensures Size(b) <= HEAD + LARGEST
  {
    CapInRange(b);
  }

  /** The block takes all memory from the old top of the heap to the end, so the stack that is there, and
      whatever is below the new top, which is below the old one. It takes bytes of a block that is in use
      if and only if the new top is above the bottom of the heap. No heap with that top contains it. */
  lemma RoundDamage(buckets: map<nat, nat>, order: seq<nat>, lo: nat, brk: nat, b: nat)
    requires Tiled(buckets, order, lo, brk) && 0 < lo <= brk < MEMORY && b < NBUCKETS && brk + Size(b) >= MEMORY
    ensures TopAfter(brk, b) < brk
    ensures forall k :: 0 <= k < MEMORY ==> (Offset(brk, k) < Size(b) <==> k >= brk || k < TopAfter(brk, b))
    ensures (exists a, k :: Owns(buckets, a, k) && Offset(brk, k) < Size(b)) <==> TopAfter(brk, b) > lo
    ensures forall buckets', order' :: Tiled(buckets', order', lo, TopAfter(brk, b)) ==> brk !in buckets'
  {
    hide Cap;
    SizeInRange(b);
    if TopAfter(brk, b) > lo {
      var a := Owned(buckets, order, lo, brk, lo);
      assert Owns(buckets, a, lo);
    }
  }

  /** If the new top is not above the bottom, the next fresh block, of bucket c, takes bytes of a block that
      is in use if and only if there is one and it reaches over the bottom. */
  lemma NextDamage(buckets: map<nat, nat>, order: seq<nat>, lo: nat, brk: nat, b: nat, c: nat)
    requires Tiled(buckets, order, lo, brk) && 0 < lo <= brk < MEMORY && b < NBUCKETS && brk + Size(b) >= MEMORY
    requires TopAfter(brk, b) <= lo
    ensures (exists a, k: nat :: Owns(buckets, a, k) && TopAfter(brk, b) <= k < TopAfter(brk, b) + Size(c))
       <==> lo < brk && TopAfter(brk, b) + Size(c) > lo
  {
    hide Cap;
    if lo < brk && TopAfter(brk, b) + Size(c) > lo {
      var a := Owned(buckets, order, lo, brk, lo);
      assert Owns(buckets, a, lo);
    }
  }

  class Heap {
    var memory: seq<Byte>
    var heapMin: nat
    var heapBrk: nat
    var heapMax: nat
    const freelist: array<nat>
    const numAlloc: array<Int16>
    const numFree: array<Int16>
    const numBrk: array<Int16>
    ghost var buckets: map<nat, nat>
    ghost var order: seq<nat>
    ghost var live: set<nat>
    ghost var lists: seq<seq<nat>>

    ghost predicate Tables()
      reads this
    {
      && freelist.Length == numAlloc.Length == numFree.Length == numBrk.Length == NBUCKETS
      && numAlloc != numFree && numAlloc != numBrk && numFree != numBrk
      && |memory| == MEMORY && 0 < heapMin <= heapBrk < MEMORY && heapMax < MEMORY
    }

    ghost predicate Laid()
      reads this
    {
      && Tiled(buckets, order, heapMin, heapBrk) && Headed(memory, buckets, live)
      && Partitioned(buckets, live, lists)
    }

    ghost predicate Linked()
      reads this, freelist
      requires freelist.Length == NBUCKETS
    {
      |lists| == NBUCKETS && forall b :: 0 <= b < NBUCKETS ==> Chained(memory, freelist[b], lists[b])
    }

    ghost predicate Counted()
      reads this, numAlloc, numFree, numBrk
      requires Tables()
    {
      |lists| == NBUCKETS && forall b :: 0 <= b < NBUCKETS ==> Balanced(numBrk[b], numAlloc[b], numFree[b], |lists[b]|)
    }

    ghost predicate Valid()
      reads this, freelist, numAlloc, numFree, numBrk
    {
      Tables() && Laid() && Linked() && Counted()
    }

    constructor (bssEnd: nat, top: nat)
      requires 0 < bssEnd < MEMORY && top < MEMORY
      ensures Valid() && heapMin == heapBrk == bssEnd && heapMax == top && buckets == map[]
      ensures fresh(freelist) && fresh(numAlloc) && fresh(numFree) && fresh(numBrk)
    {
      memory := seq(MEMORY, _ => 0);
      heapMin, heapBrk, heapMax := bssEnd, bssEnd, top;
      freelist := new nat[NBUCKETS](_ => 0);
      numAlloc := new Int16[NBUCKETS](_ => 0);
      numFree := new Int16[NBUCKETS](_ => 0);
      numBrk := new Int16[NBUCKETS](_ => 0);
      buckets, order, live := map[], [], {};
      lists := seq(NBUCKETS, _ => []);
    }

    // ----- Memory -----

    method Bzero(p: nat, n: nat)
      requires p + n <= |memory|
      modifies this`memory
      ensures SameOutside(old(memory), memory, p, p + n)
      ensures forall k :: p <= k < p + n ==> memory[k] == 0
    {
      for i := p to p + n
        invariant SameOutside(old(memory), memory, p, p + n)
        invariant forall k :: p <= k < i ==> memory[k] == 0
      {
        memory := memory[i := 0];
      }
    }

    method Memcpy(d: nat, s: nat, n: nat)
      requires d + n <= |memory| && s + n <= |memory| && (s + n <= d || d + n <= s)
      modifies this`memory
      ensures SameOutside(old(memory), memory, d, d + n)
      ensures memory[d..d + n] == old(memory)[s..s + n]
    {
      for i := 0 to n
        invariant SameOutside(old(memory), memory, d, d + n)
        invariant forall k :: d <= k < d + i ==> memory[k] == old(memory)[s + (k - d)]
      {
        memory := memory[d + i := memory[s + i]];
      }
    }

    method SetNext(h: nat, next: nat)
      requires h + HEAD <= |memory| && next < MEMORY
      modifies this`memory
      ensures SameOutside(old(memory), memory, h + 1, h + 3) && Next(memory, h) == next
    {
      memory := memory[h + 1 := next / 256][h + 2 := next % 256];
    }

    method SetCap(h: nat, cap: nat)
      requires h + HEAD <= |memory| && cap < MEMORY
      modifies this`memory
      ensures SameOutside(old(memory), memory, h + 3, h + 5) && CapField(memory, h) == cap
    {
      memory := memory[h + 3 := cap / 256][h + 4 := cap % 256];
    }

    /** heap_check_block, without its panic */
    method CheckBlock(h: nat, cap: nat) returns (ok: bool)
      requires h + HEAD <= |memory|
      ensures ok <==> Barriers(memory, h) && (cap == 0 || CapField(memory, h) == cap)
    {
      ok := !(memory[h] != BARRIER_A || memory[h + 5] != BARRIER_Z || (cap != 0 && CapField(memory, h) != cap));
    }

    // ----- malloc -----

    method Renew(h: nat, cap: nat) returns (ok: bool, next: nat)
      requires h + HEAD + cap <= |memory| == MEMORY && 0 < cap && Barriers(memory, h)
      modifies this`memory
      ensures |memory| == MEMORY
      ensures ok && next == Next(memory, h) == old(Next(memory, h)) && Barriers(memory, h) && CapField(memory, h) == cap
      ensures SameOutside(old(memory), memory, h, h + HEAD + cap)
      ensures forall k :: h + HEAD <= k < h + HEAD + cap ==> memory[k] == 0
    {
      SetCap(h, cap);
      ok := CheckBlock(h, cap);
      next := Next(memory, h);
      Bzero(h + HEAD, cap);
    }

    method NewHeader(h: nat, cap: nat)
      requires h + HEAD + cap <= |memory| == MEMORY && 0 < cap
      modifies this`memory
      ensures |memory| == MEMORY && Barriers(memory, h) && CapField(memory, h) == cap
      ensures SameOutside(old(memory), memory, h, h + HEAD + cap)
      ensures forall k :: h + HEAD <= k < h + HEAD + cap ==> memory[k] == 0
    {
      memory := memory[h := BARRIER_A];
      memory := memory[h + 5 := BARRIER_Z];
      SetCap(h, cap);
      SetNext(h, 0);
      Bzero(h + HEAD, cap);
    }

    /** An unused block of bucket b becomes live. */
    method Reuse(b: nat, cap: nat) returns (ok: bool, h: nat)
      requires Tables() && Laid() && Linked() && b < NBUCKETS && cap == Cap(b) <= LARGEST && freelist[b] != 0
      modifies this`memory, this`live, this`lists, freelist
      ensures Tables() && Laid() && Linked() && ok
      ensures old(lists)[b] != [] && h == old(lists)[b][0] && lists == old(lists)[b := old(lists)[b][1..]]
      ensures h in buckets && buckets[h] == b && h !in old(live) && live == old(live) + {h} && h + Size(b) <= heapBrk
      ensures SameOutside(old(memory), memory, h, h + Size(b))
      ensures forall k :: h + HEAD <= k < h + Size(b) ==> memory[k] == 0
    {
      hide Cap, Tiled, Headed, Partitioned, Chained, SameOutside, Barriers, CapField, Word;
      h := freelist[b];
      FirstFree(memory, buckets, order, heapMin, heapBrk, live, lists, h, b);
      var next;
      ok, next := Renew(h, cap);
      freelist[b] := next;
      Taken(old(memory), memory, buckets, order, heapMin, heapBrk, live, lists, old(freelist[..]), b);
      live := live + {h};
      lists := lists[b := lists[b][1..]];
    }

    /** Fresh memory becomes a live block at the top of the heap. */
    method Break(b: nat, cap: nat) returns (h: nat)
      requires Tables() && Laid() && Linked() && b < NBUCKETS && cap == Cap(b) <= LARGEST
      requires heapBrk + Size(b) < MEMORY
      modifies this`memory, this`live, this`buckets, this`order, this`heapBrk
      ensures Tables() && Laid() && Linked()
      ensures h == old(heapBrk) && heapBrk == h + Size(b) && h !in old(buckets) && h !in old(live)
      ensures buckets == old(buckets)[h := b] && order == old(order) + [h] && live == old(live) + {h}
      ensures SameOutside(old(memory), memory, h, h + Size(b))
      ensures forall k :: h + HEAD <= k < h + Size(b) ==> memory[k] == 0
    {
      hide Cap, Tiled, Headed, Partitioned, Chained, SameOutside, Barriers, CapField, Word;
      h := heapBrk;
      heapBrk := heapBrk + (cap + HEAD);
      NewHeader(h, cap);
      Broken(old(memory), memory, buckets, order, heapMin, h, live, lists, freelist[..], b);
      buckets := buckets[h := b];
      order := order + [h];
      live := live + {h};
    }

    method PutHeaderRound(h: nat, cap: nat)
      requires |memory| == MEMORY && h < MEMORY && cap <= LARGEST
      modifies this`memory
      ensures PutRound(old(memory), memory, h, cap)
    {
      memory := memory[h := BARRIER_A];
      memory := memory[Address(h, 5) := BARRIER_Z];
      memory := memory[Address(h, 3) := cap / 256][Address(h, 4) := cap % 256];
      memory := memory[Address(h, 1) := 0][Address(h, 2) := 0];
      for k := HEAD to HEAD + cap
        invariant |memory| == MEMORY
        invariant forall a :: 0 <= a < MEMORY ==>
          memory[a] == if Offset(h, a) < k then FreshByte(cap, Offset(h, a)) else old(memory)[a]
      {
        memory := memory[Address(h, k) := 0];
      }
    }

    /** Fresh memory beyond the end: header and payload go on at address 0. */
    method BreakRound(b: nat, cap: nat) returns (h: nat)
      requires Tables() && b < NBUCKETS && cap == Cap(b) <= LARGEST && heapBrk + Size(b) >= MEMORY
      modifies this`memory, this`heapBrk
      ensures h == old(heapBrk) && heapBrk == TopAfter(h, b) && PutRound(old(memory), memory, h, cap)
    {
      hide Cap, PutRound;
      h := heapBrk;
      heapBrk := (heapBrk + (cap + HEAD)) % MEMORY;
      PutHeaderRound(h, cap);
    }

    /** Blocks laid out to one top are not laid out to another. */
    twostate lemma TopMoved()
      requires old(Laid()) && unchanged(`heapMin) && unchanged(`buckets) && unchanged(`order)
      requires heapBrk != old(heapBrk)
      ensures !Laid()
    {
      SpansOneTop(buckets, order, heapMin, old(heapBrk), heapBrk);
    }

    /** p is the payload of a block that was not live and now is, large enough, zero, and made from the
        first block of its free list, or at the top of the heap when that list is empty. Nothing outside
        the block has changed. */
    twostate predicate Granted(p: nat, b: nat)
      reads this
    {
      && p >= HEAD && b < NBUCKETS == |old(lists)| && p + Cap(b) <= MEMORY == |memory|
      && var h := p - HEAD;
      && h in buckets && buckets[h] == b && h !in old(live) && live == old(live) + {h}
      && SameOutside(old(memory), memory, h, h + Size(b))
      && (forall k :: p <= k < p + Cap(b) ==> memory[k] == 0)
      && if old(lists)[b] != [] then
           && h == old(lists)[b][0] && lists == old(lists)[b := old(lists)[b][1..]]
           && buckets == old(buckets) && heapBrk == old(heapBrk)
         else
           && h == old(heapBrk) && lists == old(lists) && h !in old(buckets)
           && buckets == old(buckets)[h := b] && heapBrk == h + Size(b)
    }

    predicate OutOfMemory(b: nat)
      reads this, freelist
      requires b <= freelist.Length
    {
      b < freelist.Length && freelist[b] == 0 && (heapBrk + Size(b)) % MEMORY > (heapMax - STACK_MARGIN) % MEMORY
    }

    predicate WrapsUnseen(b: nat)
      reads this, freelist
      requires b <= freelist.Length
    {
      b < freelist.Length && freelist[b] == 0 && heapBrk + Size(b) >= MEMORY && !OutOfMemory(b)
    }

    /** p is the payload of a block that goes round the end of memory, and so does the top of the heap. */
    twostate predicate WentRound(p: nat, b: nat)
      reads this
    {
      && b < NBUCKETS && old(heapBrk) < MEMORY <= old(heapBrk) + Size(b)
      && heapBrk == TopAfter(old(heapBrk), b) && p == Address(old(heapBrk), HEAD) && Cap(b) < MEMORY
      && PutRound(old(memory), memory, old(heapBrk), Cap(b))
      && live == old(live) && lists == old(lists) && buckets == old(buckets) && order == old(order)
    }

    /** malloc */
    method Malloc(n: Int16) returns (r: Outcome)
      requires Valid()
      modifies this`memory, this`live, this`lists, this`buckets, this`order, this`heapBrk, freelist, numAlloc, numBrk
      ensures r.Panic? <==> n > LARGEST || old(OutOfMemory(FirstFit(n, 0)))
      ensures r.Panic? ==> r.message == if n > LARGEST then "malloc too big" else " *oom* "
      ensures r.Wrapped? <==> n <= LARGEST && old(WrapsUnseen(FirstFit(n, 0)))
      ensures r.Wrapped? ==> WentRound(r.p, FirstFit(n, 0)) && !Valid()
      ensures n <= LARGEST && !old(OutOfMemory(FirstFit(n, 0))) && !old(WrapsUnseen(FirstFit(n, 0))) ==>
        r.Pointer? && Valid() && Granted(r.p, FirstFit(n, 0))
    {
      hide Laid, Linked, Counted, FirstFit, Cap, SameOutside;
      var ok, b, cap := WhichBucket(n);
      if !ok {
        return Panic("malloc too big");
      }
      numAlloc[b] := Wrap16(numAlloc[b] as int + 1);
      Head(b);
      if freelist[b] != 0 {
        var whole, h := Reuse(b, cap);
        if !whole {
          return Panic("corrupt heap");
        }
        Recounted(b);
        return Pointer(h + HEAD);
      }
      var brk := (heapBrk + cap + HEAD) % MEMORY;
      if brk > (heapMax - STACK_MARGIN) % MEMORY {
        heapBrk := brk;
        return Panic(" *oom* ");
      }
      numBrk[b] := Wrap16(numBrk[b] as int + 1);
      if heapBrk + cap + HEAD >= MEMORY {
        var round := BreakRound(b, cap);
        SizeInRange(b);
        TopMoved();
        return Wrapped(Address(round, HEAD));
      }
      var h := Break(b, cap);
      Recounted(b);
      r := Pointer(h + HEAD);
    }

    // ----- free -----

    /** The block of payload p is free, first on the list of its bucket and zero; nothing outside it has
        changed. */
    twostate predicate Returned(p: nat)
      reads this
    {
      && p >= HEAD && p - HEAD in old(buckets) && |memory| == MEMORY
      && var h := p - HEAD;
      var b := old(buckets)[h];
      && b < NBUCKETS == |old(lists)| && p + Cap(b) <= MEMORY
      && live == old(live) - {h} && lists == old(lists)[b := [h] + old(lists)[b]]
      && SameOutside(old(memory), memory, h, h + Size(b))
      && forall k :: p <= k < p + Cap(b) ==> memory[k] == 0
    }

    method Release(p: nat, cap: nat, next: nat)
      requires p >= HEAD && p + cap <= |memory| == MEMORY && next < MEMORY && Barriers(memory, p - HEAD)
      modifies this`memory
      ensures |memory| == MEMORY && Barriers(memory, p - HEAD)
      ensures CapField(memory, p - HEAD) == 0 && Next(memory, p - HEAD) == next
      ensures SameOutside(old(memory), memory, p - HEAD, p + cap)
      ensures forall k :: p <= k < p + cap ==> memory[k] == 0
    {
      Bzero(p, cap);
      SetCap(p - HEAD, 0);
      SetNext(p - HEAD, next);
    }

    /** free */
    method Free(p: nat) returns (r: Outcome)
      requires Valid() && (p == 0 || (p >= HEAD && p - HEAD in buckets))
      modifies this`memory, this`live, this`lists, freelist, numFree
      ensures Valid()
      ensures r == if p != 0 && p - HEAD !in old(live) then Panic("DoubleFree") else Done
      ensures p == 0 || r.Panic? ==>
        && memory == old(memory) && live == old(live) && lists == old(lists)
        && freelist[..] == old(freelist[..]) && numFree[..] == old(numFree[..])
      ensures p != 0 && r.Done? ==> Returned(p)
    {
      hide Counted, Cap, SameOutside, FirstFit, Chained, Tiled, Partitioned, Headed, Barriers, CapField, Word;
      if p == 0 {
        return Done;
      }
      var h := p - HEAD;
      ghost var b0 := buckets[h];
      Block(h);
      if CapField(memory, h) == 0 {
        return Panic("DoubleFree");
      }
      FitsItself(b0, 0);
      var ok, b, cap := WhichBucket(CapField(memory, h));
      var whole := CheckBlock(h, cap);
      if !whole {
        return Panic("corrupt heap");
      }
      numFree[b] := Wrap16(numFree[b] as int + 1);
      Release(p, cap, freelist[b]);
      Freed(old(memory), memory, buckets, order, heapMin, heapBrk, live, lists, freelist[..], h);
      freelist[b] := h;
      live := live - {h};
      lists := lists[b := [h] + lists[b]];
      Returns(b);
      r := Done;
    }

    /** The facts about one block that free looks at. */
    lemma Block(h: nat)
      requires Tables() && Laid() && Linked() && h in buckets
      ensures |lists| == NBUCKETS && 0 < h && buckets[h] < NBUCKETS && h + Size(buckets[h]) <= heapBrk
      ensures Barriers(memory, h) && CapField(memory, h) == if h in live then Cap(buckets[h]) else 0
      ensures Cap(buckets[h]) <= LARGEST
      ensures forall b :: 0 <= b < NBUCKETS ==> freelist[b] < MEMORY && Chained(memory, freelist[..][b], lists[b])
    {
      hide Cap;
      CapInRange(buckets[h]);
      forall b | 0 <= b < NBUCKETS
        ensures freelist[b] < MEMORY && Chained(memory, freelist[..][b], lists[b])
      {
        assert Chained(memory, freelist[b], lists[b]);
      }
    }

    twostate lemma Returns(b: nat)
      requires old(Tables()) && old(Counted()) && Tables() && b < NBUCKETS && |old(lists)| == NBUCKETS == |lists|
      requires numFree[..] == old(numFree[..])[b := Wrap16(old(numFree[b]) as int + 1)]
      requires numAlloc[..] == old(numAlloc[..]) && numBrk[..] == old(numBrk[..])
      requires forall c :: 0 <= c < NBUCKETS ==> |lists[c]| == |old(lists)[c]| + if c == b then 1 else 0
      ensures Counted()
    {
      hide Balanced;
      OneMoreAllocated(old(numBrk[b]), old(numAlloc[b]), old(numFree[b]), |old(lists)[b]|);
      forall c | 0 <= c < NBUCKETS
        ensures Balanced(numBrk[c], numAlloc[c], numFree[c], |lists[c]|)
      {
        assert old(Balanced(numBrk[c], numAlloc[c], numFree[c], |lists[c]|));
        assert numAlloc[c] == numAlloc[..][c] && numFree[c] == numFree[..][c] && numBrk[c] == numBrk[..][c];
        assert old(numAlloc[c]) == old(numAlloc[..])[c] && old(numFree[c]) == old(numFree[..])[c];
        assert old(numBrk[c]) == old(numBrk[..])[c];
      }
    }

    // ----- The program's own writes, and realloc -----

    /** A program may write anywhere in the payload of a live block. */
    method Store(p: nat, k: nat, v: Byte)
      requires Valid() && p >= HEAD && p - HEAD in live && p - HEAD in buckets && k < Cap(buckets[p - HEAD])
      modifies this`memory
      ensures Valid() && |old(memory)| == MEMORY && p + k < MEMORY && memory == old(memory)[p + k := v]
    {
      hide Counted, Cap, Chained, Tiled, Headed, Partitioned, Barriers, CapField, Word;
      Block(p - HEAD);
      memory := memory[p + k := v];
      PayloadChanged(p - HEAD);
    }

    twostate lemma PayloadChanged(h: nat)
      requires old(Valid()) && h in buckets && |memory| == MEMORY
      requires SameOutside(old(memory), memory, h + HEAD, h + Size(buckets[h]))
      requires unchanged(`heapMin) && unchanged(`heapBrk) && unchanged(`heapMax) && unchanged(`buckets)
      requires unchanged(`order) && unchanged(`live) && unchanged(`lists)
      requires unchanged(freelist) && unchanged(numAlloc) && unchanged(numFree) && unchanged(numBrk)
      ensures Valid()
    {
      PayloadKept(old(memory), memory, buckets, order, heapMin, heapBrk, live, lists, old(freelist[..]), h);
      assert forall b :: 0 <= b < NBUCKETS ==> old(Balanced(numBrk[b], numAlloc[b], numFree[b], |lists[b]|));
    }

    /** The bytes of payload p are at the start of payload z, followed by zeros, and the block of p is
        free; nothing outside the two blocks has changed. */
    twostate predicate Moved(p: nat, z: nat, b: nat)
      reads this
    {
      && p >= HEAD && z >= HEAD && b < NBUCKETS
      && var h, h' := p - HEAD, z - HEAD;
      && h in old(buckets) && h' in buckets && buckets[h'] == b && h' !in old(live) && h' != h
      && live == old(live) + {h'} - {h}
      && MovedBytes(old(memory), memory, h, Cap(old(buckets)[h]), h', Cap(b))
    }

    /** The last two steps of realloc: copy into the larger payload z and free p. */
    method Transfer(p: nat, z: nat)
      requires Valid() && p >= HEAD && z >= HEAD && p != z
      requires p - HEAD in live && p - HEAD in buckets && z - HEAD in live && z - HEAD in buckets
      requires Cap(buckets[p - HEAD]) <= Cap(buckets[z - HEAD])
      modifies this`memory, this`live, this`lists, freelist, numFree
      ensures Valid() && live == old(live) - {p - HEAD}
      ensures Transferred(old(memory), memory, p - HEAD, Cap(buckets[p - HEAD]), z)
    {
      hide Counted, Cap, Chained, Tiled, Headed, Partitioned, Barriers, CapField, Word, SameOutside, FirstFit, Transferred;
      var h := p - HEAD;
      Block(h);
      Block(z - HEAD);
      Apart(buckets, order, heapMin, heapBrk, h, z - HEAD);
      var cap := CapField(memory, h);
      Memcpy(z, p, cap);
      Within(old(memory), memory, z, z + cap, z, z + Cap(buckets[z - HEAD]));
      PayloadChanged(z - HEAD);
      label Copied:
      var freed := Free(p);
      TransferredBytes(old(memory), old@Copied(memory), memory, h, cap, z);
    }

    /** The case of realloc that needs another block. */
    method Move(p: nat, n: Int16) returns (r: Outcome)
      requires Valid() && p >= HEAD && p - HEAD in live && p - HEAD in buckets && n > Cap(buckets[p - HEAD])
      modifies this`memory, this`live, this`lists, this`buckets, this`order, this`heapBrk
      modifies freelist, numAlloc, numFree, numBrk
      ensures r.Pointer? ==> Valid() && Moved(p, r.p, FirstFit(n, 0))
      ensures !r.Pointer? <==> n > LARGEST || old(OutOfMemory(FirstFit(n, 0))) || old(WrapsUnseen(FirstFit(n, 0)))
    {
      hide Counted, Linked, Laid, Cap, CapField, SameOutside, FirstFit, MovedBytes, Transferred;
      var h := p - HEAD;
      FitsBelow(n, 0);
      r := Malloc(n);
      if !r.Pointer? {
        return;
      }
      label Granting:
      Block(h);
      Block(r.p - HEAD);
      Separate(h, r.p - HEAD);
      Transfer(p, r.p);
      Bytes(old(memory), old@Granting(memory), memory, h, Cap(buckets[h]), r.p - HEAD, Cap(FirstFit(n, 0)));
    }

    lemma Separate(a: nat, c: nat)
      requires Laid() && a in buckets && c in buckets && a != c
      ensures a + Size(buckets[a]) <= c || c + Size(buckets[c]) <= a
    {
      Apart(buckets, order, heapMin, heapBrk, a, c);
    }

    /** realloc */
    method Realloc(p: nat, n: Int16) returns (r: Outcome)
      requires Valid() && (p == 0 || (p >= HEAD && p - HEAD in live && p - HEAD in buckets))
      modifies this`memory, this`live, this`lists, this`buckets, this`order, this`heapBrk
      modifies freelist, numAlloc, numFree, numBrk
      ensures r.Pointer? ==> Valid()
      ensures p == 0 && r.Pointer? ==> Granted(r.p, FirstFit(n, 0))
      ensures p != 0 && n <= Cap(old(buckets)[p - HEAD]) ==>
        r == Pointer(p) && memory == old(memory) && live == old(live) && buckets == old(buckets) && lists == old(lists)
      ensures p != 0 && n > Cap(old(buckets)[p - HEAD]) && r.Pointer? ==> Moved(p, r.p, FirstFit(n, 0))
      ensures !r.Pointer? <==>
        && (p == 0 || n > Cap(old(buckets)[p - HEAD]))
        && (n > LARGEST || old(OutOfMemory(FirstFit(n, 0))) || old(WrapsUnseen(FirstFit(n, 0))))
    {
      hide Counted, Laid, Linked, Cap, CapField, FirstFit, MovedBytes;
      if p == 0 {
        r := Malloc(n);
        FitsBelow(n, 0);
        return;
      }
      var h := p - HEAD;
      Block(h);
      if n <= CapField(memory, h) {
        return Pointer(p);
      }
      r := Move(p, n);
    }

    lemma Head(b: nat)
      requires Tables() && Linked() && b < NBUCKETS
      ensures |lists| == NBUCKETS && (freelist[b] == 0 <==> lists[b] == [])
    {
      assert Chained(memory, freelist[b], lists[b]);
    }

    lemma NoneFree(b: nat)
      requires Valid() && b < NBUCKETS && |lists| == NBUCKETS && lists[b] == []
      ensures freelist.Length == NBUCKETS && freelist[b] == 0 && heapBrk < MEMORY
    {
      Head(b);
    }

    lemma NothingFree(b: nat)
      requires Valid() && buckets == map[] && b < NBUCKETS
      ensures |lists| == NBUCKETS && lists[b] == []
    {
      assert forall k :: 0 <= k < |lists[b]| ==> lists[b][k] in buckets;
    }

    /** One more allocation against one block fewer on the list or one more from the top. */
    twostate lemma Recounted(b: nat)
      requires old(Tables()) && old(Counted()) && Tables() && b < NBUCKETS && |old(lists)| == NBUCKETS == |lists|
      requires numAlloc[..] == old(numAlloc[..])[b := Wrap16(old(numAlloc[b]) as int + 1)]
      requires numFree[..] == old(numFree[..])
      requires if old(lists)[b] != [] then numBrk[..] == old(numBrk[..]) && lists == old(lists)[b := old(lists)[b][1..]]
               else numBrk[..] == old(numBrk[..])[b := Wrap16(old(numBrk[b]) as int + 1)] && lists == old(lists)
      ensures Counted()
    {
      hide Balanced;
      OneMoreAllocated(old(numBrk[b]), old(numAlloc[b]), old(numFree[b]), |old(lists)[b]|);
      forall c | 0 <= c < NBUCKETS
        ensures Balanced(numBrk[c], numAlloc[c], numFree[c], |lists[c]|)
      {
        assert old(Balanced(numBrk[c], numAlloc[c], numFree[c], |lists[c]|));
        assert numAlloc[c] == numAlloc[..][c] && numFree[c] == numFree[..][c] && numBrk[c] == numBrk[..][c];
        assert old(numAlloc[c]) == old(numAlloc[..])[c] && old(numFree[c]) == old(numFree[..])[c];
        assert old(numBrk[c]) == old(numBrk[..])[c];
      }
    }
  }

  // ----- Heaps on which it happens -----

  lemma LargestFits()
    ensures FirstFit(LARGEST, 0) == NBUCKETS - 1 && Size(NBUCKETS - 1) == HEAD + LARGEST
  {
    CapLargest();
    FitsItself(NBUCKETS - 1, 0);
  }

  /** A fresh block of the largest bucket, from a heap with nothing to reuse. */
  method Large(heap: Heap) returns (r: Outcome)
    requires heap.Valid() && |heap.lists| == NBUCKETS && heap.lists[NBUCKETS - 1] == []
    requires (heap.heapBrk + HEAD + LARGEST) % MEMORY <= (heap.heapMax - STACK_MARGIN) % MEMORY
    modifies heap`memory, heap`live, heap`lists, heap`buckets, heap`order, heap`heapBrk
    modifies heap.freelist, heap.numAlloc, heap.numBrk
    ensures old(heap.heapBrk) + HEAD + LARGEST < MEMORY ==>
      && r == Pointer(old(heap.heapBrk) + HEAD) && heap.Valid() && |heap.lists| == NBUCKETS && heap.lists[NBUCKETS - 1] == []
      && heap.heapBrk == old(heap.heapBrk) + HEAD + LARGEST && heap.live == old(heap.live) + {old(heap.heapBrk)}
    ensures old(heap.heapBrk) + HEAD + LARGEST >= MEMORY ==>
      && r == Wrapped(Address(old(heap.heapBrk), HEAD)) && !heap.Valid()
      && heap.heapBrk == old(heap.heapBrk) + HEAD + LARGEST - MEMORY && heap.live == old(heap.live)
      && PutRound(old(heap.memory), heap.memory, old(heap.heapBrk), LARGEST)
  {
    hide Cap, FirstFit, PutRound, SameOutside, Heap.Valid;
    LargestFits();
    heap.NoneFree(NBUCKETS - 1);
    r := heap.Malloc(LARGEST);
  }

  /** A heap from 50000 with its limit at 60000: the first block of 16384 bytes goes round, and leaves the top
      of the heap far below its bottom. */
  method OneLargeBlock() returns (heap: Heap, r: Outcome)
    ensures r == Wrapped(50006) && heap.heapBrk == 854 && heap.heapMin == 50000 && !heap.Valid()
  {
    hide PutRound;
    heap := new Heap(50000, 60000);
    heap.NothingFree(NBUCKETS - 1);
    r := Large(heap);
  }

  /** A heap from 1000: the fourth block of 16384 bytes goes round over the header of the first, which is in
      use and from then on has no barriers. */
  method FourLargeBlocks() returns (heap: Heap, r: Outcome)
    ensures r == Wrapped(50176) && heap.heapBrk == 1024 && heap.heapMin == 1000
    ensures 1000 in heap.live && |heap.memory| == MEMORY && !Barriers(heap.memory, 1000)
  {
    hide PutRound, Barriers, Heap.Valid;
    heap := new Heap(1000, 60000);
    heap.NothingFree(NBUCKETS - 1);
    r := Large(heap);
    r := Large(heap);
    r := Large(heap);
    ghost var m := heap.memory;
    r := Large(heap);
    FirstLost(m, heap.memory);
  }

  lemma FirstLost(m: seq<Byte>, m': seq<Byte>)
    requires PutRound(m, m', 50170, LARGEST)
    ensures |m'| == MEMORY && !Barriers(m', 1000)
  {
    var a := 1000;
    assert Offset(50170, a) == 16366;
    assert m'[a] == 0;
  }

  // ----- What is in memory -----

  /** The twelve block sizes, from 8 bytes to 16K. */
  lemma BucketSizes()
    ensures Cap(0) == 8 && Cap(1) == 16 && Cap(2) == 32 && Cap(3) == 64 && Cap(4) == 128 && Cap(5) == 256
    ensures Cap(6) == 512 && Cap(7) == 1024 && Cap(8) == 2048 && Cap(9) == 4096 && Cap(10) == 8192 && Cap(11) == 16384
  {
    assert Cap(3) == 64;
    assert Cap(6) == 512;
    assert Cap(9) == 4096;
  }

  /** A block begins with A, has its capacity, or 0 when it is free, in the two bytes after the link, and Z
      before its payload. */
  lemma HeaderIs(m: seq<Byte>, buckets: map<nat, nat>, live: set<nat>, a: nat)
    requires Headed(m, buckets, live) && a in buckets
    ensures a + 6 <= |m| && m[a] as int == 'A' as int && m[a + 5] as int == 'Z' as int
    ensures 256 * m[a + 3] as int + m[a + 4] as int == if a in live then Cap(buckets[a]) else 0
  {
    hide Cap;
  }

  /** A free list starts at its head, and the two bytes after a block's A are the address of the next block
      on the list, or 0 at its end. */
  lemma {:induction false} LinkIs(m: seq<Byte>, head: nat, list: seq<nat>, k: nat)
    requires Chained(m, head, list) && k < |list|
    ensures head == list[0] && list[k] + 6 <= |m|
    ensures 256 * m[list[k] + 1] as int + m[list[k] + 2] as int == if k + 1 < |list| then list[k + 1] else 0
    decreases |list|
  {
    if k > 0 {
      LinkIs(m, Next(m, head), list[1..], k - 1);
    }
  }

  /** Memory runs out when the new top, in 16 bits, would come within 200 bytes of the stack. */
  lemma ShortageIs(heap: Heap, b: nat)
    requires heap.freelist.Length == NBUCKETS && b < 12
    ensures heap.OutOfMemory(b) <==>
      heap.freelist[b] == 0 && (heap.heapBrk + 6 + Cap(b)) % 65536 > (heap.heapMax - 200) % 65536
  {}
}
