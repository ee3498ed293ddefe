/** The fixed-capacity ring replay buffer `ReplayMemory`, which both training
    scripts define with identical code. The buffer is a list that grows to
    `capacity` and then wraps around, with `position` pointing at the slot the
    next transition overwrites. */
module Replay {

  function Min(a: int, b: int): int
  {
    if a <= b then a else b
  }

  /** The buffer's observable state: the stored slots and the write cursor. */
  datatype Ring<T> = Ring(slots: seq<T>, position: nat)

  /** The states a buffer of this capacity can be in: never more slots than
      `capacity`, the cursor inside [0, capacity), and while the buffer is
      still filling up the cursor sits just past the last slot. */
  predicate Fits<T>(r: Ring<T>, capacity: nat)
  {
    && 0 < capacity
    && |r.slots| <= capacity
    && r.position < capacity
    && (|r.slots| < capacity ==> r.position == |r.slots|)
  }

  /** One `push`: grow the list by one slot while it is below capacity, write
      the transition at the cursor, advance the cursor modulo capacity. (The
      source appends `None` and overwrites it at once; appending `x` itself
      leaves the same list.) */
  function PushRing<T>(r: Ring<T>, capacity: nat, x: T): Ring<T>
    requires Fits(r, capacity)
  {
    var grown := if |r.slots| < capacity then r.slots + [x] else r.slots;
    Ring(grown[r.position := x], (r.position + 1) % capacity)
  }

  lemma PushRingFacts<T>(r: Ring<T>, capacity: nat, x: T)
    requires Fits(r, capacity)
    ensures var r' := PushRing(r, capacity, x);
            && Fits(r', capacity)
            && |r'.slots| == Min(|r.slots| + 1, capacity)
            && r'.position == (r.position + 1) % capacity
            && r.position < |r'.slots| && r'.slots[r.position] == x
            && forall i :: 0 <= i < |r.slots| && i != r.position ==> r'.slots[i] == r.slots[i]
  {
  }

  /** The state reached by pushing `pushes`, in order, into a fresh buffer. */
  function Fill<T>(pushes: seq<T>, capacity: nat): (r: Ring<T>)
    requires 0 < capacity
    ensures Fits(r, capacity)
    ensures |r.slots| == Min(|pushes|, capacity)
    ensures r.position == |pushes| % capacity
  {
    if pushes == [] then Ring([], 0)
    else
      var n := |pushes| - 1;
      var prev := Fill(pushes[..n], capacity);
      ModSucc(n, capacity);
      PushRingFacts(prev, capacity, pushes[n]);
      PushRing(prev, capacity, pushes[n])
  }

  /** Arithmetic facts about `%` with a variable modulus, proved from the
      division identity. */
  lemma MulAtLeast(c: int, k: int)
    requires 0 < c && 1 <= k
    ensures c <= c * k
  {
    assert c * k == c + c * (k - 1);
    assert 0 <= c * (k - 1);
  }

  lemma ModUnique(x: int, c: int, q: int, r: int)
    requires 0 < c && 0 <= r < c && x == c * q + r
    ensures x % c == r
  {
    var q', r' := x / c, x % c;
    assert x == c * q' + r';
    assert c * (q - q') == r' - r;
    if q' < q {
      MulAtLeast(c, q - q');
    } else if q < q' {
      MulAtLeast(c, q' - q);
    }
  }

  lemma ModSucc(a: nat, c: nat)
    requires 0 < c
    ensures (a % c + 1) % c == (a + 1) % c
  {
    var q := a / c;
    assert a == c * q + a % c;
    if a % c + 1 < c {
      ModUnique(a % c + 1, c, 0, a % c + 1);
      ModUnique(a + 1, c, q, a % c + 1);
    } else {
      ModUnique(a % c + 1, c, 1, 0);
      assert a + 1 == c * q + c;
      assert c * q + c == c * (q + 1);
      ModUnique(a + 1, c, q + 1, 0);
    }
  }

  /** Two positions fewer than `c` apart land in different slots. */
  lemma ModDistinct(a: nat, b: nat, c: nat)
    requires 0 < c && a < b < a + c
    ensures a % c != b % c
  {
    var qa, qb := a / c, b / c;
    assert a == c * qa + a % c;
    assert b == c * qb + b % c;
    if a % c == b % c {
      assert b - a == c * qb - c * qa;
      assert c * qb - c * qa == c * (qb - qa);
      if qa < qb {
        MulAtLeast(c, qb - qa);
      }
    }
  }

  /** Ring overwrite: after any sequence of pushes into a fresh buffer, each of
      the last min(N, capacity) transitions sits in slot (its push index mod
      capacity). Together with the occupancy given by `Fill`, every stored slot
      holds one of those transitions and no older one. */
  lemma {:induction false} RingOverwrite<T>(pushes: seq<T>, capacity: nat, j: nat)
    requires 0 < capacity
    requires |pushes| - capacity <= j < |pushes|
    ensures j % capacity < |Fill(pushes, capacity).slots|
    ensures Fill(pushes, capacity).slots[j % capacity] == pushes[j]
  {
    var n := |pushes| - 1;
    var prev := pushes[..n];
    var before := Fill(prev, capacity);
    if j < n {
      RingOverwrite(prev, capacity, j);
      ModDistinct(j, n, capacity);
    }
  }

  /** Before the buffer is full, the slots are the pushes in order. */
  lemma FillingInOrder<T>(pushes: seq<T>, capacity: nat)
    requires 0 < capacity && |pushes| <= capacity
    ensures Fill(pushes, capacity).slots == pushes
  {
    var r := Fill(pushes, capacity);
    forall j | 0 <= j < |pushes| ensures r.slots[j] == pushes[j] {
      RingOverwrite(pushes, capacity, j);
    }
  }

  /** Which of the last `c` pushes lands in slot `i` of a full buffer. */
  lemma FullSlotIndex(n: nat, c: nat, i: nat)
    requires 0 < c <= n && i < c
    ensures var q := n % c;
            var j := if i < q then n - q + i else n - q - c + i;
            n - c <= j < n && j % c == i
  {
    var q, k := n % c, n / c;
    assert n == c * k + q;
    if i < q {
      ModUnique(n - q + i, c, k, i);
    } else {
      assert 1 <= k;
      assert n - q - c + i == c * (k - 1) + i;
      ModUnique(n - q - c + i, c, k - 1, i);
    }
  }

  /** Slot i of a full buffer, read off the last `capacity` pushes. */
  lemma FullSlot<T>(pushes: seq<T>, capacity: nat, i: nat)
    requires 0 < capacity <= |pushes| && i < capacity
    ensures var r := Fill(pushes, capacity);
            var w := pushes[|pushes| - capacity..];
            i < |r.slots| && r.slots[i] == (if i < r.position then w[capacity - r.position + i] else w[i - r.position])
  {
    var n, c, q := |pushes|, capacity, |pushes| % capacity;
    FullSlotIndex(n, c, i);
    var j := if i < q then n - q + i else n - q - c + i;
    RingOverwrite(pushes, c, j);
  }

  /** A full buffer holds the last `capacity` pushes rotated so that slot
      `position` holds the oldest of them and the slot before it the newest. */
  lemma StoredRotation<T>(pushes: seq<T>, capacity: nat)
    requires 0 < capacity <= |pushes|
    ensures var r := Fill(pushes, capacity);
            var w := pushes[|pushes| - capacity..];
            r.slots == w[capacity - r.position..] + w[..capacity - r.position]
  {
    var r := Fill(pushes, capacity);
    var w := pushes[|pushes| - capacity..];
    var k := capacity - r.position;
    var rot := w[k..] + w[..k];
    forall i | 0 <= i < capacity ensures r.slots[i] == rot[i] {
      FullSlot(pushes, capacity, i);
    }
  }

  /** A rotation of a sequence has the same elements. */
  lemma RotationMultiset<T>(w: seq<T>, k: nat)
    requires k <= |w|
    ensures multiset(w[k..] + w[..k]) == multiset(w)
  {
    assert w == w[..k] + w[k..];
  }

  /** A full buffer holds the last `capacity` pushes, as a multiset. */
  lemma StoredWhenFull<T>(pushes: seq<T>, capacity: nat)
    requires 0 < capacity < |pushes|
    ensures multiset(Fill(pushes, capacity).slots) == multiset(pushes[|pushes| - capacity..])
  {
    var w := pushes[|pushes| - capacity..];
    var k := capacity - Fill(pushes, capacity).position;
    StoredRotation(pushes, capacity);
    RotationMultiset(w, k);
  }

  /** The buffer stores exactly the last min(N, capacity) pushed transitions,
      as a multiset. */
  lemma StoredAreLastPushes<T>(pushes: seq<T>, capacity: nat)
    requires 0 < capacity
    ensures var r := Fill(pushes, capacity);
            multiset(r.slots) == multiset(pushes[|pushes| - Min(|pushes|, capacity)..])
  {
    if |pushes| <= capacity {
      FillingInOrder(pushes, capacity);
      assert Min(|pushes|, capacity) == |pushes|;
      assert pushes[|pushes| - |pushes|..] == pushes;
    } else {
      StoredWhenFull(pushes, capacity);
      assert Min(|pushes|, capacity) == capacity;
    }
  }

  datatype SampleError = SampleLargerThanPopulation

  datatype Result<T> = Ok(value: T) | Err(error: SampleError)

  predicate Distinct(s: seq<nat>)
  {
    forall a, b :: 0 <= a < b < |s| ==> s[a] != s[b]
  }

  /** The buffer object. `memory` and `position` are the source's attributes;
      the ghost `Pushed` records every transition ever pushed, and `Valid`
      says that the attributes are what those pushes leave behind. */
  class ReplayMemory<T> {
    const capacity: nat
    var memory: seq<T>
    var position: nat
    ghost var Pushed: seq<T>

    ghost predicate Valid()
      reads this
    {
      0 < capacity && Ring(memory, position) == Fill(Pushed, capacity)
    }

    /** ReplayMemory(capacity). A capacity of zero makes the first push fail
        in the source (indexing an empty list), so it is excluded. */
    constructor (capacity: nat)
      requires 0 < capacity
      ensures Valid() && this.capacity == capacity
      ensures memory == [] && position == 0 && Pushed == []
    {
      this.capacity := capacity;
      memory := [];
      position := 0;
      Pushed := [];
    }

    /** push(*args): saves a transition. */
    method Push(x: T)
      requires Valid()
      modifies this
      ensures Valid() && Pushed == old(Pushed) + [x]
      ensures |memory| == Min(|old(memory)| + 1, capacity)
      ensures position == (old(position) + 1) % capacity
      ensures old(position) < |memory| && memory[old(position)] == x
      ensures forall i :: 0 <= i < |old(memory)| && i != old(position) ==> memory[i] == old(memory)[i]
    {
      ghost var before := Ring(memory, position);
      if |memory| < capacity {
        memory := memory + [x];
      }
      memory := memory[position := x];
      position := (position + 1) % capacity;
      assert Ring(memory, position) == PushRing(before, capacity, x);
      Pushed := Pushed + [x];
      assert Pushed[..|Pushed| - 1] == old(Pushed);
      assert Fill(Pushed, capacity) == PushRing(Fill(old(Pushed), capacity), capacity, x);
    }

    /** __len__: the current occupancy. */
    function Len(): (n: nat)
      reads this
      requires Valid()
      ensures n <= capacity
      ensures n == Min(|Pushed|, capacity)
    {
      |memory|
    }

    /** sample(batch_size): `batch_size` transitions drawn without replacement.
        `draw(i)` is the random number behind the i-th pick; it chooses among
        the slots not yet picked, as `random.sample` does with its pool. A
        batch larger than the occupancy is the source's ValueError. */
    method Sample(batchSize: nat, draw: nat -> nat) returns (r: Result<seq<T>>, slots: seq<nat>)
      ensures r.Ok? <==> batchSize <= |memory|
      ensures r.Ok? ==> |slots| == batchSize && |r.value| == batchSize
      ensures r.Ok? ==> Distinct(slots)
      ensures r.Ok? ==> forall i :: 0 <= i < |slots| ==> slots[i] < |memory| && r.value[i] == memory[slots[i]]
    {
      var n := |memory|;
      if n < batchSize {
        return Err(SampleLargerThanPopulation), [];
      }
      var pool: seq<nat> := seq(n, i requires 0 <= i < n => i);
      var batch: seq<T> := [];
      slots := [];
      for i := 0 to batchSize
        invariant |pool| == n && |slots| == i && |batch| == i
        invariant forall a :: 0 <= a < n - i ==> pool[a] < n
        invariant forall a, b :: 0 <= a < b < n - i ==> pool[a] != pool[b]
        invariant forall a, q :: 0 <= a < n - i && 0 <= q < i ==> pool[a] != slots[q]
        invariant Distinct(slots)
        invariant forall q :: 0 <= q < i ==> slots[q] < n && batch[q] == memory[slots[q]]
      {
        var j := draw(i) % (n - i);
        slots := slots + [pool[j]];
        batch := batch + [memory[pool[j]]];
        pool := pool[j := pool[n - i - 1]];
      }
      r := Ok(batch);
    }
  }
}
