/**
 * The accounting of a global allocator: five counters, each changed by single atomic instructions,
 * with any number of threads inside the counting routine at once.
 */
module AllocatorCounters {
  import opened Prelude

  datatype Counters = Counters(allocatedBytes: int, peak: int, total: int, largest: int, num: int)

  const ZERO := Counters(0, 0, 0, 0, 0)

  /** The five atomic instructions of one counted allocation. */
  datatype Instruction = AddAllocated | AddTotal | AddNum | MaxPeak | MaxLargest

  const ALL: set<Instruction> := {AddAllocated, AddTotal, AddNum, MaxPeak, MaxLargest}

  /** One instruction of a thread that counts `size` bytes and has seen `seen` bytes allocated before. */
  function Apply(c: Counters, i: Instruction, size: nat, seen: int): Counters {
    match i
    case AddAllocated => c.(allocatedBytes := c.allocatedBytes + size)
    case AddTotal => c.(total := c.total + size)
    case AddNum => c.(num := c.num + 1)
    case MaxPeak => c.(peak := Max(c.peak, seen))
    case MaxLargest => c.(largest := Max(c.largest, size))
  }

  // ---------------------------------------------------------------- the counters in memory

  class Allocator {
    var allocatedBytes: int
    var peakAllocated: int
    var totalAllocated: int
    var largestAllocated: int
    var numAllocations: int

    ghost function Snapshot(): Counters
      reads this
    {
      Counters(allocatedBytes, peakAllocated, totalAllocated, largestAllocated, numAllocations)
    }

    constructor ()
      ensures Snapshot() == ZERO
    {
      allocatedBytes, peakAllocated, totalAllocated, largestAllocated, numAllocations := 0, 0, 0, 0, 0;
    }

    /** Executes one atomic instruction; the first one returns the value it found. */
    method Execute(i: Instruction, size: nat, seen: int) returns (before: int)
      modifies this
      ensures Snapshot() == Apply(old(Snapshot()), i, size, seen)
      ensures before == if i == AddAllocated then old(allocatedBytes) else seen
    {
      before := seen;
      match i
      case AddAllocated =>
        before := allocatedBytes;
        allocatedBytes := allocatedBytes + size;
      case AddTotal => totalAllocated := totalAllocated + size;
      case AddNum => numAllocations := numAllocations + 1;
      case MaxPeak => peakAllocated := Max(peakAllocated, seen);
      case MaxLargest => largestAllocated := Max(largestAllocated, size);
    }

    /** The counting routine when no other thread interferes. */
    method CountAlloc(size: nat)
      modifies this
      ensures var c := old(Snapshot());
              Snapshot() == Counters(c.allocatedBytes + size, Max(c.peak, c.allocatedBytes), c.total + size,
                                     Max(c.largest, size), c.num + 1)
    {
      var before := Execute(AddAllocated, size, 0);
      before := Execute(AddTotal, size, before);
      before := Execute(AddNum, size, before);
      before := Execute(MaxPeak, size, before);
      before := Execute(MaxLargest, size, before);
    }

    method CountDealloc(size: nat)
      modifies this
      ensures Snapshot() == old(Snapshot()).(allocatedBytes := old(allocatedBytes) - size)
    {
      allocatedBytes := allocatedBytes - size;
    }

    /** Growing counts the difference as an allocation, shrinking as a deallocation. */
    method CountRealloc(oldSize: nat, newSize: nat)
      modifies this
      ensures allocatedBytes == old(allocatedBytes) + newSize - oldSize
      ensures totalAllocated == old(totalAllocated) + (if newSize >= oldSize then newSize - oldSize else 0)
      ensures numAllocations == old(numAllocations) + (if newSize >= oldSize then 1 else 0)
      ensures newSize < oldSize ==> peakAllocated == old(peakAllocated) && largestAllocated == old(largestAllocated)
      ensures newSize >= oldSize ==>
        && peakAllocated == Max(old(peakAllocated), old(allocatedBytes))
        && largestAllocated == Max(old(largestAllocated), newSize - oldSize)
      ensures Snapshot() == Counted(old(Snapshot()), ReallocEvent(0, oldSize, newSize))
    {
      if newSize >= oldSize {
        CountAlloc(newSize - oldSize);
      } else {
        CountDealloc(oldSize - newSize);
      }
    }
  }

  // ---------------------------------------------------------------- interleaved threads

  /**
   * A thread is outside the counting routine, or inside it with some instructions still to execute.
   * The accesses are relaxed, so the instructions may take effect in any order, except that the
   * peak needs the value the first one returned.
   */
  datatype Thread = Idle | Counting(size: nat, seen: int, pending: set<Instruction>)

  datatype State = State(counters: Counters, threads: seq<Thread>)

  datatype Event =
    | Begin(thread: nat, size: nat)             // a thread enters the counting routine
    | Do(thread: nat, instruction: Instruction) // it executes one of its instructions
    | Free(size: nat)                           // some thread books a deallocation, one atomic step

  /** What a reallocation is counted as. */
  function ReallocEvent(thread: nat, oldSize: nat, newSize: nat): Event {
    if newSize >= oldSize then Begin(thread, newSize - oldSize) else Free(oldSize - newSize)
  }

  /** What a call amounts to when no other thread interferes. */
  function Counted(c: Counters, e: Event): Counters
    requires !e.Do?
  {
    match e
    case Begin(_, size) =>
      Counters(c.allocatedBytes + size, Max(c.peak, c.allocatedBytes), c.total + size, Max(c.largest, size), c.num + 1)
    case Free(size) => c.(allocatedBytes := c.allocatedBytes - size)
  }

  predicate Enabled(s: State, e: Event) {
    match e
    case Begin(t, size) => t < |s.threads| && s.threads[t].Idle?
    case Do(t, i) =>
      && t < |s.threads| && s.threads[t].Counting? && i in s.threads[t].pending
      && (i == MaxPeak ==> AddAllocated !in s.threads[t].pending)
    case Free(size) => true
  }

  /** A thread after one of its instructions; it leaves the routine after the last one. */
  function Advance(th: Thread, i: Instruction, allocatedBytes: int): Thread
    requires th.Counting? && i in th.pending
  {
    var rest := th.pending - {i};
    if rest == {} then Idle
    else Counting(th.size, if i == AddAllocated then allocatedBytes else th.seen, rest)
  }

  function Step(s: State, e: Event): (s': State)
    requires Enabled(s, e)
    ensures |s'.threads| == |s.threads|
  {
    match e
    case Begin(t, size) => s.(threads := s.threads[t := Counting(size, 0, ALL)])
    case Do(t, i) =>
      var th := s.threads[t];
      State(Apply(s.counters, i, th.size, th.seen), s.threads[t := Advance(th, i, s.counters.allocatedBytes)])
    case Free(size) => s.(counters := s.counters.(allocatedBytes := s.counters.allocatedBytes - size))
  }

  function Start(n: nat): State {
    State(ZERO, seq(n, _ => Idle))
  }

  /** Every event happens when it can. */
  predicate IsRun(n: nat, run: seq<Event>)
    decreases |run|, 0
  {
    run == [] || (IsRun(n, run[..|run| - 1]) && Enabled(After(n, run[..|run| - 1]), run[|run| - 1]))
  }

  function After(n: nat, run: seq<Event>): (s: State)
    requires IsRun(n, run)
    ensures |s.threads| == n
    decreases |run|, 1
  {
    if run == [] then Start(n) else Step(After(n, run[..|run| - 1]), run[|run| - 1])
  }

  // ---------------------------------------------------------------- what really happened

  /** The highest value `allocated` ever had. */
  function TrueMaximum(n: nat, run: seq<Event>): int
    requires IsRun(n, run)
  {
    if run == [] then 0 else Max(TrueMaximum(n, run[..|run| - 1]), After(n, run).counters.allocatedBytes)
  }

  function NextFound(s: State, e: Event, found: int): int {
    if e.Do? && e.instruction == AddAllocated then Max(found, s.counters.allocatedBytes) else found
  }

  /** The highest value of `allocated` that an addition found before it, or 0. */
  function HighestFound(n: nat, run: seq<Event>): int
    requires IsRun(n, run)
  {
    if run == [] then 0
    else
      var before := run[..|run| - 1];
      NextFound(After(n, before), run[|run| - 1], HighestFound(n, before))
  }

  /** Some addition found the value m. */
  predicate Finds(n: nat, run: seq<Event>, m: int)
    requires IsRun(n, run)
  {
    run != [] &&
    var before, e := run[..|run| - 1], run[|run| - 1];
    Finds(n, before, m) || (e.Do? && e.instruction == AddAllocated && After(n, before).counters.allocatedBytes == m)
  }

  /** Bytes whose addition to `allocated` has taken effect. */
  function Booked(n: nat, run: seq<Event>): int
    requires IsRun(n, run)
  {
    if run == [] then 0
    else
      var before, e := run[..|run| - 1], run[|run| - 1];
      Booked(n, before) +
      if e.Do? && e.instruction == AddAllocated then After(n, before).threads[e.thread].size else 0
  }

  function Requested(run: seq<Event>): nat {
    if run == [] then 0
    else Requested(run[..|run| - 1]) + if run[|run| - 1].Begin? then run[|run| - 1].size else 0
  }

  function Freed(run: seq<Event>): nat {
    if run == [] then 0
    else Freed(run[..|run| - 1]) + if run[|run| - 1].Free? then run[|run| - 1].size else 0
  }

  function Calls(run: seq<Event>): nat {
    if run == [] then 0 else Calls(run[..|run| - 1]) + if run[|run| - 1].Begin? then 1 else 0
  }

  function LargestRequest(run: seq<Event>): nat {
    if run == [] then 0
    else
      var rest, e := LargestRequest(run[..|run| - 1]), run[|run| - 1];
      if e.Begin? && e.size > rest then e.size else rest
  }

  // ---------------------------------------------------------------- what every step keeps

  /** What a thread with a pending instruction still owes: its bytes, or one call for the call counter. */
  function Debt(th: Thread, i: Instruction): nat {
    if th.Counting? && i in th.pending then (if i == AddNum then 1 else th.size) else 0
  }

  function Owed(threads: seq<Thread>, i: Instruction): nat {
    if threads == [] then 0 else Owed(threads[..|threads| - 1], i) + Debt(threads[|threads| - 1], i)
  }

  lemma {:induction false} OwedUpdate(threads: seq<Thread>, t: nat, th: Thread, i: Instruction)
    requires t < |threads|
    ensures Owed(threads[t := th], i) == Owed(threads, i) - Debt(threads[t], i) + Debt(th, i)
  {
    var n := |threads| - 1;
    if t < n {
      OwedUpdate(threads[..n], t, th, i);
      assert threads[t := th][..n] == threads[..n][t := th];
    } else {
      assert threads[t := th][..n] == threads[..n];
    }
  }

  lemma {:induction false} OwedIdle(threads: seq<Thread>, i: Instruction)
    requires forall t :: 0 <= t < |threads| ==> threads[t].Idle?
    ensures Owed(threads, i) == 0
  {
    if threads != [] {
      OwedIdle(threads[..|threads| - 1], i);
    }
  }

  /** The thread has found at least this value and has yet to record it. */
  predicate Carries(th: Thread, found: int) {
    th.Counting? && AddAllocated !in th.pending && MaxPeak in th.pending && found <= th.seen
  }

  /** The highest value found is recorded, or a thread is about to record it. */
  ghost predicate FoundCovered(s: State, found: int) {
    found <= s.counters.peak || exists t :: 0 <= t < |s.threads| && Carries(s.threads[t], found)
  }

  ghost predicate LargestCovered(s: State, largest: int) {
    || largest <= s.counters.largest
    || exists t :: 0 <= t < |s.threads| && s.threads[t].Counting? && MaxLargest in s.threads[t].pending
                   && s.threads[t].size == largest
  }

  /** What a thread has found is at most the highest value found; its request at most the largest. */
  predicate Bounded(th: Thread, found: int, largest: int) {
    th.Counting? ==> th.size <= largest && (AddAllocated !in th.pending ==> th.seen <= found)
  }

  /** What a thread has executed has left its mark on the counters. */
  predicate Recorded(th: Thread, c: Counters) {
    th.Counting? ==>
      && (MaxLargest in th.pending || th.size <= c.largest)
      && (MaxPeak in th.pending || (AddAllocated !in th.pending && th.seen <= c.peak))
  }

  ghost predicate Invariant(s: State, requested: int, freed: int, calls: int, found: int, largest: int) {
    && s.counters.allocatedBytes + Owed(s.threads, AddAllocated) + freed == requested
    && s.counters.total + Owed(s.threads, AddTotal) == requested
    && s.counters.num + Owed(s.threads, AddNum) == calls
    && 0 <= s.counters.peak <= found
    && 0 <= s.counters.largest <= largest
    && (forall t :: 0 <= t < |s.threads| ==> Bounded(s.threads[t], found, largest))
    && (forall t :: 0 <= t < |s.threads| ==> Recorded(s.threads[t], s.counters))
    && FoundCovered(s, found) && LargestCovered(s, largest)
  }

  lemma BeginKeeps(s: State, t: nat, size: nat, requested: int, freed: int, calls: int, found: int, largest: int)
    requires Invariant(s, requested, freed, calls, found, largest) && Enabled(s, Begin(t, size))
    ensures Invariant(Step(s, Begin(t, size)), requested + size, freed, calls + 1, found, Max(largest, size))
  {
    var s' := Step(s, Begin(t, size));
    forall i ensures Owed(s'.threads, i) == Owed(s.threads, i) + if i == AddNum then 1 else size {
      OwedUpdate(s.threads, t, s'.threads[t], i);
    }
    if u :| 0 <= u < |s.threads| && Carries(s.threads[u], found) {
      assert Carries(s'.threads[u], found);
    }
    assert s'.threads[t].size == size;
    if u :| 0 <= u < |s.threads| && s.threads[u].Counting? && MaxLargest in s.threads[u].pending
            && s.threads[u].size == largest {
      assert s'.threads[u] == s.threads[u];
    }
  }

  lemma FreeKeeps(s: State, size: nat, requested: int, freed: int, calls: int, found: int, largest: int)
    requires Invariant(s, requested, freed, calls, found, largest)
    ensures Invariant(Step(s, Free(size)), requested, freed + size, calls, found, largest)
  {
    var s' := Step(s, Free(size));
    if u :| 0 <= u < |s.threads| && Carries(s.threads[u], found) {
      assert Carries(s'.threads[u], found);
    }
  }

  lemma DoOwed(s: State, t: nat, i: Instruction, j: Instruction)
    requires Enabled(s, Do(t, i))
    ensures Owed(Step(s, Do(t, i)).threads, j) == Owed(s.threads, j) - if j == i then Debt(s.threads[t], i) else 0
  {
    OwedUpdate(s.threads, t, Step(s, Do(t, i)).threads[t], j);
  }

  lemma DoKeepsThreads(s: State, t: nat, i: Instruction, found: int, largest: int)
    requires Enabled(s, Do(t, i))
    requires forall u :: 0 <= u < |s.threads| ==>
               Bounded(s.threads[u], found, largest) && Recorded(s.threads[u], s.counters)
    ensures var s' := Step(s, Do(t, i));
            forall u :: 0 <= u < |s'.threads| ==>
              && Bounded(s'.threads[u], NextFound(s, Do(t, i), found), largest)
              && Recorded(s'.threads[u], s'.counters)
  {
    var s' := Step(s, Do(t, i));
    forall u | 0 <= u < |s'.threads|
      ensures Bounded(s'.threads[u], NextFound(s, Do(t, i), found), largest)
      ensures Recorded(s'.threads[u], s'.counters)
    {
      assert Bounded(s.threads[u], found, largest) && Recorded(s.threads[u], s.counters);
    }
  }

  lemma DoKeeps(s: State, t: nat, i: Instruction,
                requested: int, freed: int, calls: int, found: int, largest: int)
    requires Invariant(s, requested, freed, calls, found, largest) && Enabled(s, Do(t, i))
    ensures Invariant(Step(s, Do(t, i)), requested, freed, calls, NextFound(s, Do(t, i), found), largest)
  {
    hide Bounded, Recorded, FoundCovered, LargestCovered;
    DoOwed(s, t, i, AddAllocated);
    DoOwed(s, t, i, AddTotal);
    DoOwed(s, t, i, AddNum);
    DoKeepsThreads(s, t, i, found, largest);
    DoCoversFound(s, t, i, found);
    DoCoversLargest(s, t, i, largest);
    InFlight(s, t, i, found, largest);
  }

  lemma InFlight(s: State, t: nat, i: Instruction, found: int, largest: int)
    requires Enabled(s, Do(t, i)) && Bounded(s.threads[t], found, largest)
    ensures s.threads[t].size <= largest
    ensures i == MaxPeak ==> s.threads[t].seen <= found
  {
  }

  lemma DoCoversFound(s: State, t: nat, i: Instruction, found: int)
    requires Enabled(s, Do(t, i)) && FoundCovered(s, found) && Recorded(s.threads[t], s.counters)
    ensures FoundCovered(Step(s, Do(t, i)), NextFound(s, Do(t, i), found))
  {
    var s', next := Step(s, Do(t, i)), NextFound(s, Do(t, i), found);
    var th := s.threads[t];
    if next > found {
      // This thread has just found a new highest value, and its peak is still to record.
      assert MaxPeak in th.pending - {i};
      assert Carries(s'.threads[t], next);
    } else if found > s.counters.peak {
      var u :| 0 <= u < |s.threads| && Carries(s.threads[u], found);
      if u != t {
        assert Carries(s'.threads[u], found);
      } else if i != MaxPeak {
        assert MaxPeak in th.pending - {i};
        assert Carries(s'.threads[t], found);
      }
    }
  }

  lemma DoCoversLargest(s: State, t: nat, i: Instruction, largest: int)
    requires Enabled(s, Do(t, i)) && LargestCovered(s, largest)
    ensures LargestCovered(Step(s, Do(t, i)), largest)
  {
    var s' := Step(s, Do(t, i));
    if largest > s.counters.largest {
      var u :| 0 <= u < |s.threads| && s.threads[u].Counting? && MaxLargest in s.threads[u].pending
               && s.threads[u].size == largest;
      if u != t {
        assert s'.threads[u] == s.threads[u];
      } else if i != MaxLargest {
        assert MaxLargest in s.threads[t].pending - {i};
        assert s'.threads[u].size == largest;
      }
    }
  }

  lemma {:induction false} RunKeepsInvariant(n: nat, run: seq<Event>)
    requires IsRun(n, run)
    ensures Invariant(After(n, run), Requested(run), Freed(run), Calls(run), HighestFound(n, run), LargestRequest(run))
  {
    if run == [] {
      forall i ensures Owed(Start(n).threads, i) == 0 {
        OwedIdle(Start(n).threads, i);
      }
    } else {
      var before, e := run[..|run| - 1], run[|run| - 1];
      var s, found := After(n, before), HighestFound(n, before);
      RunKeepsInvariant(n, before);
      match e
      case Begin(t, size) =>
        BeginKeeps(s, t, size, Requested(before), Freed(before), Calls(before), found, LargestRequest(before));
      case Do(t, i) =>
        DoKeeps(s, t, i, Requested(before), Freed(before), Calls(before), found, LargestRequest(before));
      case Free(size) =>
        FreeKeeps(s, size, Requested(before), Freed(before), Calls(before), found, LargestRequest(before));
    }
  }

  // ---------------------------------------------------------------- what the counters mean

  /** At every moment, `allocated` is the bytes booked in minus the bytes booked out. */
  lemma {:induction false} AllocatedIsBalance(n: nat, run: seq<Event>)
    requires IsRun(n, run)
    ensures After(n, run).counters.allocatedBytes == Booked(n, run) - Freed(run)
  {
    if run != [] {
      AllocatedIsBalance(n, run[..|run| - 1]);
    }
  }

  /** The highest value found is one that was found, or 0, and nothing higher was. */
  lemma {:induction false} HighestFoundIsFound(n: nat, run: seq<Event>, m: int)
    requires IsRun(n, run)
    ensures HighestFound(n, run) == 0 || Finds(n, run, HighestFound(n, run))
    ensures Finds(n, run, m) ==> m <= HighestFound(n, run)
    ensures HighestFound(n, run) >= 0
  {
    if run != [] {
      HighestFoundIsFound(n, run[..|run| - 1], m);
    }
  }

  /** The true maximum is 0 or the allocated bytes after some event, and none of those is above it. */
  lemma {:induction false} TrueMaximumIsMaximum(n: nat, run: seq<Event>)
    requires IsRun(n, run)
    ensures forall k :: 0 <= k <= |run| ==>
              IsRun(n, run[..k]) && After(n, run[..k]).counters.allocatedBytes <= TrueMaximum(n, run)
    ensures TrueMaximum(n, run) == 0 ||
            (exists k :: 0 <= k <= |run| && IsRun(n, run[..k])
                         && After(n, run[..k]).counters.allocatedBytes == TrueMaximum(n, run))
  {
    assert run[..|run|] == run;
    if run != [] {
      var before := run[..|run| - 1];
      TrueMaximumIsMaximum(n, before);
      forall k | 0 <= k < |run| ensures before[..k] == run[..k] {
      }
    }
  }

  lemma RequestIsCounted(n: nat, run: seq<Event>, t: nat)
    requires IsRun(n, run) && t < n && After(n, run).threads[t].Counting?
    ensures After(n, run).threads[t].size <= LargestRequest(run)
  {
    RunKeepsInvariant(n, run);
    assert Bounded(After(n, run).threads[t], HighestFound(n, run), LargestRequest(run));
  }

  /** The true maximum is within the largest request of the highest value found. */
  lemma {:induction false} MaximumNearFound(n: nat, run: seq<Event>)
    requires IsRun(n, run)
    ensures After(n, run).counters.allocatedBytes <= TrueMaximum(n, run)
    ensures HighestFound(n, run) <= TrueMaximum(n, run) <= HighestFound(n, run) + LargestRequest(run)
  {
    if run != [] {
      var before, e := run[..|run| - 1], run[|run| - 1];
      MaximumNearFound(n, before);
      if e.Do? {
        RequestIsCounted(n, before, e.thread);
      }
    }
  }

  /** The recorded peak never exceeds the true maximum, not even while threads are counting. */
  lemma PeakNeverExceeds(n: nat, run: seq<Event>)
    requires IsRun(n, run)
    ensures After(n, run).counters.peak <= HighestFound(n, run) <= TrueMaximum(n, run)
  {
    RunKeepsInvariant(n, run);
    MaximumNearFound(n, run);
  }

  /** No thread is inside the counting routine. */
  predicate Quiescent(s: State) {
    forall t :: 0 <= t < |s.threads| ==> s.threads[t].Idle?
  }

  /** Once all threads have left, the recorded peak is exactly the highest value an addition found. */
  lemma PeakIsHighestFound(n: nat, run: seq<Event>)
    requires IsRun(n, run) && Quiescent(After(n, run))
    ensures After(n, run).counters.peak == HighestFound(n, run)
  {
    RunKeepsInvariant(n, run);
  }

  /** The recorded peak is the true maximum exactly when that maximum is 0 or some addition found it. */
  lemma PeakIsExactIff(n: nat, run: seq<Event>)
    requires IsRun(n, run) && Quiescent(After(n, run))
    ensures After(n, run).counters.peak == TrueMaximum(n, run) <==>
            TrueMaximum(n, run) == 0 || Finds(n, run, TrueMaximum(n, run))
  {
    PeakIsHighestFound(n, run);
    PeakNeverExceeds(n, run);
    HighestFoundIsFound(n, run, TrueMaximum(n, run));
  }

  /**
   * When no thread is inside the counting routine, all counters are settled: the recorded peak is the highest
   * value found, below the true maximum by at most the largest request, and the rest is exact.
   */
  lemma QuiescentCounters(n: nat, run: seq<Event>)
    requires IsRun(n, run) && Quiescent(After(n, run))
    ensures var c := After(n, run).counters;
            && c.peak == HighestFound(n, run)
            && c.peak <= TrueMaximum(n, run) <= c.peak + c.largest
            && c.total - c.allocatedBytes == Freed(run)
            && c.total == Requested(run) && c.num == Calls(run) && c.largest == LargestRequest(run)
  {
    RunKeepsInvariant(n, run);
    MaximumNearFound(n, run);
    PeakIsHighestFound(n, run);
    OwedIdle(After(n, run).threads, AddAllocated);
    OwedIdle(After(n, run).threads, AddTotal);
    OwedIdle(After(n, run).threads, AddNum);
  }

  // ---------------------------------------------------------------- one call from start to end

  lemma Extend(n: nat, run: seq<Event>, e: Event)
    requires IsRun(n, run) && Enabled(After(n, run), e)
    ensures IsRun(n, run + [e]) && After(n, run + [e]) == Step(After(n, run), e)
    ensures TrueMaximum(n, run + [e]) == Max(TrueMaximum(n, run), Step(After(n, run), e).counters.allocatedBytes)
  {
    assert (run + [e])[..|run|] == run;
  }

  /** A thread inside the routine executes one of its instructions. */
  lemma OwnStep(n: nat, run: seq<Event>, c: Counters, threads: seq<Thread>, t: nat, th: Thread, i: Instruction)
    returns (more: seq<Event>)
    requires t < |threads| && IsRun(n, run) && After(n, run) == State(c, threads[t := th])
    requires th.Counting? && i in th.pending && (i == MaxPeak ==> AddAllocated !in th.pending)
    ensures more == run + [Do(t, i)] && IsRun(n, more)
    ensures
      var c' := Apply(c, i, th.size, th.seen);
      && After(n, more) == State(c', threads[t := Advance(th, i, c.allocatedBytes)])
      && TrueMaximum(n, more) == Max(TrueMaximum(n, run), c'.allocatedBytes)
  {
    hide IsRun, TrueMaximum;
    Extend(n, run, Do(t, i));
    more := run + [Do(t, i)];
    var next := Advance(th, i, c.allocatedBytes);
    assert threads[t := th][t := next] == threads[t := next];
  }

  /** The five instructions of one call, uninterrupted, amount to what the routine counts. */
  lemma OneCall(n: nat, run: seq<Event>, t: nat, size: nat) returns (more: seq<Event>)
    requires IsRun(n, run) && t < n && After(n, run).threads[t].Idle?
    ensures IsRun(n, more) && run <= more
    ensures After(n, more).counters == Counted(After(n, run).counters, Begin(t, size))
    ensures After(n, more).threads == After(n, run).threads
    ensures TrueMaximum(n, more) ==
            Max(Max(TrueMaximum(n, run), After(n, run).counters.allocatedBytes), After(n, more).counters.allocatedBytes)
  {
    var c, threads := After(n, run).counters, After(n, run).threads;
    var a := c.allocatedBytes;
    Extend(n, run, Begin(t, size));
    more := run + [Begin(t, size)];
    hide IsRun, After, TrueMaximum, Step;
    assert After(n, more) == State(c, threads[t := Counting(size, 0, ALL)]) by {
      BeginStep(State(c, threads), t, size);
    }
    more := OwnStep(n, more, c, threads, t, Counting(size, 0, ALL), AddAllocated);
    assert ALL - {AddAllocated} == {AddTotal, AddNum, MaxPeak, MaxLargest};
    c := c.(allocatedBytes := a + size);
    more := OwnStep(n, more, c, threads, t, Counting(size, a, {AddTotal, AddNum, MaxPeak, MaxLargest}), AddTotal);
    assert {AddTotal, AddNum, MaxPeak, MaxLargest} - {AddTotal} == {AddNum, MaxPeak, MaxLargest};
    c := c.(total := c.total + size);
    more := OwnStep(n, more, c, threads, t, Counting(size, a, {AddNum, MaxPeak, MaxLargest}), AddNum);
    assert {AddNum, MaxPeak, MaxLargest} - {AddNum} == {MaxPeak, MaxLargest};
    c := c.(num := c.num + 1);
    more := OwnStep(n, more, c, threads, t, Counting(size, a, {MaxPeak, MaxLargest}), MaxPeak);
    assert {MaxPeak, MaxLargest} - {MaxPeak} == {MaxLargest};
    c := c.(peak := Max(c.peak, a));
    more := OwnStep(n, more, c, threads, t, Counting(size, a, {MaxLargest}), MaxLargest);
    assert {MaxLargest} - {MaxLargest} == {};
    assert threads[t := Idle] == threads;
  }

  /** Each instruction once, in any order in which the peak comes after the addition that it needs. */
  ghost predicate IsOrder(order: seq<Instruction>) {
    && (forall i: Instruction :: i in order)
    && (forall j, k :: 0 <= j < k < |order| ==>
          order[j] != order[k] && !(order[j] == MaxPeak && order[k] == AddAllocated))
  }

  function Executed(order: seq<Instruction>): set<Instruction> {
    set i | i in order
  }

  /** The counters when these instructions of a call have been executed, and no other. */
  function Partway(c: Counters, size: nat, done: set<Instruction>): Counters {
    Counters(if AddAllocated in done then c.allocatedBytes + size else c.allocatedBytes,
             if MaxPeak in done then Max(c.peak, c.allocatedBytes) else c.peak,
             if AddTotal in done then c.total + size else c.total,
             if MaxLargest in done then Max(c.largest, size) else c.largest,
             if AddNum in done then c.num + 1 else c.num)
  }

  function PartwayThread(c: Counters, size: nat, done: set<Instruction>): Thread {
    if ALL <= done then Idle
    else Counting(size, if AddAllocated in done then c.allocatedBytes else 0, ALL - done)
  }

  function Events(t: nat, size: nat, order: seq<Instruction>, k: nat): (events: seq<Event>)
    requires k <= |order|
    ensures |events| == k + 1
  {
    [Begin(t, size)] + seq(k, j requires 0 <= j < k => Do(t, order[j]))
  }

  lemma {:induction false} FirstInstructions(
      n: nat, run: seq<Event>, t: nat, size: nat, order: seq<Instruction>, k: nat)
    requires IsRun(n, run) && t < n && After(n, run).threads[t].Idle? && IsOrder(order) && k <= |order|
    ensures IsRun(n, run + Events(t, size, order, k))
    ensures
      var c, done := After(n, run).counters, Executed(order[..k]);
      After(n, run + Events(t, size, order, k))
      == State(Partway(c, size, done), After(n, run).threads[t := PartwayThread(c, size, done)])
  {
    hide IsRun, After, TrueMaximum;
    var s := After(n, run);
    if k == 0 {
      Extend(n, run, Begin(t, size));
      assert Events(t, size, order, 0) == [Begin(t, size)] && Executed(order[..0]) == {} && ALL - {} == ALL;
    } else {
      var j := k - 1;
      var before, done := run + Events(t, size, order, j), Executed(order[..j]);
      FirstInstructions(n, run, t, size, order, j);
      NextInstruction(order, j);
      var more := OwnStep(n, before, Partway(s.counters, size, done), s.threads, t,
                          PartwayThread(s.counters, size, done), order[j]);
      assert before + [Do(t, order[j])] == run + Events(t, size, order, k);
      OneMoreDone(s.counters, size, done, order[j]);
    }
  }

  lemma {:induction false} NextInstruction(order: seq<Instruction>, j: nat)
    requires IsOrder(order) && j < |order|
    ensures order[j] !in Executed(order[..j]) && Executed(order[..j + 1]) == Executed(order[..j]) + {order[j]}
    ensures order[j] == MaxPeak ==> AddAllocated in Executed(order[..j])
  {
    assert order[..j + 1] == order[..j] + [order[j]];
    if order[j] == MaxPeak {
      assert AddAllocated in order;
      var k :| 0 <= k < |order| && order[k] == AddAllocated;
      assert k < j && order[..j][k] == AddAllocated;
    }
  }

  lemma {:induction false} OneMoreDone(c: Counters, size: nat, done: set<Instruction>, i: Instruction)
    requires i !in done && (i == MaxPeak ==> AddAllocated in done)
    ensures
      var th, before := PartwayThread(c, size, done), Partway(c, size, done);
      && th.Counting? && i in th.pending && (i == MaxPeak ==> AddAllocated !in th.pending)
      && Apply(before, i, th.size, th.seen) == Partway(c, size, done + {i})
      && Advance(th, i, before.allocatedBytes) == PartwayThread(c, size, done + {i})
  {
    assert i in ALL;
    var rest := ALL - done - {i};
    assert rest == ALL - (done + {i});
    assert rest == {} <==> ALL <= done + {i};
  }

  /**
   * A call may execute its instructions in any order that adds before it records the peak, and without interference
   * every such order counts the same.
   */
  lemma {:induction false} AnyOrderCounts(n: nat, run: seq<Event>, t: nat, size: nat, order: seq<Instruction>)
    requires IsRun(n, run) && t < n && After(n, run).threads[t].Idle? && IsOrder(order)
    ensures IsRun(n, run + Events(t, size, order, |order|))
    ensures
      var c := After(n, run).counters;
      After(n, run + Events(t, size, order, |order|))
      == State(Counters(c.allocatedBytes + size, Max(c.peak, c.allocatedBytes), c.total + size, Max(c.largest, size),
                        c.num + 1), After(n, run).threads)
  {
    FirstInstructions(n, run, t, size, order, |order|);
    hide IsRun, After;
    assert order[..|order|] == order;
    var threads := After(n, run).threads;
    assert threads[t := Idle] == threads;
  }

  /** What one thread can do next, no event of another thread takes away. */
  lemma {:induction false} ThreadsDoNotBlock(s: State, e: Event, f: Event)
    requires Enabled(s, e) && Enabled(s, f) && (e.Free? || f.Free? || e.thread != f.thread)
    ensures Enabled(Step(s, f), e)
  {
  }

  lemma BeginStep(s: State, t: nat, size: nat)
    requires Enabled(s, Begin(t, size))
    ensures Step(s, Begin(t, size)) == State(s.counters, s.threads[t := Counting(size, 0, ALL)])
  {
  }

  /** The peak really can miss the maximum by the largest request: one allocation leaves it at zero. */
  lemma PeakMissesFirstAllocation(size: nat) returns (run: seq<Event>)
    ensures IsRun(1, run) && Quiescent(After(1, run))
    ensures After(1, run).counters == Counters(size, 0, size, size, 1) && TrueMaximum(1, run) == size
  {
    run := OneCall(1, [], 0, size);
  }
}
