/** The kernel object table, the thread list, the ready queue and the threads' stacks and
    TLS blocks, as a state machine over the calls of kernel.cpp, and what every run of it
    keeps. `Kernel` ties the objects and their fields to this state. */
module KernelSpec {
  import opened AddressSpace
  import opened Optional
  import opened Words
  import Alloc = AllocatorSpec

  const RUNNING: int := 1
  const READY: int := 2
  const STAGNANT: int := 128

  const FIRST_UID: int := 0x100
  const INT_MAX: int := 0x7FFF_FFFF
  const BAD_ADDRESS: Address := 0xFFFF_FFFF

  /** Sizes in bytes: what `start_thread` asks for, and the block it gets. */
  const TLS_REQUEST: Address := 0x1000
  const TLS_BLOCK: int := 0x2000

  const RETURN_ADDRESS: Address := 0xBAD4_F00D
  const START_CPSR: Address := 0x4000_01F3

  type Registers = r: seq<Address> | |r| == 16 witness seq(16, _ => 0)

  datatype Context = Context(reg: Registers, cpsr: Address)

  /** All registers zero. */
  function Zeroed(): Context {
    Context([0, 0, 0, 0, 0, 0, 0, 0, 0, 0, 0, 0, 0, 0, 0, 0], 0)
  }

  datatype ThreadState = ThreadState(
    name: string, attr: Address, status: int, entryPoint: Address, stackSize: int,
    initPriority: int, currentPriority: int, tlsLow: Address, context: Context)

  datatype KernelState = KernelState(
    nextUid: int, objects: map<int, ThreadState>, threadList: seq<int>, readyQueue: seq<int>, spans: seq<Span>)

  // ---------------------------------------------------------------- the calls

  /** `create_thread`: the new state and the UID. */
  function CreateThread(s: KernelState, name: string, entry: Address, priority: int, stackSize: Address, attr: Address)
    : (KernelState, int)
  {
    var t := ThreadState(name, attr, STAGNANT, entry, AsInt32(stackSize), priority, priority, 0, Zeroed());
    (s.(nextUid := s.nextUid + 1, objects := s.objects[s.nextUid := t], threadList := s.threadList + [s.nextUid]),
     s.nextUid)
  }

  /** The context a thread starts with. */
  function Entered(t: ThreadState, sp: Address): Context {
    Context(t.context.reg[15 := t.entryPoint][14 := RETURN_ADDRESS][13 := sp], START_CPSR)
  }

  /** The thread and the region list once it is started. */
  function Started(t: ThreadState, spans: seq<Span>): (ThreadState, seq<Span>) {
    var (spans1, sp) := Alloc.AllocateStack(spans, Wrap(t.stackSize));
    var (spans2, tls) := Alloc.AllocateHeap(spans1, TLS_REQUEST);
    (t.(context := Entered(t, sp), tlsLow := tls, status := READY), spans2)
  }

  /** `start_thread`: -1 for an unknown UID. A non-null argument pointer ends the process:
      there is no result. */
  function StartThread(s: KernelState, uid: int, argPtr: Address): (KernelState, Option<int>) {
    if uid !in s.objects then (s, Some(-1))
    else if argPtr != 0 then (s, None)
    else
      var (t, spans) := Started(s.objects[uid], s.spans);
      (s.(objects := s.objects[uid := t], spans := spans), Some(0))
  }

  function RemoveFirst(list: seq<int>, uid: int): seq<int> {
    if list == [] then []
    else if list[0] == uid then list[1..]
    else [list[0]] + RemoveFirst(list[1..], uid)
  }

  /** `destroy_kernel_object` */
  function Destroy(s: KernelState, uid: int): (KernelState, bool) {
    if uid !in s.objects then (s, false)
    else (s.(threadList := RemoveFirst(s.threadList, uid), objects := s.objects - {uid}), true)
  }

  /** `get_tls_addr` */
  function TlsAddress(s: KernelState, uid: int, key: int): Address {
    if uid in s.objects && 0 <= key <= 0x100 then Wrap(s.objects[uid].tlsLow + key * 4) else BAD_ADDRESS
  }

  /** The live READY threads of the list, in its order. */
  function ReadyThreads(objects: map<int, ThreadState>, list: seq<int>): seq<int> {
    if list == [] then []
    else (if list[0] in objects && objects[list[0]].status == READY then [list[0]] else [])
         + ReadyThreads(objects, list[1..])
  }

  lemma ReadyThreadsStart(objects: map<int, ThreadState>, list: seq<int>)
    ensures ReadyThreads(objects, list) == [] + ReadyThreads(objects, list[0..])
  {
    assert list[0..] == list;
  }

  /** The queue after the list entry at `i`. */
  lemma ReadyThreadsStep(objects: map<int, ThreadState>, list: seq<int>, i: nat, queue: seq<int>)
    requires i < |list|
    ensures queue + ReadyThreads(objects, list[i..]) ==
              (if list[i] in objects && objects[list[i]].status == READY then queue + [list[i]] else queue)
              + ReadyThreads(objects, list[i + 1..])
  {
    assert list[i..][1..] == list[i + 1..];
  }

  lemma ReadyThreadsEnd(objects: map<int, ThreadState>, list: seq<int>, queue: seq<int>)
    requires list == []
    ensures queue + ReadyThreads(objects, list) == queue
  {
  }

  /** The loop that takes entries off the queue until it is empty or an entry is dead. */
  function Drain(objects: map<int, ThreadState>, queue: seq<int>): (seq<int>, Option<int>)
    requires queue != []
  {
    var uid, rest := queue[0], queue[1..];
    if uid !in objects then (rest, None)
    else if rest == [] then (rest, Some(uid))
    else Drain(objects, rest)
  }

  /** `fetch_ready_thread` */
  function FetchReady(s: KernelState): (KernelState, Option<int>) {
    var queue := if s.readyQueue == [] then ReadyThreads(s.objects, s.threadList) else s.readyQueue;
    if queue == [] then (s, None)
    else
      var (rest, uid) := Drain(s.objects, queue);
      (s.(readyQueue := rest), uid)
  }

  /** The first half of `run_single_thread_with_events`: the fetched thread is RUNNING. */
  function Dispatch(s: KernelState): (KernelState, Option<int>) {
    var (s', uid) := FetchReady(s);
    if uid.None? || uid.value !in s'.objects then (s', None)
    else (s'.(objects := s'.objects[uid.value := s'.objects[uid.value].(status := RUNNING)]), uid)
  }

  /** The second half, once the CPU has run: its registers are stored, and the thread is
      READY again if it is still RUNNING. */
  function Retire(s: KernelState, uid: int, after: Context): KernelState
    requires uid in s.objects
  {
    var t := s.objects[uid].(context := after);
    s.(objects := s.objects[uid := if t.status == RUNNING then t.(status := READY) else t])
  }

  // ---------------------------------------------------------------- table and list

  predicate Increasing(list: seq<int>) {
    forall i, j :: 0 <= i < j < |list| ==> list[i] < list[j]
  }

  /** Table and thread list agree, every UID was handed out, and the ready queue is empty. */
  ghost predicate Consistent(s: KernelState) {
    && (forall uid :: uid in s.objects ==> FIRST_UID <= uid < s.nextUid)
    && (forall uid :: uid in s.threadList <==> uid in s.objects)
    && FIRST_UID <= s.nextUid
    && Increasing(s.threadList)
    && s.readyQueue == []
  }

  lemma HeadIsLeast(list: seq<int>)
    requires Increasing(list) && list != []
    ensures Increasing(list[1..])
    ensures forall x :: x in list <==> x == list[0] || x in list[1..]
    ensures forall x :: x in list[1..] ==> list[0] < x
  {
    var tail := list[1..];
    assert forall i :: 0 <= i < |tail| ==> tail[i] == list[i + 1];
    assert list == [list[0]] + tail;
  }

  lemma ConsIncreasing(x: int, tail: seq<int>)
    requires Increasing(tail) && forall y :: y in tail ==> x < y
    ensures Increasing([x] + tail)
  {
    assert forall i :: 0 <= i < |tail| ==> tail[i] in tail;
  }

  lemma SnocIncreasing(list: seq<int>, x: int)
    requires Increasing(list) && forall y :: y in list ==> y < x
    ensures Increasing(list + [x])
    ensures forall y :: y in list + [x] <==> y in list || y == x
  {
    assert forall i :: 0 <= i < |list| ==> list[i] in list;
  }

  lemma {:induction false} RemoveFirstKeeps(list: seq<int>, uid: int)
    requires Increasing(list)
    ensures Increasing(RemoveFirst(list, uid))
    ensures forall x :: x in RemoveFirst(list, uid) <==> x in list && x != uid
    decreases |list|
  {
    if list != [] {
      hide Increasing;
      HeadIsLeast(list);
      RemoveFirstKeeps(list[1..], uid);
      if list[0] != uid {
        ConsIncreasing(list[0], RemoveFirst(list[1..], uid));
      }
    }
  }

  // ---------------------------------------------------------------- the scheduler

  predicate IsReady(s: KernelState, uid: int) {
    uid in s.objects && s.objects[uid].status == READY
  }

  lemma {:induction false} ReadyThreadsAre(objects: map<int, ThreadState>, list: seq<int>)
    requires Increasing(list)
    ensures Increasing(ReadyThreads(objects, list))
    ensures forall x :: x in ReadyThreads(objects, list) <==> x in list && x in objects && objects[x].status == READY
    decreases |list|
  {
    if list != [] {
      hide Increasing;
      var r := ReadyThreads(objects, list[1..]);
      HeadIsLeast(list);
      ReadyThreadsAre(objects, list[1..]);
      ConsIncreasing(list[0], r);
      assert [] + r == r;
    }
  }

  /** A queue of live threads is drained, and its last entry returned. */
  lemma {:induction false} DrainTakesLast(objects: map<int, ThreadState>, queue: seq<int>)
    requires queue != [] && forall uid :: uid in queue ==> uid in objects
    ensures Drain(objects, queue) == ([], Some(queue[|queue| - 1]))
    decreases |queue|
  {
    assert queue[0] in queue;
    if |queue| > 1 {
      DrainTakesLast(objects, queue[1..]);
    }
  }

  /** Fetching leaves the state as it was. It finds no thread exactly when no live thread
      is READY; otherwise it finds the READY thread created last. */
  lemma FetchFinds(s: KernelState)
    requires Consistent(s)
    ensures var (s', uid) := FetchReady(s);
            && s' == s
            && (uid.None? <==> forall x :: !IsReady(s, x))
            && (uid.Some? ==> IsReady(s, uid.value) && forall x :: IsReady(s, x) ==> x <= uid.value)
  {
    var queue := ReadyThreads(s.objects, s.threadList);
    ReadyQueueIs(s);
    if queue != [] {
      DrainTakesLast(s.objects, queue);
      LastIsGreatest(queue);
    }
  }

  /** The rebuilt queue holds the READY threads, in the order of their UIDs. */
  lemma ReadyQueueIs(s: KernelState)
    requires Consistent(s)
    ensures var queue := ReadyThreads(s.objects, s.threadList);
            && Increasing(queue)
            && (forall x :: x in queue <==> IsReady(s, x))
            && (queue == [] <==> forall x :: !IsReady(s, x))
  {
    hide Increasing;
    var queue := ReadyThreads(s.objects, s.threadList);
    ReadyThreadsAre(s.objects, s.threadList);
    assert queue != [] ==> queue[0] in queue;
    assert queue != [] ==> IsReady(s, queue[0]);
    assert queue == [] ==> forall x :: IsReady(s, x) ==> x in queue;
  }

  lemma LastIsGreatest(queue: seq<int>)
    requires Increasing(queue) && queue != []
    ensures var last := queue[|queue| - 1]; last in queue && forall x :: x in queue ==> x <= last
  {
  }

  /** Dispatching makes the READY thread of greatest UID RUNNING (1) and leaves everything
      else as it was. */
  lemma DispatchRuns(s: KernelState)
    requires Consistent(s)
    ensures var (s', uid) := Dispatch(s);
            && (uid.None? <==> forall x :: x in s.objects ==> s.objects[x].status != 2)
            && (uid.None? ==> s' == s)
            && (uid.Some? ==>
                  && uid.value in s.objects && s.objects[uid.value].status == 2
                  && (forall x :: x in s.objects && s.objects[x].status == 2 ==> x <= uid.value)
                  && s'.objects.Keys == s.objects.Keys
                  && s'.objects[uid.value] == s.objects[uid.value].(status := 1)
                  && (forall x :: x in s.objects && x != uid.value ==> s'.objects[x] == s.objects[x])
                  && s' == s.(objects := s'.objects) && Consistent(s'))
  {
    hide FetchReady, Increasing;
    FetchFinds(s);
    forall x ensures IsReady(s, x) <==> x in s.objects && s.objects[x].status == 2 {}
    if FetchReady(s).1.None? {
      forall x | x in s.objects ensures s.objects[x].status != 2 {
        assert !IsReady(s, x);
      }
    }
  }

  /** A second dispatch finds the next READY thread, or none. */
  lemma DispatchTwice(s: KernelState)
    requires Consistent(s)
    ensures var (s1, first) := Dispatch(s);
            var (s2, second) := Dispatch(s1);
            && (first.Some? && second.Some? ==> second.value < first.value)
            && (second.None? <==> forall x, y ::
                  x in s.objects && s.objects[x].status == 2 && y in s.objects && s.objects[y].status == 2 ==> x == y)
  {
    hide Dispatch, Consistent;
    DispatchRuns(s);
    var s1 := Dispatch(s).0;
    DispatchRuns(s1);
  }

  /** Retiring stores the registers; the thread is READY (2) again exactly when it was still
      RUNNING (1), and else keeps its status. Everything else is as it was. */
  lemma RetireOutcome(s: KernelState, uid: int, after: Context)
    requires uid in s.objects
    ensures var s' := Retire(s, uid, after);
            var t, t' := s.objects[uid], s'.objects[uid];
            && s'.objects.Keys == s.objects.Keys && t'.context == after
            && t'.status == (if t.status == 1 then 2 else t.status)
            && t' == t.(context := after, status := t'.status)
            && (forall x :: x in s.objects && x != uid ==> s'.objects[x] == s.objects[x])
            && s' == s.(objects := s'.objects)
  {
  }

  /** One call of `run_single_thread_with_events` in which the guest makes no kernel call. */
  function RunSlice(s: KernelState, after: Context): (KernelState, Option<int>) {
    var (s', uid) := Dispatch(s);
    if uid.None? || uid.value !in s'.objects then (s', None) else (Retire(s', uid.value, after), uid)
  }

  function RunSlices(s: KernelState, contexts: seq<Context>): seq<Option<int>>
    decreases |contexts|
  {
    if contexts == [] then []
    else var (s', uid) := RunSlice(s, contexts[0]); [uid] + RunSlices(s', contexts[1..])
  }

  lemma SliceKeepsReady(s: KernelState, after: Context)
    requires Consistent(s)
    ensures var (s', uid) := RunSlice(s, after);
            && uid == FetchReady(s).1
            && s' == (if uid.None? then s
                      else s.(objects := s.objects[uid.value := s.objects[uid.value].(context := after)]))
            && Consistent(s')
            && forall x :: IsReady(s', x) <==> IsReady(s, x)
  {
    FetchFinds(s);
    var (s', uid) := RunSlice(s, after);
    if uid.Some? {
      var t := s.objects[uid.value];
      assert t.(status := RUNNING).(context := after).(status := READY) == t.(context := after);
    }
  }

  /** Left alone the scheduler runs the same thread in every slice. */
  lemma {:induction false} SchedulerStarves(s: KernelState, contexts: seq<Context>)
    requires Consistent(s)
    ensures RunSlices(s, contexts) == seq(|contexts|, i => FetchReady(s).1)
    decreases |contexts|
  {
    if contexts != [] {
      hide Consistent, RunSlice, FetchReady;
      var (s', uid) := RunSlice(s, contexts[0]);
      SliceKeepsFetch(s, contexts[0]);
      SchedulerStarves(s', contexts[1..]);
      assert RunSlices(s, contexts) == [uid] + RunSlices(s', contexts[1..]);
    }
  }

  /** So it is fair, giving every READY thread a slice, exactly when at most one is READY. */
  lemma FairIff(s: KernelState, contexts: seq<Context>)
    requires Consistent(s) && contexts != []
    ensures (forall x :: IsReady(s, x) ==> Some(x) in RunSlices(s, contexts))
            <==> (forall x, y :: IsReady(s, x) && IsReady(s, y) ==> x == y)
  {
    hide Consistent, IsReady, FetchReady, RunSlices;
    SchedulerStarves(s, contexts);
    FetchFinds(s);
    assert RunSlices(s, contexts)[0] == FetchReady(s).1;
  }

  /** A READY thread never runs while a thread created after it is READY. */
  lemma OlderStarves(s: KernelState, older: int, younger: int, contexts: seq<Context>)
    requires Consistent(s) && IsReady(s, older) && IsReady(s, younger) && older < younger
    ensures Some(older) !in RunSlices(s, contexts)
  {
    hide Consistent, IsReady, FetchReady, RunSlices;
    SchedulerStarves(s, contexts);
    FetchFinds(s);
  }

  lemma SliceKeepsFetch(s: KernelState, after: Context)
    requires Consistent(s)
    ensures var (s', uid) := RunSlice(s, after);
            Consistent(s') && uid == FetchReady(s).1 == FetchReady(s').1
  {
    hide Consistent, RunSlice, FetchReady, IsReady;
    SliceKeepsReady(s, after);
    FetchFinds(s);
    FetchFinds(RunSlice(s, after).0);
  }

  // ---------------------------------------------------------------- stacks and TLS blocks

  /** A block handed to a thread: the stack with its initial SP and requested size, or
      the TLS block. */
  datatype Grant =
    | Stack(uid: int, block: Span, sp: Address, size: Address)
    | Tls(uid: int, block: Span)

  /** The block an allocation takes. */
  function Placed(spans: seq<Span>, size: Address): Span {
    var (address, memorySize) := Alloc.MoreMemory(spans, size);
    Alloc.Block(address, memorySize)
  }

  /** What `start_thread` hands out. */
  function StartGrants(s: KernelState, uid: int, argPtr: Address): seq<Grant> {
    if uid !in s.objects || argPtr != 0 then []
    else
      var size := Wrap(s.objects[uid].stackSize);
      var (spans1, sp) := Alloc.AllocateStack(s.spans, size);
      [Stack(uid, Placed(s.spans, size), sp, size), Tls(uid, Placed(spans1, TLS_REQUEST))]
  }

  /** Room for what `start_thread` allocates. */
  predicate StartRoom(s: KernelState, uid: int, argPtr: Address) {
    uid in s.objects && argPtr == 0 ==>
      var size := Wrap(s.objects[uid].stackSize);
      && Alloc.Room(s.spans, size)
      && Alloc.Room(Alloc.AllocateStack(s.spans, size).0, TLS_REQUEST)
  }

  predicate Disjoint(grants: seq<Grant>) {
    forall i, j :: 0 <= i < j < |grants| ==> Apart(grants[i].block, grants[j].block)
  }

  /** The stack area `[SP - size, SP)` is the top of the block and leaves bytes below it;
      SP is 0 when the block ends at the top of the address space. A TLS block has the
      slots of all keys. */
  predicate GrantSound(g: Grant) {
    && PAGE <= g.block.start <= g.block.end && g.block.end % PAGE == PAGE - 1
    && match g
       case Stack(_, block, sp, size) =>
         sp == Wrap(block.end + 1) && block.start <= block.end + 1 - size
       case Tls(_, block) =>
         block.end == block.start + TLS_BLOCK - 1
  }

  /** Every grant is still mapped, as a region of its own, and no two share an address. */
  predicate GrantsHeld(spans: seq<Span>, grants: seq<Grant>) {
    && Disjoint(grants)
    && forall i :: 0 <= i < |grants| ==> GrantSound(grants[i]) && grants[i].block in spans
  }

  /** Every region is still mapped, and none meets a block handed out since. */
  ghost predicate StaysApart(spans: seq<Span>, later: seq<Span>, grants: seq<Grant>) {
    && (forall x :: x in spans ==> x in later)
    && forall x, i :: x in spans && 0 <= i < |grants| ==> Apart(x, grants[i].block)
  }

  lemma StaysApartThen(spans: seq<Span>, next: seq<Span>, last: seq<Span>, first: seq<Grant>, second: seq<Grant>)
    requires StaysApart(spans, next, first) && StaysApart(next, last, second)
    ensures StaysApart(spans, last, first + second)
  {
  }

  /** A thread not yet started has no TLS block; any other owns the one it points to. */
  predicate OwnsTls(uid: int, t: ThreadState, grants: seq<Grant>) {
    if t.status == STAGNANT then t.tlsLow == 0
    else exists i :: 0 <= i < |grants| && grants[i].Tls? && grants[i].uid == uid && grants[i].block.start == t.tlsLow
  }

  predicate ThreadsOwnTls(s: KernelState, grants: seq<Grant>) {
    forall uid :: uid in s.objects ==> OwnsTls(uid, s.objects[uid], grants)
  }

  /** One allocation: a new page-ended region apart from all others. */
  lemma AllocationPlaces(spans: seq<Span>, size: Address)
    requires Layout(spans) && Alloc.Room(spans, size)
    ensures var (address, memorySize) := Alloc.MoreMemory(spans, size);
            var block := Placed(spans, size);
            && address != Alloc.NO_MEMORY && memorySize == Alloc.MemorySize(size) > size
            && PAGE <= block.start == address && block.end == address + memorySize - 1
            && block.end % PAGE == PAGE - 1
            && Alloc.AllocateStack(spans, size) == (Insert(spans, block), Wrap(block.end + 1))
            && Alloc.AllocateHeap(spans, size) == (Insert(spans, block), block.start)
            && Layout(Insert(spans, block))
            && block in Insert(spans, block)
            && (forall x :: x in spans ==> x in Insert(spans, block) && Apart(x, block))
  {
    hide Layout, Alloc.Room, Alloc.MoreMemory, Alloc.MemorySize, Alloc.Block, Insert;
    var block := Placed(spans, size);
    SizeGrows(spans, size);
    Alloc.MoreMemoryPlaces(spans, size);
    WholePages(block.start);
    Alloc.AllocateKeepsLayout(spans, size);
    InsertMembers(spans, block);
    WrapEnd(Alloc.MoreMemory(spans, size).0, Alloc.MoreMemory(spans, size).1, block);
    ApartMembers(spans, block);
  }

  lemma SizeGrows(spans: seq<Span>, size: Address)
    requires Alloc.Room(spans, size)
    ensures Alloc.MemorySize(size) > size
  {
    Alloc.MemorySizeExact(size);
  }

  lemma WholePages(a: int)
    requires a % PAGE == 0 && 0 < a
    ensures PAGE <= a
  {
  }

  lemma WrapEnd(address: Address, memorySize: Address, block: Span)
    requires block.end == address + memorySize - 1
    ensures Wrap(address + memorySize) == Wrap(block.end + 1)
  {
  }

  lemma ApartMembers(spans: seq<Span>, block: Span)
    requires ApartFromAll(spans, block)
    ensures forall x :: x in spans ==> Apart(x, block)
  {
  }

  lemma OneMoreGrant(spans: seq<Span>, spans': seq<Span>, grants: seq<Grant>, g: Grant)
    requires GrantsHeld(spans, grants) && GrantSound(g) && g.block in spans'
    requires forall x :: x in spans ==> x in spans' && Apart(x, g.block)
    ensures GrantsHeld(spans', grants + [g])
  {
  }

  lemma StartGrantsHeld(s: KernelState, uid: int, argPtr: Address, grants: seq<Grant>)
    requires Layout(s.spans) && GrantsHeld(s.spans, grants) && StartRoom(s, uid, argPtr)
    ensures var s' := StartThread(s, uid, argPtr).0;
            && Layout(s'.spans)
            && StaysApart(s.spans, s'.spans, StartGrants(s, uid, argPtr))
            && GrantsHeld(s'.spans, grants + StartGrants(s, uid, argPtr))
  {
    hide GrantsHeld, Layout, Placed, Insert, Disjoint;
    hide Alloc.Room, Alloc.AllocateStack, Alloc.AllocateHeap, Alloc.MoreMemory;
    var more := StartGrants(s, uid, argPtr);
    if more == [] {
      assert grants + more == grants;
    } else {
      var size := Wrap(s.objects[uid].stackSize);
      var spans1 := Alloc.AllocateStack(s.spans, size).0;
      var spans2 := Alloc.AllocateHeap(spans1, TLS_REQUEST).0;
      AllocationPlaces(s.spans, size);
      AllocationPlaces(spans1, TLS_REQUEST);
      StaysApartThen(s.spans, spans1, spans2, [more[0]], [more[1]]);
      assert more == [more[0]] + [more[1]];
      OneMoreGrant(s.spans, spans1, grants, more[0]);
      OneMoreGrant(spans1, spans2, grants + [more[0]], more[1]);
      assert grants + more == grants + [more[0]] + [more[1]];
    }
  }

  /** The 4 bytes from `a` lie in a TLS block granted to the thread. */
  predicate InOwnTls(spans: seq<Span>, grants: seq<Grant>, uid: int, a: Address) {
    exists i :: 0 <= i < |grants| && HoldsSlot(spans, grants[i], uid, a)
  }

  predicate HoldsSlot(spans: seq<Span>, g: Grant, uid: int, a: Address) {
    g.Tls? && g.uid == uid && g.block in spans && g.block.start <= a && a + 3 <= g.block.end
  }

  /** `get_tls_addr` gives, for each key, a 4-byte slot of a block granted to that thread
      exactly when the thread has been started; before that it gives an address in page 0. */
  lemma TlsSlotIffStarted(s: KernelState, grants: seq<Grant>, uid: int, key: int)
    requires GrantsHeld(s.spans, grants) && ThreadsOwnTls(s, grants)
    requires uid in s.objects && 0 <= key <= 0x100
    ensures InOwnTls(s.spans, grants, uid, TlsAddress(s, uid, key)) <==> s.objects[uid].status != STAGNANT
  {
    assert OwnsTls(uid, s.objects[uid], grants);
    if s.objects[uid].status != STAGNANT {
      TlsSlotInside(s, grants, uid, key);
    } else {
      forall i | 0 <= i < |grants| ensures !HoldsSlot(s.spans, grants[i], uid, TlsAddress(s, uid, key)) {
        assert GrantSound(grants[i]);
      }
    }
  }

  lemma TlsSlotInside(s: KernelState, grants: seq<Grant>, uid: int, key: int)
    requires uid in s.objects && GrantsHeld(s.spans, grants) && OwnsTls(uid, s.objects[uid], grants)
    requires s.objects[uid].status != STAGNANT && 0 <= key <= 0x100
    ensures exists i :: 0 <= i < |grants| && HoldsSlot(s.spans, grants[i], uid, TlsAddress(s, uid, key))
                        && TlsAddress(s, uid, key) == grants[i].block.start + 4 * key
  {
    var i :| 0 <= i < |grants| && grants[i].Tls? && grants[i].uid == uid
             && grants[i].block.start == s.objects[uid].tlsLow;
    assert GrantSound(grants[i]);
  }

  /** Slots of different threads, or of different keys, share no byte. */
  lemma TlsSlotsApart(s: KernelState, grants: seq<Grant>, u: int, k: int, v: int, l: int)
    requires GrantsHeld(s.spans, grants) && ThreadsOwnTls(s, grants)
    requires u in s.objects && s.objects[u].status != STAGNANT && 0 <= k <= 0x100
    requires v in s.objects && s.objects[v].status != STAGNANT && 0 <= l <= 0x100
    requires u != v || k != l
    ensures var x, y := TlsAddress(s, u, k), TlsAddress(s, v, l);
            x + 4 <= y || y + 4 <= x
  {
    assert OwnsTls(u, s.objects[u], grants) && OwnsTls(v, s.objects[v], grants);
    TlsSlotInside(s, grants, u, k);
    TlsSlotInside(s, grants, v, l);
    if u != v {
      hide TlsAddress;
      var i :| 0 <= i < |grants| && HoldsSlot(s.spans, grants[i], u, TlsAddress(s, u, k));
      var j :| 0 <= j < |grants| && HoldsSlot(s.spans, grants[j], v, TlsAddress(s, v, l));
      assert Apart(grants[if i < j then i else j].block, grants[if i < j then j else i].block);
    }
  }

  /** `create_thread` hands out the next UID for a STAGNANT (128) thread without TLS and
      changes no other thread. */
  lemma CreateOutcome(s: KernelState, name: string, entry: Address, priority: int, stackSize: Address, attr: Address)
    ensures var (s', uid) := CreateThread(s, name, entry, priority, stackSize, attr);
            && uid == s.nextUid && s'.nextUid == uid + 1
            && s'.objects.Keys == s.objects.Keys + {uid} && s'.threadList == s.threadList + [uid]
            && (forall x :: x in s.objects && x != uid ==> s'.objects[x] == s.objects[x])
            && var t := s'.objects[uid];
            && t.status == 128 && t.tlsLow == 0 && t.name == name && t.attr == attr && t.entryPoint == entry
            && t.initPriority == t.currentPriority == priority && Wrap(t.stackSize) == stackSize
            && t.context.cpsr == 0 && (forall i :: 0 <= i < 16 ==> t.context.reg[i] == 0)
            && s'.readyQueue == s.readyQueue && s'.spans == s.spans
  {
  }

  /** `start_thread`: an unknown UID gives -1 whatever the argument; a non-null argument ends
      the process before anything changes; otherwise 0, and no other thread changes. */
  lemma StartOutcome(s: KernelState, uid: int, argPtr: Address)
    ensures var (s', r) := StartThread(s, uid, argPtr);
            && (uid !in s.objects ==> s' == s && r == Some(-1))
            && (uid in s.objects && argPtr != 0 ==> s' == s && r == None)
            && (uid in s.objects && argPtr == 0 ==>
                  && r == Some(0) && s'.objects.Keys == s.objects.Keys
                  && (forall x :: x in s.objects && x != uid ==> s'.objects[x] == s.objects[x])
                  && var t, t' := s.objects[uid], s'.objects[uid];
                  && t'.status == 2 && t' == t.(status := 2, tlsLow := t'.tlsLow, context := t'.context)
                  && t'.context.reg[15] == t.entryPoint && t'.context.reg[14] == 0xBAD4_F00D
                  && t'.context.cpsr == 0x4000_01F3
                  && (forall i :: 0 <= i < 13 ==> t'.context.reg[i] == t.context.reg[i])
                  && s' == s.(objects := s'.objects, spans := s'.spans))
  {
    hide Alloc.AllocateStack, Alloc.AllocateHeap;
  }

  /** `get_tls_addr` refuses exactly unknown UIDs and keys outside 0..0x100. */
  lemma TlsRefused(s: KernelState, uid: int, key: int)
    requires uid in s.objects ==> s.objects[uid].tlsLow % 4 == 0
    ensures TlsAddress(s, uid, key) == 0xFFFF_FFFF <==> uid !in s.objects || key < 0 || key > 0x100
    ensures uid in s.objects && 0 <= key <= 0x100 ==>
              TlsAddress(s, uid, key) == (s.objects[uid].tlsLow + 4 * key) % 0x1_0000_0000
  {
  }

  /** A thread just created and started is the next to run: at its entry point, with the
      stack of the requested size at the top of a region of its own, and its TLS slots in
      another. */
  lemma CreateThenStart(s: KernelState, name: string, entry: Address, priority: int, stackSize: Address, attr: Address)
    requires Consistent(s) && Layout(s.spans)
    requires Alloc.Room(s.spans, stackSize) && Alloc.Room(Alloc.AllocateStack(s.spans, stackSize).0, TLS_REQUEST)
    ensures var (s1, uid) := CreateThread(s, name, entry, priority, stackSize, attr);
            var (s2, r) := StartThread(s1, uid, 0);
            var stack := Placed(s.spans, stackSize);
            && uid !in s.objects && r == Some(0)
            && Consistent(s2) && FetchReady(s2).1 == Some(uid)
            && var t := s2.objects[uid];
            && t.name == name && t.attr == attr && t.initPriority == t.currentPriority == priority
            && t.context.reg[15] == entry && t.context.reg[14] == 0xBAD4_F00D && t.context.cpsr == 0x4000_01F3
            && t.context.reg[13] == Wrap(stack.end + 1)
            && stack.start <= stack.end + 1 - stackSize
            && (forall i :: 0 <= i < 13 ==> t.context.reg[i] == 0)
            && stack in s2.spans && Span(t.tlsLow, Wrap(t.tlsLow + 0x1FFF)) in s2.spans
            && Apart(stack, Span(t.tlsLow, Wrap(t.tlsLow + 0x1FFF)))
  {
    hide Layout, Placed, Insert, FetchReady, Increasing;
    hide Alloc.Room, Alloc.AllocateStack, Alloc.AllocateHeap, Alloc.MoreMemory;
    var (s1, uid) := CreateThread(s, name, entry, priority, stackSize, attr);
    var (s2, r) := StartThread(s1, uid, 0);
    assert Wrap(AsInt32(stackSize)) == stackSize;
    SnocIncreasing(s.threadList, uid);
    FetchFinds(s2);
    assert IsReady(s2, uid);
    AllocationPlaces(s.spans, stackSize);
    AllocationPlaces(Alloc.AllocateStack(s.spans, stackSize).0, TLS_REQUEST);
  }

  // ---------------------------------------------------------------- runs

  /** The calls that change the state, in any order; other regions are mapped and heaps
      allocated in between. A slice of the CPU is a `Dispatch` and the `Retire` of the
      thread it found, with the guest's own kernel calls between the two. */
  datatype Op =
    | Create(name: string, entry: Address, priority: int, stackSize: Address, attr: Address)
    | Start(uid: int, argPtr: Address)
    | Kill(uid: int)
    | Memory(request: Alloc.Request)
    | Fetch
    | Stop(uid: int, after: Context)

  function Step(s: KernelState, op: Op): KernelState {
    match op
    case Create(name, entry, priority, stackSize, attr) => CreateThread(s, name, entry, priority, stackSize, attr).0
    case Start(uid, argPtr) => StartThread(s, uid, argPtr).0
    case Kill(uid) => Destroy(s, uid).0
    case Memory(request) => s.(spans := Alloc.Serve(s.spans, request))
    case Fetch => Dispatch(s).0
    case Stop(uid, after) => if uid in s.objects then Retire(s, uid, after) else s
  }

  function Granted(s: KernelState, op: Op): seq<Grant> {
    if op.Start? then StartGrants(s, op.uid, op.argPtr) else []
  }

  /** UIDs stay below `int` overflow, and the address space suffices. */
  predicate Admissible(s: KernelState, op: Op) {
    match op
    case Create(_, _, _, _, _) => s.nextUid < INT_MAX
    case Start(uid, argPtr) => StartRoom(s, uid, argPtr)
    case Memory(request) => Alloc.Admissible(s.spans, request)
    case Kill(_) => true
    case Fetch => true
    case Stop(_, _) => true
  }

  function Run(s: KernelState, ops: seq<Op>): KernelState
    decreases |ops|
  {
    if ops == [] then s else Run(Step(s, ops[0]), ops[1..])
  }

  function RunGrants(s: KernelState, ops: seq<Op>): seq<Grant>
    decreases |ops|
  {
    if ops == [] then [] else Granted(s, ops[0]) + RunGrants(Step(s, ops[0]), ops[1..])
  }

  /** The UIDs `create_thread` returns along the run. */
  function RunUids(s: KernelState, ops: seq<Op>): seq<int>
    decreases |ops|
  {
    if ops == [] then []
    else (if ops[0].Create? then [s.nextUid] else []) + RunUids(Step(s, ops[0]), ops[1..])
  }

  predicate AdmissibleRun(s: KernelState, ops: seq<Op>)
    decreases |ops|
  {
    ops != [] ==> Admissible(s, ops[0]) && AdmissibleRun(Step(s, ops[0]), ops[1..])
  }

  lemma StepKeepsConsistent(s: KernelState, op: Op)
    requires Consistent(s)
    ensures var s' := Step(s, op);
            && Consistent(s')
            && s'.nextUid == (if op.Create? then s.nextUid + 1 else s.nextUid)
            && (forall uid :: uid in s'.objects ==> uid in s.objects || (op.Create? && uid == s.nextUid))
  {
    hide Increasing;
    match op
    case Create(_, _, _, _, _) => SnocIncreasing(s.threadList, s.nextUid);
    case Start(_, _) =>
    case Kill(uid) => RemoveFirstKeeps(s.threadList, uid);
    case Memory(_) =>
    case Fetch => FetchFinds(s);
    case Stop(_, _) =>
  }

  lemma StepKeepsGrants(s: KernelState, op: Op, grants: seq<Grant>)
    requires Layout(s.spans) && GrantsHeld(s.spans, grants) && Admissible(s, op)
    ensures var s' := Step(s, op);
            && Layout(s'.spans)
            && StaysApart(s.spans, s'.spans, Granted(s, op))
            && GrantsHeld(s'.spans, grants + Granted(s, op))
  {
    hide Layout, Alloc.Room, Alloc.Serve, StartThread, StartGrants, StartRoom, Drain, ReadyThreads;
    if op.Start? {
      StartGrantsHeld(s, op.uid, op.argPtr, grants);
    } else {
      assert grants + Granted(s, op) == grants;
      if op.Memory? {
        Alloc.ServeKeepsLayout(s.spans, op.request);
      }
    }
  }

  /** A thread whose TLS address and started-ness are as before owns what it owned. */
  lemma SameOwner(uid: int, t: ThreadState, t': ThreadState, grants: seq<Grant>, more: seq<Grant>)
    requires OwnsTls(uid, t, grants)
    requires t'.tlsLow == t.tlsLow && (t'.status == STAGNANT <==> t.status == STAGNANT)
    ensures OwnsTls(uid, t', grants + more)
  {
    assert forall i :: 0 <= i < |grants| ==> (grants + more)[i] == grants[i];
  }

  lemma NotYetOwner(uid: int, t: ThreadState, grants: seq<Grant>)
    requires t.status == STAGNANT && t.tlsLow == 0
    ensures OwnsTls(uid, t, grants)
  {
  }

  /** Starting a thread makes it the owner of the block at its new TLS address. */
  lemma StartOwns(s: KernelState, uid: int, grants: seq<Grant>)
    requires Layout(s.spans) && StartRoom(s, uid, 0) && uid in s.objects
    ensures OwnsTls(uid, StartThread(s, uid, 0).0.objects[uid], grants + StartGrants(s, uid, 0))
  {
    hide Layout, Alloc.Room, Alloc.AllocateStack, Alloc.AllocateHeap, Alloc.MoreMemory, Placed, Insert;
    var size := Wrap(s.objects[uid].stackSize);
    var spans1 := Alloc.AllocateStack(s.spans, size).0;
    AllocationPlaces(s.spans, size);
    AllocationPlaces(spans1, TLS_REQUEST);
    var all := grants + StartGrants(s, uid, 0);
    assert all[|grants| + 1] == Tls(uid, Placed(spans1, TLS_REQUEST));
  }

  lemma StepOwns(s: KernelState, op: Op, uid: int, grants: seq<Grant>)
    requires Consistent(s) && Layout(s.spans) && ThreadsOwnTls(s, grants) && Admissible(s, op)
    requires uid in Step(s, op).objects
    ensures OwnsTls(uid, Step(s, op).objects[uid], grants + Granted(s, op))
  {
    hide OwnsTls, Layout, StartGrants, StartRoom, Alloc.Serve, Alloc.AllocateStack, Alloc.AllocateHeap, FetchReady;
    var more := Granted(s, op);
    var t' := Step(s, op).objects[uid];
    if op.Create? && uid == s.nextUid {
      NotYetOwner(uid, t', grants + more);
    } else if op.Start? && op.uid == uid && op.argPtr == 0 {
      StartOwns(s, uid, grants);
    } else {
      if op.Fetch? {
        FetchFinds(s);
      }
      SameOwner(uid, s.objects[uid], t', grants, more);
    }
  }

  lemma StepKeepsOwners(s: KernelState, op: Op, grants: seq<Grant>)
    requires Consistent(s) && Layout(s.spans) && ThreadsOwnTls(s, grants) && Admissible(s, op)
    ensures ThreadsOwnTls(Step(s, op), grants + Granted(s, op))
  {
    hide OwnsTls, Step, Granted, Admissible, Consistent, Layout;
    forall uid | uid in Step(s, op).objects
      ensures OwnsTls(uid, Step(s, op).objects[uid], grants + Granted(s, op))
    {
      StepOwns(s, op, uid, grants);
    }
  }

  /** In every state reached, table and list agree, the ready queue is empty, and the
      UIDs handed out are fresh: they increase along the run, none is below the UIDs of
      the start state, and a UID no longer in the table never comes back. */
  lemma {:induction false} RunKeepsConsistent(s: KernelState, ops: seq<Op>)
    requires Consistent(s)
    ensures var s' := Run(s, ops);
            var uids := RunUids(s, ops);
            && Consistent(s')
            && s.nextUid <= s'.nextUid
            && Increasing(uids)
            && (forall uid :: uid in uids ==> s.nextUid <= uid < s'.nextUid)
            && (forall uid :: uid in s'.objects ==> uid in s.objects || uid in uids)
    decreases |ops|
  {
    if ops != [] {
      hide Consistent, Increasing, Step;
      var next := Step(s, ops[0]);
      StepKeepsConsistent(s, ops[0]);
      RunKeepsConsistent(next, ops[1..]);
      var uids := RunUids(next, ops[1..]);
      if ops[0].Create? {
        ConsIncreasing(s.nextUid, uids);
      } else {
        assert [] + uids == uids;
      }
    }
  }

  /** A destroyed thread is gone for good: whatever is called later, its UID is not in
      table or list, is not fetched, and no call takes it for a thread. At the time, every
      other thread stays as it was. */
  lemma DestroyedForGood(s: KernelState, uid: int, ops: seq<Op>, argPtr: Address, key: int)
    requires Consistent(s) && uid in s.objects
    ensures var (s1, ok) := Destroy(s, uid);
            var s2 := Run(s1, ops);
            && ok && s1.objects.Keys == s.objects.Keys - {uid}
            && (forall u :: u in s1.objects ==> s1.objects[u] == s.objects[u])
            && uid !in s2.objects && uid !in s2.threadList
            && FetchReady(s2).1 != Some(uid)
            && StartThread(s2, uid, argPtr) == (s2, Some(-1))
            && TlsAddress(s2, uid, key) == BAD_ADDRESS
            && Destroy(s2, uid) == (s2, false)
  {
    var (s1, ok) := Destroy(s, uid);
    StepKeepsConsistent(s, Kill(uid));
    assert s1 == Step(s, Kill(uid));
    RunKeepsConsistent(s1, ops);
    FetchFinds(Run(s1, ops));
  }

  /** All stacks and TLS blocks ever handed out along a run are pairwise disjoint regions
      of their own, apart from every region mapped before the run, which stays mapped;
      and every started thread owns the TLS block it points to. */
  lemma {:induction false} RunKeepsGrants(s: KernelState, ops: seq<Op>, grants: seq<Grant>)
    requires Consistent(s) && Layout(s.spans) && AdmissibleRun(s, ops)
    requires GrantsHeld(s.spans, grants) && ThreadsOwnTls(s, grants)
    ensures var s' := Run(s, ops);
            var all := grants + RunGrants(s, ops);
            && Layout(s'.spans)
            && StaysApart(s.spans, s'.spans, RunGrants(s, ops))
            && GrantsHeld(s'.spans, all)
            && ThreadsOwnTls(s', all)
    decreases |ops|
  {
    hide Consistent, Layout, GrantsHeld, ThreadsOwnTls, Step, Granted, Admissible;
    if ops != [] {
      var next, more := Step(s, ops[0]), Granted(s, ops[0]);
      StepKeepsConsistent(s, ops[0]);
      StepKeepsGrants(s, ops[0], grants);
      StepKeepsOwners(s, ops[0], grants);
      RunKeepsGrants(next, ops[1..], grants + more);
      StaysApartThen(s.spans, next.spans, Run(next, ops[1..]).spans, more, RunGrants(next, ops[1..]));
      assert grants + more + RunGrants(next, ops[1..]) == grants + (more + RunGrants(next, ops[1..]));
    } else {
      assert grants + [] == grants;
    }
  }

  /** The kernel as constructed hands out 0x100 first. */
  lemma FirstUid(spans: seq<Span>, name: string, entry: Address, priority: int, stackSize: Address, attr: Address)
    ensures CreateThread(Booted(spans), name, entry, priority, stackSize, attr).1 == 0x100
    ensures Booted(spans).objects == map[] && Booted(spans).threadList == [] == Booted(spans).readyQueue
  {
  }

  /** The kernel as constructed, over the regions mapped so far. */
  function Booted(spans: seq<Span>): KernelState {
    KernelState(FIRST_UID, map[], [], [], spans)
  }

  /** The same from boot: the loaded program stays mapped and apart from all blocks, and
      the slots that `get_tls_addr` gives two started threads, or one thread for two keys,
      share no byte, whatever was created, started, destroyed and run before. */
  lemma ThreadsKeepApart(spans: seq<Span>, ops: seq<Op>, u: int, k: int, v: int, l: int)
    requires Layout(spans) && AdmissibleRun(Booted(spans), ops)
    ensures var s := Run(Booted(spans), ops);
            var grants := RunGrants(Booted(spans), ops);
            && Consistent(s)
            && GrantsHeld(s.spans, grants)
            && StaysApart(spans, s.spans, grants)
            && (u in s.objects && s.objects[u].status != STAGNANT && 0 <= k <= 0x100
                && v in s.objects && s.objects[v].status != STAGNANT && 0 <= l <= 0x100
                && (u != v || k != l) ==>
                  TlsAddress(s, u, k) + 4 <= TlsAddress(s, v, l) || TlsAddress(s, v, l) + 4 <= TlsAddress(s, u, k))
  {
    hide Layout, Run, RunGrants, AdmissibleRun, TlsAddress;
    var boot := Booted(spans);
    RunKeepsConsistent(boot, ops);
    RunKeepsGrants(boot, ops, []);
    var s, grants := Run(boot, ops), RunGrants(boot, ops);
    assert [] + grants == grants;
    if u in s.objects && s.objects[u].status != STAGNANT && 0 <= k <= 0x100
       && v in s.objects && s.objects[v].status != STAGNANT && 0 <= l <= 0x100 && (u != v || k != l) {
      TlsSlotsApart(s, grants, u, k, v, l);
    }
  }

  // ---------------------------------------------------------------- guest memory

  /** Every byte of guest memory lies in a region. */
  ghost predicate InRegions(mem: Bytes, spans: seq<Span>) {
    forall a :: a in mem ==> exists x :: x in spans && x.Has(a)
  }

  /** Every byte is still there. */
  ghost predicate Keeps(mem: Bytes, later: Bytes) {
    forall a :: a in mem ==> a in later && later[a] == mem[a]
  }

  /** Guest memory with a new zero-filled block. */
  function WithBlock(mem: Bytes, block: Span): Bytes {
    mem + Zeros(block.start, block.end)
  }

  /** Guest memory once a thread is started. */
  function StartedBytes(mem: Bytes, spans: seq<Span>, stackSize: Address): Bytes {
    WithBlock(WithBlock(mem, Placed(spans, stackSize)), Placed(Alloc.AllocateStack(spans, stackSize).0, TLS_REQUEST))
  }

  /** What a call does to guest memory. A slice of the CPU is the guest's own doing and not
      part of it. */
  function StepBytes(mem: Bytes, s: KernelState, op: Op): Bytes {
    match op
    case Start(uid, argPtr) =>
      if uid in s.objects && argPtr == 0 then StartedBytes(mem, s.spans, Wrap(s.objects[uid].stackSize)) else mem
    case Memory(request) =>
      if request.MapAt? then WithBlock(mem, request.span)
      else if Alloc.Refused(s.spans, request) then mem
      else WithBlock(mem, Placed(s.spans, request.size))
    case Create(_, _, _, _, _) => mem
    case Kill(_) => mem
    case Fetch => mem
    case Stop(_, _) => mem
  }

  function RunBytes(mem: Bytes, s: KernelState, ops: seq<Op>): Bytes
    decreases |ops|
  {
    if ops == [] then mem else RunBytes(StepBytes(mem, s, ops[0]), Step(s, ops[0]), ops[1..])
  }

  lemma BlockKeeps(mem: Bytes, spans: seq<Span>, block: Span)
    requires InRegions(mem, spans) && ApartFromAll(spans, block)
    ensures Keeps(mem, WithBlock(mem, block)) && InRegions(WithBlock(mem, block), Insert(spans, block))
  {
    InsertMembers(spans, block);
    ApartMembers(spans, block);
    hide Insert, ApartFromAll;
    forall a | a in WithBlock(mem, block) ensures exists x :: x in Insert(spans, block) && x.Has(a) {
      if a in mem {
        var x :| x in spans && x.Has(a);
      } else {
        assert block.Has(a);
      }
    }
    forall a | a in mem ensures !block.Has(a) {
      var x :| x in spans && x.Has(a);
      assert Apart(x, block);
    }
  }

  lemma KeepsThen(mem: Bytes, next: Bytes, later: Bytes)
    requires Keeps(mem, next) && Keeps(next, later)
    ensures Keeps(mem, later)
  {
  }

  lemma KeepsSelf(mem: Bytes)
    ensures Keeps(mem, mem)
  {
  }

  lemma StartKeepsBytes(mem: Bytes, spans: seq<Span>, stackSize: Address)
    requires Layout(spans) && InRegions(mem, spans)
    requires Alloc.Room(spans, stackSize) && Alloc.Room(Alloc.AllocateStack(spans, stackSize).0, TLS_REQUEST)
    ensures var spans1 := Alloc.AllocateStack(spans, stackSize).0;
            var after := StartedBytes(mem, spans, stackSize);
            Keeps(mem, after) && InRegions(after, Alloc.AllocateHeap(spans1, TLS_REQUEST).0)
  {
    hide Layout, InRegions, Keeps, WithBlock, Placed, Insert, Alloc.Room, Alloc.AllocateStack, Alloc.AllocateHeap;
    hide Alloc.MoreMemory, ApartFromAll;
    var spans1 := Alloc.AllocateStack(spans, stackSize).0;
    var stack, tls := Placed(spans, stackSize), Placed(spans1, TLS_REQUEST);
    AllocationPlaces(spans, stackSize);
    AllocationApart(spans, stackSize);
    BlockKeeps(mem, spans, stack);
    AllocationPlaces(spans1, TLS_REQUEST);
    AllocationApart(spans1, TLS_REQUEST);
    BlockKeeps(WithBlock(mem, stack), spans1, tls);
    KeepsThen(mem, WithBlock(mem, stack), WithBlock(WithBlock(mem, stack), tls));
  }

  lemma AllocationApart(spans: seq<Span>, size: Address)
    requires Layout(spans) && Alloc.Room(spans, size)
    ensures ApartFromAll(spans, Placed(spans, size))
  {
    hide Layout, Alloc.Room, Alloc.MoreMemory, ApartFromAll, Alloc.Block;
    Alloc.MoreMemoryPlaces(spans, size);
  }

  lemma RequestKeepsBytes(mem: Bytes, spans: seq<Span>, request: Alloc.Request)
    requires Layout(spans) && InRegions(mem, spans) && Alloc.Admissible(spans, request)
    ensures var after := if request.MapAt? then WithBlock(mem, request.span)
                         else if Alloc.Refused(spans, request) then mem
                         else WithBlock(mem, Placed(spans, request.size));
            Keeps(mem, after) && InRegions(after, Alloc.Serve(spans, request))
  {
    hide Layout, InRegions, Keeps, WithBlock, Insert, Alloc.Placeable, Alloc.MoreMemory, ApartFromAll, Alloc.Block;
    KeepsSelf(mem);
    if request.MapAt? {
      BlockKeeps(mem, spans, request.span);
    } else if !Alloc.Refused(spans, request) {
      Alloc.SizeIsOk(spans, request.size);
      Alloc.AllocateKeepsLayoutIff(spans, request.size);
      InsertKeepsLayoutIff(spans, Placed(spans, request.size));
      BlockKeeps(mem, spans, Placed(spans, request.size));
    }
  }

  lemma StepKeepsBytes(mem: Bytes, s: KernelState, op: Op)
    requires Consistent(s) && Layout(s.spans) && InRegions(mem, s.spans) && Admissible(s, op)
    ensures Keeps(mem, StepBytes(mem, s, op)) && InRegions(StepBytes(mem, s, op), Step(s, op).spans)
  {
    hide Layout, InRegions, Keeps, StartedBytes, Alloc.Room, Alloc.Admissible, Alloc.Serve, Alloc.Refused;
    hide Alloc.AllocateStack, Alloc.AllocateHeap, FetchReady, Consistent, WithBlock;
    KeepsSelf(mem);
    if op.Memory? {
      RequestKeepsBytes(mem, s.spans, op.request);
    } else if op.Start? && op.uid in s.objects && op.argPtr == 0 {
      StartKeepsBytes(mem, s.spans, Wrap(s.objects[op.uid].stackSize));
    } else if op.Fetch? {
      FetchFinds(s);
    }
  }

  /** Over any run of kernel calls and mappings every byte of guest memory, the loaded
      program's among them, stays as it was. */
  lemma {:induction false} RunKeepsBytes(mem: Bytes, s: KernelState, ops: seq<Op>)
    requires Consistent(s) && Layout(s.spans) && InRegions(mem, s.spans) && AdmissibleRun(s, ops)
    ensures Keeps(mem, RunBytes(mem, s, ops)) && InRegions(RunBytes(mem, s, ops), Run(s, ops).spans)
    decreases |ops|
  {
    hide Consistent, Layout, InRegions, Keeps, Step, StepBytes, Admissible;
    KeepsSelf(mem);
    if ops != [] {
      var next, after := Step(s, ops[0]), StepBytes(mem, s, ops[0]);
      StepKeepsConsistent(s, ops[0]);
      StepKeepsLayout(s, ops[0]);
      StepKeepsBytes(mem, s, ops[0]);
      RunKeepsBytes(after, next, ops[1..]);
      KeepsThen(mem, after, RunBytes(after, next, ops[1..]));
    }
  }

  lemma StepKeepsLayout(s: KernelState, op: Op)
    requires Layout(s.spans) && Admissible(s, op)
    ensures Layout(Step(s, op).spans)
  {
    hide Layout, Step, Admissible;
    NoGrants(s.spans);
    StepKeepsGrants(s, op, []);
  }

  lemma NoGrants(spans: seq<Span>)
    ensures GrantsHeld(spans, [])
  {
  }

  // ---------------------------------------------------------------- a thread that starves

  /** Two threads with one-page stacks, both started. */
  function TwoThreads(): seq<Op> {
    [Create("older", 0x8100_0000, 32, 0x1000, 0), Create("younger", 0x8100_0000, 32, 0x1000, 0),
     Start(FIRST_UID, 0), Start(FIRST_UID + 1, 0)]
  }

  ghost predicate AllBelow(spans: seq<Span>, bound: int) {
    forall x :: x in spans ==> x.end < bound
  }

  /** Far below 2^32 there is room for a page. */
  lemma LowRoom(spans: seq<Span>, bound: int)
    requires Layout(spans) && AllBelow(spans, bound) && 0x6000_2000 <= bound <= 0x7000_0000
    ensures Alloc.Room(spans, 0x1000)
    ensures Layout(Alloc.AllocateStack(spans, 0x1000).0)
    ensures Alloc.AllocateHeap(spans, 0x1000).0 == Alloc.AllocateStack(spans, 0x1000).0
    ensures AllBelow(Alloc.AllocateStack(spans, 0x1000).0, bound + 0x3000)
  {
    hide Alloc.FirstGap, Alloc.MoreMemory, Layout, Alloc.Block, Insert;
    assert Alloc.MemorySize(0x1000) == 0x2000;
    hide Alloc.MemorySize;
    assert spans != [] ==> spans[|spans| - 1] in spans;
    AllocationPlaces(spans, 0x1000);
    Alloc.MoreMemoryPlaces(spans, 0x1000);
    if spans == [] {
      EmptyGivesFirst(spans);
    }
    assert forall i :: 0 <= i < |spans| ==> spans[i] in spans;
    hide Alloc.Room;
    var block := Placed(spans, 0x1000);
    assert block.end < bound + 0x3000;
    InsertMembers(spans, block);
  }

  lemma EmptyGivesFirst(spans: seq<Span>)
    requires spans == []
    ensures Alloc.MoreMemory(spans, 0x1000).0 == 0x6000_0000
  {
  }

  lemma StartLow(s: KernelState, uid: int, bound: int)
    requires Layout(s.spans) && AllBelow(s.spans, bound) && 0x6000_2000 <= bound <= 0x6FFF_0000
    requires uid in s.objects && s.objects[uid].stackSize == 0x1000
    ensures StartRoom(s, uid, 0)
    ensures var s' := StartThread(s, uid, 0).0;
            && Layout(s'.spans) && AllBelow(s'.spans, bound + 0x6000)
            && s'.objects.Keys == s.objects.Keys && s'.objects[uid].status == READY
            && forall u :: u in s.objects && u != uid ==> s'.objects[u] == s.objects[u]
  {
    hide Layout, AllBelow, Alloc.Room, Alloc.AllocateStack, Alloc.AllocateHeap, Entered;
    LowRoom(s.spans, bound);
    LowRoom(Alloc.AllocateStack(s.spans, 0x1000).0, bound + 0x3000);
    assert Wrap(0x1000) == 0x1000;
  }

  lemma RunFour(s: KernelState, a: Op, b: Op, c: Op, d: Op)
    ensures var (s1, s2, s3) := (Step(s, a), Step(Step(s, a), b), Step(Step(Step(s, a), b), c));
            && Run(s, [a, b, c, d]) == Step(s3, d)
            && (Admissible(s, a) && Admissible(s1, b) && Admissible(s2, c) && Admissible(s3, d) ==>
                  AdmissibleRun(s, [a, b, c, d]))
  {
    hide Step, Admissible;
    assert [a, b, c, d][1..] == [b, c, d] && [b, c, d][1..] == [c, d] && [c, d][1..] == [d] && [d][1..] == [];
    var s3 := Step(Step(Step(s, a), b), c);
    assert Run(s3, [d]) == Run(Step(s3, d), []);
    assert Run(Step(Step(s, a), b), [c, d]) == Run(s3, [d]);
    assert Admissible(s3, d) ==> AdmissibleRun(s3, [d]) by {
      assert AdmissibleRun(Step(s3, d), []);
    }
    var s2 := Step(Step(s, a), b);
    assert Admissible(s2, c) && AdmissibleRun(s3, [d]) ==> AdmissibleRun(s2, [c, d]);
  }

  /** From boot the run is admissible and leaves both threads READY; from then on the older
      one never runs. */
  lemma OlderThreadStarves(contexts: seq<Context>)
    ensures var s := Run(Booted([]), TwoThreads());
            && AdmissibleRun(Booted([]), TwoThreads())
            && IsReady(s, FIRST_UID) && IsReady(s, FIRST_UID + 1)
            && Some(FIRST_UID) !in RunSlices(s, contexts)
  {
    hide Layout, StartThread, StartRoom, Run, AdmissibleRun, RunSlices, AllBelow, Increasing;
    var boot, ops := Booted([]), TwoThreads();
    RunFour(boot, ops[0], ops[1], ops[2], ops[3]);
    assert ops == [ops[0], ops[1], ops[2], ops[3]];
    var s2 := Step(Step(boot, ops[0]), ops[1]);
    NothingBelow();
    StartLow(s2, FIRST_UID, 0x6000_2000);
    var s3 := Step(s2, ops[2]);
    StartLow(s3, FIRST_UID + 1, 0x6000_8000);
    RunKeepsConsistent(boot, ops);
    OlderStarves(Run(boot, ops), FIRST_UID, FIRST_UID + 1, contexts);
  }

  lemma NothingBelow()
    ensures Layout([]) && AllBelow([], 0x6000_2000) && Consistent(Booted([]))
  {
  }
}
