/** kernel.cpp and kernel.h over kernel objects on the heap: each method refines its
    function of `KernelSpec`. */
module Kernel {
  import opened AddressSpace
  import opened Optional
  import opened GuestMemory
  import opened Words
  import opened KernelSpec
  import Spec = KernelSpec
  import MemoryManager
  import Alloc = AllocatorSpec

  /** A Thread, with the UID of its KernelObject. */
  class Thread {
    var uid: int
    var name: string
    var attr: Address
    var status: int
    var entryPoint: Address
    var stackSize: int
    var initPriority: int
    var currentPriority: int
    var tlsLowAddress: Address
    var context: Context

    constructor (uid: int)
      ensures this.uid == uid
    {
      this.uid := uid;
      name, attr, status, entryPoint, stackSize := "", 0, 0, 0, 0;
      initPriority, currentPriority, tlsLowAddress, context := 0, 0, 0, Zeroed();
    }

    ghost function Fields(): ThreadState
      reads this
    {
      ThreadState(name, attr, status, entryPoint, stackSize, initPriority, currentPriority, tlsLowAddress, context)
    }
  }

  ghost function FieldsOf(objects: map<int, Thread>): map<int, ThreadState>
    reads objects.Values
  {
    map uid | uid in objects :: objects[uid].Fields()
  }

  /** Changing one thread changes the fields at its UID alone. */
  lemma OneChanged(objects: map<int, Thread>, before: map<int, ThreadState>, thread: Thread)
    requires forall uid :: uid in objects ==> objects[uid].uid == uid
    requires thread.uid in objects && objects[thread.uid] == thread
    requires before.Keys == objects.Keys
    requires forall uid :: uid in objects && objects[uid] != thread ==> before[uid] == objects[uid].Fields()
    ensures FieldsOf(objects) == before[thread.uid := thread.Fields()]
  {
    forall uid | uid in objects ensures uid != thread.uid ==> objects[uid] != thread {
      assert objects[uid].uid == uid;
    }
  }

  lemma OneAdded(objects: map<int, Thread>, before: map<int, ThreadState>, uid: int, thread: Thread)
    requires before.Keys == objects.Keys
    requires forall u :: u in objects ==> before[u] == objects[u].Fields()
    ensures FieldsOf(objects[uid := thread]) == before[uid := thread.Fields()]
  {
    var after := objects[uid := thread];
    forall u | u in after ensures FieldsOf(after)[u] == before[uid := thread.Fields()][u] {
      assert u != uid ==> u in objects && after[u] == objects[u];
    }
  }

  lemma FieldsAt(objects: map<int, Thread>, uid: int)
    ensures var fields := FieldsOf(objects);
            && (uid in fields <==> uid in objects)
            && (uid in objects ==> fields[uid].status == objects[uid].status)
  {
  }

  lemma FieldsAre(objects: map<int, Thread>)
    ensures FieldsOf(objects).Keys == objects.Keys
    ensures forall uid :: uid in objects ==> FieldsOf(objects)[uid] == objects[uid].Fields()
  {
  }

  /** A sorted, disjoint region list with room for a stack and a TLS block. */
  ghost predicate LaunchRoom(spans: seq<Span>, stackSize: Address) {
    && Layout(spans) && Alloc.Room(spans, stackSize)
    && Alloc.Room(Alloc.AllocateStack(spans, stackSize).0, TLS_REQUEST)
  }

  /** Two allocations that each add their block add what `StartedBytes` says. */
  lemma GrownTwice(mem: Bytes, spans: seq<Span>, stackSize: Address, mem1: Bytes, spans1: seq<Span>, mem2: Bytes)
    requires spans1 == Alloc.AllocateStack(spans, stackSize).0
    requires Layout(spans) && Alloc.Room(spans, stackSize) ==>
               MemoryManager.GrownByBlock(mem, spans, stackSize, mem1)
    requires Layout(spans1) && Alloc.Room(spans1, TLS_REQUEST) ==>
               MemoryManager.GrownByBlock(mem1, spans1, TLS_REQUEST, mem2)
    ensures LaunchRoom(spans, stackSize) ==> mem2 == StartedBytes(mem, spans, stackSize)
  {
    hide Layout, Alloc.Room, Alloc.AllocateStack, Alloc.MoreMemory, Alloc.Block, Zeros;
    if LaunchRoom(spans, stackSize) {
      AllocationPlaces(spans, stackSize);
    }
  }

  lemma StartFits(s: KernelState, uid: int)
    requires uid in s.objects && Layout(s.spans) && StartRoom(s, uid, 0)
    ensures LaunchRoom(s.spans, Wrap(s.objects[uid].stackSize))
  {
    hide Layout, Alloc.Room, Alloc.AllocateStack;
  }

  class Kernel {
    const memory: Memory
    var uidValue: int
    var objects: map<int, Thread>
    var threadList: seq<int>
    var readyThreads: seq<int>
    var currentCore: int
    var currentThread: seq<Thread?>

    /** Each key of the table is its object's UID. */
    ghost predicate Valid()
      reads this, memory, objects.Values
    {
      && memory.Valid()
      && (forall uid :: uid in objects ==> objects[uid].uid == uid)
      && |currentThread| == 4
    }

    ghost function State(): KernelState
      reads this, memory, objects.Values
    {
      KernelState(uidValue, FieldsOf(objects), threadList, readyThreads, Spans(memory.regions))
    }

    constructor (memory: Memory)
      requires memory.Valid()
      ensures Valid() && this.memory == memory
      ensures State() == Booted(Spans(memory.regions))
    {
      this.memory := memory;
      uidValue, objects, threadList, readyThreads := FIRST_UID, map[], [], [];
      currentCore, currentThread := -1, [null, null, null, null];
    }

    method GenerateUid() returns (uid: int)
      modifies this`uidValue
      ensures uid == old(uidValue) && uidValue == uid + 1
    {
      uid := uidValue;
      uidValue := uidValue + 1;
    }

    /** `get_kernel_object`; all objects are threads. */
    function GetKernelObject(uid: int): (thread: Thread?)
      reads this`objects
      ensures if uid in objects then thread == objects[uid] else thread == null
    {
      if uid in objects then objects[uid] else null
    }

    /** `create_kernel_object<Thread>` */
    method CreateKernelObject() returns (thread: Thread)
      requires Valid()
      modifies this
      ensures Valid() && fresh(thread) && thread.uid == old(uidValue)
      ensures uidValue == old(uidValue) + 1 && objects == old(objects)[thread.uid := thread]
      ensures threadList == old(threadList) + [thread.uid]
      ensures unchanged(this`readyThreads, this`currentCore, this`currentThread)
    {
      hide WellFormed;
      var uid := GenerateUid();
      thread := new Thread(uid);
      objects := objects[uid := thread];
      threadList := threadList + [thread.uid];
    }

    method CreateThread(name: string, entry: Address, priority: int, stackSize: Address, attr: Address)
      returns (uid: int)
      requires Valid()
      modifies this
      ensures Valid() && (State(), uid) == Spec.CreateThread(old(State()), name, entry, priority, stackSize, attr)
      ensures uid in objects && fresh(objects[uid])
    {
      hide WellFormed, Spans, FieldsOf, Zeroed, AsInt32;
      ghost var before := FieldsOf(objects);
      FieldsAre(objects);
      var thread := CreateKernelObject();
      thread.name, thread.attr, thread.status := name, attr, STAGNANT;
      thread.entryPoint, thread.stackSize := entry, AsInt32(stackSize);
      thread.currentPriority, thread.initPriority := priority, priority;
      thread.tlsLowAddress, thread.context := 0, Zeroed();
      uid := thread.uid;
      OneAdded(old(objects), before, uid, thread);
    }

    /** `t->context.reg[i] = value` */
    method SetRegister(t: Thread, i: nat, value: Address)
      requires i < 16
      modifies t`context
      ensures t.context == Context(old(t.context).reg[i := value], old(t.context).cpsr)
    {
      var reg: seq<Address> := t.context.reg;
      t.context := Context(reg[i := value], t.context.cpsr);
    }

    /** What `start_thread` does to a live thread. */
    method Launch(t: Thread)
      requires memory.Valid()
      modifies memory, t
      ensures memory.Valid() && t.uid == old(t.uid)
      ensures (t.Fields(), Spans(memory.regions)) == Started(old(t.Fields()), old(Spans(memory.regions)))
      ensures LaunchRoom(old(Spans(memory.regions)), old(Wrap(t.stackSize))) ==>
                memory.View() == StartedBytes(old(memory.View()), old(Spans(memory.regions)), old(Wrap(t.stackSize)))
    {
      hide Layout, Alloc.Room, Alloc.AllocateStack, Alloc.AllocateHeap, WellFormed, MemoryManager.GrownByBlock;
      hide LaunchRoom, StartedBytes, Memory.View, HasRegion, Alloc.MoreMemory, Alloc.Block;
      ghost var mem, spans, size := memory.View(), Spans(memory.regions), Wrap(t.stackSize);
      SetRegister(t, 15, t.entryPoint);
      SetRegister(t, 14, RETURN_ADDRESS);
      var sp := MemoryManager.AllocateStack(memory, Wrap(t.stackSize), t.name);
      ghost var mem1, spans1 := memory.View(), Spans(memory.regions);
      SetRegister(t, 13, sp);
      t.context := t.context.(cpsr := START_CPSR);
      t.tlsLowAddress := MemoryManager.AllocateHeap(memory, TLS_REQUEST, t.name + "_tls");
      t.status := READY;
      GrownTwice(mem, spans, size, mem1, spans1, memory.View());
    }

    lemma StackSizeOf(t: Thread)
      ensures t.Fields().stackSize == t.stackSize
    {
    }

    /** No result when the process exits. */
    method StartThread(uid: int, argPtr: Address) returns (r: Option<int>)
      requires Valid()
      modifies memory, objects.Values
      ensures Valid() && (State(), r) == Spec.StartThread(old(State()), uid, argPtr)
      ensures Layout(old(Spans(memory.regions))) && StartRoom(old(State()), uid, argPtr) ==>
                memory.View() == StepBytes(old(memory.View()), old(State()), Start(uid, argPtr))
    {
      hide Started, WellFormed, FieldsOf, Thread.Fields, Layout, LaunchRoom, StartRoom, StartedBytes, Memory.View;
      ghost var s, before := State(), FieldsOf(objects);
      FieldsAre(objects);
      var t := GetKernelObject(uid);
      if t == null {
        return Some(-1);
      }
      if argPtr != 0 {
        return None;
      }
      if Layout(s.spans) && StartRoom(s, uid, 0) {
        StartFits(s, uid);
      }
      StackSizeOf(t);
      Launch(t);
      r := Some(0);
      OneChanged(objects, before, t);
    }

    method RemoveUidFromList(uid: int)
      modifies this`threadList
      ensures threadList == RemoveFirst(old(threadList), uid)
    {
      var i := 0;
      while i < |threadList| && threadList[i] != uid
        invariant 0 <= i <= |threadList|
        invariant RemoveFirst(threadList, uid) == threadList[..i] + RemoveFirst(threadList[i..], uid)
      {
        i := i + 1;
      }
      if i < |threadList| {
        threadList := threadList[..i] + threadList[i + 1..];
      }
    }

    method DestroyKernelObject(uid: int) returns (ok: bool)
      requires Valid()
      modifies this
      ensures Valid() && (State(), ok) == Spec.Destroy(old(State()), uid)
    {
      if uid !in objects {
        return false;
      }
      RemoveUidFromList(uid);
      objects := objects - {uid};
      assert FieldsOf(objects) == old(FieldsOf(objects)) - {uid};
      ok := true;
    }

    method GetTlsAddr(uid: int, key: int) returns (r: Address)
      requires Valid()
      ensures r == TlsAddress(State(), uid, key)
    {
      var t := GetKernelObject(uid);
      if t == null {
        return BAD_ADDRESS;
      }
      if key >= 0 && key <= 0x100 {
        return Wrap(t.tlsLowAddress + key * 4);
      }
      r := BAD_ADDRESS;
    }

    /** Appends the READY threads of the list to the empty queue. */
    method CollectReady()
      requires Valid() && readyThreads == []
      modifies this`readyThreads
      ensures readyThreads == ReadyThreads(FieldsOf(objects), threadList)
    {
      hide *;
      ghost var fields := FieldsOf(objects);
      ReadyThreadsStart(fields, threadList);
      KeysAreUids();
      var i := 0;
      while i < |threadList|
        invariant 0 <= i <= |threadList|
        invariant ReadyThreads(fields, threadList) == readyThreads + ReadyThreads(fields, threadList[i..])
      {
        ReadyThreadsStep(fields, threadList, i, readyThreads);
        FieldsAt(objects, threadList[i]);
        var t := GetKernelObject(threadList[i]);
        if t != null && t.status == READY {
          readyThreads := readyThreads + [t.uid];
        }
        i := i + 1;
      }
      ReadyThreadsEnd(fields, threadList[i..], readyThreads);
    }

    lemma KeysAreUids()
      requires Valid()
      ensures forall uid :: uid in objects ==> objects[uid].uid == uid
    {
    }

    /** `thread` is the live thread of that UID, or null if there is none. */
    ghost predicate Denotes(thread: Thread?, uid: Option<int>)
      reads this, objects.Values
    {
      match uid
      case None => thread == null
      case Some(u) => u in objects && thread == objects[u] && objects[u].uid == u
    }

    /** Takes entries off the non-empty queue, until it is empty or an entry is dead. */
    method DrainQueue() returns (thread: Thread?)
      requires Valid() && readyThreads != []
      modifies this`readyThreads
      ensures var (rest, uid) := Drain(FieldsOf(objects), old(readyThreads));
              readyThreads == rest && Denotes(thread, uid)
    {
      ghost var fields := FieldsOf(objects);
      thread := null;
      var again := true;
      while again
        invariant again ==> readyThreads != [] && Drain(fields, readyThreads) == Drain(fields, old(readyThreads))
        invariant !again ==>
                    var (rest, uid) := Drain(fields, old(readyThreads)); readyThreads == rest && Denotes(thread, uid)
        decreases |readyThreads|, again
      {
        thread := GetKernelObject(readyThreads[0]);
        readyThreads := readyThreads[1..];
        again := |readyThreads| != 0 && thread != null;
      }
    }

    method FetchReadyThread() returns (thread: Thread?)
      requires Valid()
      modifies this`readyThreads
      ensures Valid() && State() == FetchReady(old(State())).0
      ensures Denotes(thread, FetchReady(old(State())).1)
    {
      hide ReadyThreads, Drain;
      if |readyThreads| == 0 {
        CollectReady();
        if |readyThreads| == 0 {
          return null;
        }
      }
      thread := DrainQueue();
    }

    /** `run_single_thread_with_events` up to the start of the CPU. */
    method DispatchThread() returns (thread: Thread?)
      requires Valid()
      modifies this, objects.Values
      ensures Valid() && objects == old(objects)
      ensures State() == Dispatch(old(State())).0
      ensures Denotes(thread, Dispatch(old(State())).1)
      ensures thread != null ==> currentCore == 0 && currentThread[0] == thread && thread.status == 1
    {
      hide FetchReady, WellFormed, Spans, FieldsOf;
      FieldsAre(objects);
      thread := FetchReadyThread();
      if thread == null {
        return;
      }
      ghost var s := State();
      currentThread := currentThread[0 := thread];
      currentCore := 0;
      thread.status := RUNNING;
      OneChanged(objects, s.objects, thread);
    }

    /** The rest of it, once the CPU has left `after` in its registers. */
    method RetireThread(thread: Thread, after: Context)
      requires Valid() && thread.uid in objects && objects[thread.uid] == thread
      modifies thread
      ensures Valid() && thread.uid == old(thread.uid)
      ensures State() == Retire(old(State()), thread.uid, after)
      ensures thread.context == after && thread.status == if old(thread.status) == 1 then 2 else old(thread.status)
    {
      ghost var before := FieldsOf(objects);
      thread.context := after;
      if thread.status == RUNNING {
        thread.status := READY;
      }
      OneChanged(objects, before, thread);
    }

    /** `run_single_thread_with_events` for a slice without kernel calls by the guest. */
    method RunSingleThread(after: Context)
      requires Valid()
      modifies this, objects.Values
      ensures Valid()
      ensures State() == RunSlice(old(State()), after).0
    {
      var thread := DispatchThread();
      if thread == null {
        return;
      }
      RetireThread(thread, after);
    }
  }
}
