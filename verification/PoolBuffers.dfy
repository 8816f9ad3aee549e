/** misc.c, hand.c: the GrowBuffer retry loop and the routines built on it. */
module PoolBuffers {
  import opened Basics

  type Address = int

  const NULL: Address := 0

  const HANDLE_SIZE := 8
  const MEMORY_DESCRIPTOR_SIZE := 40

  datatype Status = Success | BufferTooSmall | OutOfResources | Failed {
    /** EFI_ERROR */
    predicate Error() { this != Success }
  }

  // ------------------------------------------------------------------------------ the firmware

  /** The pool: its live blocks, and every block ever handed out and taken back, in order. */
  class Pool {
    var live: map<Address, seq<Byte>>
    var next: Address
    ghost var handedOut: seq<Address>
    ghost var takenBack: seq<Address>
    ghost var shortages: nat

    /** No block is taken back twice, and none that is taken back is live. */
    ghost predicate Valid()
      reads this
    {
      && next > NULL && (forall p :: p in live ==> NULL < p < next)
      && (forall p :: p in takenBack ==> p < next && p !in live)
      && (forall i :: 0 <= i < |handedOut| ==> handedOut[i] < next)
      && Distinct(handedOut) && Distinct(takenBack)
    }

    method AllocatePool(size: nat) returns (p: Address)
      requires Valid()
      modifies this
      ensures Valid() && takenBack == old(takenBack)
      ensures p == 0 <==> shortages != old(shortages)
      ensures p == NULL ==>
        live == old(live) && handedOut == old(handedOut) && shortages == old(shortages) + 1
      ensures p != NULL ==>
        && p !in old(live) && p in live && |live[p]| == size && live == old(live)[p := live[p]]
        && handedOut == old(handedOut) + [p] && shortages == old(shortages)
    {
      if * {
        shortages := shortages + 1;
        return NULL;
      }
      var cells: seq<Byte> := seq(size, _ => 0);
      p := next;
      next := next + 1;
      live := live[p := cells];
      handedOut := handedOut + [p];
    }

    method FreePool(p: Address)
      requires Valid() && p in live
      modifies this`live, this`takenBack
      ensures Valid() && live == old(live) - {p} && takenBack == old(takenBack) + [p]
    {
      live := live - {p};
      takenBack := takenBack + [p];
    }
  }

  /** What the service has to say: its data, or that it cannot. */
  datatype Answer = Data(data: seq<Byte>) | Refusal

  /** A firmware service that fills a caller's buffer.  What it has to say may change from call to call. */
  class Service {
    const answers: nat -> Answer
    var calls: nat

    constructor (answers: nat -> Answer)
      ensures this.answers == answers && calls == 0
    {
      this.answers := answers;
      calls := 0;
    }

    method Fill(pool: Pool, buffer: Address, bufferSize: nat) returns (status: Status, size: nat)
      requires pool.Valid() && buffer in pool.live && |pool.live[buffer]| == bufferSize
      modifies this`calls, pool`live
      ensures pool.Valid() && calls == old(calls) + 1
      ensures var answer := answers(old(calls));
        if answer.Refusal? then
          status == Failed && size == bufferSize && pool.live == old(pool.live)
        else if |answer.data| > bufferSize then
          status == BufferTooSmall && size == |answer.data| && pool.live == old(pool.live)
        else
          && status == Success && size == |answer.data|
          && pool.live == old(pool.live)[buffer := answer.data + old(pool.live)[buffer][size..]]
    {
      var answer := answers(calls);
      calls := calls + 1;
      match answer
      case Refusal =>
        status, size := Failed, bufferSize;
      case Data(data) =>
        size := |data|;
        if |data| > bufferSize {
          status := BufferTooSmall;
        } else {
          status := Success;
          pool.live := pool.live[buffer := data + pool.live[buffer][size..]];
        }
    }
  }

  // -------------------------------------------------------------------------------- the helper

  method GrowBuffer(pool: Pool, status: Status, buffer: Address, bufferSize: nat)
    returns (tryAgain: bool, status': Status, buffer': Address)
    requires pool.Valid() && (buffer == NULL || buffer in pool.live)
    modifies pool
    ensures pool.Valid()
    ensures tryAgain <==>
      (status == BufferTooSmall || (buffer == NULL && bufferSize != 0)) && pool.shortages == old(pool.shortages)
    ensures tryAgain ==>
      && buffer' != NULL && buffer' !in old(pool.live) - {buffer}
      && buffer' in pool.live && |pool.live[buffer']| == bufferSize
      && pool.live - {buffer'} == old(pool.live) - {buffer}
      && pool.handedOut == old(pool.handedOut) + [buffer'] && pool.takenBack == old(pool.takenBack) + Block(buffer)
    ensures !tryAgain && status'.Error() ==>
      && buffer' == NULL && pool.live == old(pool.live) - {buffer}
      && pool.handedOut == old(pool.handedOut) && pool.takenBack == old(pool.takenBack) + Block(buffer)
    ensures !tryAgain && !status'.Error() ==>
      && buffer' == buffer && pool.live == old(pool.live)
      && pool.handedOut == old(pool.handedOut) && pool.takenBack == old(pool.takenBack)
    ensures pool.shortages == old(pool.shortages) || (status' == OutOfResources && !tryAgain)
    ensures pool.shortages == old(pool.shortages) && !tryAgain ==> status' == status
  {
    status', buffer' := status, buffer;
    if buffer == NULL && bufferSize != 0 {
      status' := BufferTooSmall;
    }
    tryAgain := false;
    if status' == BufferTooSmall {
      if buffer' != NULL {
        pool.FreePool(buffer');
      }
      buffer' := pool.AllocatePool(bufferSize);
      if buffer' != NULL {
        tryAgain := true;
      } else {
        status' := OutOfResources;
      }
    }
    if !tryAgain && status'.Error() && buffer' != NULL {
      pool.FreePool(buffer');
      buffer' := NULL;
    }
  }

  /** The block a pointer owns. */
  function Block(p: Address): seq<Address> {
    if p == NULL then [] else [p]
  }

  // ------------------------------------------------------------------------------- the callers

  /** The size of the buffer at call `k`, when the loop is entered at call `from` and gets that far. */
  function SizeAt(answers: nat -> Answer, from: nat, initialSize: nat, k: nat): nat {
    if k <= from then initialSize
    else match answers(k - 1)
      case Data(data) => |data|
      case Refusal => 0
  }

  /** The answer at call `k` is longer than the buffer, so that there will be another call. */
  predicate Outgrows(answers: nat -> Answer, from: nat, initialSize: nat, k: nat) {
    answers(k).Data? && |answers(k).data| > SizeAt(answers, from, initialSize, k)
  }

  /** From call `from` on the answers do not outgrow the buffer for ever. */
  ghost predicate Settles(answers: nat -> Answer, from: nat, initialSize: nat) {
    exists k :: k >= from && !Outgrows(answers, from, initialSize, k)
  }

  /** The first buffer has the initial size, and every other one that of the answer before it. */
  lemma BufferSizes(answers: nat -> Answer, from: nat, initialSize: nat, k: nat)
    requires k >= from
    ensures Outgrows(answers, from, initialSize, from) <==> answers(from).Data? && |answers(from).data| > initialSize
    ensures Outgrows(answers, from, initialSize, k) ==>
      (Outgrows(answers, from, initialSize, k + 1) <==>
       answers(k + 1).Data? && |answers(k + 1).data| > |answers(k).data|)
  {
  }

  /** A fixed answer settles at the second call. */
  lemma FixedSettles(answers: nat -> Answer, from: nat, initialSize: nat)
    requires answers(from + 1) == answers(from)
    ensures !Outgrows(answers, from, initialSize, from + 1) && Settles(answers, from, initialSize)
  {
  }

  lemma NullIsNotLive(pool: Pool)
    requires pool.Valid()
    ensures NULL !in pool.live && pool.live - {NULL} == pool.live
  {
  }

  /** One call of the service, and GrowBuffer's verdict on it: another call exactly when the answer was
      longer than the buffer and a larger one could be had. */
  method Turn(pool: Pool, service: Service, buffer: Address, size: nat, ghost others: map<Address, seq<Byte>>)
    returns (again: bool, status: Status, buffer': Address, size': nat, ghost before: seq<Address>)
    requires pool.Valid() && buffer != NULL && buffer !in others
    requires buffer in pool.live && |pool.live[buffer]| == size && pool.live - {buffer} == others
    modifies pool, service`calls
    ensures pool.Valid() && service.calls == old(service.calls) + 1
    ensures pool.takenBack == old(pool.takenBack) + before
    ensures before == if buffer' == buffer then [] else [buffer]
    ensures pool.handedOut == old(pool.handedOut) + if buffer' == buffer then [] else Block(buffer')
    ensures buffer' == NULL ==> pool.live == others
    ensures buffer' != NULL ==> buffer' !in others && buffer' in pool.live && pool.live - {buffer'} == others
    ensures var answer := service.answers(old(service.calls));
      again <==> answer.Data? && |answer.data| > size && pool.shortages == old(pool.shortages)
    ensures again ==>
      && buffer' != NULL && |pool.live[buffer']| == size' == |service.answers(old(service.calls)).data|
      && |before| == 1
    ensures !again ==>
      && Finished(pool, service, status, buffer', size', old(service.calls), old(pool.shortages))
      && (buffer' != NULL ==> before == [])
  {
    hide Pool.Valid;
    status, size' := service.Fill(pool, buffer, size);
    again, status, buffer' := GrowBuffer(pool, status, buffer, size');
    before := if buffer' == buffer then [] else [buffer];
  }

  /** The loop every caller writes.  It ends when the answers settle, at the first that does not outgrow the
      buffer or at a failed allocation before that.  On success it leaves one more live block, with all of
      the last answer in it, and on failure none; every block before that, `earlier`, was taken back. */
  method FillBuffer(pool: Pool, service: Service, initial: Status, initialSize: nat)
    returns (status: Status, buffer: Address, size: nat, ghost earlier: seq<Address>)
    requires pool.Valid() && initialSize != 0 && Settles(service.answers, service.calls, initialSize)
    modifies pool, service`calls
    ensures pool.Valid()
    ensures pool.takenBack == old(pool.takenBack) + earlier
    ensures pool.handedOut == old(pool.handedOut) + earlier + Block(buffer)
    ensures buffer == NULL ==> pool.live == old(pool.live)
    ensures buffer != NULL ==>
      && buffer !in old(pool.live) && pool.live - {buffer} == old(pool.live)
      && |earlier| == service.calls - old(service.calls) - 1
    ensures Finished(pool, service, status, buffer, size, old(service.calls), old(pool.shortages))
    ensures forall k :: old(service.calls) <= k < service.calls - 1 ==>
      Outgrows(service.answers, old(service.calls), initialSize, k)
    ensures pool.shortages == old(pool.shortages) ==>
      && service.calls > old(service.calls)
      && !Outgrows(service.answers, old(service.calls), initialSize, service.calls - 1)
    ensures service.answers(old(service.calls) + 1) == service.answers(old(service.calls)) ==>
      service.calls - old(service.calls) <= 2
  {
    hide Pool.Valid, Settles, Outgrows;
    ghost var from, answers := service.calls, service.answers;
    ghost var last := SettlesAt(answers, from, initialSize);
    buffer, size, earlier := NULL, initialSize, [];
    NullIsNotLive(pool);
    var again: bool;
    again, status, buffer := GrowBuffer(pool, initial, buffer, size);
    while again
      invariant pool.Valid() && from <= service.calls && (again ==> service.calls <= last)
      invariant pool.takenBack == old(pool.takenBack) + earlier
      invariant pool.handedOut == old(pool.handedOut) + earlier + Block(buffer)
      invariant buffer != NULL ==> buffer !in old(pool.live) && pool.live - {buffer} == old(pool.live)
      invariant buffer == NULL ==> pool.live == old(pool.live)
      invariant again ==>
        && buffer != NULL && buffer in pool.live && |pool.live[buffer]| == size
        && size == SizeAt(answers, from, initialSize, service.calls)
        && pool.shortages == old(pool.shortages) && |earlier| == service.calls - from
      invariant !again ==>
        && Finished(pool, service, status, buffer, size, from, old(pool.shortages))
        && (buffer != NULL ==> |earlier| == service.calls - from - 1)
        && (pool.shortages == old(pool.shortages) ==>
              service.calls > from && !Outgrows(answers, from, initialSize, service.calls - 1))
      invariant forall k :: from <= k < (if again then service.calls else service.calls - 1) ==>
        Outgrows(answers, from, initialSize, k)
      decreases again, last - service.calls
    {
      ghost var before;
      NextSize(answers, from, initialSize, service.calls, size);
      again, status, buffer, size, before := Turn(pool, service, buffer, size, old(pool.live));
      earlier := earlier + before;
    }
    AtMostTwo(answers, from, initialSize, service.calls);
  }

  lemma NextSize(answers: nat -> Answer, from: nat, initialSize: nat, k: nat, size: nat)
    requires from <= k && size == SizeAt(answers, from, initialSize, k)
    ensures Outgrows(answers, from, initialSize, k) <==> answers(k).Data? && |answers(k).data| > size
    ensures answers(k).Data? ==> SizeAt(answers, from, initialSize, k + 1) == |answers(k).data|
  {
  }

  lemma AtMostTwo(answers: nat -> Answer, from: nat, initialSize: nat, calls: nat)
    requires forall k :: from <= k < calls - 1 ==> Outgrows(answers, from, initialSize, k)
    ensures answers(from + 1) == answers(from) ==> calls - from <= 2
  {
    hide Settles;
    if answers(from + 1) == answers(from) {
      FixedSettles(answers, from, initialSize);
    }
  }

  ghost function SettlesAt(answers: nat -> Answer, from: nat, initialSize: nat): (k: nat)
    requires Settles(answers, from, initialSize)
    ensures k >= from && !Outgrows(answers, from, initialSize, k)
  {
    var k :| k >= from && !Outgrows(answers, from, initialSize, k);
    k
  }

  /** With no shortage, and answers that go on outgrowing the buffer, the loop is still running after any
      number of turns: that the answers settle is what it needs to end. */
  method TurnsWithoutEnd(pool: Pool, service: Service, initialSize: nat, turns: nat) returns (ended: bool)
    requires pool.Valid() && initialSize != 0 && !Settles(service.answers, service.calls, initialSize)
    modifies pool, service`calls
    ensures pool.Valid()
    ensures ended <==> pool.shortages != old(pool.shortages)
    ensures !ended ==> service.calls == old(service.calls) + turns
  {
    hide Pool.Valid;
    ghost var from, answers := service.calls, service.answers;
    ghost var others, before := pool.live, [];
    NullIsNotLive(pool);
    var again, status, buffer := GrowBuffer(pool, Success, NULL, initialSize);
    var size, k := initialSize, 0;
    while again && k < turns
      invariant pool.Valid() && 0 <= k <= turns && (again <==> pool.shortages == old(pool.shortages))
      invariant again ==>
        && service.calls == from + k && buffer != NULL && buffer !in others
        && buffer in pool.live && |pool.live[buffer]| == size && pool.live - {buffer} == others
        && size == SizeAt(answers, from, initialSize, service.calls)
    {
      assert Outgrows(answers, from, initialSize, service.calls);
      again, status, buffer, size, before := Turn(pool, service, buffer, size, others);
      k := k + 1;
    }
    ended := !again;
  }

  /** How the loop is left. */
  ghost predicate Finished(pool: Pool, service: Service, status: Status, buffer: Address, size: nat,
                           calls: nat, shortages: nat)
    reads pool, service
  {
    && (buffer == NULL <==> status.Error())
    && (buffer != NULL ==>
          && buffer in pool.live && pool.shortages == shortages && calls < service.calls
          && var answer := service.answers(service.calls - 1);
             && answer.Data? && size == |answer.data| <= |pool.live[buffer]|
             && pool.live[buffer][..size] == answer.data)
    && (buffer == NULL && pool.shortages == shortages ==>
          calls < service.calls && service.answers(service.calls - 1) == Refusal)
  }

  /** LibLocateHandle: the handles, or none. */
  method LibLocateHandle(pool: Pool, locateHandle: Service)
    returns (status: Status, noHandles: nat, buffer: Address, ghost earlier: seq<Address>)
    requires pool.Valid() && Settles(locateHandle.answers, locateHandle.calls, 50 * HANDLE_SIZE)
    modifies pool, locateHandle`calls
    ensures pool.Valid() && pool.takenBack == old(pool.takenBack) + earlier
    ensures pool.handedOut == old(pool.handedOut) + earlier + Block(buffer)
    ensures status.Error() ==> buffer == NULL && noHandles == 0 && pool.live == old(pool.live)
    ensures !status.Error() ==>
      && buffer !in old(pool.live) && buffer in pool.live && pool.live - {buffer} == old(pool.live)
      && old(locateHandle.calls) < locateHandle.calls
      && var answer := locateHandle.answers(locateHandle.calls - 1);
         && answer.Data? && |answer.data| <= |pool.live[buffer]|
         && pool.live[buffer][..|answer.data|] == answer.data && noHandles == |answer.data| / 8
    ensures pool.shortages == old(pool.shortages) ==>
      var first := locateHandle.answers(old(locateHandle.calls));
      (locateHandle.calls == old(locateHandle.calls) + 1 <==> first.Refusal? || |first.data| <= 400)
    ensures locateHandle.answers(old(locateHandle.calls) + 1) == locateHandle.answers(old(locateHandle.calls)) ==>
      locateHandle.calls - old(locateHandle.calls) <= 2
  {
    BufferSizes(locateHandle.answers, locateHandle.calls, 400, locateHandle.calls);
    var size;
    status, buffer, size, earlier := FillBuffer(pool, locateHandle, Success, 50 * HANDLE_SIZE);
    noHandles := size / HANDLE_SIZE;
    if status.Error() {
      noHandles := 0;
    }
  }

  /** LibMemoryMap.  The number of entries is set only on success. */
  method LibMemoryMap(pool: Pool, getMemoryMap: Service, descriptorSize: nat, noEntries: nat)
    returns (buffer: Address, entries: nat, ghost earlier: seq<Address>)
    requires pool.Valid() && descriptorSize > 0
    requires Settles(getMemoryMap.answers, getMemoryMap.calls, MEMORY_DESCRIPTOR_SIZE)
    modifies pool, getMemoryMap`calls
    ensures pool.Valid() && pool.takenBack == old(pool.takenBack) + earlier
    ensures pool.handedOut == old(pool.handedOut) + earlier + Block(buffer)
    ensures buffer == NULL ==> pool.live == old(pool.live) && entries == noEntries
    ensures buffer != NULL ==>
      && buffer !in old(pool.live) && buffer in pool.live && pool.live - {buffer} == old(pool.live)
      && old(getMemoryMap.calls) < getMemoryMap.calls
      && var answer := getMemoryMap.answers(getMemoryMap.calls - 1);
         && answer.Data? && |answer.data| <= |pool.live[buffer]|
         && pool.live[buffer][..|answer.data|] == answer.data && entries == |answer.data| / descriptorSize
    ensures pool.shortages == old(pool.shortages) ==>
      var first := getMemoryMap.answers(old(getMemoryMap.calls));
      (getMemoryMap.calls == old(getMemoryMap.calls) + 1 <==> first.Refusal? || |first.data| <= 40)
    ensures getMemoryMap.answers(old(getMemoryMap.calls) + 1) == getMemoryMap.answers(old(getMemoryMap.calls)) ==>
      getMemoryMap.calls - old(getMemoryMap.calls) <= 2
  {
    BufferSizes(getMemoryMap.answers, getMemoryMap.calls, 40, getMemoryMap.calls);
    var status, size;
    status, buffer, size, earlier := FillBuffer(pool, getMemoryMap, Success, MEMORY_DESCRIPTOR_SIZE);
    entries := noEntries;
    if !status.Error() {
      entries := size / descriptorSize;
    }
  }

  /** LibGetVariableAndSize.  The status the loop starts with is whatever was there. */
  method LibGetVariableAndSize(pool: Pool, getVariable: Service, uninitialized: Status)
    returns (buffer: Address, varSize: nat, ghost earlier: seq<Address>)
    requires pool.Valid() && Settles(getVariable.answers, getVariable.calls, 100)
    modifies pool, getVariable`calls
    ensures pool.Valid() && pool.takenBack == old(pool.takenBack) + earlier
    ensures pool.handedOut == old(pool.handedOut) + earlier + Block(buffer)
    ensures buffer == NULL ==> pool.live == old(pool.live) && varSize == 0
    ensures buffer != NULL ==>
      && buffer !in old(pool.live) && buffer in pool.live && pool.live - {buffer} == old(pool.live)
      && old(getVariable.calls) < getVariable.calls
      && getVariable.answers(getVariable.calls - 1).Data? && varSize <= |pool.live[buffer]|
      && pool.live[buffer][..varSize] == getVariable.answers(getVariable.calls - 1).data
    ensures pool.shortages == old(pool.shortages) ==>
      var first := getVariable.answers(old(getVariable.calls));
      (getVariable.calls == old(getVariable.calls) + 1 <==> first.Refusal? || |first.data| <= 100)
    ensures getVariable.answers(old(getVariable.calls) + 1) == getVariable.answers(old(getVariable.calls)) ==>
      getVariable.calls - old(getVariable.calls) <= 2
  {
    BufferSizes(getVariable.answers, getVariable.calls, 100, getVariable.calls);
    var status, size;
    status, buffer, size, earlier := FillBuffer(pool, getVariable, uninitialized, 100);
    if buffer != NULL {
      varSize := size;
    } else {
      varSize := 0;
    }
  }
}
