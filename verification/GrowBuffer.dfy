/** The GrowBuffer retry loop of gnu-efi/lib/misc.c, by which the library asks the firmware for data of
    unknown size, as LibLocateHandle (gnu-efi/lib/hand.c) and LibMemoryMap use it.
 */
module GrowBuffer {
  import opened Options

  type Block = nat

  /** An EFI_STATUS; EFI_ERROR holds of all but success and the warnings. */
  datatype Status = Success | Warning(code: nat) | BufferTooSmall | OutOfResources | OtherError(code: nat)

  predicate IsError(s: Status) {
    !s.Success? && !s.Warning?
  }

  /** The pool: the blocks handed out and not yet freed, and every block ever handed out. */
  class Pool {
    var live: map<Block, nat>
    ghost var used: set<Block>
    /** How often each block has been freed. */
    ghost var freed: multiset<Block>
    /** How often it has had no room. */
    ghost var refusals: nat
    var next: Block

    constructor ()
      ensures Sound() && live == map[] && used == {} && freed == multiset{}
    {
      live, used, freed, refusals, next := map[], {}, multiset{}, 0, 0;
    }

    /** Every block handed out is live or has been freed, once, and never both. */
    ghost predicate Sound()
      reads this
    {
      && (forall b :: b in used ==> b < next)
      && (forall b :: b in live ==> b in used)
      && (forall b :: b in used ==> freed[b] == if b in live then 0 else 1)
      && (forall b :: b in freed ==> b in used)
    }

    method AllocatePool(size: nat) returns (block: Option<Block>)
      requires Sound()
      modifies this
      ensures Sound() && refusals == if block.None? then old(refusals) + 1 else old(refusals)
      ensures block.None? ==> live == old(live) && used == old(used) && freed == old(freed)
      ensures block.Some? ==>
        && block.value !in old(used) && live == old(live)[block.value := size]
        && used == old(used) + {block.value} && freed == old(freed)
    {
      var room: bool := *;
      if !room {
        refusals := refusals + 1;
        return None;
      }
      block := Some(next);
      live, used, next := live[next := size], used + {next}, next + 1;
    }

    method FreePool(block: Block)
      requires Sound() && block in live
      modifies this
      ensures Sound() && live == old(live) - {block} && used == old(used) && refusals == old(refusals)
    {
      live := live - {block};
      freed := freed[block := freed[block] + 1];
    }
  }

  /** The loop owns `buffer` on top of the blocks `before` it started with. */
  ghost predicate Owns(pool: Pool, before: map<Block, nat>, buffer: Option<Block>, size: nat)
    reads pool
  {
    match buffer
    case None => pool.live == before
    case Some(b) => b !in before && pool.live == before[b := size]
  }

  /** GrowBuffer: `held` is the size of the block held so far, `size` the size asked for now. */
  method Grow(pool: Pool, status: Status, buffer: Option<Block>, size: nat,
              ghost before: map<Block, nat>, ghost held: nat)
    returns (tryAgain: bool, status': Status, buffer': Option<Block>)
    requires pool.Sound() && Owns(pool, before, buffer, held) && before.Keys <= pool.used
    modifies pool
    ensures pool.Sound() && old(pool.used) <= pool.used
    ensures Owns(pool, before, buffer', if tryAgain then size else held)
    ensures if status == BufferTooSmall || (buffer.None? && size > 0)
            then status' == (if tryAgain then BufferTooSmall else OutOfResources) && (buffer'.Some? <==> tryAgain)
            else !tryAgain && status' == status && buffer' == if IsError(status) then None else buffer
    ensures if status == BufferTooSmall || (buffer.None? && size > 0)
            then pool.refusals == if tryAgain then old(pool.refusals) else old(pool.refusals) + 1
            else pool.refusals == old(pool.refusals)
  {
    status', buffer' := status, buffer;
    if buffer'.None? && size != 0 {
      status' := BufferTooSmall;
    }
    tryAgain := false;
    if status' == BufferTooSmall {
      if buffer'.Some? {
        pool.FreePool(buffer'.value);
        assert pool.live == before;
      }
      buffer' := pool.AllocatePool(size);
      if buffer'.Some? {
        tryAgain := true;
      } else {
        status' := OutOfResources;
      }
    }
    if !tryAgain && IsError(status') && buffer'.Some? {
      pool.FreePool(buffer'.value);
      assert pool.live == before;
      buffer' := None;
    }
  }

  /** What the firmware answers to its `n`-th call: a status and the size it writes back. */
  datatype Reply = Reply(status: Status, size: nat)
  type Firmware = nat -> Reply

  /** The size the block holds when the firmware is called for the `n`-th time: what it last asked for. */
  function SizeAsked(firmware: Firmware, start: nat, n: nat): nat {
    if n == 0 then start else firmware(n - 1).size
  }

  /** One call of the firmware, and what Grow makes of its answer. */
  method NextTry(pool: Pool, firmware: Firmware, ghost start: nat, ghost last: nat, calls: nat, ghost asked: nat,
                 ghost was: Status, had: Option<Block>, ghost before: map<Block, nat>, ghost held: nat)
    returns (size: nat, again: bool, status: Status, buffer: Option<Block>, ghost held': nat)
    requires pool.Sound() && Owns(pool, before, had, held) && before.Keys <= pool.used
    requires Turned(firmware, start, last, calls, asked, was, had, held, true, false)
    requires forall n :: n >= last ==> firmware(n).status != BufferTooSmall
    modifies pool
    ensures pool.Sound() && old(pool.used) <= pool.used && Owns(pool, before, buffer, held')
    ensures pool.refusals == old(pool.refusals) || pool.refusals == old(pool.refusals) + 1
    ensures Turned(firmware, start, last, calls + 1, size, status, buffer, held', again,
                   pool.refusals != old(pool.refusals))
    ensures again ==> calls < last
  {
    hide *;
    Turning(firmware, start, last, calls, asked, was, had, held, false);
    var reply := firmware(calls);
    again, status, buffer := Grow(pool, reply.status, had, reply.size, before, held);
    TurnStep(firmware, start, last, calls, asked, had, held, reply, status, buffer, again,
             pool.refusals != old(pool.refusals));
    size, held' := reply.size, if again then reply.size else held;
  }

  /** The retry loop. `start` is the size first tried; from call `last` on the firmware no longer says
      "too small". */
  method RetryLoop(pool: Pool, firmware: Firmware, start: nat, ghost last: nat)
    returns (status: Status, buffer: Option<Block>, size: nat, calls: nat)
    requires pool.Sound()
    requires forall n :: n >= last ==> firmware(n).status != BufferTooSmall
    modifies pool
    ensures pool.Sound() && size == (if calls == 0 then start else firmware(calls - 1).size)
    ensures forall n :: 0 <= n < calls - 1 ==> firmware(n).status == BufferTooSmall
    ensures pool.refusals == old(pool.refusals) && start == 0 ==> calls == 0 && status == Success
    ensures pool.refusals == old(pool.refusals) && start > 0 ==>
      calls > 0 && status == firmware(calls - 1).status && status != BufferTooSmall
    ensures pool.refusals != old(pool.refusals) ==>
      && pool.refusals == old(pool.refusals) + 1 && status == OutOfResources
      && (calls == 0 || firmware(calls - 1).status == BufferTooSmall)
    ensures start == 0 || (!status.Success? && !status.Warning?) ==> buffer.None? && pool.live == old(pool.live)
    ensures start > 0 && (status.Success? || status.Warning?) ==>
      && calls > 0 && buffer.Some? && buffer.value !in old(pool.live)
      && pool.live == old(pool.live)[buffer.value := if calls == 1 then start else firmware(calls - 2).size]
    ensures old(pool.used) <= pool.used
    ensures forall b :: b in pool.used && b !in old(pool.used) && Some(b) != buffer ==>
      pool.freed[b] == 1 && b !in pool.live
  {
    ghost var before, refusals := pool.live, pool.refusals;
    status, buffer, size, calls := Success, None, start, 0;
    ghost var held := 0;
    KeysUsed(pool);
    OwnsNone(pool);
    var again: bool;
    again, status, buffer := Grow(pool, status, buffer, size, before, held);
    if again {
      held := size;
    }
    assert Turned(firmware, start, last, calls, size, status, buffer, held, again, pool.refusals != refusals);
    hide *;
    while again
      invariant pool.Sound() && before.Keys <= old(pool.used) <= pool.used && Owns(pool, before, buffer, held)
      invariant pool.refusals == refusals || pool.refusals == refusals + 1
      invariant Turned(firmware, start, last, calls, size, status, buffer, held, again, pool.refusals != refusals)
      decreases if again then 1 + last - calls else 0
    {
      Turning(firmware, start, last, calls, size, status, buffer, held, pool.refusals != refusals);
      size, again, status, buffer, held :=
        NextTry(pool, firmware, start, last, calls, size, status, buffer, before, held);
      calls := calls + 1;
    }
    TurnEnds(firmware, start, last, calls, size, status, buffer, held, pool.refusals != refusals);
    OwnsMeans(pool, before, buffer, held);
    Owned(pool, before, buffer, held);
  }

  /** The loop after `calls` calls: what it has been answered, what it holds, and whether it goes on. */
  ghost predicate Turned(firmware: Firmware, start: nat, last: nat, calls: nat, size: nat, status: Status,
                         buffer: Option<Block>, held: nat, again: bool, refused: bool)
  {
    && size == SizeAsked(firmware, start, calls)
    && (forall n :: 0 <= n < calls - 1 ==> firmware(n).status == BufferTooSmall)
    && (again ==> start > 0 && buffer.Some? && held == size && calls <= last && !refused)
    && (again || refused ==> calls > 0 ==> firmware(calls - 1).status == BufferTooSmall)
    && (refused ==> status == OutOfResources)
    && (start == 0 ==> calls == 0 && status == Success && buffer.None?)
    && (!again && start > 0 ==> (buffer.Some? <==> !IsError(status)))
    && (!again && buffer.Some? ==> calls > 0 && held == SizeAsked(firmware, start, calls - 1))
    && (!again && start > 0 && !refused ==>
          calls > 0 && status == firmware(calls - 1).status && status != BufferTooSmall)
  }

  lemma Turning(firmware: Firmware, start: nat, last: nat, calls: nat, size: nat, status: Status,
                buffer: Option<Block>, held: nat, refused: bool)
    requires Turned(firmware, start, last, calls, size, status, buffer, held, true, refused)
    ensures buffer.Some? && calls <= last && !refused
  {}

  /** One more call, and what Grow makes of its answer. */
  lemma TurnStep(firmware: Firmware, start: nat, last: nat, calls: nat, size: nat, buffer: Option<Block>, held: nat,
                 reply: Reply, status: Status, buffer': Option<Block>, again: bool, refused: bool)
    requires exists was :: Turned(firmware, start, last, calls, size, was, buffer, held, true, false)
    requires reply == firmware(calls) && forall n :: n >= last ==> firmware(n).status != BufferTooSmall
    requires reply.status == BufferTooSmall ==>
      && status == (if again then BufferTooSmall else OutOfResources)
      && (buffer'.Some? <==> again) && (refused <==> !again)
    requires reply.status != BufferTooSmall ==>
      !again && !refused && status == reply.status && buffer' == if IsError(status) then None else buffer
    ensures Turned(firmware, start, last, calls + 1, reply.size, status, buffer', if again then reply.size else held,
                   again, refused)
    ensures again ==> calls + 1 <= last
  {}

  lemma TurnEnds(firmware: Firmware, start: nat, last: nat, calls: nat, size: nat, status: Status,
                 buffer: Option<Block>, held: nat, refused: bool)
    requires Turned(firmware, start, last, calls, size, status, buffer, held, false, refused)
    ensures size == if calls == 0 then start else firmware(calls - 1).size
    ensures forall n :: 0 <= n < calls - 1 ==> firmware(n).status == BufferTooSmall
    ensures !refused && start == 0 ==> calls == 0 && status == Success
    ensures !refused && start > 0 ==> calls > 0 && status == firmware(calls - 1).status && status != BufferTooSmall
    ensures refused ==> status == OutOfResources && (calls == 0 || firmware(calls - 1).status == BufferTooSmall)
    ensures start == 0 || (!status.Success? && !status.Warning?) ==> buffer.None?
    ensures start > 0 && (status.Success? || status.Warning?) ==>
      calls > 0 && buffer.Some? && held == if calls == 1 then start else firmware(calls - 2).size
  {}

  lemma KeysUsed(pool: Pool)
    requires pool.Sound()
    ensures pool.live.Keys <= pool.used
  {}

  lemma OwnsNone(pool: Pool)
    ensures Owns(pool, pool.live, None, 0)
  {}

  lemma OwnsMeans(pool: Pool, before: map<Block, nat>, buffer: Option<Block>, size: nat)
    requires Owns(pool, before, buffer, size)
    ensures buffer.None? ==> pool.live == before
    ensures buffer.Some? ==> buffer.value !in before && pool.live == before[buffer.value := size]
  {}

  /** What is owned beyond the blocks at the start is one block; the others handed out have been freed. */
  lemma Owned(pool: Pool, before: map<Block, nat>, buffer: Option<Block>, size: nat)
    requires pool.Sound() && Owns(pool, before, buffer, size)
    ensures forall b :: b in pool.used && b !in before && Some(b) != buffer ==> pool.freed[b] == 1 && b !in pool.live
  {}

  const HANDLE_BYTES := 8

  /** LibLocateHandle. Unless the pool refuses, the firmware's first answer other than "too small", the `n`-th, counts:
      no handles on an error, otherwise as many as the size it reports holds, in a block of the size it had asked for
      before it, which has room for them if it reports no more. */
  method LibLocateHandle(pool: Pool, firmware: Firmware, ghost last: nat)
    returns (status: Status, noHandles: nat, buffer: Option<Block>, ghost n: nat)
    requires pool.Sound()
    requires forall n :: n >= last ==> firmware(n).status != BufferTooSmall
    modifies pool
    ensures pool.Sound()
    ensures pool.refusals != old(pool.refusals) ==> status == OutOfResources
    ensures pool.refusals == old(pool.refusals) ==>
      && status == firmware(n).status != BufferTooSmall
      && forall k :: 0 <= k < n ==> firmware(k).status == BufferTooSmall
    ensures !status.Success? && !status.Warning? ==> noHandles == 0 && buffer.None? && pool.live == old(pool.live)
    ensures status.Success? || status.Warning? ==>
      var room := if n == 0 then 400 else firmware(n - 1).size;
      && noHandles == firmware(n).size / 8 && (firmware(n).size <= room ==> noHandles * 8 <= room)
      && buffer.Some? && buffer.value !in old(pool.live) && pool.live == old(pool.live)[buffer.value := room]
  {
    var size, calls;
    status, buffer, size, calls := RetryLoop(pool, firmware, 50 * HANDLE_BYTES, last);
    n := if calls == 0 then 0 else calls - 1;
    noHandles := size / HANDLE_BYTES;
    if IsError(status) {
      noHandles := 0;
    }
  }
}
