/**
 * The "look" elevator: per-queue data holding a list of pending requests
 * and the last serviced sector, and the hooks the block layer calls on it.
 */
module LookIosched {
  import opened Requests

  /** ENOMEM, as look_init_queue returns it negated. */
  const ENOMEM: int := 12

  /**
   * The answer of look_merge: its return value together with what it
   * stores through `req`.
   */
  datatype MergeDecision = NoMerge | FrontMerge(rq: Request)
  {
    /** ELEVATOR_NO_MERGE is 0 and ELEVATOR_FRONT_MERGE is 1. */
    function Code(): (c: int)
      ensures c == 0 <==> NoMerge?
      ensures FrontMerge? ==> c == 1
    {
      if NoMerge? then 0 else 1
    }
  }

  /** struct look_data. */
  class LookData {
    /** `queue`, the list of pending requests, head first. */
    var queue: seq<Request>
    /** `last_serviced`, the cursor. */
    var lastServiced: Sector
    /** Every request handed to the host by elv_dispatch_sort, in order. */
    ghost var dispatched: seq<Request>

    /** A request record sits on the list at most once. */
    ghost predicate Valid()
      reads this
    {
      DistinctIds(queue)
    }

    /** The state look_init_queue sets up: an empty list, cursor 0. */
    constructor ()
      ensures Valid()
      ensures queue == [] && lastServiced == 0 && dispatched == []
    {
      queue := [];
      lastServiced := 0;
      dispatched := [];
    }

    /**
     * look_init_queue: `elevatorAllocated` and `dataAllocated` are the
     * outcomes of elevator_alloc and kmalloc_node. Either failure gives
     * -ENOMEM and no elevator data; success gives fresh, empty data.
     */
    static method InitQueue(elevatorAllocated: bool, dataAllocated: bool)
      returns (err: int, ld: LookData?)
      ensures err == 0 <==> elevatorAllocated && dataAllocated
      ensures err != 0 ==> err == -ENOMEM && ld == null
      ensures err == 0 ==> ld != null && fresh(ld) && ld.Valid()
      ensures err == 0 ==> ld.queue == [] && ld.lastServiced == 0 && ld.dispatched == []
    {
      if !elevatorAllocated {
        return -ENOMEM, null;
      }
      if !dataAllocated {
        return -ENOMEM, null;
      }
      ld := new LookData();
      err := 0;
    }

    /**
     * look_dispatch. The request removed and handed on is always the list
     * head: the `rq` the scan assigns is a second variable local to the
     * loop body. The scan only decides the new cursor: the sector of the
     * entry before the first one beyond the cursor, or of the last entry
     * when none is beyond. When the very first entry is beyond the cursor,
     * the step back lands on the list head itself, and what is read there
     * as a sector is `sentinelRead`.
     */
    method Dispatch(sentinelRead: Sector) returns (r: int)
      requires Valid()
      modifies this
      ensures Valid()
      ensures old(queue) == [] ==>
        r == 0 && queue == old(queue) && lastServiced == old(lastServiced) &&
        dispatched == old(dispatched)
      ensures old(queue) != [] ==>
        r == 1 && queue == old(queue)[1..] && dispatched == old(dispatched) + [old(queue)[0]]
      ensures old(queue) != [] ==>
        var i := FirstAbove(old(queue), old(lastServiced));
        (i == |old(queue)| ==> lastServiced == old(queue)[|old(queue)| - 1].sector) &&
        (i > 0 ==> lastServiced == old(queue)[i - 1].sector) &&
        (i == 0 ==> lastServiced == sentinelRead)
      ensures old(queue) != [] && SortedBySector(old(queue)) ==>
        forall k :: 0 <= k < |old(queue)| ==>
          dispatched[|dispatched| - 1].sector <= old(queue)[k].sector
    {
      if queue != [] {
        var rq := queue[0];
        var position: Sector := 0;
        var i := 0;
        while i < |queue|
          invariant 0 <= i <= |queue|
          invariant forall k :: 0 <= k < i ==> queue[k].sector <= lastServiced
          invariant i > 0 ==> position == queue[i - 1].sector
        {
          position := queue[i].sector;
          if position > lastServiced {
            // entry = entry->prev: the previous entry, or the list head
            position := if i == 0 then sentinelRead else queue[i - 1].sector;
            break;
          }
          i := i + 1;
        }
        assert i == FirstAbove(queue, lastServiced);
        DistinctTail(queue);
        queue := queue[1..];
        dispatched := dispatched + [rq];
        lastServiced := position;
        r := 1;
      } else {
        r := 0;
      }
    }

    /**
     * look_add_request: list_add puts `rq` at the head, then list_sort
     * stably sorts the list by rq_cmp. The record must not already be on
     * the list. Provided all sectors, `rq`'s included, lie in a range
     * narrower than 2^31, the list is then ordered by sector, and a list
     * that was already so ordered gets `rq` just in front of the first
     * entry not below it.
     */
    method AddRequest(rq: Request)
      requires Valid()
      requires !HasId(queue, rq.id)
      modifies this
      ensures Valid()
      ensures queue == ListSort([rq] + old(queue))
      ensures multiset(queue) == multiset(old(queue)) + multiset{rq}
      ensures forall lo :: Within([rq] + old(queue), lo) ==> SortedBySector(queue)
      ensures forall lo :: Within([rq] + old(queue), lo) && SortedBySector(old(queue)) ==>
        var k := FirstAtOrAbove(old(queue), rq.sector);
        queue == old(queue)[..k] + [rq] + old(queue)[k..]
      ensures lastServiced == old(lastServiced) && dispatched == old(dispatched)
    {
      ghost var before := queue;
      assert forall y :: y in queue ==> y.id != rq.id;
      DistinctCons(rq, queue);
      queue := [rq] + queue;
      ListSortDistinct(queue);
      queue := ListSort(queue);
      forall lo | Within([rq] + before, lo) ensures SortedBySector(queue) {
        ListSortSorted([rq] + before, lo);
      }
      forall lo | Within([rq] + before, lo) && SortedBySector(before)
        ensures queue == before[..FirstAtOrAbove(before, rq.sector)] + [rq] + before[FirstAtOrAbove(before, rq.sector)..]
      {
        assert ([rq] + before)[1..] == before;
        assert forall y :: y in before ==> y in [rq] + before;
        ListSortKeepsSorted(before, lo);
        InsertIntoSorted(rq, before, lo);
      }
    }

    /**
     * look_merge: the first queued request, in list order, whose start
     * sector is `bioEndSector` (bio_end_sector of the bio) is offered for
     * a front merge; with none, no merge. Nothing is changed.
     */
    method Merge(bioEndSector: Sector) returns (d: MergeDecision)
      ensures d.NoMerge? <==> forall k :: 0 <= k < |queue| ==> queue[k].sector != bioEndSector
      ensures d.FrontMerge? ==> d.rq.sector == bioEndSector
      ensures d.FrontMerge? ==>
        exists i :: 0 <= i < |queue| && queue[i] == d.rq &&
          forall j :: 0 <= j < i ==> queue[j].sector != bioEndSector
    {
      var i := 0;
      while i < |queue|
        invariant 0 <= i <= |queue|
        invariant forall j :: 0 <= j < i ==> queue[j].sector != bioEndSector
      {
        var position := queue[i].sector;
        if position == bioEndSector {
          return FrontMerge(queue[i]);
        }
        i := i + 1;
      }
      return NoMerge;
    }

    /**
     * look_merged_requests: the host has merged `next` into `rq`;
     * list_del_init unlinks `next`. A record that is on no list is left
     * alone by list_del_init, and so here too.
     */
    method MergedRequests(rq: Request, next: Request)
      requires Valid()
      modifies this
      ensures Valid()
      ensures queue == RemoveId(old(queue), next.id)
      ensures !HasId(queue, next.id)
      ensures forall x :: x in queue <==> x in old(queue) && x.id != next.id
      ensures HasId(old(queue), next.id) ==>
        exists k :: 0 <= k < |old(queue)| && queue == old(queue)[..k] + old(queue)[k + 1..]
      ensures !HasId(old(queue), next.id) ==> queue == old(queue)
      ensures lastServiced == old(lastServiced) && dispatched == old(dispatched)
    {
      RemoveIdExact(queue, next.id);
      queue := RemoveId(queue, next.id);
    }

    /**
     * look_exit_queue: `bugOn` is the BUG_ON condition, true exactly when
     * requests are still queued (the kernel then halts); otherwise the
     * elevator data is freed.
     */
    method ExitQueue() returns (bugOn: bool)
      ensures bugOn <==> queue != []
    {
      bugOn := queue != [];
    }
  }
}
