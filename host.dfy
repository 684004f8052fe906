/**
 * The block layer's side of the contract, as far as it bears on the
 * elevator: draining the elevator calls the dispatch hook until it
 * reports nothing left, and tearing down follows.
 */
module Host {
  import opened Requests
  import opened LookIosched

  /**
   * Dispatch until the hook returns 0. With no adds in between, every
   * queued request is handed on exactly once and in list order, so a
   * sorted queue is emitted in nondecreasing sector order; the queue is
   * then empty and teardown does not trip BUG_ON. The value read at the
   * list-head sentinel is passed as the same `sentinelRead` to every
   * dispatch only for simplicity: it is really whatever memory holds
   * there, and no clause here depends on the cursor.
   */
  method Drain(ld: LookData, sentinelRead: Sector) returns (n: nat, bugOn: bool)
    requires ld.Valid()
    modifies ld
    ensures ld.Valid() && ld.queue == []
    ensures n == |old(ld.queue)|
    ensures ld.dispatched == old(ld.dispatched) + old(ld.queue)
    ensures DistinctIds(ld.dispatched[|old(ld.dispatched)|..])
    ensures SortedBySector(old(ld.queue)) ==> SortedBySector(ld.dispatched[|old(ld.dispatched)|..])
    ensures !bugOn
  {
    ghost var pending := ld.queue;
    ghost var before := ld.dispatched;
    n := 0;
    while true
      invariant ld.Valid()
      invariant n <= |pending|
      invariant ld.queue == pending[n..]
      invariant ld.dispatched == before + pending[..n]
      decreases |ld.queue|
    {
      var r := ld.Dispatch(sentinelRead);
      if r == 0 {
        break;
      }
      assert pending[..n + 1] == pending[..n] + [pending[n]];
      n := n + 1;
    }
    assert pending[..n] == pending;
    assert ld.dispatched[|before|..] == pending;
    bugOn := ld.ExitQueue();
  }
}
