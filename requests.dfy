/**
 * Requests as the look elevator sees them, and the value-level operations
 * on its queue: the request comparator (with the 64-bit subtraction and the
 * truncation to a 32-bit int written out), the stable sort the kernel's
 * list_sort performs with that comparator, the scan for the first entry
 * beyond the cursor, and removal of one entry by identity.
 */
module Requests {

  const TWO_31: int := 0x8000_0000
  const TWO_32: int := 0x1_0000_0000
  const TWO_64: int := 0x1_0000_0000_0000_0000

  /** sector_t: an unsigned 64-bit sector number. */
  type Sector = x: nat | x < 0x1_0000_0000_0000_0000

  /**
   * A pending request, as a handle: `id` stands for the identity of the
   * host's request record (its address), `sector` for blk_rq_pos.
   */
  datatype Request = Request(id: nat, sector: Sector)

  // ---------------------------------------------------------------------
  // The comparator rq_cmp

  /**
   * rq_cmp: the unsigned 64-bit difference of the two start sectors,
   * converted to a 32-bit two's-complement int (the low 32 bits kept).
   */
  function RqCmp(a: Request, b: Request): (r: int)
    ensures -TWO_31 <= r < TWO_31
  {
    var wrapped := (a.sector - b.sector) % TWO_64;
    var low := wrapped % TWO_32;
    if low < TWO_31 then low else low - TWO_32
  }

  /** rq_cmp agrees with the true difference of the sectors modulo 2^32. */
  lemma RqCmpCongruent(a: Request, b: Request)
    ensures (RqCmp(a, b) - (a.sector - b.sector)) % TWO_32 == 0
  {
  }

  /** Two requests whose start sectors are less than 2^31 apart. */
  predicate CmpFits(a: Request, b: Request)
  {
    -TWO_31 < a.sector - b.sector < TWO_31
  }

  /**
   * Every start sector in `s` lies in [lo, lo + 2^31): any two of them are
   * then CmpFits.
   */
  predicate Within(s: seq<Request>, lo: int)
  {
    forall x :: x in s ==> lo <= x.sector < lo + TWO_31
  }

  lemma WithinSplit(x: Request, t: seq<Request>, lo: int)
    requires Within([x] + t, lo)
    ensures lo <= x.sector < lo + TWO_31
    ensures Within(t, lo)
  {
    assert x in [x] + t;
    forall y | y in t ensures y in [x] + t { }
  }

  lemma WithinJoin(x: Request, t: seq<Request>, lo: int)
    requires lo <= x.sector < lo + TWO_31
    requires Within(t, lo)
    ensures Within([x] + t, lo)
  {
  }

  lemma WithinHeadTail(t: seq<Request>, lo: int)
    requires t != []
    requires Within(t, lo)
    ensures lo <= t[0].sector < lo + TWO_31
    ensures Within(t[1..], lo)
  {
    assert t == [t[0]] + t[1..];
    WithinSplit(t[0], t[1..], lo);
  }

  /**
   * When the sectors are less than 2^31 apart, rq_cmp is exactly the
   * difference of the start sectors, so its sign orders them.
   */
  lemma RqCmpExact(a: Request, b: Request)
    requires CmpFits(a, b)
    ensures RqCmp(a, b) == a.sector - b.sector
    ensures RqCmp(a, b) <= 0 <==> a.sector <= b.sector
  {
    RqCmpCongruent(a, b);
  }

  /**
   * Sectors exactly 2^31 apart are misordered: the difference truncates to
   * the most negative int either way round, so each request compares below
   * the other, and a list with the higher one at its head stays unsorted.
   */
  lemma RqCmpMisordersFarSectors(far: Request, near: Request)
    requires far.sector == near.sector + TWO_31
    ensures RqCmp(far, near) == -TWO_31 && RqCmp(near, far) == -TWO_31
    ensures !SortedBySector(ListSort([far, near]))
  {
    assert (far.sector - near.sector) % TWO_64 == TWO_31;
    assert (near.sector - far.sector) % TWO_64 == TWO_64 - TWO_31;
    assert (TWO_64 - TWO_31) % TWO_32 == TWO_31;
    assert ListSort([near]) == [near];
    assert ListSort([far, near]) == Insert(far, [near]) == [far, near];
  }

  // ---------------------------------------------------------------------
  // Stable sort by rq_cmp (the effect of list_sort)

  /** Nondecreasing by start sector. */
  predicate SortedBySector(s: seq<Request>)
  {
    forall i, j :: 0 <= i < j < |s| ==> s[i].sector <= s[j].sector
  }

  /**
   * Insert `x`, which preceded every element of `t` in the list, in front
   * of the first element it does not compare above; this is the order a
   * stable merge with `rq_cmp(a, b) <= 0 ? a : b` produces.
   */
  function Insert(x: Request, t: seq<Request>): (r: seq<Request>)
    ensures multiset(r) == multiset(t) + multiset{x}
    ensures |r| == |t| + 1
  {
    if t == [] || RqCmp(x, t[0]) <= 0 then [x] + t
    else assert t == [t[0]] + t[1..]; [t[0]] + Insert(x, t[1..])
  }

  /** list_sort(NULL, list, rq_cmp): a stable sort by the comparator. */
  function ListSort(s: seq<Request>): (r: seq<Request>)
    ensures multiset(r) == multiset(s)
    ensures |r| == |s|
  {
    if s == [] then [] else assert s == [s[0]] + s[1..]; Insert(s[0], ListSort(s[1..]))
  }

  /** Membership follows the multiset. */
  lemma SameElements(s: seq<Request>, t: seq<Request>)
    requires multiset(s) == multiset(t)
    ensures forall x :: x in s <==> x in t
  {
    forall x ensures x in s <==> x in t {
      assert x in s <==> x in multiset(s);
      assert x in t <==> x in multiset(t);
    }
  }

  /** Putting in front an entry no higher than any entry of a sorted list. */
  lemma SortedCons(x: Request, t: seq<Request>)
    requires SortedBySector(t)
    requires forall y :: y in t ==> x.sector <= y.sector
    ensures SortedBySector([x] + t)
  {
    var r := [x] + t;
    forall i, j | 0 <= i < j < |r| ensures r[i].sector <= r[j].sector {
      assert r[j] == t[j - 1];
      if i > 0 {
        assert r[i] == t[i - 1];
      }
    }
  }

  /** The tail of a sorted list is sorted and not below its head. */
  lemma SortedTail(t: seq<Request>)
    requires t != []
    requires SortedBySector(t)
    ensures SortedBySector(t[1..])
    ensures forall y :: y in t[1..] ==> t[0].sector <= y.sector
  {
    forall i, j | 0 <= i < j < |t[1..]| ensures t[1..][i].sector <= t[1..][j].sector {
      assert t[1..][i] == t[i + 1] && t[1..][j] == t[j + 1];
    }
    forall y | y in t[1..] ensures t[0].sector <= y.sector {
      var k :| 0 <= k < |t[1..]| && t[1..][k] == y;
      assert t[k + 1] == y;
    }
  }

  lemma {:induction false} InsertSorted(x: Request, t: seq<Request>, lo: int)
    requires SortedBySector(t)
    requires Within([x] + t, lo)
    ensures SortedBySector(Insert(x, t))
  {
    if t != [] {
      WithinSplit(x, t, lo);
      WithinHeadTail(t, lo);
      RqCmpExact(x, t[0]);
      SortedTail(t);
      if x.sector <= t[0].sector {
        SortedCons(x, t);
      } else {
        WithinJoin(x, t[1..], lo);
        InsertSorted(x, t[1..], lo);
        var rest := Insert(x, t[1..]);
        SameElements(rest, [x] + t[1..]);
        SortedCons(t[0], rest);
      }
    }
  }

  /**
   * When all start sectors lie within a range narrower than 2^31, the
   * list comes out in nondecreasing sector order.
   */
  lemma {:induction false} ListSortSorted(s: seq<Request>, lo: int)
    requires Within(s, lo)
    ensures SortedBySector(ListSort(s))
  {
    if s != [] {
      WithinHeadTail(s, lo);
      ListSortSorted(s[1..], lo);
      var t := ListSort(s[1..]);
      SameElements(t, s[1..]);
      WithinJoin(s[0], t, lo);
      InsertSorted(s[0], t, lo);
    }
  }

  /** A list that is already in order is left as it is. */
  lemma {:induction false} ListSortKeepsSorted(s: seq<Request>, lo: int)
    requires SortedBySector(s)
    requires Within(s, lo)
    ensures ListSort(s) == s
  {
    if s != [] {
      var u := s[1..];
      WithinHeadTail(s, lo);
      SortedTail(s);
      ListSortKeepsSorted(u, lo);
      assert ListSort(s) == Insert(s[0], u);
      if u != [] {
        WithinHeadTail(u, lo);
        RqCmpExact(s[0], u[0]);
      }
      assert Insert(s[0], u) == [s[0]] + u;
      assert [s[0]] + u == s;
    }
  }

  /** Index of the first entry whose start sector is at least `sector`. */
  function FirstAtOrAbove(t: seq<Request>, sector: nat): (k: nat)
    ensures k <= |t|
    ensures forall j :: 0 <= j < k ==> t[j].sector < sector
    ensures k < |t| ==> t[k].sector >= sector
  {
    if t == [] || t[0].sector >= sector then 0
    else 1 + FirstAtOrAbove(t[1..], sector)
  }

  /**
   * Into a sorted list, with `x` and every entry inside one window of
   * width 2^31, Insert puts `x` just before the first entry whose sector
   * is not below `x`'s: so a new request goes in front of the queued
   * requests with its own start sector. Outside such a window the
   * truncated comparison can put `x` elsewhere.
   */
  lemma {:induction false} InsertIntoSorted(x: Request, t: seq<Request>, lo: int)
    requires SortedBySector(t)
    requires Within([x] + t, lo)
    ensures var k := FirstAtOrAbove(t, x.sector);
      Insert(x, t) == t[..k] + [x] + t[k..]
  {
    if t != [] {
      WithinSplit(x, t, lo);
      WithinHeadTail(t, lo);
      RqCmpExact(x, t[0]);
      if x.sector > t[0].sector {
        WithinJoin(x, t[1..], lo);
        SortedTail(t);
        InsertIntoSorted(x, t[1..], lo);
        var k := FirstAtOrAbove(t[1..], x.sector);
        assert FirstAtOrAbove(t, x.sector) == k + 1;
        InsertStep(x, t, k);
      } else {
        assert FirstAtOrAbove(t, x.sector) == 0;
        assert Insert(x, t) == [x] + t;
        assert t[..0] + [x] + t[0..] == [x] + t;
      }
    } else {
      assert Insert(x, t) == [x];
    }
  }

  /** One step of InsertIntoSorted: `x` passes over the head of `t`. */
  lemma InsertStep(x: Request, t: seq<Request>, k: nat)
    requires t != [] && RqCmp(x, t[0]) > 0
    requires k < |t|
    requires Insert(x, t[1..]) == t[1..][..k] + [x] + t[1..][k..]
    ensures Insert(x, t) == t[..k + 1] + [x] + t[k + 1..]
  {
    var u := t[1..];
    var tail := Insert(x, u);
    assert Insert(x, t) == [t[0]] + tail;
    SliceCons(t, k);
    ConsAssoc(t[0], u[..k], x, u[k..]);
  }

  lemma ConsAssoc(h: Request, a: seq<Request>, x: Request, b: seq<Request>)
    ensures [h] + (a + [x] + b) == ([h] + a) + [x] + b
  {
  }

  /** Cutting a list after k + 1 entries is cutting its tail after k. */
  lemma SliceCons(t: seq<Request>, k: nat)
    requires k < |t|
    ensures t[..k + 1] == [t[0]] + t[1..][..k]
    ensures t[k + 1..] == t[1..][k..]
  {
  }

  // ---------------------------------------------------------------------
  // The scan in look_dispatch

  /** Index of the first entry whose start sector exceeds `cursor`. */
  function FirstAbove(s: seq<Request>, cursor: nat): (i: nat)
    ensures i <= |s|
    ensures forall k :: 0 <= k < i ==> s[k].sector <= cursor
    ensures i < |s| ==> s[i].sector > cursor
  {
    if s == [] || s[0].sector > cursor then 0
    else 1 + FirstAbove(s[1..], cursor)
  }

  /**
   * When the first entry does not exceed the cursor, look_dispatch sets the
   * cursor to the sector of the entry just before the first one beyond it
   * (the last entry when none is beyond). On a sorted queue that is the
   * highest queued sector not beyond the old cursor.
   */
  lemma CursorIsHighestNotBeyond(s: seq<Request>, cursor: nat)
    requires SortedBySector(s)
    requires FirstAbove(s, cursor) > 0
    ensures var c := s[FirstAbove(s, cursor) - 1].sector;
      c <= cursor &&
      forall k :: 0 <= k < |s| && s[k].sector <= cursor ==> s[k].sector <= c
  {
    var i := FirstAbove(s, cursor);
    forall k | 0 <= k < |s| && s[k].sector <= cursor ensures s[k].sector <= s[i - 1].sector {
      assert k < i;
    }
  }

  // ---------------------------------------------------------------------
  // Identity of entries

  /** No request record appears twice. */
  predicate DistinctIds(s: seq<Request>)
  {
    forall i, j :: 0 <= i < j < |s| ==> s[i].id != s[j].id
  }

  /** Some entry of `s` is the record `id`. */
  predicate HasId(s: seq<Request>, id: nat)
  {
    exists i :: 0 <= i < |s| && s[i].id == id
  }

  /** Position of the record `id`, or |s| when it is not listed. */
  function IndexOfId(s: seq<Request>, id: nat): (k: nat)
    ensures k <= |s|
    ensures forall j :: 0 <= j < k ==> s[j].id != id
    ensures k < |s| ==> s[k].id == id
    ensures k == |s| <==> !HasId(s, id)
  {
    if s == [] then 0
    else if s[0].id == id then 0
    else 1 + IndexOfId(s[1..], id)
  }

  /** Appending an entry whose record is not listed keeps records distinct. */
  lemma DistinctCons(x: Request, t: seq<Request>)
    requires DistinctIds(t)
    requires forall y :: y in t ==> y.id != x.id
    ensures DistinctIds([x] + t)
  {
    var r := [x] + t;
    forall i, j | 0 <= i < j < |r| ensures r[i].id != r[j].id {
      assert r[j] == t[j - 1];
      if i > 0 {
        assert r[i] == t[i - 1];
      }
    }
  }

  /** The tail of a list of distinct records holds none with the head's identity. */
  lemma DistinctTail(t: seq<Request>)
    requires t != []
    requires DistinctIds(t)
    ensures DistinctIds(t[1..])
    ensures forall y :: y in t[1..] ==> y.id != t[0].id
  {
    forall y | y in t[1..] ensures y.id != t[0].id {
      var k :| 0 <= k < |t[1..]| && t[1..][k] == y;
      assert t[k + 1] == y;
    }
  }

  lemma {:induction false} InsertDistinct(x: Request, t: seq<Request>)
    requires DistinctIds([x] + t)
    ensures DistinctIds(Insert(x, t))
  {
    DistinctTail([x] + t);
    assert ([x] + t)[1..] == t;
    if t != [] && RqCmp(x, t[0]) > 0 {
      DistinctTail(t);
      assert DistinctIds([x] + t[1..]) by {
        assert forall y :: y in t[1..] ==> y in t;
        DistinctCons(x, t[1..]);
      }
      InsertDistinct(x, t[1..]);
      var rest := Insert(x, t[1..]);
      SameElements(rest, [x] + t[1..]);
      assert x.id != t[0].id by { assert t[0] in t; }
      DistinctCons(t[0], rest);
    }
  }

  /** Sorting neither duplicates nor drops a record. */
  lemma {:induction false} ListSortDistinct(s: seq<Request>)
    requires DistinctIds(s)
    ensures DistinctIds(ListSort(s))
  {
    if s != [] {
      DistinctTail(s);
      ListSortDistinct(s[1..]);
      var t := ListSort(s[1..]);
      SameElements(t, s[1..]);
      DistinctCons(s[0], t);
      InsertDistinct(s[0], t);
    }
  }

  /**
   * list_del_init of the record `id`: unlinks it where it is; a record on
   * no list (self-linked) is left alone.
   */
  function RemoveId(s: seq<Request>, id: nat): (r: seq<Request>)
    ensures |r| == if HasId(s, id) then |s| - 1 else |s|
  {
    var k := IndexOfId(s, id);
    if k == |s| then s else s[..k] + s[k + 1..]
  }

  /**
   * On a list without repeated records, removing `id` drops exactly the
   * entry with that identity, keeps every other entry, and keeps their
   * relative order (the result is the list with one position cut out).
   */
  lemma RemoveIdExact(s: seq<Request>, id: nat)
    requires DistinctIds(s)
    ensures var r := RemoveId(s, id);
      !HasId(r, id) &&
      (forall x :: x in r <==> x in s && x.id != id) &&
      (HasId(s, id) ==> |r| == |s| - 1 && exists k :: 0 <= k < |s| && r == s[..k] + s[k + 1..]) &&
      (!HasId(s, id) ==> r == s) &&
      DistinctIds(r)
  {
    var k := IndexOfId(s, id);
    var r := RemoveId(s, id);
    if k < |s| {
      assert r == s[..k] + s[k + 1..];
      forall i | 0 <= i < |r| ensures r[i].id != id && (i < k ==> r[i] == s[i]) && (i >= k ==> r[i] == s[i + 1]) {
        if i < k { assert r[i] == s[i]; } else { assert r[i] == s[i + 1]; }
      }
      forall x ensures x in r <==> x in s && x.id != id {
        if x in s && x.id != id {
          var j :| 0 <= j < |s| && s[j] == x;
          assert j != k;
          if j < k { assert r[j] == x; } else { assert r[j - 1] == x; }
        }
      }
      forall i, j | 0 <= i < j < |r| ensures r[i].id != r[j].id {
        var i' := if i < k then i else i + 1;
        var j' := if j < k then j else j + 1;
        assert r[i] == s[i'] && r[j] == s[j'];
      }
    }
  }
}
