/** The exact-subject subscription table of a connection (`RvSubMap`, include/sassrv/ev_rv.h).
    The hash table underneath (`RouteVec`) is modelled as a map keyed by (hash, subject);
    `hcnt` of `upsert2`/`find2` is the number of entries carrying the same hash when the
    lookup is made. */
module SubTable {
  import opened Base

  /** `RvSubStatus`. */
  datatype Status = SubOk | SubExists | SubNotFound

  datatype Key = Key(hash: uint32, sub: string)

  /** `RvSubRoute` without its key: the match counter and the subscribe count. */
  datatype SubRoute = SubRoute(msgCnt: uint32, refcnt: uint32)

  type Tab = map<Key, SubRoute>

  /** What `put` and `rem` hand back through their reference parameters. */
  datatype Reply = Reply(status: Status, cnt: uint32, collision: bool)

  /** The keys of `tab` that carry hash `h`: one hash chain. */
  function Bucket<V>(tab: map<Key, V>, h: uint32): set<Key>
  {
    set k | k in tab && k.hash == h
  }

  /** `hcnt`: how many entries share hash `h`. */
  function HashCount<V>(tab: map<Key, V>, h: uint32): nat
  {
    |Bucket(tab, h)|
  }

  /** Some entry other than `k` carries `k`'s hash. */
  predicate SharesHash<V>(tab: map<Key, V>, k: Key)
  {
    exists k2 :: k2 in tab && k2 != k && k2.hash == k.hash
  }

  /** The table invariant: every live entry has been subscribed at least once. */
  predicate Valid(tab: Tab)
  {
    forall k :: k in tab ==> tab[k].refcnt >= 1
  }

  lemma BucketCount<V>(tab: map<Key, V>, k: Key)
    ensures k !in tab ==> (HashCount(tab, k.hash) > 0 <==> SharesHash(tab, k))
    ensures k in tab ==> (HashCount(tab, k.hash) > 1 <==> SharesHash(tab, k))
  {
    var b := Bucket(tab, k.hash);
    if k in tab {
      assert k in b;
      if SharesHash(tab, k) {
        var k2 :| k2 in tab && k2 != k && k2.hash == k.hash;
        assert {k, k2} <= b;
        assert |{k, k2}| == 2;
        SubsetCard({k, k2}, b);
      } else {
        assert b == {k};
      }
    } else {
      if SharesHash(tab, k) {
        var k2 :| k2 in tab && k2 != k && k2.hash == k.hash;
        assert k2 in b;
      } else {
        assert b == {};
      }
    }
  }

  lemma SubsetCard(a: set<Key>, b: set<Key>)
    requires a <= b
    ensures |a| <= |b|
  {
    assert b == a + (b - a);
  }

  // ---------------------------------------------------------------- put

  function PutTab(tab: Tab, k: Key): Tab
  {
    if k in tab then tab[k := tab[k].(refcnt := Inc32(tab[k].refcnt))]
    else tab[k := SubRoute(0, 1)]
  }

  function PutReply(tab: Tab, k: Key): Reply
  {
    var collision := HashCount(tab, k.hash) > 0;
    if k in tab then Reply(SubExists, Inc32(tab[k].refcnt), collision)
    else Reply(SubOk, 1, collision)
  }

  /** A first subscribe creates the entry with refcnt 1 and no matches and reports
      `RV_SUB_OK` with count 1; the collision flag says whether another entry has the hash. */
  lemma PutNew(tab: Tab, k: Key)
    requires k !in tab
    ensures PutTab(tab, k) == tab[k := SubRoute(0, 1)]
    ensures PutReply(tab, k).status == SubOk && PutReply(tab, k).cnt == 1
    ensures PutReply(tab, k).collision <==> SharesHash(tab, k)
  {
    BucketCount(tab, k);
  }

  /** A repeated subscribe bumps only the refcnt of that entry and reports it. Because the
      entry itself carries the hash, a repeated subscribe always reports a collision. */
  lemma PutExisting(tab: Tab, k: Key)
    requires k in tab && tab[k].refcnt < AllOnes
    ensures PutReply(tab, k) == Reply(SubExists, tab[k].refcnt + 1, true)
    ensures k in PutTab(tab, k) && PutTab(tab, k)[k] == SubRoute(tab[k].msgCnt, tab[k].refcnt + 1)
    ensures forall k2 :: k2 in tab && k2 != k ==> k2 in PutTab(tab, k) && PutTab(tab, k)[k2] == tab[k2]
    ensures PutTab(tab, k).Keys == tab.Keys
  {
    assert k in Bucket(tab, k.hash);
  }

  /** `n` subscribes to the same subject. */
  function PutTimes(tab: Tab, k: Key, n: nat): Tab
  {
    if n == 0 then tab else PutTab(PutTimes(tab, k, n - 1), k)
  }

  /** Starting from an absent subject, the i-th subscribe reports count i and
      the entry then holds refcnt i. */
  lemma {:induction false} PutTimesCounts(tab: Tab, k: Key, n: nat)
    requires k !in tab && 0 < n < AllOnes
    ensures k in PutTimes(tab, k, n) && PutTimes(tab, k, n)[k] == SubRoute(0, n)
    ensures PutReply(PutTimes(tab, k, n - 1), k).cnt == n
    ensures PutReply(PutTimes(tab, k, n - 1), k).status == (if n == 1 then SubOk else SubExists)
  {
    if n > 1 {
      PutTimesCounts(tab, k, n - 1);
    }
  }

  lemma PutKeepsValid(tab: Tab, k: Key)
    requires Valid(tab)
    requires k in tab ==> tab[k].refcnt < AllOnes
    ensures Valid(PutTab(tab, k))
  {
  }

  // ---------------------------------------------------------------- updcnt

  function UpdcntTab(tab: Tab, k: Key): Tab
  {
    if k in tab then tab[k := tab[k].(msgCnt := Inc32(tab[k].msgCnt))] else tab
  }

  function UpdcntStatus(tab: Tab, k: Key): Status
  {
    if k in tab then SubOk else SubNotFound
  }

  /** `updcnt` touches only the match counter of the matching entry (wrapping at 2^32). */
  lemma UpdcntOnlyCounts(tab: Tab, k: Key)
    ensures UpdcntTab(tab, k).Keys == tab.Keys
    ensures forall k2 :: k2 in tab ==> UpdcntTab(tab, k)[k2].refcnt == tab[k2].refcnt
    ensures forall k2 :: k2 in tab && k2 != k ==> UpdcntTab(tab, k)[k2] == tab[k2]
    ensures k in tab ==> UpdcntTab(tab, k)[k].msgCnt == (tab[k].msgCnt + 1) % U32
    ensures UpdcntStatus(tab, k) == SubNotFound <==> UpdcntTab(tab, k) == tab && k !in tab
  {
    if k in tab {
      assert UpdcntTab(tab, k)[k] != tab[k];
    }
  }

  // ---------------------------------------------------------------- find

  /** `find`: the status and whether some other entry has the same hash. */
  function FindReply(tab: Tab, k: Key): (Status, bool)
  {
    if k in tab then (SubOk, HashCount(tab, k.hash) > 1)
    else (SubNotFound, HashCount(tab, k.hash) > 0)
  }

  /** Present or absent, the collision flag of `find` never counts the key itself. */
  lemma FindCollision(tab: Tab, k: Key)
    ensures FindReply(tab, k).0 == (if k in tab then SubOk else SubNotFound)
    ensures FindReply(tab, k).1 <==> SharesHash(tab, k)
  {
    BucketCount(tab, k);
  }

  // ---------------------------------------------------------------- rem

  function RemTab(tab: Tab, k: Key): Tab
  {
    if k !in tab then tab
    else if Dec32(tab[k].refcnt) == 0 then tab - {k}
    else tab[k := tab[k].(refcnt := Dec32(tab[k].refcnt))]
  }

  /** For an absent key `cnt` and `collision` are left unassigned by the source; here they are 0 and false. */
  function RemReply(tab: Tab, k: Key): Reply
  {
    if k !in tab then Reply(SubNotFound, 0, false)
    else Reply(SubOk, Dec32(tab[k].refcnt), HashCount(tab, k.hash) > 1)
  }

  /** Unsubscribing: an absent subject is reported and changes nothing; otherwise the
      refcnt drops by one, is reported, and the entry leaves the table exactly when it reaches 0. */
  lemma RemSemantics(tab: Tab, k: Key)
    requires Valid(tab)
    ensures k !in tab ==> RemTab(tab, k) == tab && RemReply(tab, k).status == SubNotFound
    ensures k in tab ==> RemReply(tab, k).status == SubOk && RemReply(tab, k).cnt == tab[k].refcnt - 1
    ensures k in tab ==> (RemReply(tab, k).collision <==> SharesHash(tab, k))
    ensures k in tab ==> (k !in RemTab(tab, k) <==> tab[k].refcnt == 1)
    ensures k in RemTab(tab, k) ==> RemTab(tab, k)[k].refcnt == tab[k].refcnt - 1
    ensures forall k2 :: k2 != k ==> (k2 in RemTab(tab, k) <==> k2 in tab)
    ensures forall k2 :: k2 in tab && k2 != k ==> RemTab(tab, k)[k2] == tab[k2]
    ensures Valid(RemTab(tab, k))
  {
    BucketCount(tab, k);
  }

  /** `put` followed by `rem` restores the table, and with it `sub_count()`. */
  lemma PutThenRem(tab: Tab, k: Key)
    requires Valid(tab)
    requires k in tab ==> tab[k].refcnt < AllOnes
    ensures RemTab(PutTab(tab, k), k) == tab
    ensures |RemTab(PutTab(tab, k), k)| == |tab|
    ensures RemReply(PutTab(tab, k), k).cnt == (if k in tab then tab[k].refcnt else 0)
  {
    if k !in tab {
      assert RemTab(PutTab(tab, k), k) == tab[k := SubRoute(0, 1)] - {k};
      assert tab[k := SubRoute(0, 1)] - {k} == tab;
    } else {
      assert tab[k := tab[k].(refcnt := tab[k].refcnt)] == tab;
    }
  }

  /** After `n` subscribes, the `i`-th of `n` unsubscribes reports `n - i` and the subject is
      gone after the last one. */
  function RemTimes(tab: Tab, k: Key, n: nat): Tab
  {
    if n == 0 then tab else RemTab(RemTimes(tab, k, n - 1), k)
  }

  lemma {:induction false} PutRemTimes(tab: Tab, k: Key, n: nat, i: nat)
    requires Valid(tab) && k !in tab && 0 < n < AllOnes && i <= n
    ensures i < n ==> k in RemTimes(PutTimes(tab, k, n), k, i)
    ensures i < n ==> RemTimes(PutTimes(tab, k, n), k, i)[k] == SubRoute(0, n - i)
    ensures i < n ==> RemReply(RemTimes(PutTimes(tab, k, n), k, i), k) == Reply(SubOk, n - i - 1, HashCount(RemTimes(PutTimes(tab, k, n), k, i), k.hash) > 1)
    ensures RemTimes(PutTimes(tab, k, n), k, n) == tab
  {
    RemTimesRest(tab, k, n, i);
    RemTimesRest(tab, k, n, n);
    var last := RemTimes(PutTimes(tab, k, n), k, n);
    assert last == last - {k};
  }

  lemma {:induction false} PutTimesRest(tab: Tab, k: Key, n: nat)
    ensures PutTimes(tab, k, n) - {k} == tab - {k}
  {
    if n > 0 {
      PutTimesRest(tab, k, n - 1);
    }
  }

  lemma {:induction false} RemTimesRest(tab: Tab, k: Key, n: nat, i: nat)
    requires k !in tab && 0 < n < AllOnes && i <= n
    ensures i < n ==> k in RemTimes(PutTimes(tab, k, n), k, i) && RemTimes(PutTimes(tab, k, n), k, i)[k] == SubRoute(0, n - i)
    ensures i == n ==> k !in RemTimes(PutTimes(tab, k, n), k, i)
    ensures RemTimes(PutTimes(tab, k, n), k, i) - {k} == tab
  {
    PutTimesCounts(tab, k, n);
    PutTimesRest(tab, k, n);
    if i > 0 {
      RemTimesRest(tab, k, n, i - 1);
    } else {
      assert tab - {k} == tab;
    }
  }

  // ---------------------------------------------------------------- rem_collision

  /** The answer of `rem_collision(rt)`, given the table after `rt` was marked with the sentinel:
      some entry of the hash chain is not marked. */
  predicate ChainHasLive(tab: Tab, h: uint32)
  {
    exists k2 :: k2 in tab && k2.hash == h && tab[k2].refcnt != AllOnes
  }

  function MarkRemoved(tab: Tab, k: Key): Tab
    requires k in tab
  {
    tab[k := tab[k].(refcnt := AllOnes)]
  }

  /** Marking `k` with the sentinel and scanning its chain answers whether any OTHER entry
      sharing the hash is still live. */
  lemma RemCollisionMeaning(tab: Tab, k: Key)
    requires k in tab
    ensures ChainHasLive(MarkRemoved(tab, k), k.hash) <==>
      exists k2 :: k2 in tab && k2 != k && k2.hash == k.hash && tab[k2].refcnt != AllOnes
  {
    var m := MarkRemoved(tab, k);
    if ChainHasLive(m, k.hash) {
      var k2 :| k2 in m && k2.hash == k.hash && m[k2].refcnt != AllOnes;
      assert k2 != k;
    }
    if exists k2 :: k2 in tab && k2 != k && k2.hash == k.hash && tab[k2].refcnt != AllOnes {
      var k2 :| k2 in tab && k2 != k && k2.hash == k.hash && tab[k2].refcnt != AllOnes;
      assert m[k2] == tab[k2];
    }
  }

  /** `RvSubMap`: the subscriptions one connection holds. */
  class SubMap {
    var tab: Tab

    constructor ()
      ensures tab == map[]
    {
      tab := map[];
    }

    /** `sub_count`: the number of distinct subscribed subjects. */
    function SubCount(): (n: nat)
      reads this
      ensures n == |tab.Keys|
    {
      |tab|
    }

    /** `release`: the table is emptied. */
    method Release()
      modifies this
      ensures tab == map[]
    {
      tab := map[];
    }

    /** `put(h, sub)`. */
    method Put(h: uint32, sub: string) returns (status: Status, cnt: uint32, collision: bool)
      modifies this
      ensures tab == PutTab(old(tab), Key(h, sub))
      ensures Reply(status, cnt, collision) == PutReply(old(tab), Key(h, sub))
      ensures SubCount() == old(SubCount()) + (if Key(h, sub) in old(tab) then 0 else 1)
    {
      var k := Key(h, sub);
      collision := HashCount(tab, h) > 0;
      if k !in tab {
        tab := tab[k := SubRoute(0, 1)];
        status, cnt := SubOk, 1;
      } else {
        var rt := tab[k];
        cnt := Inc32(rt.refcnt);
        tab := tab[k := rt.(refcnt := cnt)];
        status := SubExists;
      }
    }

    /** `updcnt(h, sub)`. */
    method Updcnt(h: uint32, sub: string) returns (status: Status)
      modifies this
      ensures tab == UpdcntTab(old(tab), Key(h, sub))
      ensures status == UpdcntStatus(old(tab), Key(h, sub))
    {
      var k := Key(h, sub);
      if k !in tab {
        return SubNotFound;
      }
      tab := tab[k := tab[k].(msgCnt := Inc32(tab[k].msgCnt))];
      status := SubOk;
    }

    /** `find(h, sub)`: read-only lookup with the collision flag. */
    method Find(h: uint32, sub: string) returns (status: Status, collision: bool)
      ensures status == SubOk <==> Key(h, sub) in tab
      ensures status in {SubOk, SubNotFound}
      ensures collision <==> SharesHash(tab, Key(h, sub))
    {
      var k := Key(h, sub);
      var hcnt := HashCount(tab, h);
      BucketCount(tab, k);
      if k !in tab {
        status, collision := SubNotFound, hcnt > 0;
      } else {
        status, collision := SubOk, hcnt > 1;
      }
    }

    /** `rem(h, sub)`. */
    method Rem(h: uint32, sub: string) returns (status: Status, cnt: uint32, collision: bool)
      modifies this
      ensures tab == RemTab(old(tab), Key(h, sub))
      ensures Reply(status, cnt, collision) == RemReply(old(tab), Key(h, sub))
      ensures SubCount() == old(SubCount()) - (if Key(h, sub) in old(tab) && Key(h, sub) !in tab then 1 else 0)
    {
      var k := Key(h, sub);
      if k !in tab {
        return SubNotFound, 0, false;
      }
      collision := HashCount(tab, h) > 1;
      cnt := Dec32(tab[k].refcnt);
      if cnt == 0 {
        tab := tab - {k};
      } else {
        tab := tab[k := tab[k].(refcnt := cnt)];
      }
      status := SubOk;
    }

    /** `rem_collision(rt)`: marks `rt` with the all-ones sentinel, then walks the hash chain
        of `rt` and answers whether some entry in it is not marked. */
    method RemCollision(k: Key) returns (live: bool)
      requires k in tab
      modifies this
      ensures tab == MarkRemoved(old(tab), k)
      ensures live == ChainHasLive(tab, k.hash)
    {
      tab := MarkRemoved(tab, k);
      var chain := Bucket(tab, k.hash);
      while chain != {}
        invariant chain <= Bucket(tab, k.hash)
        invariant forall k2 :: k2 in tab && k2.hash == k.hash && k2 !in chain ==> tab[k2].refcnt == AllOnes
        decreases chain
      {
        var k2 :| k2 in chain;
        if tab[k2].refcnt != AllOnes {
          return true;
        }
        chain := chain - {k2};
      }
      live := false;
    }
  }
}
