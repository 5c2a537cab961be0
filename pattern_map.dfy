/** The wildcard subscription table of a connection (`RvPatternMap`, include/sassrv/ev_rv.h):
    an outer table keyed by (prefix hash, prefix) whose entries own a list of compiled
    pattern nodes (`RvWildMatch`). The compiled regex and match data of a node belong to
    pcre2 and are not modelled; the doubly linked list is a sequence, head first. */
module PatternTable {
  import opened Base
  import opened SubTable

  /** `RvWildMatch` without its links and its pcre2 handles. */
  datatype WildMatch = WildMatch(pattern: string, len: uint16, msgCnt: uint32, refcnt: uint32)

  /** `RvPatternRoute` without its key. */
  datatype PatternRoute = PatternRoute(count: uint32, list: seq<WildMatch>)

  type PatTab = map<Key, PatternRoute>

  /** The `RvWildMatch` constructor: a node for `pat`, subscribed once, nothing matched yet.
      Its 16-bit length field is the pattern length truncated to 16 bits. */
  function NewWildMatch(pat: string): (m: WildMatch)
    ensures m.refcnt == 1 && m.msgCnt == 0
    ensures m.pattern == pat
    ensures |pat| < U16 ==> m.len == |pat|
  {
    WildMatch(pat, |pat| % U16, 0, 1)
  }

  function PatPutTab(tab: PatTab, k: Key): PatTab
  {
    if k in tab then tab else tab[k := PatternRoute(0, [])]
  }

  function PatPutReply(tab: PatTab, k: Key): (Status, bool)
  {
    (if k in tab then SubExists else SubOk, HashCount(tab, k.hash) > 0)
  }

  /** `put`: a new prefix gets an outer entry with count 0 and an empty node list; an existing
      one is reported and left exactly as it was. */
  lemma PatPutSemantics(tab: PatTab, k: Key)
    ensures k !in tab ==> PatPutTab(tab, k) == tab[k := PatternRoute(0, [])] && PatPutReply(tab, k).0 == SubOk
    ensures k !in tab ==> (PatPutReply(tab, k).1 <==> SharesHash(tab, k))
    ensures k in tab ==> PatPutTab(tab, k) == tab && PatPutReply(tab, k) == (SubExists, true)
    ensures k in PatPutTab(tab, k)
  {
    BucketCount(tab, k);
    if k in tab {
      assert k in Bucket(tab, k.hash);
    }
  }

  function PatFindReply(tab: PatTab, k: Key): (Status, bool)
  {
    if k in tab then (SubOk, HashCount(tab, k.hash) > 1)
    else (SubNotFound, HashCount(tab, k.hash) > 0)
  }

  /** `find` with a collision flag: the prefix entry itself is never counted. */
  lemma PatFindCollision(tab: PatTab, k: Key)
    ensures PatFindReply(tab, k).0 == (if k in tab then SubOk else SubNotFound)
    ensures PatFindReply(tab, k).1 <==> SharesHash(tab, k)
  {
    BucketCount(tab, k);
  }

  /** Some node of some outer entry on hash chain `h` is not marked with the sentinel. */
  predicate PatChainHasLive(tab: PatTab, h: uint32)
  {
    exists k2, j :: k2 in tab && k2.hash == h && 0 <= j < |tab[k2].list| && tab[k2].list[j].refcnt != AllOnes
  }

  /** The table with node `i` of entry `k` marked with the all-ones sentinel. */
  function MarkNode(tab: PatTab, k: Key, i: nat): PatTab
    requires k in tab && i < |tab[k].list|
  {
    var rt := tab[k];
    tab[k := rt.(list := rt.list[i := rt.list[i].(refcnt := AllOnes)])]
  }

  /** Marking node `i` of `k` and scanning the chain answers whether any OTHER node, in any
      outer entry sharing `k`'s hash, is still live. */
  lemma PatRemCollisionMeaning(tab: PatTab, k: Key, i: nat)
    requires k in tab && i < |tab[k].list|
    ensures PatChainHasLive(MarkNode(tab, k, i), k.hash) <==>
      exists k2, j :: k2 in tab && k2.hash == k.hash && 0 <= j < |tab[k2].list| && (k2, j) != (k, i) &&
        tab[k2].list[j].refcnt != AllOnes
  {
    var m := MarkNode(tab, k, i);
    if PatChainHasLive(m, k.hash) {
      var k2, j :| k2 in m && k2.hash == k.hash && 0 <= j < |m[k2].list| && m[k2].list[j].refcnt != AllOnes;
      assert (k2, j) != (k, i);
      assert tab[k2].list[j] == m[k2].list[j];
    }
    if exists k2, j :: k2 in tab && k2.hash == k.hash && 0 <= j < |tab[k2].list| && (k2, j) != (k, i) &&
        tab[k2].list[j].refcnt != AllOnes {
      var k2, j :| k2 in tab && k2.hash == k.hash && 0 <= j < |tab[k2].list| && (k2, j) != (k, i) &&
        tab[k2].list[j].refcnt != AllOnes;
      assert m[k2].list[j] == tab[k2].list[j];
    }
  }

  /** `RvPatternMap`. */
  class PatternMap {
    var tab: PatTab
    var subCount: nat

    constructor ()
      ensures tab == map[] && subCount == 0
    {
      tab := map[];
      subCount := 0;
    }

    /** `put(h, sub)`: upserts the outer entry and returns it. */
    method Put(h: uint32, sub: string) returns (status: Status, rt: PatternRoute, collision: bool)
      modifies this
      ensures tab == PatPutTab(old(tab), Key(h, sub)) && subCount == old(subCount)
      ensures (status, collision) == PatPutReply(old(tab), Key(h, sub))
      ensures rt == tab[Key(h, sub)]
    {
      var k := Key(h, sub);
      collision := HashCount(tab, h) > 0;
      if k !in tab {
        tab := tab[k := PatternRoute(0, [])];
        status := SubOk;
      } else {
        status := SubExists;
      }
      rt := tab[k];
    }

    /** `find(h, sub, rt)`: lookup without the collision flag. */
    method FindRoute(h: uint32, sub: string) returns (status: Status, rt: Option<PatternRoute>)
      ensures status == SubOk <==> Key(h, sub) in tab
      ensures status in {SubOk, SubNotFound}
      ensures rt == if Key(h, sub) in tab then Some(tab[Key(h, sub)]) else None
    {
      var k := Key(h, sub);
      if k in tab {
        status, rt := SubOk, Some(tab[k]);
      } else {
        status, rt := SubNotFound, None;
      }
    }

    /** `find(h, sub, rt, collision)`. */
    method Find(h: uint32, sub: string) returns (status: Status, rt: Option<PatternRoute>, collision: bool)
      ensures status == SubOk <==> Key(h, sub) in tab
      ensures status in {SubOk, SubNotFound}
      ensures rt == if Key(h, sub) in tab then Some(tab[Key(h, sub)]) else None
      ensures collision <==> SharesHash(tab, Key(h, sub))
    {
      var k := Key(h, sub);
      var hcnt := HashCount(tab, h);
      BucketCount(tab, k);
      if k in tab {
        status, rt, collision := SubOk, Some(tab[k]), hcnt > 1;
      } else {
        status, rt, collision := SubNotFound, None, hcnt > 0;
      }
    }

    /** `rem_collision(rt, m)`: marks node `i` of entry `k` with the sentinel, then walks
        every entry of `k`'s hash chain, each node list from its tail back to its head. */
    method RemCollision(k: Key, i: nat) returns (live: bool)
      requires k in tab && i < |tab[k].list|
      modifies this
      ensures tab == MarkNode(old(tab), k, i) && subCount == old(subCount)
      ensures live == PatChainHasLive(tab, k.hash)
    {
      tab := MarkNode(tab, k, i);
      var chain := Bucket(tab, k.hash);
      while chain != {}
        invariant chain <= Bucket(tab, k.hash)
        invariant forall k2, j :: k2 in tab && k2.hash == k.hash && k2 !in chain && 0 <= j < |tab[k2].list| ==>
          tab[k2].list[j].refcnt == AllOnes
        decreases chain
      {
        var k2 :| k2 in chain;
        var list := tab[k2].list;
        var j := |list|;
        while j > 0
          invariant 0 <= j <= |list|
          invariant forall j2 :: j <= j2 < |list| ==> list[j2].refcnt == AllOnes
        {
          j := j - 1;
          if list[j].refcnt != AllOnes {
            return true;
          }
        }
        chain := chain - {k2};
      }
      live := false;
    }
  }
}
