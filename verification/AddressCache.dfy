/** The cache of paired devices and the addresses at which they may be reached
(src-tauri/src/network/cache.rs): one address, the order in which addresses are tried, pruning. */
module AddressCache {
  // `now` is the clock an operation reads. Counters do not overflow.

  import opened Sequences
  import opened StableSort

  const MAX_FAILURES: nat := 10
  const MAX_ADDRESSES: nat := 5

  datatype KnownAddress = KnownAddress(ip: string, port: nat, lastUsed: nat, successCount: nat, failCount: nat)
  {
    function Key(): (string, nat) { (ip, port) }

    function SuccessRate(): real {
      var total := successCount + failCount;
      if total == 0 then 0.0 else successCount as real / total as real
    }

    function RecordSuccess(now: nat): KnownAddress {
      this.(successCount := successCount + 1, failCount := 0, lastUsed := now)
    }

    function RecordFailure(): KnownAddress {
      this.(failCount := failCount + 1)
    }

    predicate ShouldPrune() { failCount > MAX_FAILURES }
  }

  function NewAddress(key: (string, nat), now: nat): KnownAddress {
    KnownAddress(key.0, key.1, now, 0, 0)
  }

  // ---------------------------------------------------------------- priority

  datatype Ordering = Less | Equal | Greater

  function CompareNat(a: nat, b: nat): Ordering {
    if a < b then Less else if a == b then Equal else Greater
  }

  function CompareReal(a: real, b: real): Ordering {
    if a < b then Less else if a == b then Equal else Greater
  }

  /** The comparator of prioritized_addresses, tier by tier. */
  function Compare(a: KnownAddress, b: KnownAddress): Ordering {
    if a.successCount > 0 && b.successCount > 0 then CompareNat(b.lastUsed, a.lastUsed)
    else if a.successCount > 0 then Less
    else if b.successCount > 0 then Greater
    else
      var byRate := CompareReal(b.SuccessRate(), a.SuccessRate());
      if byRate != Equal then byRate else CompareNat(b.lastUsed, a.lastUsed)
  }

  predicate Before(a: KnownAddress, b: KnownAddress) {
    Compare(a, b) == Less
  }

  /** The success-rate tier never decides: two addresses reach it only with no success, and
      then both rates are zero. What is left is "ever succeeded first, then most recent". */
  lemma CompareIsPriority(a: KnownAddress, b: KnownAddress)
    ensures Compare(a, b) ==
              if (a.successCount > 0) != (b.successCount > 0) then (if a.successCount > 0 then Less else Greater)
              else CompareNat(b.lastUsed, a.lastUsed)
  {
    if a.successCount == 0 && b.successCount == 0 {
      assert a.SuccessRate() == 0.0 == b.SuccessRate();
    }
  }

  /** It is a total preorder: every pair is ordered one way, both ways agree, and ties and
      precedence are transitive. */
  lemma CompareTotalPreorder()
    ensures WeakOrder(Before)
    ensures forall a, b :: Compare(a, b) == Less <==> Compare(b, a) == Greater
    ensures forall a, b :: Compare(a, b) == Equal <==> !Before(a, b) && !Before(b, a)
  {
    forall a, b
      ensures Compare(a, b) == Less <==> Compare(b, a) == Greater
      ensures Compare(a, b) == Equal <==> !Before(a, b) && !Before(b, a)
    {
      CompareIsPriority(a, b);
      CompareIsPriority(b, a);
    }
    forall a, b, c | Before(a, c) ensures Before(a, b) || Before(b, c) {
      CompareIsPriority(a, b);
      CompareIsPriority(b, c);
      CompareIsPriority(a, c);
    }
  }

  function Prioritized(addresses: seq<KnownAddress>): seq<KnownAddress> {
    Sort(addresses, Before)
  }

  /** The list that is tried is a permutation in which no address that ever worked comes after
      one that never did, and among equals the recent come first. */
  lemma PrioritizedOrder(addresses: seq<KnownAddress>)
    ensures multiset(Prioritized(addresses)) == multiset(addresses)
    ensures var p := Prioritized(addresses);
            forall i, j :: 0 <= i < j < |p| ==>
              && (p[j].successCount > 0 ==> p[i].successCount > 0)
              && ((p[i].successCount > 0 <==> p[j].successCount > 0) ==> p[j].lastUsed <= p[i].lastUsed)
  {
    CompareTotalPreorder();
    SortSorted(addresses, Before);
    var p := Prioritized(addresses);
    forall i, j | 0 <= i < j < |p|
      ensures p[j].successCount > 0 ==> p[i].successCount > 0
      ensures (p[i].successCount > 0 <==> p[j].successCount > 0) ==> p[j].lastUsed <= p[i].lastUsed
    {
      assert !Before(p[j], p[i]);
      CompareIsPriority(p[j], p[i]);
    }
  }

  // ---------------------------------------------------------------- pruning

  predicate MoreRecent(a: KnownAddress, b: KnownAddress) {
    a.lastUsed > b.lastUsed
  }

  predicate Keeps(a: KnownAddress) {
    !a.ShouldPrune()
  }

  function Prune(addresses: seq<KnownAddress>): seq<KnownAddress> {
    var survivors := Select(addresses, Keeps);
    if |survivors| > MAX_ADDRESSES then Sort(survivors, MoreRecent)[..MAX_ADDRESSES] else survivors
  }

  lemma MoreRecentIsWeakOrder()
    ensures WeakOrder(MoreRecent)
    ensures forall t, a, b :: UsedAt(t)(a) && UsedAt(t)(b) ==> !MoreRecent(a, b)
  {
  }

  /** Pruning keeps exactly the five most recently used of those that have not failed too
      often, or all of them if there are no more. */
  lemma PruneExact(addresses: seq<KnownAddress>)
    ensures var survivors, kept := Select(addresses, Keeps), Prune(addresses);
            && (forall a :: a in survivors <==> a in addresses && a.failCount <= 10)
            && |kept| == (if |survivors| <= 5 then |survivors| else 5)
            && Foremost(kept, survivors, MoreRecent)
  {
    var survivors := Select(addresses, Keeps);
    SelectMembers(addresses, Keeps);
    if |survivors| > MAX_ADDRESSES {
      MoreRecentIsWeakOrder();
      TopOfSort(survivors, MoreRecent, MAX_ADDRESSES);
    }
  }

  /** Among addresses used at the same moment it keeps the earlier entries. */
  lemma PruneStableOnTies(addresses: seq<KnownAddress>, t: nat)
    ensures TiedAt(Prune(addresses), t) <= TiedAt(Select(addresses, Keeps), t)
  {
    var survivors := Select(addresses, Keeps);
    if |survivors| > MAX_ADDRESSES {
      MoreRecentIsWeakOrder();
      TopOfSortStable(survivors, MoreRecent, MAX_ADDRESSES, UsedAt(t));
    }
  }

  function UsedAt(t: nat): KnownAddress -> bool {
    (a: KnownAddress) => a.lastUsed == t
  }

  function TiedAt(addresses: seq<KnownAddress>, t: nat): seq<KnownAddress> {
    Select(addresses, UsedAt(t))
  }

  /** Pruning again changes nothing. */
  lemma PruneIdempotent(addresses: seq<KnownAddress>)
    ensures Prune(Prune(addresses)) == Prune(addresses)
  {
    var kept := Prune(addresses);
    PruneExact(addresses);
    SelectMembers(addresses, Keeps);
    assert forall x :: x in kept ==> x in multiset(kept);
    assert forall x :: x in kept ==> x in multiset(Select(addresses, Keeps));
    SelectAll(kept, Keeps);
  }

  /** At least as recent as x. */
  function AsRecentAs(x: KnownAddress): KnownAddress -> bool {
    (y: KnownAddress) => y.lastUsed >= x.lastUsed
  }

  /** An address added to any list survives the pruning that follows if and only if it has not
      failed too often itself and fewer than five survivors are at least as recent. */
  lemma JustAddedSurvivesExactly(addresses: seq<KnownAddress>, x: KnownAddress)
    requires x !in addresses
    ensures x in Prune(addresses + [x])
            <==> Keeps(x) && |Select(Select(addresses, Keeps), AsRecentAs(x))| < MAX_ADDRESSES
  {
    hide Select, Sort;
    var survivors := Select(addresses, Keeps);
    SelectAppend(addresses, [x], Keeps);
    SelectOne(x, Keeps);
    SelectMembers(addresses, Keeps);
    SelectLength(survivors, AsRecentAs(x));
    if Keeps(x) {
      MoreRecentIsWeakOrder();
      SelectSame(survivors, NotBehind(x, MoreRecent), AsRecentAs(x));
      if |survivors| >= MAX_ADDRESSES { AddedAmongFirstExactly(survivors, x, MoreRecent, MAX_ADDRESSES); }
    } else {
      assert survivors + [] == survivors;
      PruneExact(addresses + [x]);
      PrunedAreSurvivors(addresses + [x], x);
    }
  }

  lemma PrunedAreSurvivors(addresses: seq<KnownAddress>, x: KnownAddress)
    ensures x in Prune(addresses) ==> x in Select(addresses, Keeps)
  {
    PruneExact(addresses);
    assert x in Prune(addresses) ==> x in multiset(Prune(addresses));
  }

  /** In a list of at most five: if there is room, or some survivor was used strictly earlier. */
  lemma JustAddedAmongFive(addresses: seq<KnownAddress>, x: KnownAddress)
    requires |addresses| <= MAX_ADDRESSES && x.failCount == 0 && x !in addresses
    ensures var survivors := Select(addresses, Keeps);
            x in Prune(addresses + [x])
            <==> |survivors| < MAX_ADDRESSES || exists y :: y in survivors && y.lastUsed < x.lastUsed
  {
    hide Select;
    var survivors := Select(addresses, Keeps);
    JustAddedSurvivesExactly(addresses, x);
    SelectLength(addresses, Keeps);
    SelectLength(survivors, AsRecentAs(x));
    assert (forall y :: y in survivors ==> AsRecentAs(x)(y))
           <==> !exists y :: y in survivors && y.lastUsed < x.lastUsed;
  }

  /** An address anywhere in a list is kept if it has not failed too often and no more than five
      survivors, itself among them, are at least as recent. */
  lemma RecentIsKept(addresses: seq<KnownAddress>, x: KnownAddress)
    requires x in addresses && Keeps(x)
    requires |Select(Select(addresses, Keeps), AsRecentAs(x))| <= MAX_ADDRESSES
    ensures x in Prune(addresses)
  {
    hide Select, Sort;
    var survivors := Select(addresses, Keeps);
    SelectMembers(addresses, Keeps);
    if |survivors| > MAX_ADDRESSES {
      var sorted := Sort(survivors, MoreRecent);
      MoreRecentIsWeakOrder();
      SortSorted(survivors, MoreRecent);
      SortMembers(survivors, MoreRecent, x);
      var i :| 0 <= i < |sorted| && sorted[i] == x;
      forall y | y in sorted[..i + 1] ensures AsRecentAs(x)(y) {
        var j :| 0 <= j <= i && sorted[j] == y;
        assert j < i ==> !MoreRecent(sorted[i], sorted[j]);
      }
      SelectLength(sorted[..i + 1], AsRecentAs(x));
      SelectPrefix(sorted, i + 1, AsRecentAs(x));
      SelectPermuted(sorted, survivors, AsRecentAs(x));
      assert x == sorted[..MAX_ADDRESSES][i];
    }
  }
}
