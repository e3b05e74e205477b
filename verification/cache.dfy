/** The bounded response cache: a fixed array of slots of which the first
    `count` are in use, with lookup by path, insertion that replaces the
    least recently used slot when full, and a sweep that removes expired
    entries. Each operation is one step under the cache lock; the clock is
    the parameter `now`. */
module ResponseCache {
  import opened Common
  import opened CacheDefs

  /** The path keys of a run of slots, in slot order. */
  function Paths(s: seq<Entry>): seq<seq<char>>
  {
    seq(|s|, i requires 0 <= i < |s| => s[i].path)
  }

  /** An entry strictly older than the time-to-live. */
  predicate Expired(e: Entry, now: int)
  {
    now - e.lastAccessed > CacheTtl
  }

  /** The slot an insert into a full cache replaces: the first slot holding
      the smallest `lastAccessed`, found by the scan that keeps the earlier
      index on a tie. */
  function OldestIndex(s: seq<Entry>): (k: nat)
    requires |s| > 0
    ensures k < |s|
    ensures forall j :: 0 <= j < |s| ==> s[k].lastAccessed <= s[j].lastAccessed
    ensures forall j :: 0 <= j < k ==> s[j].lastAccessed > s[k].lastAccessed
  {
    if |s| == 1 then 0
    else
      var k := OldestIndex(s[..|s| - 1]);
      if s[|s| - 1].lastAccessed < s[k].lastAccessed then |s| - 1 else k
  }

  /** The slots after inserting `e` into the slots `s`: appended while there
      is room, otherwise written over the oldest slot. */
  function Inserted(s: seq<Entry>, e: Entry): (r: seq<Entry>)
    requires |s| <= MaxCacheSize
    ensures |s| < MaxCacheSize ==> |r| == |s| + 1 && r[|s|] == e
    ensures |s| == MaxCacheSize ==> |r| == MaxCacheSize && r[OldestIndex(s)] == e
    ensures forall j :: 0 <= j < |s| && (|s| < MaxCacheSize || j != OldestIndex(s)) ==> r[j] == s[j]
  {
    if |s| < MaxCacheSize then s + [e] else s[OldestIndex(s) := e]
  }

  /** The entries of `s` that a sweep at `now` keeps, in their order. */
  function Live(s: seq<Entry>, now: int): seq<Entry>
  {
    if s == [] then []
    else (if Expired(s[0], now) then [] else [s[0]]) + Live(s[1..], now)
  }

  /** The entries of `s` that a sweep at `now` removes, in their order. */
  function Stale(s: seq<Entry>, now: int): seq<Entry>
  {
    if s == [] then []
    else (if Expired(s[0], now) then [s[0]] else []) + Stale(s[1..], now)
  }

  /** A sweep keeps exactly the entries that have not expired: none that
      has, and every one that has not. */
  lemma {:induction false} LiveMembers(s: seq<Entry>, now: int, e: Entry)
    ensures e in Live(s, now) <==> e in s && !Expired(e, now)
  {
    if s != [] {
      LiveMembers(s[1..], now, e);
      assert s == [s[0]] + s[1..];
    }
  }

  /** A sweep removes exactly the entries that have expired. */
  lemma {:induction false} StaleMembers(s: seq<Entry>, now: int, e: Entry)
    ensures e in Stale(s, now) <==> e in s && Expired(e, now)
  {
    if s != [] {
      StaleMembers(s[1..], now, e);
      assert s == [s[0]] + s[1..];
    }
  }

  /** Every entry is either kept or removed by a sweep, never both or neither. */
  lemma {:induction false} LiveStalePartition(s: seq<Entry>, now: int)
    ensures multiset(Live(s, now)) + multiset(Stale(s, now)) == multiset(s)
    ensures |Live(s, now)| + |Stale(s, now)| == |s|
  {
    if s != [] {
      LiveStalePartition(s[1..], now);
      assert s == [s[0]] + s[1..];
    }
  }

  /** The sweep's bookkeeping: the entries still in use (`kept`) and the
      entries removed so far are together the original entries `s0`, and
      every removed entry has expired. */
  ghost predicate Accounted(kept: seq<Entry>, removed: seq<Entry>, s0: seq<Entry>, now: int)
  {
    multiset(kept) + multiset(removed) == multiset(s0) &&
    forall k :: 0 <= k < |removed| ==> Expired(removed[k], now)
  }

  /** No entry of `s` has expired at `now`. */
  ghost predicate NoneExpired(s: seq<Entry>, now: int)
  {
    forall j :: 0 <= j < |s| ==> !Expired(s[j], now)
  }

  /** The entries `s` after the sweep removes the one at `i`: the last
      entry takes its place and the run shrinks by one. */
  function SwapRemoved(s: seq<Entry>, i: nat): (r: seq<Entry>)
    requires i < |s|
    ensures |r| == |s| - 1
    ensures forall j :: 0 <= j < |r| ==> r[j] == (if j == i then s[|s| - 1] else s[j])
  {
    s[i := s[|s| - 1]][..|s| - 1]
  }

  /** Moving the last entry over entry `i` loses exactly that entry. */
  lemma SwapRemovedMultiset(s: seq<Entry>, i: nat)
    requires i < |s|
    ensures multiset(SwapRemoved(s, i)) + multiset{s[i]} == multiset(s)
  {
    var t := s[i := s[|s| - 1]];
    assert t == SwapRemoved(s, i) + [s[|s| - 1]];
    assert multiset(t) == multiset(s) - multiset{s[i]} + multiset{s[|s| - 1]};
  }

  /** The slots the sweep leaves when its scan stands at index `i` of the
      slots in use `s`: an expired entry at `i` is replaced by the last
      entry, which is examined next; a live one is stepped over. */
  function Swept(s: seq<Entry>, i: nat, now: int): seq<Entry>
    requires i <= |s|
    decreases |s| - i
  {
    if i == |s| then s
    else if Expired(s[i], now) then Swept(SwapRemoved(s, i), i, now)
    else Swept(s, i + 1, now)
  }

  /** The entries that same scan removes, in the order it removes them. */
  ghost function SweptOut(s: seq<Entry>, i: nat, now: int): seq<Entry>
    requires i <= |s|
    decreases |s| - i
  {
    if i == |s| then []
    else if Expired(s[i], now) then [s[i]] + SweptOut(SwapRemoved(s, i), i, now)
    else SweptOut(s, i + 1, now)
  }

  /** Recording one more expired entry, lost from `t` on the way to `s`,
      keeps the bookkeeping. */
  lemma AccountedCons(kept: seq<Entry>, out: seq<Entry>, t: seq<Entry>, s: seq<Entry>, x: Entry, now: int)
    requires Accounted(kept, out, t, now) && Expired(x, now)
    requires multiset(t) + multiset{x} == multiset(s)
    ensures Accounted(kept, [x] + out, s, now)
  {
    assert multiset([x] + out) == multiset{x} + multiset(out);
    assert forall k :: 0 < k <= |out| ==> ([x] + out)[k] == out[k - 1];
  }

  /** The entries the scan leaves and the entries it removes are together
      the entries it started from, and every removed one has expired. */
  lemma {:induction false} SweptAccounted(s: seq<Entry>, i: nat, now: int)
    requires i <= |s|
    ensures Accounted(Swept(s, i, now), SweptOut(s, i, now), s, now)
    decreases |s| - i
  {
    if i == |s| {
    } else if Expired(s[i], now) {
      var t := SwapRemoved(s, i);
      SweptAccounted(t, i, now);
      SwapRemovedMultiset(s, i);
      AccountedCons(Swept(t, i, now), SweptOut(t, i, now), t, s, s[i], now);
    } else {
      SweptAccounted(s, i + 1, now);
    }
  }

  /** A scan that starts with no expired entry before `i` leaves none. */
  lemma {:induction false} SweptNoneExpired(s: seq<Entry>, i: nat, now: int)
    requires i <= |s| && NoneExpired(s[..i], now)
    ensures NoneExpired(Swept(s, i, now), now)
    decreases |s| - i
  {
    if i == |s| {
      assert s[..i] == s;
    } else if Expired(s[i], now) {
      var t := SwapRemoved(s, i);
      assert t[..i] == s[..i];
      SweptNoneExpired(t, i, now);
    } else {
      assert s[..i + 1] == s[..i] + [s[i]];
      SweptNoneExpired(s, i + 1, now);
    }
  }

  /** Two ways of splitting one multiset into unexpired and expired parts
      agree part by part. */
  lemma SplitByExpiryUnique(K: multiset<Entry>, R: multiset<Entry>, L: multiset<Entry>, S: multiset<Entry>, now: int)
    requires K + R == L + S
    requires forall e | e in K :: !Expired(e, now)
    requires forall e | e in L :: !Expired(e, now)
    requires forall e | e in R :: Expired(e, now)
    requires forall e | e in S :: Expired(e, now)
    ensures K == L && R == S
  {
    forall e ensures K[e] == L[e] && R[e] == S[e] {
      assert (K + R)[e] == K[e] + R[e] && (L + S)[e] == L[e] + S[e];
    }
  }

  /** Splitting the entries of `s0` into kept entries, none expired, and
      removed entries, all expired, can only be the sweep's split: the kept
      ones are the live entries and the removed ones the stale entries. */
  lemma SweepSplitIsUnique(kept: seq<Entry>, removed: seq<Entry>, s0: seq<Entry>, now: int)
    requires Accounted(kept, removed, s0, now)
    requires NoneExpired(kept, now)
    ensures multiset(kept) == multiset(Live(s0, now))
    ensures multiset(removed) == multiset(Stale(s0, now))
    ensures |kept| == |s0| - |Stale(s0, now)|
  {
    LiveStalePartition(s0, now);
    forall e | e in multiset(Live(s0, now)) ensures !Expired(e, now) {
      LiveMembers(s0, now, e);
    }
    forall e | e in multiset(Stale(s0, now)) ensures Expired(e, now) {
      StaleMembers(s0, now, e);
    }
    SplitByExpiryUnique(multiset(kept), multiset(removed), multiset(Live(s0, now)), multiset(Stale(s0, now)), now);
    assert |multiset(kept)| == |kept|;
  }

  /** A whole sweep keeps exactly the live entries, in some order, and
      shrinks the count by the number of expired ones. */
  lemma SweptKeepsLive(s: seq<Entry>, now: int)
    ensures NoneExpired(Swept(s, 0, now), now)
    ensures multiset(Swept(s, 0, now)) == multiset(Live(s, now))
    ensures |Swept(s, 0, now)| == |s| - |Stale(s, now)|
  {
    assert s[..0] == [];
    SweptAccounted(s, 0, now);
    SweptNoneExpired(s, 0, now);
    SweepSplitIsUnique(Swept(s, 0, now), SweptOut(s, 0, now), s, now);
  }

  /** A scan over entries none of which has expired removes nothing. */
  lemma {:induction false} SweptUnchanged(s: seq<Entry>, i: nat, now: int)
    requires i <= |s| && NoneExpired(s, now)
    ensures Swept(s, i, now) == s
    decreases |s| - i
  {
    if i < |s| {
      SweptUnchanged(s, i + 1, now);
    }
  }

  /** Sweeping again at the same time removes nothing more. */
  lemma SweepIdempotent(s: seq<Entry>, now: int)
    ensures Swept(Swept(s, 0, now), 0, now) == Swept(s, 0, now)
  {
    SweptKeepsLive(s, now);
    SweptUnchanged(Swept(s, 0, now), 0, now);
  }

  /** add_to_cache does not look for the key: re-adding a cached path
      while there is room stores a second entry for it, and lookup keeps
      returning the earlier one. */
  lemma ReAddKeepsEarlierCopy(s: seq<Entry>, e: Entry)
    requires |s| < MaxCacheSize
    requires IndexOf(Paths(s), e.path).Some?
    ensures |Inserted(s, e)| == |s| + 1
    ensures Inserted(s, e)[|s|] == e
    ensures IndexOf(Paths(Inserted(s, e)), e.path) == IndexOf(Paths(s), e.path)
  {
    var k := IndexOf(Paths(s), e.path).value;
    var t := Paths(Inserted(s, e));
    assert t[k] == e.path;
    assert forall j :: 0 <= j < k ==> t[j] == Paths(s)[j];
  }

  /** The cache: a fixed array of slots of which the first `count` are in use. */
  class Cache {
    const slots: array<Entry>
    var count: nat

    /** The cache's invariant: the capacity bound and well-formed slots. */
    ghost predicate Valid()
      reads this, slots
    {
      slots.Length == MaxCacheSize &&
      count <= MaxCacheSize &&
      forall j :: 0 <= j < count ==> WellFormed(slots[j])
    }

    /** The entries in use, in slot order. */
    ghost function Contents(): seq<Entry>
      reads this, slots
      requires Valid()
    {
      slots[..count]
    }

    /** init_cache: the slot array exists and no slot is in use. */
    constructor ()
      ensures Valid() && fresh(slots)
      ensures Contents() == []
    {
      slots := new Entry[MaxCacheSize](_ => Entry([], [], 0, 0));
      count := 0;
    }

    /** cleanup_cache: every payload is released and the store is empty. */
    method Cleanup()
      requires Valid()
      modifies this
      ensures Valid()
      ensures Contents() == []
    {
      count := 0;
    }

    /** find_in_cache: the first slot whose path is `key`, with its
        `lastAccessed` refreshed to `now`; a miss changes nothing. The age
        of the entry is not checked. */
    method Find(key: seq<char>, now: int) returns (r: Option<Entry>)
      requires Valid()
      modifies slots
      ensures Valid() && count == old(count)
      ensures IndexOf(Paths(old(Contents())), key).None? ==>
                r.None? && Contents() == old(Contents())
      ensures IndexOf(Paths(old(Contents())), key).Some? ==>
                var i := IndexOf(Paths(old(Contents())), key).value;
                r == Some(old(Contents())[i].(lastAccessed := now)) &&
                Contents() == old(Contents())[i := r.value]
    {
      ghost var s0 := Contents();
      for i := 0 to count
        invariant slots[..] == old(slots[..])
        invariant forall j :: 0 <= j < i ==> slots[j].path != key
      {
        if slots[i].path == key {
          assert Paths(s0)[i] == key;
          assert forall j :: 0 <= j < i ==> Paths(s0)[j] != key;
          assert IndexOf(Paths(s0), key) == Some(i);
          slots[i] := slots[i].(lastAccessed := now);
          r := Some(slots[i]);
          assert slots[..count] == s0[i := r.value];
          return;
        }
      }
      assert forall j :: 0 <= j < |s0| ==> Paths(s0)[j] != key;
      r := None;
    }

    /** add_to_cache: store the first `size` bytes of `content` under
        `path` with `lastAccessed = now`, appending while there is room and
        otherwise overwriting the oldest slot. An existing entry for `path`
        is not looked for. */
    method Add(path: seq<char>, content: seq<bv8>, size: nat, now: int)
      requires Valid()
      requires |path| < PathCapacity
      requires size <= |content|
      modifies this, slots
      ensures Valid()
      ensures Contents() == Inserted(old(Contents()), Entry(path, content[..size], size, now))
    {
      var e := Entry(path, content[..size], size, now);
      if count < MaxCacheSize {
        slots[count] := e;
        count := count + 1;
      } else {
        var oldest := 0;
        for i := 1 to count
          invariant oldest == OldestIndex(slots[..i])
        {
          assert slots[..i + 1][..i] == slots[..i];
          if slots[i].lastAccessed < slots[oldest].lastAccessed {
            oldest := i;
          }
        }
        assert slots[..count] == slots[..];
        slots[oldest] := e;
      }
    }

    /** The removal in evict_expired_cache: the last slot in use is moved
        over slot `i` and the count drops by one. */
    method RemoveSlot(i: nat)
      requires Valid() && i < count
      modifies this, slots
      ensures Valid()
      ensures Contents() == SwapRemoved(old(Contents()), i)
    {
      ghost var c := Contents();
      count := count - 1;
      slots[i] := slots[count];
      assert slots[..count] == SwapRemoved(c, i);
    }

    /** evict_expired_cache: every slot older than the time-to-live is
        removed by moving the last slot in use into its place, which is
        examined next; otherwise the scan moves on. */
    method EvictExpired(now: int)
      requires Valid()
      modifies this, slots
      ensures Valid()
      ensures Contents() == Swept(old(Contents()), 0, now)
      ensures NoneExpired(Contents(), now)
      ensures multiset(Contents()) == multiset(Live(old(Contents()), now))
      ensures count == old(count) - |Stale(old(Contents()), now)|
    {
      ghost var s0 := Contents();
      var i := 0;
      while i < count
        invariant Valid() && i <= count
        invariant Swept(Contents(), i, now) == Swept(s0, 0, now)
        decreases count - i
      {
        if now - slots[i].lastAccessed > CacheTtl {
          RemoveSlot(i);
        } else {
          i := i + 1;
        }
      }
      SweptKeepsLive(s0, now);
    }
  }
}
