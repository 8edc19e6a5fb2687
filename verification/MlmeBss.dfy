/** The BSS list of the client MLME and the hash index over it
    (wpa_supplicant/mlme.c): one object is on two linked lists at once. */
module MlmeBss {
  import opened InfoElements

  const STA_HASH_SIZE := 256

  type Bssid = b: seq<byte> | |b| == 6 witness [0, 0, 0, 0, 0, 0]

  function StaHash(b: Bssid): (h: nat)
    ensures h < STA_HASH_SIZE
  {
    b[5]
  }

  class Bss {
    const bssid: Bssid
    var next: Bss?
    var hnext: Bss?

    constructor (b: Bssid, n: Bss?, h: Bss?)
      ensures bssid == b && next == n && hnext == h
    {
      bssid, next, hnext := b, n, h;
    }
  }

  /** Linear search. */
  ghost function Search(list: seq<Bss>, b: Bssid): (r: Bss?)
    ensures r != null ==> r in list && r.bssid == b
    ensures r == null ==> forall i :: 0 <= i < |list| ==> list[i].bssid != b
  {
    if list == [] then null else if list[0].bssid == b then list[0] else Search(list[1..], b)
  }

  /** The entries of a list with a hash value, in list order. */
  ghost function Bucket(list: seq<Bss>, h: nat): (r: seq<Bss>)
    ensures forall i :: 0 <= i < |r| ==> r[i] in list && StaHash(r[i].bssid) == h
    ensures forall b :: b in list && StaHash(b.bssid) == h ==> b in r
  {
    if list == [] then []
    else (if StaHash(list[0].bssid) == h then [list[0]] else []) + Bucket(list[1..], h)
  }

  ghost predicate Unique(list: seq<Bss>) {
    forall i, j :: 0 <= i < j < |list| ==> list[i].bssid != list[j].bssid
  }

  /** Following next from the head goes along the list and ends with it. */
  ghost predicate Listed(head: Bss?, list: seq<Bss>)
    reads list`next
  {
    && (list == [] ==> head == null)
    && (list != [] ==> head == list[0] && list[|list| - 1].next == null)
    && (forall i, j :: 0 <= i < j < |list| && j == i + 1 ==> list[i].next == list[j])
  }

  /** Following hnext from the head goes along the chain and ends with it. */
  ghost predicate Chained(head: Bss?, chain: seq<Bss>)
    reads chain
  {
    && (chain == [] ==> head == null)
    && (chain != [] ==> head == chain[0] && chain[|chain| - 1].hnext == null)
    && (forall i, j :: 0 <= i < j < |chain| && j == i + 1 ==> chain[i].hnext == chain[j])
  }

  /** Every chain holds the listed entries of its hash. */
  ghost predicate IndexedBy(heads: seq<Bss?>, list: seq<Bss>)
    reads list
  {
    |heads| == STA_HASH_SIZE && forall h :: 0 <= h < STA_HASH_SIZE ==> Chained(heads[h], Bucket(list, h))
  }

  ghost predicate Indexed(hash: array<Bss?>, list: seq<Bss>)
    reads hash, list
  {
    hash.Length == STA_HASH_SIZE && IndexedBy(hash[..], list)
  }

  // ----- what the index is worth

  /** Searching one bucket finds what searching the list finds. */
  lemma {:induction false} SearchBucket(list: seq<Bss>, b: Bssid)
    ensures Search(Bucket(list, StaHash(b)), b) == Search(list, b)
  {
    if list != [] {
      SearchBucket(list[1..], b);
      var rest := Bucket(list[1..], StaHash(b));
      assert StaHash(list[0].bssid) == StaHash(b) ==> ([list[0]] + rest)[1..] == rest;
      assert [] + rest == rest;
    }
  }

  lemma BucketFront(b: Bss, list: seq<Bss>, h: nat)
    ensures Bucket([b] + list, h) == (if StaHash(b.bssid) == h then [b] else []) + Bucket(list, h)
  {
    assert ([b] + list)[1..] == list;
  }

  /** Each listed entry is in the chain of its hash, and in no other. */
  lemma InExactlyOneChain(list: seq<Bss>, b: Bss, h: nat)
    requires b in list
    ensures b in Bucket(list, h) <==> h == StaHash(b.bssid)
  {
  }

  lemma {:induction false} BucketOnce(list: seq<Bss>, h: nat)
    requires Unique(list)
    ensures Unique(Bucket(list, h))
  {
    if list != [] {
      BucketOnce(list[1..], h);
      var rest := Bucket(list[1..], h);
      assert forall b :: b in rest ==> b in list[1..];
      assert Bucket(list, h) == if StaHash(list[0].bssid) == h then [list[0]] + rest else [] + rest;
    }
  }

  class Table {
    var list: Bss?
    const hash: array<Bss?>
    ghost var bsses: seq<Bss>

    ghost predicate Valid()
      reads this, hash, bsses
    {
      Unique(bsses) && Listed(list, bsses) && Indexed(hash, bsses)
    }

    constructor ()
      ensures Valid() && bsses == [] && fresh(hash)
    {
      list, bsses := null, [];
      hash := new Bss?[STA_HASH_SIZE](_ => null);
    }

    /** The index finds exactly what a search of the list finds. */
    method Get(bssid: Bssid) returns (bss: Bss?)
      requires Valid()
      ensures bss == Search(bsses, bssid)
    {
      hide Listed, Unique;
      ghost var chain := Bucket(bsses, StaHash(bssid));
      SearchBucket(bsses, bssid);
      bss := hash[StaHash(bssid)];
      assert bss == hash[..][StaHash(bssid)];
      assert Chained(bss, chain);
      ghost var i := 0;
      assert chain[0..] == chain;
      while bss != null
        invariant 0 <= i <= |chain| && (bss == null <==> i == |chain|) && (bss != null ==> bss == chain[i])
        invariant Search(chain, bssid) == Search(chain[i..], bssid)
        decreases |chain| - i
      {
        if bss.bssid == bssid {
          break;
        }
        assert i + 1 < |chain| ==> chain[i].hnext == chain[i + 1];
        bss, i := bss.hnext, i + 1;
      }
    }

    /** Puts a new entry in front of the list and of its chain. */
    method Add(bssid: Bssid) returns (bss: Bss)
      requires Valid() && Search(bsses, bssid) == null
      modifies this, hash
      ensures Valid() && fresh(bss) && bss.bssid == bssid && bsses == [bss] + old(bsses)
    {
      hide Search, Indexed;
      SearchMisses(bsses, bssid);
      bss := new Bss(bssid, list, null);
      ghost var was := bsses;
      PushedList(bss, was, list);
      list := bss;
      HashAdd(bss, was);
      bsses := [bss] + was;
    }

    method HashAdd(bss: Bss, ghost was: seq<Bss>)
      requires Indexed(hash, was) && bss !in was
      modifies hash, bss`hnext
      ensures Indexed(hash, [bss] + was)
      ensures bss.next == old(bss.next)
    {
      hide IndexedBy, Bucket, Chained;
      ghost var heads := hash[..];
      bss.hnext := hash[StaHash(bss.bssid)];
      assert IndexedBy(heads, was);
      Pushed(heads, bss, was);
      hash[StaHash(bss.bssid)] := bss;
      assert hash[..] == heads[StaHash(bss.bssid) := bss];
    }

    /** The entry of a BSSID, added when there is none. */
    method GetOrAdd(bssid: Bssid) returns (bss: Bss)
      requires Valid()
      modifies this, hash
      ensures Valid() && bss.bssid == bssid && bss == Search(bsses, bssid)
      ensures Search(old(bsses), bssid) != null ==> bsses == old(bsses)
      ensures Search(old(bsses), bssid) == null ==> fresh(bss) && bsses == [bss] + old(bsses)
    {
      hide Valid, Bucket;
      var b := Get(bssid);
      if b == null {
        b := Add(bssid);
      }
      bss := b;
    }

    /** Takes an entry out of its chain. */
    method HashDel(bss: Bss, ghost chain: seq<Bss>, ghost k: nat)
      requires hash.Length == STA_HASH_SIZE && Chained(hash[StaHash(bss.bssid)], chain) && Unique(chain)
      requires k < |chain| && bss == chain[k]
      modifies hash, chain`hnext
      ensures Chained(hash[StaHash(bss.bssid)], Removed(chain, k))
      ensures forall h :: 0 <= h < STA_HASH_SIZE && h != StaHash(bss.bssid) ==> hash[h] == old(hash[h])
    {
      var b, prev: Bss? := hash[StaHash(bss.bssid)], null;
      ghost var i := 0;
      while b != bss
        invariant unchanged(hash) && unchanged(chain)
        invariant 0 <= i <= k && b == chain[i] && prev == if i == 0 then null else chain[i - 1]
        decreases k - i
      {
        assert chain[i].hnext == chain[i + 1];
        prev, b, i := b, b.hnext, i + 1;
      }
      UniqueObjects(chain);
      Unlink(prev, bss, chain, k);
    }

    method Unlink(prev: Bss?, bss: Bss, ghost chain: seq<Bss>, ghost k: nat)
      requires hash.Length == STA_HASH_SIZE && Chained(hash[StaHash(bss.bssid)], chain)
      requires forall i, j :: 0 <= i < j < |chain| ==> chain[i] != chain[j]
      requires k < |chain| && bss == chain[k] && prev == if k == 0 then null else chain[k - 1]
      modifies hash, chain`hnext
      ensures Chained(hash[StaHash(bss.bssid)], Removed(chain, k))
      ensures forall h :: 0 <= h < STA_HASH_SIZE && h != StaHash(bss.bssid) ==> hash[h] == old(hash[h])
    {
      RemovedAt(chain, k);
      ghost var r := Removed(chain, k);
      assert k + 1 < |chain| ==> chain[k].hnext == chain[k + 1];
      hide Removed;
      if prev == null {
        hash[StaHash(bss.bssid)] := bss.hnext;
      } else {
        prev.hnext := bss.hnext;
      }
      forall i, j | 0 <= i < j < |r| && j == i + 1
        ensures r[i].hnext == r[j]
      {
        if j < k {
          assert chain[i].hnext == chain[j];
        } else if i >= k {
          assert chain[i + 1].hnext == chain[j + 1];
        }
      }
    }

    /** Empties the list and, entry by entry, the index. */
    method ListDeinit()
      requires Valid()
      modifies this, hash, bsses`hnext
      ensures Valid() && bsses == [] && list == null
      ensures forall h :: 0 <= h < STA_HASH_SIZE ==> hash[h] == null
    {
      hide Search, Bucket, Chained, Indexed, Unique, Listed;
      var bss := list;
      ghost var first := list;
      list := null;
      ghost var all := bsses;
      ghost var i := 0;
      assert all[0..] == all;
      FirstListed(first, all);
      while bss != null
        invariant 0 <= i <= |all| && bsses == all == old(bsses) && list == null
        invariant (bss == null <==> i == |all|) && (bss != null ==> bss == all[i])
        invariant Listed(first, all) && Unique(all[i..])
        invariant Indexed(hash, all[i..])
        decreases |all| - i
      {
        var prev := bss;
        NextListed(first, all, i);
        bss := bss.next;
        assert all[i..][1..] == all[i + 1..];
        UniqueRest(all[i..]);
        Free(prev, all[i..]);
        i := i + 1;
      }
      EmptyChains(hash, all[i..]);
      bsses := [];
      assert all[i..] == [];
      NothingListed();
    }

    /** Takes the first of the entries that are left out of the index. */
    method Free(bss: Bss, ghost rest: seq<Bss>)
      requires Indexed(hash, rest) && Unique(rest) && rest != [] && bss == rest[0]
      modifies hash, rest`hnext
      ensures Indexed(hash, rest[1..])
    {
      hide Search, Chained, Bucket, Removed;
      ghost var k := StaHash(bss.bssid);
      ghost var heads := hash[..];
      ghost var chain := Bucket(rest, k);
      BucketOnce(rest, k);
      FirstOfChain(bss, rest);
      assert Chained(heads[k], chain);
      HashDel(bss, chain, 0);
      forall h | 0 <= h < STA_HASH_SIZE
        ensures Chained(hash[..][h], Bucket(rest[1..], h))
      {
        if h != k {
          assert old(Chained(heads[h], Bucket(rest, h)));
          OtherChain(bss, rest, h);
          assert hash[h] == heads[h];
        }
      }
    }
  }

  lemma FirstOfChain(bss: Bss, rest: seq<Bss>)
    requires rest != [] && bss == rest[0]
    ensures var chain := Bucket(rest, StaHash(bss.bssid));
            && chain != [] && chain[0] == bss && Removed(chain, 0) == Bucket(rest[1..], StaHash(bss.bssid))
            && forall b :: b in chain ==> StaHash(b.bssid) == StaHash(bss.bssid)
  {
  }

  lemma OtherChain(bss: Bss, rest: seq<Bss>, h: nat)
    requires rest != [] && bss == rest[0] && h != StaHash(bss.bssid)
    ensures Bucket(rest, h) == Bucket(rest[1..], h)
    ensures forall b :: b in Bucket(rest, h) ==> StaHash(b.bssid) == h
  {
  }

  ghost function Removed(chain: seq<Bss>, k: nat): seq<Bss>
    requires k < |chain|
  {
    chain[..k] + chain[k + 1..]
  }

  lemma RemovedAt(chain: seq<Bss>, k: nat)
    requires k < |chain|
    ensures |Removed(chain, k)| == |chain| - 1
    ensures forall i :: 0 <= i < k ==> Removed(chain, k)[i] == chain[i]
    ensures forall i :: k <= i < |chain| - 1 ==> Removed(chain, k)[i] == chain[i + 1]
  {
  }

  lemma UniqueObjects(chain: seq<Bss>)
    requires Unique(chain)
    ensures forall i, j :: 0 <= i < j < |chain| ==> chain[i] != chain[j]
  {
  }

  lemma SearchMisses(list: seq<Bss>, b: Bssid)
    requires Search(list, b) == null
    ensures forall i :: 0 <= i < |list| ==> list[i].bssid != b
  {
  }

  lemma PushedList(bss: Bss, list: seq<Bss>, head: Bss?)
    requires Listed(head, list) && bss.next == head
    ensures Listed(bss, [bss] + list)
  {
  }

  lemma PushedChain(bss: Bss, chain: seq<Bss>, head: Bss?)
    requires Chained(head, chain) && bss.hnext == head
    ensures Chained(bss, [bss] + chain)
  {
  }

  /** A new entry that points at the head of its chain can become the head. */
  lemma Pushed(heads: seq<Bss?>, bss: Bss, list: seq<Bss>)
    requires IndexedBy(heads, list) && bss.hnext == heads[StaHash(bss.bssid)]
    ensures IndexedBy(heads[StaHash(bss.bssid) := bss], [bss] + list)
  {
    hide Bucket, Chained;
    var k := StaHash(bss.bssid);
    forall h | 0 <= h < STA_HASH_SIZE
      ensures Chained(heads[k := bss][h], Bucket([bss] + list, h))
    {
      BucketFront(bss, list, h);
      if h == k {
        PushedChain(bss, Bucket(list, h), heads[h]);
      } else {
        assert [] + Bucket(list, h) == Bucket(list, h);
      }
    }
  }

  lemma FirstListed(head: Bss?, list: seq<Bss>)
    requires Listed(head, list)
    ensures (head == null <==> list == []) && (head != null ==> head == list[0])
  {
  }

  lemma NextListed(head: Bss?, list: seq<Bss>, i: nat)
    requires Listed(head, list) && i < |list|
    ensures list[i].next == if i + 1 < |list| then list[i + 1] else null
  {
    assert i + 1 < |list| ==> list[i].next == list[i + 1];
  }

  lemma UniqueRest(list: seq<Bss>)
    requires Unique(list) && list != []
    ensures Unique(list[1..])
  {
  }

  lemma NothingListed()
    ensures Listed(null, []) && Unique([])
  {
  }

  lemma EmptyChains(hash: array<Bss?>, list: seq<Bss>)
    requires Indexed(hash, list) && list == []
    ensures forall h :: 0 <= h < STA_HASH_SIZE ==> hash[h] == null
    ensures Indexed(hash, [])
  {
    forall h | 0 <= h < STA_HASH_SIZE
      ensures hash[h] == null
    {
      assert hash[h] == hash[..][h];
      assert Chained(hash[h], Bucket(list, h));
    }
  }
}
