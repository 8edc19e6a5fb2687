/** Ad-hoc networks with RSN (wpa_supplicant/ibss_rsn.c): every pair of stations
    runs two handshakes, and both ends have to use the key of the same one
    (IEEE 802.11-2007 section 8.4.9). */
module IbssRsn {
  import opened InfoElements
  import opened Wrappers

  const ETH_ALEN := 6

  type Address = a: seq<byte> | |a| == ETH_ALEN witness [0, 0, 0, 0, 0, 0]

  // ----- comparing addresses

  /** What memcmp says of two addresses from position k on, by sign. */
  function Compare(a: Address, b: Address, k: nat): (r: int)
    requires k <= ETH_ALEN
    decreases ETH_ALEN - k
  {
    if k == ETH_ALEN then 0
    else if a[k] != b[k] then a[k] - b[k]
    else Compare(a, b, k + 1)
  }

  lemma {:induction false} CompareFrom(a: Address, b: Address, k: nat)
    requires k <= ETH_ALEN
    ensures Compare(a, b, k) == -Compare(b, a, k)
    ensures Compare(a, b, k) == 0 <==> a[k..] == b[k..]
    decreases ETH_ALEN - k
  {
    if k < ETH_ALEN {
      CompareFrom(a, b, k + 1);
      assert a[k..] == [a[k]] + a[k + 1..] && b[k..] == [b[k]] + b[k + 1..];
      assert a[k..][1..] == a[k + 1..] && b[k..][1..] == b[k + 1..];
    }
  }

  /** The first byte in which the addresses differ is greater in a. */
  ghost predicate Greater(a: Address, b: Address) {
    exists i :: 0 <= i < ETH_ALEN && GreaterAt(a, b, i)
  }

  ghost predicate GreaterAt(a: Address, b: Address, i: nat)
    requires i < ETH_ALEN
  {
    a[i] > b[i] && forall j :: 0 <= j < i ==> a[j] == b[j]
  }

  lemma {:induction false} CompareGreater(a: Address, b: Address, k: nat)
    requires k <= ETH_ALEN && forall j :: 0 <= j < k ==> a[j] == b[j]
    ensures Compare(a, b, k) > 0 <==> Greater(a, b)
    decreases ETH_ALEN - k
  {
    if k < ETH_ALEN {
      if a[k] == b[k] {
        CompareGreater(a, b, k + 1);
      } else {
        assert a[k] > b[k] ==> GreaterAt(a, b, k);
      }
    }
  }

  /** The comparison orders addresses by their first different byte. */
  lemma CompareExact(a: Address, b: Address)
    ensures Compare(a, b, 0) > 0 <==> Greater(a, b)
    ensures Compare(a, b, 0) < 0 <==> Greater(b, a)
    ensures Compare(a, b, 0) == 0 <==> a == b
  {
    CompareFrom(a, b, 0);
    assert a[0..] == a && b[0..] == b;
    CompareGreater(a, b, 0);
    CompareGreater(b, a, 0);
  }

  /** Of two different addresses exactly one is the greater. */
  lemma OneIsGreater(a: Address, b: Address)
    ensures a == b ==> !Greater(a, b)
    ensures a != b ==> (Greater(a, b) <==> !Greater(b, a))
  {
    CompareExact(a, b);
  }

  method Memcmp(a: Address, b: Address) returns (r: int)
    ensures r == Compare(a, b, 0)
    ensures (r > 0 <==> Greater(a, b)) && (r < 0 <==> Greater(b, a)) && (r == 0 <==> a == b)
  {
    CompareExact(a, b);
    var k := 0;
    while k < ETH_ALEN
      invariant 0 <= k <= ETH_ALEN && Compare(a, b, 0) == Compare(a, b, k)
    {
      if a[k] != b[k] {
        var x: int, y: int := a[k], b[k];
        return x - y;
      }
      k := k + 1;
    }
    return 0;
  }

  // ----- installing keys

  /** A key from a handshake, with a number that tells rekeyings apart. */
  datatype Key = Key(authenticator: Address, supplicant: Address, generation: nat)

  /** A key slot of the driver; no address stands for the station's own group key. */
  datatype Slot = Slot(addr: Option<Address>, idx: nat)

  /** The keys a driver holds. */
  type Keys = map<Slot, Key>

  /** Setting a key, or removing it when there is none to set. */
  function SetSlot(keys: Keys, slot: Slot, key: Option<Key>): Keys {
    if key.Some? then keys[slot := key.value] else keys - {slot}
  }

  /** A slot holds what was set, and every other slot, of this peer or of another,
      is as it was. */
  ghost predicate SetsOnly(before: Keys, after: Keys, slot: Slot, key: Option<Key>) {
    && (if key.Some? then slot in after && after[slot] == key.value else slot !in after)
    && (forall s: Slot :: s != slot ==> (s in after <==> s in before))
    && (forall s: Slot :: s != slot && s in before ==> after[s] == before[s])
  }

  /** The supplicant half of a station uses a pairwise key unless the station is
      the greater of the two. */
  predicate SuppUses(own: Address, peer: Address) { Compare(own, peer, 0) <= 0 }

  /** The authenticator half uses it unless the station is the smaller. */
  predicate AuthUses(own: Address, peer: Address) { Compare(own, peer, 0) >= 0 }

  function SuppSetKey(own: Address, keys: Keys, peer: Address, idx: nat, key: Option<Key>): Keys {
    if idx == 0 && !SuppUses(own, peer) then keys else SetSlot(keys, Slot(Some(peer), idx), key)
  }

  function AuthSetKey(own: Address, keys: Keys, addr: Option<Address>, idx: nat, key: Option<Key>): Keys {
    if idx == 0 && (addr.None? || !AuthUses(own, addr.value)) then keys else SetSlot(keys, Slot(addr, idx), key)
  }

  /** Of the two handshakes of a pair, both ends use the one whose authenticator is
      the greater station, and neither uses the other. */
  lemma OneHandshakeUsed(a: Address, b: Address)
    requires a != b
    ensures AuthUses(a, b) <==> SuppUses(b, a)
    ensures AuthUses(a, b) <==> !AuthUses(b, a)
    ensures AuthUses(a, b) <==> Greater(a, b)
  {
    CompareExact(a, b);
    CompareExact(b, a);
  }

  /** The greater station's handshake gives both ends its key; the other handshake
      leaves the keys of both ends alone. */
  lemma BothEndsFollow(a: Address, b: Address, ka: Keys, kb: Keys, key: Key)
    requires Greater(a, b)
    ensures AuthSetKey(a, ka, Some(b), 0, Some(key)) == ka[Slot(Some(b), 0) := key]
    ensures SuppSetKey(b, kb, a, 0, Some(key)) == kb[Slot(Some(a), 0) := key]
    ensures AuthSetKey(b, kb, Some(a), 0, Some(key)) == kb && SuppSetKey(a, ka, b, 0, Some(key)) == ka
  {
    CompareExact(a, b);
    CompareExact(b, a);
  }

  // ----- a network of stations

  /** The driver keys of every station, by its address. */
  type Ibss = map<Address, Keys>

  /** A handshake half of a station sets or removes a key. */
  datatype Event =
    | Supp(own: Address, peer: Address, idx: nat, key: Option<Key>)
    | Auth(own: Address, addr: Option<Address>, idx: nat, key: Option<Key>)

  /** A station deals with other stations, and each half only ever has keys of its
      own handshake with them. */
  ghost predicate Proper(net: Ibss, e: Event) {
    && e.own in net
    && (match e
        case Supp(own, peer, idx, key) =>
          peer != own && (idx == 0 && key.Some? ==> key.value.authenticator == peer && key.value.supplicant == own)
        case Auth(own, addr, idx, key) =>
          addr.Some? ==>
            && addr.value != own
            && (idx == 0 && key.Some? ==> key.value.authenticator == own && key.value.supplicant == addr.value))
  }

  function Step(net: Ibss, e: Event): Ibss
    requires e.own in net
  {
    match e
    case Supp(own, peer, idx, key) => net[own := SuppSetKey(own, net[own], peer, idx, key)]
    case Auth(own, addr, idx, key) => net[own := AuthSetKey(own, net[own], addr, idx, key)]
  }

  ghost predicate IsRun(net: Ibss, es: seq<Event>)
    decreases |es|
  {
    es == [] || (IsRun(net, es[..|es| - 1]) && Proper(After(net, es[..|es| - 1]), es[|es| - 1]))
  }

  function After(net: Ibss, es: seq<Event>): (r: Ibss)
    decreases |es|
  {
    if es == [] then net
    else
      var before := After(net, es[..|es| - 1]);
      if es[|es| - 1].own in before then Step(before, es[|es| - 1]) else before
  }

  /** Every pairwise key is from the handshake between its two stations whose
      authenticator is the greater of them. */
  ghost predicate KeysInv(net: Ibss) {
    forall x, y :: x in net && Slot(Some(y), 0) in net[x] ==> FromGreater(x, y, net[x][Slot(Some(y), 0)])
  }

  ghost predicate FromGreater(x: Address, y: Address, key: Key) {
    && x != y
    && (if Greater(x, y) then key.authenticator == x && key.supplicant == y
        else key.authenticator == y && key.supplicant == x)
  }

  lemma StepKeepsInv(net: Ibss, e: Event)
    requires KeysInv(net) && Proper(net, e)
    ensures KeysInv(Step(net, e)) && Step(net, e).Keys == net.Keys
  {
    hide Compare, Greater;
    var r := Step(net, e);
    forall x, y | x in r && Slot(Some(y), 0) in r[x]
      ensures FromGreater(x, y, r[x][Slot(Some(y), 0)])
    {
      if x == e.own && !(Slot(Some(y), 0) in net[x] && net[x][Slot(Some(y), 0)] == r[x][Slot(Some(y), 0)]) {
        OneHandshakeUsed(x, y);
        OneHandshakeUsed(y, x);
        OneIsGreater(x, y);
      }
    }
  }

  lemma {:induction false} RunKeepsInv(net: Ibss, es: seq<Event>)
    requires KeysInv(net) && IsRun(net, es)
    ensures KeysInv(After(net, es))
    decreases |es|
  {
    hide KeysInv, Step;
    if es != [] {
      RunKeepsInv(net, es[..|es| - 1]);
      StepKeepsInv(After(net, es[..|es| - 1]), es[|es| - 1]);
    }
  }

  /** However handshakes and rekeyings interleave, the two ends of a pair never hold
      pairwise keys from oppositely initiated handshakes. */
  lemma PairwiseAgreement(net: Ibss, es: seq<Event>, x: Address, y: Address)
    requires forall a :: a in net ==> net[a] == map[]
    requires IsRun(net, es)
    requires var r := After(net, es);
             x in r && y in r && Slot(Some(y), 0) in r[x] && Slot(Some(x), 0) in r[y]
    ensures var r := After(net, es);
            var k, l := r[x][Slot(Some(y), 0)], r[y][Slot(Some(x), 0)];
            && k.authenticator == l.authenticator && k.supplicant == l.supplicant
            && k.authenticator == if Greater(x, y) then x else y
  {
    hide After, IsRun, Greater;
    RunKeepsInv(net, es);
    OneIsGreater(x, y);
    assert FromGreater(x, y, After(net, es)[x][Slot(Some(y), 0)]);
    assert FromGreater(y, x, After(net, es)[y][Slot(Some(x), 0)]);
  }

  // ----- frames

  const EAPOL_HDR_LEN := 4
  const EAPOL_KEY_LEN := 95
  const TYPE_EAPOL_KEY := 3
  const KEY_TYPE_RSN := 2

  datatype Half = ForSupp | ForAuth

  /** Which half an EAPOL frame is for: an RSN key frame that wants an
      acknowledgement comes from an authenticator. None is a frame to discard. */
  function EapolDst(buf: seq<byte>): Option<Half> {
    if |buf| < EAPOL_HDR_LEN + EAPOL_KEY_LEN then None
    else
      var high: int, low: int := buf[2], buf[3];
      var plen := high * 256 + low;
      if buf[1] != TYPE_EAPOL_KEY then None
      else if plen > |buf| - EAPOL_HDR_LEN || plen < EAPOL_KEY_LEN then None
      else if buf[4] != KEY_TYPE_RSN then None
      else if buf[6] >= 128 then Some(ForSupp)
      else Some(ForAuth)
  }

  /** A frame with a version, a type and a length in its header, followed by a
      descriptor type, the key information and the rest of the payload. */
  function EapolFrame(version: byte, kind: byte, plen: nat, desc: byte, info: nat, rest: seq<byte>): seq<byte>
    requires plen < 0x10000 && info < 0x10000
  {
    [version, kind, plen / 256, plen % 256, desc, info / 256, info % 256] + rest
  }

  /** The acknowledgement bit of the key information (section 8.5.2). */
  const KEY_INFO_ACK := 0x80

  /** A frame of at least 99 bytes is taken exactly if it is a key frame (type 3) of
      RSN (type 2) whose length is at least that of a key and within the frame, of
      whatever version; it is the supplicant's exactly if the bit for an
      acknowledgement is set. */
  lemma EapolDstExact(version: byte, kind: byte, plen: nat, desc: byte, info: nat, rest: seq<byte>)
    requires plen < 0x10000 && info < 0x10000
    ensures var d := EapolDst(EapolFrame(version, kind, plen, desc, info, rest));
            && (d.Some? <==> |rest| >= 92 && kind == 3 && desc == 2 && 95 <= plen <= 3 + |rest|)
            && (d.Some? ==> (d.value == ForSupp <==> (info / KEY_INFO_ACK) % 2 == 1))
  {
    var buf := EapolFrame(version, kind, plen, desc, info, rest);
    assert |buf| == 7 + |rest| && buf[1] == kind && buf[4] == desc;
    var high: int, low: int := buf[2], buf[3];
    assert high * 256 + low == plen;
    LowByte(info);
  }

  lemma LowByte(info: nat)
    ensures info % 256 >= 128 <==> (info / 128) % 2 == 1
  {
    assert info == 256 * (info / 256) + info % 256;
    assert info / 128 == 2 * (info / 256) + (info % 256) / 128;
  }

  /** Shorter frames are discarded, and every other one has such a form. */
  lemma EapolForms(buf: seq<byte>)
    ensures |buf| < 99 ==> EapolDst(buf) == None
    ensures |buf| >= 99 ==>
              exists version, kind, plen: nat, desc, info: nat, rest ::
                plen < 0x10000 && info < 0x10000 && buf == EapolFrame(version, kind, plen, desc, info, rest)
  {
    if |buf| >= 99 {
      var b: seq<int> := buf;
      var plen, info := b[2] * 256 + b[3], b[5] * 256 + b[6];
      assert buf == EapolFrame(buf[0], buf[1], plen, buf[4], info, buf[7..]);
    }
  }

  // ----- the list of peers

  class Peer {
    const addr: Address
    var next: Peer?

    constructor (a: Address, n: Peer?)
      ensures addr == a && next == n
    {
      addr, next := a, n;
    }
  }

  ghost predicate Linked(head: Peer?, peers: seq<Peer>)
    reads peers
  {
    && (peers == [] ==> head == null)
    && (peers != [] ==> head == peers[0] && peers[|peers| - 1].next == null)
    && (forall i, j :: 0 <= i < j < |peers| && j == i + 1 ==> peers[i].next == peers[j])
  }

  ghost predicate Distinct(peers: seq<Peer>) {
    forall i, j :: 0 <= i < j < |peers| ==> peers[i].addr != peers[j].addr
  }

  ghost function Addresses(peers: seq<Peer>): (r: seq<Address>)
    ensures |r| == |peers| && forall i :: 0 <= i < |r| ==> r[i] == peers[i].addr
  {
    if peers == [] then [] else [peers[0].addr] + Addresses(peers[1..])
  }

  /** The position of an address; |peers| when it is not listed. */
  ghost function Position(peers: seq<Peer>, a: Address, k: nat): (r: nat)
    requires k <= |peers|
    ensures k <= r <= |peers|
    ensures r < |peers| ==> peers[r].addr == a
    ensures forall i :: k <= i < r ==> peers[i].addr != a
    decreases |peers| - k
  {
    if k == |peers| || peers[k].addr == a then k else Position(peers, a, k + 1)
  }

  ghost function Without(peers: seq<Peer>, k: nat): seq<Peer>
    requires k < |peers|
  {
    peers[..k] + peers[k + 1..]
  }

  /** What became of a received frame. */
  datatype Delivery = Rejected | Ignored | Delivered(to: Address, half: Half)

  class Station {
    const own: Address
    var head: Peer?
    var keys: Keys
    ghost var peers: seq<Peer>

    ghost predicate Valid()
      reads this, peers
    {
      Linked(head, peers) && Distinct(peers)
    }

    constructor (o: Address)
      ensures Valid() && own == o && peers == [] && keys == map[]
    {
      own, head, keys, peers := o, null, map[], [];
    }

    /** Walks the list to the peer with an address. */
    method Find(addr: Address) returns (peer: Peer?, prev: Peer?)
      requires Valid()
      ensures var k := Position(peers, addr, 0);
              && (peer == null <==> k == |peers|)
              && (peer != null ==> peer == peers[k])
              && prev == if k == 0 then null else peers[k - 1]
    {
      hide Distinct;
      peer, prev := head, null;
      ghost var i := 0;
      while peer != null
        invariant 0 <= i <= |peers| && (peer == null <==> i == |peers|) && (peer != null ==> peer == peers[i])
        invariant prev == if i == 0 then null else peers[i - 1]
        invariant Position(peers, addr, 0) == Position(peers, addr, i)
        decreases |peers| - i
      {
        if peer.addr == addr {
          return;
        }
        assert i + 1 < |peers| ==> peers[i].next == peers[i + 1];
        prev, peer, i := peer, peer.next, i + 1;
      }
    }

    /** Starts both halves for a peer, unless they run already; ready is whether
        they can be set up. */
    method Start(addr: Address, ready: bool) returns (ok: bool)
      requires Valid()
      modifies this`head, this`peers
      ensures Valid()
      ensures var listed := addr in Addresses(old(peers));
              && (ok <==> listed || ready)
              && (listed || !ready ==> peers == old(peers))
              && (!listed && ready ==>
                    && Addresses(peers) == [addr] + Addresses(old(peers)) && peers[1..] == old(peers)
                    && head != null && head.addr == addr)
    {
      hide Linked;
      var peer, prev := Find(addr);
      ListedAt(peers, addr);
      if peer != null {
        return true;
      }
      if !ready {
        return false;
      }
      var p := new Peer(addr, head);
      PushedPeer(p, peers, head);
      head := p;
      peers := [p] + peers;
      return true;
    }

    /** Stops the halves for one peer, or for all when no address is given. */
    method Stop(peermac: Option<Address>)
      requires Valid()
      modifies this`head, this`peers, peers`next
      ensures Valid()
      ensures peermac.None? ==> peers == []
      ensures peermac.Some? ==>
                var k := Position(old(peers), peermac.value, 0);
                peers == if k == |old(peers)| then old(peers) else Without(old(peers), k)
      ensures peermac.Some? ==> peermac.value !in Addresses(peers)
    {
      hide Linked, Position, Without;
      if peermac.None? {
        head, peers := null, [];
        NoPeers();
        return;
      }
      var peer, prev := Find(peermac.value);
      ListedAt(peers, peermac.value);
      if peer != null {
        ghost var k := Position(peers, peermac.value, 0);
        WithoutAt(peers, k);
        DistinctObjects(peers);
        Unlink(peer, prev, k);
        peers := Without(peers, k);
        ListedAt(peers, peermac.value);
      }
    }

    method Unlink(peer: Peer, prev: Peer?, ghost k: nat)
      requires Linked(head, peers)
      requires forall i, j :: 0 <= i < j < |peers| ==> peers[i] != peers[j]
      requires k < |peers| && peer == peers[k] && prev == if k == 0 then null else peers[k - 1]
      modifies this`head, peers`next
      ensures Linked(head, Without(peers, k))
    {
      RemovedAt(peers, k);
      hide Without;
      ghost var r := Without(peers, k);
      assert k + 1 < |peers| ==> peers[k].next == peers[k + 1];
      if prev == null {
        head := peer.next;
      } else {
        prev.next := peer.next;
      }
      forall i, j | 0 <= i < j < |r| && j == i + 1
        ensures r[i].next == r[j]
      {
        if j < k {
          assert peers[i].next == peers[j];
        } else if i >= k {
          assert peers[i + 1].next == peers[j + 1];
        }
      }
    }

    /** Hands a frame to the half it is for. A frame from an unlisted station's
        authenticator starts that station as a peer first. */
    method RxEapol(src: Address, buf: seq<byte>, ready: bool) returns (d: Delivery)
      requires Valid()
      modifies this`head, this`peers
      ensures Valid()
      ensures var dst, listed := EapolDst(buf), src in Addresses(old(peers));
              && d == (if listed then (if dst.Some? then Delivered(src, dst.value) else Rejected)
                       else if dst != Some(ForSupp) then Ignored
                       else if ready then Delivered(src, ForSupp) else Rejected)
              && Addresses(peers) == (if !listed && dst == Some(ForSupp) && ready then [src] else [])
                                     + Addresses(old(peers))
    {
      hide Linked, Distinct, EapolDst;
      var peer, prev := Find(src);
      ListedAt(peers, src);
      ghost var was := Addresses(peers);
      assert [] + was == was;
      var dst := EapolDst(buf);
      if peer != null {
        return if dst.None? then Rejected else Delivered(peer.addr, dst.value);
      }
      if dst == Some(ForSupp) {
        var ok := Start(src, ready);
        if !ok {
          return Rejected;
        }
        return Delivered(head.addr, ForSupp);
      }
      return Ignored;
    }

    /** The supplicant half for a peer sets a key; a broadcast address stands for
        that of the peer. */
    method SuppSet(peer: Address, idx: nat, key: Option<Key>)
      modifies this`keys
      ensures keys == SuppSetKey(own, old(keys), peer, idx, key)
      ensures idx == 0 && Greater(own, peer) ==> keys == old(keys)
      ensures idx != 0 || !Greater(own, peer) ==> SetsOnly(old(keys), keys, Slot(Some(peer), idx), key)
    {
      if idx == 0 {
        var c := Memcmp(own, peer);
        if c > 0 {
          return;
        }
      }
      keys := SetSlot(keys, Slot(Some(peer), idx), key);
    }

    /** The authenticator half sets a key. */
    method AuthSet(addr: Option<Address>, idx: nat, key: Option<Key>)
      modifies this`keys
      ensures keys == AuthSetKey(own, old(keys), addr, idx, key)
      ensures idx == 0 && (addr.None? || Greater(addr.value, own)) ==> keys == old(keys)
      ensures idx != 0 || (addr.Some? && !Greater(addr.value, own)) ==>
                SetsOnly(old(keys), keys, Slot(addr, idx), key)
    {
      if idx == 0 {
        if addr.None? {
          return;
        }
        var c := Memcmp(own, addr.value);
        if c < 0 {
          return;
        }
      }
      keys := SetSlot(keys, Slot(addr, idx), key);
    }
  }

  lemma ListedAt(peers: seq<Peer>, a: Address)
    ensures Position(peers, a, 0) < |peers| <==> a in Addresses(peers)
  {
    var k := Position(peers, a, 0);
    if k < |peers| {
      assert Addresses(peers)[k] == a;
    }
  }

  lemma DistinctObjects(peers: seq<Peer>)
    requires Distinct(peers)
    ensures forall i, j :: 0 <= i < j < |peers| ==> peers[i] != peers[j]
  {
  }

  lemma RemovedAt(peers: seq<Peer>, k: nat)
    requires k < |peers|
    ensures var r := Without(peers, k);
            && |r| == |peers| - 1
            && (forall i :: 0 <= i < k ==> r[i] == peers[i])
            && (forall i :: k <= i < |r| ==> r[i] == peers[i + 1])
  {
  }

  lemma NoPeers()
    ensures Linked(null, []) && Distinct([])
  {
  }

  lemma PushedPeer(p: Peer, peers: seq<Peer>, head: Peer?)
    requires Linked(head, peers) && Distinct(peers) && p.next == head
    requires p.addr !in Addresses(peers)
    ensures Linked(p, [p] + peers) && Distinct([p] + peers)
    ensures Addresses([p] + peers) == [p.addr] + Addresses(peers) && ([p] + peers)[1..] == peers
  {
    assert ([p] + peers)[1..] == peers;
    assert forall i :: 0 <= i < |peers| ==> Addresses(peers)[i] == peers[i].addr;
  }

  lemma WithoutAt(peers: seq<Peer>, k: nat)
    requires k < |peers| && Distinct(peers)
    ensures var r := Without(peers, k);
            && |r| == |peers| - 1 && Distinct(r)
            && (forall i :: 0 <= i < k ==> r[i] == peers[i])
            && (forall i :: k <= i < |r| ==> r[i] == peers[i + 1])
            && peers[k].addr !in Addresses(r)
  {
    var r := Without(peers, k);
    assert forall i :: 0 <= i < |r| ==> r[i] == peers[if i < k then i else i + 1];
    assert forall i :: 0 <= i < |r| ==> Addresses(r)[i] == r[i].addr;
  }
}
