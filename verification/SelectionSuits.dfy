/** What it means that a network suits a scan result, in terms of the elements of
    the result and the fields of the network; and that exactly such networks are
    picked (wpa_supplicant/events.c). */
module SelectionSuits {
  import opened BssTable
  import opened BssTableContents
  import opened BssTableInvariant
  import opened InfoElements
  import opened Matching
  import opened Networks
  import opened PriorityGroups
  import opened Selection
  import opened Wrappers

  // ----- what a result announces

  /** The i-th element is the first RSN element. */
  ghost predicate FirstRsn(es: seq<Element>, i: nat) {
    i < |es| && es[i].id == 48 && forall j :: 0 <= j < i ==> es[j].id != 48
  }

  /** A vendor element of type 00:50:f2:01. */
  ghost predicate IsWpa(e: Element) {
    e.id == 221 && |e.body| >= 4 && e.body[..4] == [0, 0x50, 0xf2, 1]
  }

  ghost predicate FirstWpa(es: seq<Element>, i: nat) {
    i < |es| && IsWpa(es[i]) && forall j :: 0 <= j < i ==> !IsWpa(es[j])
  }

  /** The result announces WPA or WPA2. */
  ghost predicate Announces(es: seq<Element>) {
    (exists i: nat :: FirstRsn(es, i) && es[i].body != []) || (exists i: nat :: FirstWpa(es, i))
  }

  /** What the element says can be parsed, and has a protocol, a pairwise cipher, a
      group cipher and a key management in common with the network. */
  ghost predicate Offers(parse: Parser, e: Element, s: Settings)
    requires |e.body| < 256
  {
    var ie := parse([e.id, |e.body|] + e.body);
    && ie.Some?
    && Meet(ie.value.proto, s.proto) && Meet(ie.value.pairwiseCipher, s.pairwiseCipher)
    && Meet(ie.value.groupCipher, s.groupCipher) && Meet(ie.value.keyMgmt, s.keyMgmt)
  }

  ghost predicate OffersRsn(parse: Parser, es: seq<Element>, s: Settings)
    requires WellFormed(es)
  {
    exists i: nat :: FirstRsn(es, i) && Offers(parse, es[i], s)
  }

  ghost predicate OffersWpa(parse: Parser, es: seq<Element>, s: Settings)
    requires WellFormed(es)
  {
    exists i: nat :: FirstWpa(es, i) && Offers(parse, es[i], s)
  }

  /** Some bit is set in both. */
  ghost predicate Meet(a: bv16, b: bv16) {
    exists i: bv16 :: i in BITS && Has(a, i) && Has(b, i)
  }

  ghost predicate Has(a: bv16, i: bv16) {
    a & i == i
  }

  const BITS: set<bv16> := {1, 2, 4, 8, 16, 32, 64, 128, 256, 512, 1024, 2048, 4096, 8192, 0x4000, 0x8000}

  /** The network encrypts with WEP: it has a key, or wants dynamic ones. */
  ghost predicate HasWep(s: Settings) {
    (exists i :: 0 <= i < 4 && s.wepKeys[i] != []) || (s.keyMgmt & 8 != 0 && s.eapolFlags & 3 != 0)
  }

  /** The network suits the result. */
  ghost predicate Suits(parse: Parser, s: Settings, res: ScanRes) {
    var es := Parse(res.ies);
    && !s.disabled
    && (s.bssid.Some? ==> res.bssid == s.bssid.value)
    && (s.freqList.Some? ==> res.radio.freq in s.freqList.value)
    && (exists ssid ::
          && Named(es, ssid) && ssid != []
          && (if s.ssid == [] then !Announces(es) else s.ssid == ssid))
    && (s.keyMgmt & 0x1e3 != 0 ==>
          || (s.proto & 2 != 0 && OffersRsn(parse, es, s))
          || (s.proto & 1 != 0 && OffersWpa(parse, es, s)))
    && (!Announces(es) ==>
          && s.keyMgmt & 0x20c != 0
          && res.radio.caps & 0x02 == 0
          && (s.mixedCell || (res.radio.caps & 0x10 != 0 <==> HasWep(s))))
  }

  // ----- the elements that the program looks at

  lemma WpaBytes(e: Element)
    ensures IsVendor(e, WPA_IE_VENDOR_TYPE) <==> IsWpa(e)
  {
    if |e.body| >= 4 {
      assert e.body[..4] == [e.body[0], e.body[1], e.body[2], e.body[3]];
      assert e.body[..4] == [0, 0x50, 0xf2, 1] <==>
          e.body[0] == 0 && e.body[1] == 0x50 && e.body[2] == 0xf2 && e.body[3] == 1;
    }
  }

  lemma {:induction false} RsnExact(es: seq<Element>)
    ensures var e := FirstById(es, WLAN_EID_RSN);
            && (e.Some? <==> exists i: nat :: FirstRsn(es, i))
            && (e.Some? ==> forall i: nat :: FirstRsn(es, i) ==> es[i] == e.value)
  {
    if es != [] {
      var rest := es[1..];
      RsnExact(rest);
      if es[0].id == 48 {
        assert FirstRsn(es, 0);
      } else {
        forall i: nat
          ensures FirstRsn(es, i + 1) <==> FirstRsn(rest, i)
        {
          assert forall j :: 0 <= j < |rest| ==> rest[j] == es[j + 1];
          assert FirstRsn(es, i + 1) ==> forall j :: 1 <= j < i + 1 ==> es[j].id != 48;
        }
        if i: nat :| FirstRsn(rest, i) {
          assert FirstRsn(es, i + 1);
        }
        forall i: nat | FirstRsn(es, i)
          ensures i > 0 && FirstRsn(rest, i - 1)
        {
          assert FirstRsn(es, (i - 1) + 1);
        }
      }
    }
  }

  lemma {:induction false} WpaExact(es: seq<Element>)
    ensures var e := FirstVendor(es, WPA_IE_VENDOR_TYPE);
            && (e.Some? <==> exists i: nat :: FirstWpa(es, i))
            && (e.Some? ==> IsWpa(e.value) && forall i: nat :: FirstWpa(es, i) ==> es[i] == e.value)
  {
    hide IsWpa, IsVendor;
    if es != [] {
      var rest := es[1..];
      WpaExact(rest);
      WpaBytes(es[0]);
      if IsWpa(es[0]) {
        assert FirstWpa(es, 0);
      } else {
        forall i: nat
          ensures FirstWpa(es, i + 1) <==> FirstWpa(rest, i)
        {
          assert forall j :: 0 <= j < |rest| ==> rest[j] == es[j + 1];
          assert FirstWpa(es, i + 1) ==> forall j :: 1 <= j < i + 1 ==> !IsWpa(es[j]);
        }
        if i: nat :| FirstWpa(rest, i) {
          assert FirstWpa(es, i + 1);
        }
        forall i: nat | FirstWpa(es, i)
          ensures i > 0 && FirstWpa(rest, i - 1)
        {
          assert FirstWpa(es, (i - 1) + 1);
        }
      }
    }
  }

  lemma ProtectedExact(res: ScanRes)
    ensures Protected(res) <==> Announces(Parse(res.ies))
  {
    hide Parse, FirstById, FirstVendor, FirstRsn, FirstWpa;
    var es := Parse(res.ies);
    RsnExact(es);
    WpaExact(es);
  }

  lemma SsidBytesExact(res: ScanRes, ssid: seq<byte>)
    requires ssid != []
    ensures SsidBytes(res) == ssid <==> Named(Parse(res.ies), ssid)
  {
    hide Parse, FirstById, Named;
    FirstSsid(Parse(res.ies), ssid);
  }

  lemma NoWepWithWpa(s: Settings)
    requires WpaKeyMgmt(s.keyMgmt)
    ensures !WepOk(s)
  {
    hide WpaKeyMgmt;
  }

  lemma ShareExact(a: bv16, b: bv16)
    ensures Share(a, b) <==> Meet(a, b)
  {
    hide BITS, Share, Has;
    NoZeroBit();
    if Share(a, b) {
      var i := SharedBit(a, b);
    }
    if Meet(a, b) {
      var i: bv16 :| i in BITS && Has(a, i) && Has(b, i);
      BitShared(a, b, i);
    }
  }

  lemma NoZeroBit()
    ensures 0 !in BITS
  {
  }

  lemma SharedBit(a: bv16, b: bv16) returns (i: bv16)
    requires Share(a, b)
    ensures i in BITS && Has(a, i) && Has(b, i)
  {
    hide BITS;
    i := LowBit(a & b);
    BothHave(a, b, i);
  }

  lemma BothHave(a: bv16, b: bv16, i: bv16)
    requires (a & b) & i == i
    ensures Has(a, i) && Has(b, i)
  {
  }

  lemma BitShared(a: bv16, b: bv16, i: bv16)
    requires i != 0 && Has(a, i) && Has(b, i)
    ensures Share(a, b)
  {
  }

  lemma LowBit(c: bv16) returns (i: bv16)
    requires c != 0
    ensures i in BITS && c & i == i
  {
    i := if c & 1 != 0 then 1 else if c & 2 != 0 then 2 else if c & 4 != 0 then 4 else if c & 8 != 0 then 8
         else if c & 16 != 0 then 16 else if c & 32 != 0 then 32 else if c & 64 != 0 then 64
         else if c & 128 != 0 then 128 else if c & 256 != 0 then 256 else if c & 512 != 0 then 512
         else if c & 1024 != 0 then 1024 else if c & 2048 != 0 then 2048 else if c & 4096 != 0 then 4096
         else if c & 8192 != 0 then 8192 else if c & 0x4000 != 0 then 0x4000 else 0x8000;
  }

  lemma OverlapsExact(ie: IeData, s: Settings)
    ensures Overlaps(ie, s)
       <==> && Meet(ie.proto, s.proto) && Meet(ie.pairwiseCipher, s.pairwiseCipher)
            && Meet(ie.groupCipher, s.groupCipher) && Meet(ie.keyMgmt, s.keyMgmt)
  {
    hide Share, Meet;
    ShareExact(ie.proto, s.proto);
    ShareExact(ie.pairwiseCipher, s.pairwiseCipher);
    ShareExact(ie.groupCipher, s.groupCipher);
    ShareExact(ie.keyMgmt, s.keyMgmt);
  }

  lemma OffersExact(parse: Parser, s: Settings, proto: bv16, e: Element)
    requires |e.body| < 256 && WpaKeyMgmt(s.keyMgmt)
    ensures Suffices(parse, s, proto, Some(e)) <==> s.proto & proto != 0 && Offers(parse, e, s)
  {
    hide WepOk, WpaKeyMgmt, Share, Overlaps, Meet;
    NoWepWithWpa(s);
    assert Encode(e) == [e.id, |e.body|] + e.body;
    if parse(Encode(e)).Some? {
      OverlapsExact(parse(Encode(e)).value, s);
    }
  }

  lemma SecureExact(parse: Parser, s: Settings, res: ScanRes)
    ensures var es := Parse(res.ies);
            Secure(parse, s, res) <==>
              (s.keyMgmt & 0x1e3 != 0 ==>
                 || (s.proto & 2 != 0 && OffersRsn(parse, es, s))
                 || (s.proto & 1 != 0 && OffersWpa(parse, es, s)))
  {
    hide Parse, FirstById, FirstVendor, Offers, FirstRsn, FirstWpa, Suffices;
    var es := Parse(res.ies);
    ElementLengths(res.ies);
    RsnExact(es);
    WpaExact(es);
    WpaBits(s.keyMgmt);
    if WpaKeyMgmt(s.keyMgmt) {
      if RsnOf(res).Some? {
        OffersExact(parse, s, WPA_PROTO_RSN, RsnOf(res).value);
      } else {
        NoneSuffices(parse, s, WPA_PROTO_RSN);
      }
      if WpaOf(res).Some? {
        OffersExact(parse, s, WPA_PROTO_WPA, WpaOf(res).value);
      } else {
        NoneSuffices(parse, s, WPA_PROTO_WPA);
      }
      FirstInside(es);
    }
  }

  lemma NoneSuffices(parse: Parser, s: Settings, proto: bv16)
    ensures !Suffices(parse, s, proto, None)
  {
  }

  lemma FirstInside(es: seq<Element>)
    ensures forall i: nat :: FirstRsn(es, i) || FirstWpa(es, i) ==> i < |es|
  {
  }

  lemma WpaBits(m: bv16)
    ensures WpaKeyMgmt(m) <==> m & 0x1e3 != 0
    ensures m & (WPA_KEY_MGMT_NONE | WPA_KEY_MGMT_WPS | WPA_KEY_MGMT_IEEE8021X_NO_WPA) != 0 <==> m & 0x20c != 0
  {
  }

  lemma PlainExact(s: Settings, res: ScanRes)
    ensures Plain(s, res)
       <==> && s.keyMgmt & 0x20c != 0
            && res.radio.caps & 0x02 == 0
            && (s.mixedCell || (res.radio.caps & 0x10 != 0 <==> HasWep(s)))
  {
  }

  /** The checks of the program accept exactly the results that the network suits. */
  lemma AdmitsExact(parse: Parser, s: Settings, res: ScanRes)
    ensures Admits(parse, s, res) <==> Suits(parse, s, res)
  {
    hide Parse, Secure, Protected, Announces, Plain, Named, SsidBytes, HasWep, OffersRsn, OffersWpa;
    var es := Parse(res.ies);
    ProtectedExact(res);
    SecureExact(parse, s, res);
    PlainExact(s, res);
    forall ssid | ssid != []
      ensures SsidBytes(res) == ssid <==> Named(es, ssid)
    {
      SsidBytesExact(res, ssid);
    }
    FirstInside(es);
    if SsidBytes(res) != [] {
      assert Named(es, SsidBytes(res));
    }
  }

  // ----- what is picked

  lemma UsableExact(sc: Scene, bl: multiset<Mac>, p: nat, n: Network)
    requires p < |sc.results|
    ensures Usable(sc, bl, p, n)
       <==> bl[sc.results[p].bssid] <= Limit(sc.nets) && Suits(sc.parse, n.settings, sc.results[p])
  {
    hide Admits, Suits, Limit;
    AdmitsExact(sc.parse, n.settings, sc.results[p]);
  }

  lemma InSomeGroup(nets: seq<Network>, n: Network)
    requires n in nets
    ensures exists g, i :: 0 <= g < |GroupsOf(nets)| && 0 <= i < |GroupsOf(nets)[g]| && GroupsOf(nets)[g][i] == n
  {
    hide GroupsOf;
    var groups: Groups := GroupsOf(nets);
    GroupsAreGrouped(nets);
    var g :| 0 <= g < |groups| && groups[g][0].priority == n.priority;
    OfPriorityExact(nets, n.priority);
    assert n in groups[g];
  }

  lemma GroupListed(nets: seq<Network>, g: nat, i: nat)
    requires g < |GroupsOf(nets)| && i < |GroupsOf(nets)[g]|
    ensures GroupsOf(nets)[g][i] in nets
  {
    hide GroupsOf;
    var groups: Groups := GroupsOf(nets);
    GroupsAreGrouped(nets);
    OfPriorityExact(nets, groups[g][0].priority);
    assert groups[g][i] in groups[g];
  }

  /** Whatever the table and the blacklist hold: what is picked is a configured
      network that is not disabled and suits the result, on its own BSSID, SSID and
      frequencies only; the entry is that of the result; and the BSSID has not
      failed more often than the limit, unless the blacklist has been cleared. */
  lemma PickSuits(sc: Scene, bl: multiset<Mac>)
    requires Pick(sc, bl).0.Some?
    ensures var c, groups := Pick(sc, bl).0.value, GroupsOf(sc.nets);
            && c.group < |groups| && c.net < |groups[c.group]| && c.result < |sc.results|
            && var n, r := groups[c.group][c.net], sc.results[c.result];
               && n in sc.nets && Suits(sc.parse, n.settings, r)
               && !n.settings.disabled
               && (n.settings.bssid.Some? ==> r.bssid == n.settings.bssid.value)
               && (n.settings.freqList.Some? ==> r.radio.freq in n.settings.freqList.value)
               && c.bss in sc.lru && c.bss.bssid == r.bssid && Named(Parse(r.ies), c.bss.ssid)
               && (n.settings.ssid != [] ==> c.bss.ssid == n.settings.ssid)
               && (n.settings.ssid == [] ==> !Announces(Parse(r.ies)))
               && (Pick(sc, bl).1 || bl[r.bssid] <= Limit(sc.nets))
  {
    hide SelectFrom, GroupsOf, Usable, EntryOf, Limit, Suits, Named, Announces, Parse, FirstNet, FirstResult;
    var c, groups: Groups := Pick(sc, bl).0.value, GroupsOf(sc.nets);
    var now := if Pick(sc, bl).1 then multiset{} else bl;
    ChosenIsFirst(sc, now, groups, 0);
    ChosenUsable(sc, now, groups, c);
    var n, r := groups[c.group][c.net], sc.results[c.result];
    GroupListed(sc.nets, c.group, c.net);
    UsableExact(sc, now, c.result, n);
    EntryNamed(sc, c.result, c.bss);
    SuitsMeans(sc.parse, n.settings, r, c.bss.ssid);
  }

  lemma ChosenUsable(sc: Scene, bl: multiset<Mac>, groups: Groups, c: Choice)
    requires c.group < |groups| && SelectBss(sc, bl, groups, c.group) == Some(c)
    ensures c.result < |sc.results| && c.net < |groups[c.group]|
    ensures Usable(sc, bl, c.result, groups[c.group][c.net]) && EntryOf(sc, c.result) == Some(c.bss)
  {
    hide Usable, EntryOf;
  }

  lemma EntryNamed(sc: Scene, p: nat, e: Entry)
    requires p < |sc.results| && EntryOf(sc, p) == Some(e)
    ensures e in sc.lru && e.bssid == sc.results[p].bssid && e.ssid == SsidBytes(sc.results[p])
  {
    hide SsidBytes;
    FindExact(sc.lru, sc.results[p].bssid, SsidBytes(sc.results[p]));
  }

  lemma SuitsMeans(parse: Parser, s: Settings, res: ScanRes, ssid: seq<byte>)
    requires Suits(parse, s, res) && ssid == SsidBytes(res)
    ensures !s.disabled && (s.bssid.Some? ==> res.bssid == s.bssid.value)
    ensures s.freqList.Some? ==> res.radio.freq in s.freqList.value
    ensures Named(Parse(res.ies), ssid) && (if s.ssid == [] then !Announces(Parse(res.ies)) else s.ssid == ssid)
  {
    hide Parse, Named, Announces, SsidBytes, HasWep, OffersRsn, OffersWpa;
    var named :| && Named(Parse(res.ies), named) && named != []
                 && (if s.ssid == [] then !Announces(Parse(res.ies)) else s.ssid == named);
    SsidBytesExact(res, named);
  }

  /** When every usable result is in the table, nothing is picked exactly if no
      network suits any result; and a pick under the blacklist is of no lower
      priority than any network that suits a result within the limit. */
  lemma PickBest(sc: Scene, bl: multiset<Mac>)
    requires UsableListed(sc)
    ensures Pick(sc, bl).0.None?
       <==> forall n, p :: n in sc.nets && 0 <= p < |sc.results| ==> !Suits(sc.parse, n.settings, sc.results[p])
    ensures Pick(sc, bl).0.Some? && !Pick(sc, bl).1 ==>
              var c := Pick(sc, bl).0.value;
              && c.group < |GroupsOf(sc.nets)| && c.net < |GroupsOf(sc.nets)[c.group]|
              && forall n, p ::
                   && n in sc.nets && 0 <= p < |sc.results|
                   && Suits(sc.parse, n.settings, sc.results[p]) && bl[sc.results[p].bssid] <= Limit(sc.nets)
                   ==> GroupsOf(sc.nets)[c.group][c.net].priority >= n.priority
  {
    hide Pick, GroupsOf, Usable, UsableListed, EntryOf, Limit, Suits;
    var groups: Groups := GroupsOf(sc.nets);
    PickExact(sc, bl);
    forall n, p: nat | n in sc.nets && p < |sc.results| && Suits(sc.parse, n.settings, sc.results[p])
      ensures !NothingUsable(sc, multiset{}, groups)
    {
      UsableExact(sc, multiset{}, p, n);
      InSomeGroup(sc.nets, n);
      var g: nat, i: nat :| g < |groups| && i < |groups[g]| && groups[g][i] == n;
      assert UsableAt(sc, multiset{}, groups, g, p, i);
    }
    if !NothingUsable(sc, multiset{}, groups) {
      var g: nat, p: nat, i: nat :| UsableAt(sc, multiset{}, groups, g, p, i);
      UsableExact(sc, multiset{}, p, groups[g][i]);
      GroupListed(sc.nets, g, i);
    }
    var c := Pick(sc, bl).0;
    if c.Some? && !Pick(sc, bl).1 {
      forall n, p: nat
        | && n in sc.nets && p < |sc.results|
          && Suits(sc.parse, n.settings, sc.results[p]) && bl[sc.results[p].bssid] <= Limit(sc.nets)
        ensures groups[c.value.group][c.value.net].priority >= n.priority
      {
        UsableExact(sc, bl, p, n);
        HighestPriority(sc, bl, c.value, p, n);
      }
    }
  }
}
