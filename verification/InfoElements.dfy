/** Information elements (IEEE 802.11-2007 section 7.3.2) as walked by
    wpa_supplicant/bss.c and scan.c, and the change detection built on them.

    The BSS entry and the scan result keep their elements in the same layout and
    the two files walk them with the same code, so each walker appears once. */
module InfoElements {
  import opened Wrappers

  type byte = x: int | 0 <= x < 256

  /** A hardware address. */
  type Mac = seq<byte>

  const WLAN_EID_SSID: byte := 0
  const WLAN_EID_SUPP_RATES: byte := 1
  const WLAN_EID_RSN: byte := 48
  const WLAN_EID_EXT_SUPP_RATES: byte := 50
  const WLAN_EID_VENDOR_SPECIFIC: byte := 221
  const WPA_IE_VENDOR_TYPE := 0x0050f201
  const WPS_IE_VENDOR_TYPE := 0x0050f204
  const P2P_IE_VENDOR_TYPE := 0x506f9a09

  // ----- the reference: a list of elements

  datatype Element = Element(id: byte, body: seq<byte>)

  ghost predicate WellFormed(es: seq<Element>) {
    forall e :: e in es ==> |e.body| < 256
  }

  function Encode(e: Element): seq<byte>
    requires |e.body| < 256
  {
    [e.id, |e.body|] + e.body
  }

  function Serialize(es: seq<Element>): seq<byte>
    requires WellFormed(es)
  {
    if es == [] then [] else Encode(es[0]) + Serialize(es[1..])
  }

  /** A complete element is at the front of the buffer. */
  predicate HasElement(ies: seq<byte>) {
    |ies| >= 2 && 2 + ies[1] <= |ies|
  }

  function First(ies: seq<byte>): (e: Element)
    requires HasElement(ies)
    ensures |e.body| < 256
  {
    Element(ies[0], ies[2..2 + ies[1]])
  }

  function Rest(ies: seq<byte>): (r: seq<byte>)
    requires HasElement(ies)
    ensures |r| < |ies|
  {
    ies[2 + ies[1]..]
  }

  /** The complete elements at the front of a buffer. */
  function Parse(ies: seq<byte>): (es: seq<Element>)
    ensures WellFormed(es)
    decreases |ies|
  {
    if HasElement(ies) then [First(ies)] + Parse(Rest(ies)) else []
  }

  /** What parsing leaves unread. */
  function Trailer(ies: seq<byte>): seq<byte>
    decreases |ies|
  {
    if HasElement(ies) then Trailer(Rest(ies)) else ies
  }

  /** Parsing reads every element that was written, and no more than it finds complete. */
  lemma {:induction false} ParseSerialize(es: seq<Element>, tail: seq<byte>)
    requires WellFormed(es) && !HasElement(tail)
    ensures Parse(Serialize(es) + tail) == es
    ensures Trailer(Serialize(es) + tail) == tail
  {
    var ies := Serialize(es) + tail;
    if es == [] {
      assert ies == tail;
    } else {
      assert ies == Encode(es[0]) + (Serialize(es[1..]) + tail);
      assert First(ies) == es[0];
      assert Rest(ies) == Serialize(es[1..]) + tail;
      ParseSerialize(es[1..], tail);
    }
  }

  lemma EncodeFirst(ies: seq<byte>)
    requires HasElement(ies)
    ensures Encode(First(ies)) + Rest(ies) == ies
  {
  }

  lemma EncodeInjective(e: Element, f: Element)
    requires |e.body| < 256 && |f.body| < 256
    ensures Encode(e) == Encode(f) <==> e == f
  {
    assert Encode(e)[2..] == e.body && Encode(f)[2..] == f.body;
    assert Encode(e)[0] == e.id && Encode(f)[0] == f.id;
  }

  /** A buffer is the encoding of its parse followed by an incomplete rest. */
  lemma {:induction false} SerializeParse(ies: seq<byte>)
    ensures ies == Serialize(Parse(ies)) + Trailer(ies)
    ensures !HasElement(Trailer(ies))
    decreases |ies|
  {
    hide Encode, First, Rest;
    if HasElement(ies) {
      SerializeParse(Rest(ies));
      EncodeFirst(ies);
      assert Parse(ies)[1..] == Parse(Rest(ies));
    }
  }

  function Be32(b: seq<byte>): int
    requires |b| >= 4
  {
    var v: seq<int> := b;
    v[0] * 0x1000000 + v[1] * 0x10000 + v[2] * 0x100 + v[3]
  }

  predicate IsVendor(e: Element, vendorType: int) {
    e.id == WLAN_EID_VENDOR_SPECIFIC && |e.body| >= 4 && Be32(e.body) == vendorType
  }

  function FirstById(es: seq<Element>, id: byte): Option<Element> {
    if es == [] then None
    else if es[0].id == id then Some(es[0])
    else FirstById(es[1..], id)
  }

  function FirstVendor(es: seq<Element>, vendorType: int): Option<Element> {
    if es == [] then None
    else if IsVendor(es[0], vendorType) then Some(es[0])
    else FirstVendor(es[1..], vendorType)
  }

  /** The payloads of all matching vendor elements, one after the other. */
  function VendorPayload(es: seq<Element>, vendorType: int): seq<byte> {
    if es == [] then []
    else Payload(es[0], vendorType) + VendorPayload(es[1..], vendorType)
  }

  function Payload(e: Element, vendorType: int): seq<byte> {
    if IsVendor(e, vendorType) then e.body[4..] else []
  }

  // ----- the walkers

  /** The element a walker's result pointer designates. */
  function At(ies: seq<byte>, pos: Option<nat>): Option<Element>
    requires pos.Some? ==> pos.value <= |ies| && HasElement(ies[pos.value..])
  {
    if pos.None? then None else Some(First(ies[pos.value..]))
  }

  lemma ByIdStep(ies: seq<byte>, pos: nat, id: byte)
    requires pos + 1 < |ies| && pos + 2 + ies[pos + 1] <= |ies|
    ensures HasElement(ies[pos..])
    ensures FirstById(Parse(ies[pos..]), id)
         == if ies[pos] == id then Some(First(ies[pos..]))
            else FirstById(Parse(ies[pos + 2 + ies[pos + 1]..]), id)
  {
    ElementFields(ies, pos);
  }

  lemma ByIdEnd(ies: seq<byte>, id: byte)
    requires !HasElement(ies)
    ensures FirstById(Parse(ies), id) == None
  {
  }

  method GetIe(ies: seq<byte>, ie: byte) returns (r: Option<nat>)
    ensures r.Some? ==> r.value <= |ies| && HasElement(ies[r.value..])
    ensures At(ies, r) == FirstById(Parse(ies), ie)
  {
    hide Parse, FirstById, First;
    var pos, end := 0, |ies|;
    assert ies[0..] == ies;
    while pos + 1 < end
      invariant 0 <= pos <= end
      invariant FirstById(Parse(ies), ie) == FirstById(Parse(ies[pos..]), ie)
    {
      if pos + 2 + ies[pos + 1] > end {
        break;
      }
      ByIdStep(ies, pos, ie);
      if ies[pos] == ie {
        return Some(pos);
      }
      pos := pos + 2 + ies[pos + 1];
    }
    ByIdEnd(ies[pos..], ie);
    return None;
  }

  method GetVendorIe(ies: seq<byte>, vendorType: int) returns (r: Option<nat>)
    ensures r.Some? ==> r.value <= |ies| && HasElement(ies[r.value..])
    ensures At(ies, r) == FirstVendor(Parse(ies), vendorType)
  {
    hide Be32;
    var pos, end := 0, |ies|;
    assert ies[0..] == ies;
    while pos + 1 < end
      invariant 0 <= pos <= end
      invariant FirstVendor(Parse(ies), vendorType) == FirstVendor(Parse(ies[pos..]), vendorType)
    {
      if pos + 2 + ies[pos + 1] > end {
        break;
      }
      ElementFields(ies, pos);
      if ies[pos] == WLAN_EID_VENDOR_SPECIFIC && ies[pos + 1] >= 4
         && Be32(ies[pos + 2..pos + 6]) == vendorType
      {
        return Some(pos);
      }
      pos := pos + 2 + ies[pos + 1];
    }
    return None;
  }

  /** How the bytes at a position make up the element there. */
  lemma ElementFields(ies: seq<byte>, pos: nat)
    requires pos + 1 < |ies| && pos + 2 + ies[pos + 1] <= |ies|
    ensures HasElement(ies[pos..])
    ensures Rest(ies[pos..]) == ies[pos + 2 + ies[pos + 1]..]
    ensures First(ies[pos..]) == Element(ies[pos], ies[pos + 2..pos + 2 + ies[pos + 1]])
    ensures ies[pos + 1] >= 4 ==>
              && Be32(First(ies[pos..]).body) == Be32(ies[pos + 2..pos + 6])
              && First(ies[pos..]).body[4..] == ies[pos + 6..pos + 2 + ies[pos + 1]]
  {
  }

  /** The payload contributed by the element at a position. */
  lemma PayloadStep(ies: seq<byte>, pos: nat, vendorType: int)
    requires pos + 1 < |ies| && pos + 2 + ies[pos + 1] <= |ies|
    ensures VendorPayload(Parse(ies[pos..]), vendorType)
         == (if ies[pos] == WLAN_EID_VENDOR_SPECIFIC && ies[pos + 1] >= 4
                && Be32(ies[pos + 2..pos + 6]) == vendorType
             then ies[pos + 6..pos + 2 + ies[pos + 1]] else [])
          + VendorPayload(Parse(ies[pos + 2 + ies[pos + 1]..]), vendorType)
  {
    hide Be32;
    ElementFields(ies, pos);
  }

  lemma PayloadEnd(ies: seq<byte>, vendorType: int)
    requires !HasElement(ies)
    ensures VendorPayload(Parse(ies), vendorType) == []
  {
  }

  /** Collects the payloads in a buffer of as many bytes as there are element
      bytes; a write past its end would be an index error. None stands for NULL. */
  method GetVendorIeMulti(ies: seq<byte>, vendorType: int) returns (r: Option<seq<byte>>)
    ensures r == Collected(VendorPayload(Parse(ies), vendorType))
  {
    hide Be32, Parse, VendorPayload;
    var pos, end := 0, |ies|;
    var buf := new byte[|ies|](_ => 0);
    var used := 0;
    ghost var all := VendorPayload(Parse(ies), vendorType);
    ghost var left := all;
    assert ies[0..] == ies;
    while pos + 1 < end
      invariant 0 <= used <= pos <= end
      invariant left == VendorPayload(Parse(ies[pos..]), vendorType)
      invariant buf[..used] + left == all
    {
      if pos + 2 + ies[pos + 1] > end {
        break;
      }
      PayloadStep(ies, pos, vendorType);
      left := VendorPayload(Parse(ies[pos + 2 + ies[pos + 1]..]), vendorType);
      if ies[pos] == WLAN_EID_VENDOR_SPECIFIC && ies[pos + 1] >= 4
         && Be32(ies[pos + 2..pos + 6]) == vendorType
      {
        ghost var before := buf[..used];
        var data := ies[pos + 6..pos + 2 + ies[pos + 1]];
        PutData(buf, used, data);
        used := used + |data|;
        assert before + (data + left) == (before + data) + left;
      }
      pos := pos + 2 + ies[pos + 1];
    }
    PayloadEnd(ies[pos..], vendorType);
    assert buf[..used] == all;
    r := if used == 0 then None else Some(buf[..used]);
  }

  function Collected(payload: seq<byte>): Option<seq<byte>> {
    if payload == [] then None else Some(payload)
  }

  method PutData(buf: array<byte>, used: nat, data: seq<byte>)
    requires used + |data| <= buf.Length
    modifies buf
    ensures buf[..used + |data|] == old(buf[..used]) + data
  {
    var i := 0;
    while i < |data|
      invariant 0 <= i <= |data|
      invariant buf[..used] == old(buf[..used])
      invariant buf[used..used + i] == data[..i]
    {
      buf[used + i] := data[i];
      i := i + 1;
    }
  }

  // ----- change detection

  const IEEE80211_CAP_IBSS: bv16 := 0x0002
  const IEEE80211_CAP_PRIVACY: bv16 := 0x0010

  /** What change detection looks at in a BSS entry and in a scan result. */
  datatype Description = Description(freq: int, level: int, caps: bv16, ies: seq<byte>)

  datatype Change = FreqChanged | SignalChanged | PrivacyChanged | ModeChanged
                  | WpaIeChanged | RsnIeChanged | WpsChanged | RatesChanged | IesChanged

  datatype Kind = WpaVendor | WpsVendor | Rsn | SuppRates | ExtSuppRates

  /** The element a comparison of a single element is about. */
  function Leading(es: seq<Element>, kind: Kind): Option<Element> {
    match kind
    case WpaVendor => FirstVendor(es, WPA_IE_VENDOR_TYPE)
    case WpsVendor => FirstVendor(es, WPS_IE_VENDOR_TYPE)
    case Rsn => FirstById(es, WLAN_EID_RSN)
    case SuppRates => FirstById(es, WLAN_EID_SUPP_RATES)
    case ExtSuppRates => FirstById(es, WLAN_EID_EXT_SUPP_RATES)
  }

  /** Two element lists say the same about one kind: WPS data is split over
      several elements and counts as a whole, the others by their first element. */
  predicate Agree(a: seq<Element>, b: seq<Element>, kind: Kind) {
    if kind == WpsVendor
    then VendorPayload(a, WPS_IE_VENDOR_TYPE) == VendorPayload(b, WPS_IE_VENDOR_TYPE)
    else Leading(a, kind) == Leading(b, kind)
  }

  method FindLeading(ies: seq<byte>, kind: Kind) returns (r: Option<nat>)
    ensures r.Some? ==> r.value <= |ies| && HasElement(ies[r.value..])
    ensures At(ies, r) == Leading(Parse(ies), kind)
  {
    match kind {
      case WpaVendor => r := GetVendorIe(ies, WPA_IE_VENDOR_TYPE);
      case WpsVendor => r := GetVendorIe(ies, WPS_IE_VENDOR_TYPE);
      case Rsn => r := GetIe(ies, WLAN_EID_RSN);
      case SuppRates => r := GetIe(ies, WLAN_EID_SUPP_RATES);
      case ExtSuppRates => r := GetIe(ies, WLAN_EID_EXT_SUPP_RATES);
    }
  }

  lemma ElementBytes(ies: seq<byte>, pos: nat)
    requires pos <= |ies| && HasElement(ies[pos..])
    ensures ies[pos..pos + 2 + ies[pos + 1]] == Encode(First(ies[pos..]))
  {
  }

  method AreIesEqual(old_: seq<byte>, new_: seq<byte>, kind: Kind) returns (equal: bool)
    ensures equal <==> Agree(Parse(old_), Parse(new_), kind)
  {
    hide Parse, VendorPayload, Leading;
    if kind == WpsVendor {
      var ob := GetVendorIeMulti(old_, WPS_IE_VENDOR_TYPE);
      var nb := GetVendorIeMulti(new_, WPS_IE_VENDOR_TYPE);
      equal := if ob.None? || nb.None? then ob.None? && nb.None? else ob.value == nb.value;
      return;
    }
    var o := FindLeading(old_, kind);
    var n := FindLeading(new_, kind);
    if o.None? || n.None? {
      equal := o.None? && n.None?;
    } else {
      ElementBytes(old_, o.value);
      ElementBytes(new_, n.value);
      EncodeInjective(First(old_[o.value..]), First(new_[n.value..]));
      equal := old_[o.value..o.value + 2 + old_[o.value + 1]]
            == new_[n.value..n.value + 2 + new_[n.value + 1]];
    }
  }

  /** When a full comparison, check by check, reports a change. */
  predicate Reports(c: Change, o: Description, n: Description) {
    var a, b := Parse(o.ies), Parse(n.ies);
    match c
    case FreqChanged => o.freq != n.freq
    case SignalChanged => o.level != n.level
    case PrivacyChanged => o.caps & IEEE80211_CAP_PRIVACY != n.caps & IEEE80211_CAP_PRIVACY
    case ModeChanged => o.caps & IEEE80211_CAP_IBSS != n.caps & IEEE80211_CAP_IBSS
    case IesChanged => o.ies != n.ies
    case WpaIeChanged => !Agree(a, b, WpaVendor)
    case RsnIeChanged => !Agree(a, b, Rsn)
    case WpsChanged => !Agree(a, b, WpsVendor)
    case RatesChanged => !Agree(a, b, SuppRates) || !Agree(a, b, ExtSuppRates)
  }

  lemma XorMask(a: bv16, b: bv16, m: bv16)
    ensures (a ^ b) & m != 0 <==> a & m != b & m
  {
  }

  method CapsDiff(o: bv16, n: bv16) returns (privacy: bool, mode: bool)
    ensures privacy <==> o & IEEE80211_CAP_PRIVACY != n & IEEE80211_CAP_PRIVACY
    ensures mode <==> o & IEEE80211_CAP_IBSS != n & IEEE80211_CAP_IBSS
  {
    XorMask(o, n, IEEE80211_CAP_PRIVACY);
    XorMask(o, n, IEEE80211_CAP_IBSS);
    var capsDiff := o ^ n;
    privacy, mode := capsDiff & IEEE80211_CAP_PRIVACY != 0, capsDiff & IEEE80211_CAP_IBSS != 0;
  }

  function If(condition: bool, c: Change): set<Change> {
    if condition then {c} else {}
  }

  /** Compares with a shortcut for equal element bytes; the outcome is that of all the checks. */
  method CompareRes(o: Description, n: Description) returns (changes: set<Change>)
    ensures forall c :: c in changes <==> Reports(c, o, n)
  {
    hide Parse, Agree, Leading, VendorPayload;
    var privacy, mode := CapsDiff(o.caps, n.caps);
    changes := If(o.freq != n.freq, FreqChanged)
             + If(o.level != n.level, SignalChanged)
             + If(privacy, PrivacyChanged)
             + If(mode, ModeChanged);
    if |o.ies| == |n.ies| && o.ies == n.ies {
      EqualBytesAgree(o, n);
      return;
    }
    var elements := ElementChanges(o, n);
    changes := changes + {IesChanged} + elements;
  }

  /** The checks of single elements. */
  method ElementChanges(o: Description, n: Description) returns (changes: set<Change>)
    ensures forall c :: c in changes <==>
              c in {WpaIeChanged, RsnIeChanged, WpsChanged, RatesChanged} && Reports(c, o, n)
  {
    hide Parse, Agree, Leading, VendorPayload;
    var wpa := AreIesEqual(o.ies, n.ies, WpaVendor);
    var rsn := AreIesEqual(o.ies, n.ies, Rsn);
    var wps := AreIesEqual(o.ies, n.ies, WpsVendor);
    var rates := AreIesEqual(o.ies, n.ies, SuppRates);
    if rates {
      rates := AreIesEqual(o.ies, n.ies, ExtSuppRates);
    }
    changes := If(!wpa, WpaIeChanged) + If(!rsn, RsnIeChanged) + If(!wps, WpsChanged) + If(!rates, RatesChanged);
  }

  lemma EqualBytesAgree(o: Description, n: Description)
    requires o.ies == n.ies
    ensures forall kind :: Agree(Parse(o.ies), Parse(n.ies), kind)
  {
  }
}
