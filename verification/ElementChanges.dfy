/** What each reported change of a BSS is about, in terms of the elements of the old
    and the new result (wpa_supplicant/bss.c). */
module ElementChanges {
  import opened InfoElements
  import opened Wrappers

  /** The elements with an id, in order. */
  function OfId(es: seq<Element>, id: byte): seq<Element> {
    if es == [] then [] else (if es[0].id == id then [es[0]] else []) + OfId(es[1..], id)
  }

  /** The vendor elements whose first four bytes are the given ones, in order. */
  function OfVendor(es: seq<Element>, oui: seq<byte>): seq<Element> {
    if es == [] then []
    else (if es[0].id == 221 && oui <= es[0].body then [es[0]] else []) + OfVendor(es[1..], oui)
  }

  function Head(es: seq<Element>): Option<Element> {
    if es == [] then None else Some(es[0])
  }

  /** What the elements hold behind their first four bytes, one after the other. */
  function Payloads(es: seq<Element>): seq<byte> {
    if es == [] then [] else (if |es[0].body| >= 4 then es[0].body[4..] else []) + Payloads(es[1..])
  }

  const WPA_OUI: seq<byte> := [0, 0x50, 0xf2, 1]
  const WPS_OUI: seq<byte> := [0, 0x50, 0xf2, 4]

  lemma {:induction false} FirstOfId(es: seq<Element>, id: byte)
    ensures FirstById(es, id) == Head(OfId(es, id))
  {
    if es != [] {
      FirstOfId(es[1..], id);
    }
  }

  lemma VendorOui(e: Element)
    ensures IsVendor(e, WPA_IE_VENDOR_TYPE) <==> e.id == 221 && WPA_OUI <= e.body
    ensures IsVendor(e, WPS_IE_VENDOR_TYPE) <==> e.id == 221 && WPS_OUI <= e.body
  {
    if |e.body| >= 4 {
      assert e.body[..4] == [e.body[0], e.body[1], e.body[2], e.body[3]];
      assert WPA_OUI <= e.body <==> e.body[..4] == WPA_OUI;
      assert WPS_OUI <= e.body <==> e.body[..4] == WPS_OUI;
    }
  }

  lemma {:induction false} FirstOfVendor(es: seq<Element>)
    ensures FirstVendor(es, WPA_IE_VENDOR_TYPE) == Head(OfVendor(es, WPA_OUI))
  {
    hide IsVendor;
    if es != [] {
      VendorOui(es[0]);
      FirstOfVendor(es[1..]);
    }
  }

  lemma {:induction false} PayloadOfVendor(es: seq<Element>)
    ensures VendorPayload(es, WPS_IE_VENDOR_TYPE) == Payloads(OfVendor(es, WPS_OUI))
  {
    hide IsVendor;
    if es != [] {
      VendorOui(es[0]);
      PayloadOfVendor(es[1..]);
      var rest := OfVendor(es[1..], WPS_OUI);
      assert ([es[0]] + rest)[1..] == rest && [] + rest == rest;
      Nothing(Payloads(rest));
    }
  }

  lemma Nothing(s: seq<byte>)
    ensures [] + s == s
  {
  }

  /** Every change is reported exactly if what it is about differs: the frequency, the
      level, the privacy and the ad-hoc bit of the capabilities, the element bytes,
      the first WPA element, the first RSN element, all WPS data taken together, or
      the first element of supported or of extended supported rates. */
  lemma ChangesExact(o: Description, n: Description)
    ensures var a, b := Parse(o.ies), Parse(n.ies);
            && (Reports(FreqChanged, o, n) <==> o.freq != n.freq)
            && (Reports(SignalChanged, o, n) <==> o.level != n.level)
            && (Reports(PrivacyChanged, o, n) <==> o.caps & 0x10 != n.caps & 0x10)
            && (Reports(ModeChanged, o, n) <==> o.caps & 2 != n.caps & 2)
            && (Reports(IesChanged, o, n) <==> o.ies != n.ies)
            && (Reports(WpaIeChanged, o, n) <==> Head(OfVendor(a, WPA_OUI)) != Head(OfVendor(b, WPA_OUI)))
            && (Reports(RsnIeChanged, o, n) <==> Head(OfId(a, 48)) != Head(OfId(b, 48)))
            && (Reports(WpsChanged, o, n) <==> Payloads(OfVendor(a, WPS_OUI)) != Payloads(OfVendor(b, WPS_OUI)))
            && (Reports(RatesChanged, o, n)
                <==> Head(OfId(a, 1)) != Head(OfId(b, 1)) || Head(OfId(a, 50)) != Head(OfId(b, 50)))
  {
    hide Parse, OfId, OfVendor, Payloads, FirstById, FirstVendor, VendorPayload;
    var a, b := Parse(o.ies), Parse(n.ies);
    forall es | es == a || es == b
      ensures && FirstById(es, WLAN_EID_RSN) == Head(OfId(es, 48))
              && FirstById(es, WLAN_EID_SUPP_RATES) == Head(OfId(es, 1))
              && FirstById(es, WLAN_EID_EXT_SUPP_RATES) == Head(OfId(es, 50))
              && FirstVendor(es, WPA_IE_VENDOR_TYPE) == Head(OfVendor(es, WPA_OUI))
              && VendorPayload(es, WPS_IE_VENDOR_TYPE) == Payloads(OfVendor(es, WPS_OUI))
    {
      FirstOfId(es, WLAN_EID_RSN);
      FirstOfId(es, WLAN_EID_SUPP_RATES);
      FirstOfId(es, WLAN_EID_EXT_SUPP_RATES);
      FirstOfVendor(es);
      PayloadOfVendor(es);
    }
  }
}
