/** Whether a scan result can be used with a configured network
    (wpa_supplicant/events.c), in the build without WPS and 802.11w. */
module Matching {
  import opened BssTable
  import opened InfoElements
  import opened Networks
  import opened Wrappers

  const WPA_CIPHER_WEP40: bv16 := 2
  const WPA_CIPHER_WEP104: bv16 := 4
  const WPA_KEY_MGMT_IEEE8021X: bv16 := 1
  const WPA_KEY_MGMT_PSK: bv16 := 2
  const WPA_KEY_MGMT_NONE: bv16 := 4
  const WPA_KEY_MGMT_IEEE8021X_NO_WPA: bv16 := 8
  const WPA_KEY_MGMT_FT_IEEE8021X: bv16 := 32
  const WPA_KEY_MGMT_FT_PSK: bv16 := 64
  const WPA_KEY_MGMT_IEEE8021X_SHA256: bv16 := 128
  const WPA_KEY_MGMT_PSK_SHA256: bv16 := 256
  const WPA_KEY_MGMT_WPS: bv16 := 512
  const WPA_PROTO_WPA: bv16 := 1
  const WPA_PROTO_RSN: bv16 := 2
  const EAPOL_FLAG_REQUIRE_KEY_UNICAST: bv16 := 1
  const EAPOL_FLAG_REQUIRE_KEY_BROADCAST: bv16 := 2

  /** What a parsed WPA or RSN element offers. */
  datatype IeData = IeData(proto: bv16, pairwiseCipher: bv16, groupCipher: bv16, keyMgmt: bv16)

  /** The element parser, a function of the bytes; None stands for a parse failure. */
  type Parser = seq<byte> -> Option<IeData>

  predicate WpaKeyMgmt(keyMgmt: bv16) {
    keyMgmt & (WPA_KEY_MGMT_IEEE8021X | WPA_KEY_MGMT_FT_IEEE8021X | WPA_KEY_MGMT_IEEE8021X_SHA256
               | WPA_KEY_MGMT_PSK | WPA_KEY_MGMT_FT_PSK | WPA_KEY_MGMT_PSK_SHA256) != 0
  }

  // ----- what a match is

  function SsidBytes(res: ScanRes): seq<byte> {
    var e := FirstById(Parse(res.ies), WLAN_EID_SSID);
    if e.Some? then e.value.body else []
  }

  function RsnOf(res: ScanRes): Option<Element> {
    FirstById(Parse(res.ies), WLAN_EID_RSN)
  }

  function WpaOf(res: ScanRes): Option<Element> {
    FirstVendor(Parse(res.ies), WPA_IE_VENDOR_TYPE)
  }

  /** The result announces WPA or WPA2. */
  predicate Protected(res: ScanRes) {
    (WpaOf(res).Some? && WpaOf(res).value.body != []) || (RsnOf(res).Some? && RsnOf(res).value.body != [])
  }

  /** WEP may be used without WPA. */
  ghost predicate WepOk(s: Settings)
  {
    && !WpaKeyMgmt(s.keyMgmt)
    && (|| (s.keyMgmt & WPA_KEY_MGMT_NONE != 0 && s.wepKeys[s.wepTxKeyIdx] != [])
        || s.keyMgmt & WPA_KEY_MGMT_IEEE8021X_NO_WPA != 0)
  }

  /** Two masks have a bit in common. */
  predicate Share(a: bv16, b: bv16) {
    a & b != 0
  }

  /** The offer has something in common with the settings in each respect. */
  ghost predicate Overlaps(ie: IeData, s: Settings) {
    && Share(ie.proto, s.proto)
    && Share(ie.pairwiseCipher, s.pairwiseCipher)
    && Share(ie.groupCipher, s.groupCipher)
    && Share(ie.keyMgmt, s.keyMgmt)
  }

  /** One announced element is enough for the network to use the result. */
  ghost predicate Suffices(parse: Parser, s: Settings, proto: bv16, e: Option<Element>)
    requires e.Some? ==> |e.value.body| < 256
  {
    && s.proto & proto != 0 && e.Some? && parse(Encode(e.value)).Some?
    && var ie := parse(Encode(e.value)).value;
       || (WepOk(s) && Share(ie.groupCipher, WPA_CIPHER_WEP40 | WPA_CIPHER_WEP104))
       || Overlaps(ie, s)
  }

  ghost predicate Secure(parse: Parser, s: Settings, res: ScanRes)
  {
    ElementLengths(res.ies);
    || !WpaKeyMgmt(s.keyMgmt)
    || Suffices(parse, s, WPA_PROTO_RSN, RsnOf(res))
    || Suffices(parse, s, WPA_PROTO_WPA, WpaOf(res))
  }

  /** The network encrypts without WPA. */
  ghost predicate UsesWep(s: Settings)
  {
    || (exists i :: 0 <= i < NUM_WEP_KEYS && s.wepKeys[i] != [])
    || (&& s.keyMgmt & WPA_KEY_MGMT_IEEE8021X_NO_WPA != 0
        && s.eapolFlags & (EAPOL_FLAG_REQUIRE_KEY_UNICAST | EAPOL_FLAG_REQUIRE_KEY_BROADCAST) != 0)
  }

  ghost predicate PrivacyMatches(s: Settings, res: ScanRes)
  {
    s.mixedCell || (res.radio.caps & IEEE80211_CAP_PRIVACY != 0 <==> UsesWep(s))
  }

  /** A result without WPA suits a network that allows plain association. */
  ghost predicate Plain(s: Settings, res: ScanRes)
  {
    && s.keyMgmt & (WPA_KEY_MGMT_NONE | WPA_KEY_MGMT_WPS | WPA_KEY_MGMT_IEEE8021X_NO_WPA) != 0
    && PrivacyMatches(s, res)
    && res.radio.caps & IEEE80211_CAP_IBSS == 0
  }

  /** The network can use the result. */
  ghost predicate Admits(parse: Parser, s: Settings, res: ScanRes)
  {
    && !s.disabled
    && SsidBytes(res) != []
    && (s.ssid == SsidBytes(res) || (s.ssid == [] && !Protected(res)))
    && (s.bssid.Some? ==> s.bssid.value == res.bssid)
    && Secure(parse, s, res)
    && (!Protected(res) ==> Plain(s, res))
    && (s.freqList.Some? ==> res.radio.freq in s.freqList.value)
  }

  // ----- how the program finds out

  lemma {:induction false} FirstLengths(es: seq<Element>, id: byte, vendorType: int)
    requires WellFormed(es)
    ensures FirstById(es, id).Some? ==> |FirstById(es, id).value.body| < 256
    ensures FirstVendor(es, vendorType).Some? ==> |FirstVendor(es, vendorType).value.body| < 256
  {
    if es != [] {
      assert es[0] in es;
      FirstLengths(es[1..], id, vendorType);
    }
  }

  lemma ElementLengths(ies: seq<byte>)
    ensures var e := FirstById(Parse(ies), WLAN_EID_RSN); e.Some? ==> |e.value.body| < 256
    ensures var e := FirstVendor(Parse(ies), WPA_IE_VENDOR_TYPE); e.Some? ==> |e.value.body| < 256
  {
    FirstLengths(Parse(ies), WLAN_EID_RSN, WPA_IE_VENDOR_TYPE);
  }

  method MatchPrivacy(s: Settings, res: ScanRes) returns (r: bool)
    ensures r <==> PrivacyMatches(s, res)
  {
    if s.mixedCell {
      return true;
    }
    var privacy := false;
    var i := 0;
    while i < NUM_WEP_KEYS
      invariant 0 <= i <= NUM_WEP_KEYS && !privacy
      invariant forall j :: 0 <= j < i ==> s.wepKeys[j] == []
    {
      if |s.wepKeys[i]| != 0 {
        privacy := true;
        break;
      }
      i := i + 1;
    }
    if s.keyMgmt & WPA_KEY_MGMT_IEEE8021X_NO_WPA != 0
       && s.eapolFlags & (EAPOL_FLAG_REQUIRE_KEY_UNICAST | EAPOL_FLAG_REQUIRE_KEY_BROADCAST) != 0
    {
      privacy := true;
    }
    if res.radio.caps & IEEE80211_CAP_PRIVACY != 0 {
      return privacy;
    }
    return !privacy;
  }

  /** Checks one parsed element against the settings. */
  method ElementMatch(s: Settings, wepOk: bool, ie: IeData) returns (r: bool)
    requires wepOk <==> WepOk(s)
    ensures r <==> (wepOk && Share(ie.groupCipher, WPA_CIPHER_WEP40 | WPA_CIPHER_WEP104)) || Overlaps(ie, s)
  {
    hide WepOk, Share;
    if wepOk && Share(ie.groupCipher, WPA_CIPHER_WEP40 | WPA_CIPHER_WEP104) {
      return true;
    }
    if !Share(ie.proto, s.proto) {
      return false;
    }
    if !Share(ie.pairwiseCipher, s.pairwiseCipher) {
      return false;
    }
    if !Share(ie.groupCipher, s.groupCipher) {
      return false;
    }
    if !Share(ie.keyMgmt, s.keyMgmt) {
      return false;
    }
    return true;
  }

  method SsidBssMatch(parse: Parser, s: Settings, res: ScanRes) returns (r: bool)
    ensures r <==> Secure(parse, s, res)
  {
    hide Parse, FirstById, FirstVendor, First, Overlaps, Share;
    ElementLengths(res.ies);
    var protoMatch := 0;
    var wepOk := !WpaKeyMgmt(s.keyMgmt)
      && ((s.keyMgmt & WPA_KEY_MGMT_NONE != 0 && |s.wepKeys[s.wepTxKeyIdx]| > 0)
          || s.keyMgmt & WPA_KEY_MGMT_IEEE8021X_NO_WPA != 0);
    var rsn := GetIe(res.ies, WLAN_EID_RSN);
    if s.proto & WPA_PROTO_RSN != 0 && rsn.Some? {
      protoMatch := protoMatch + 1;
      ElementBytes(res.ies, rsn.value);
      var ie := parse(res.ies[rsn.value..rsn.value + 2 + res.ies[rsn.value + 1]]);
      if ie.Some? {
        var fits := ElementMatch(s, wepOk, ie.value);
        if fits {
          return true;
        }
      }
    }
    var wpa := GetVendorIe(res.ies, WPA_IE_VENDOR_TYPE);
    if s.proto & WPA_PROTO_WPA != 0 && wpa.Some? {
      protoMatch := protoMatch + 1;
      ElementBytes(res.ies, wpa.value);
      var ie := parse(res.ies[wpa.value..wpa.value + 2 + res.ies[wpa.value + 1]]);
      if ie.Some? {
        var fits := ElementMatch(s, wepOk, ie.value);
        if fits {
          return true;
        }
      }
    }
    if s.proto & (WPA_PROTO_WPA | WPA_PROTO_RSN) != 0 && WpaKeyMgmt(s.keyMgmt) && protoMatch == 0 {
      return false;
    }
    if !WpaKeyMgmt(s.keyMgmt) {
      return true;
    }
    return false;
  }

  method FreqAllowed(freqs: Option<seq<int>>, freq: int) returns (r: bool)
    ensures r <==> (freqs.Some? ==> freq in freqs.value)
  {
    if freqs.None? {
      return true;
    }
    var i := 0;
    while i < |freqs.value|
      invariant 0 <= i <= |freqs.value|
      invariant forall j :: 0 <= j < i ==> freqs.value[j] != freq
    {
      if freqs.value[i] == freq {
        return true;
      }
      i := i + 1;
    }
    return false;
  }
}
