/** A configured network (struct wpa_ssid) as far as priorities and matching use it. */
module Networks {
  import opened InfoElements
  import opened Wrappers

  const NUM_WEP_KEYS := 4

  /** The WEP keys, an unset one being empty. */
  type WepKeys = k: seq<seq<byte>> | |k| == NUM_WEP_KEYS witness [[], [], [], []]

  type WepKeyIdx = i: nat | i < NUM_WEP_KEYS

  /** freqList is the list of allowed frequencies up to its terminating zero, None
      standing for NULL. */
  datatype Settings = Settings(
    disabled: bool,
    ssid: seq<byte>,
    bssid: Option<Mac>,
    proto: bv16,
    keyMgmt: bv16,
    pairwiseCipher: bv16,
    groupCipher: bv16,
    wepKeys: WepKeys,
    wepTxKeyIdx: WepKeyIdx,
    eapolFlags: bv16,
    mixedCell: bool,
    freqList: Option<seq<int>>)

  datatype Network = Network(id: nat, priority: int, settings: Settings)
}
