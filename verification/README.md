# A verified model of the station side of wpa_supplicant 0.8

The Dafny files in this directory model the parts of wpa_supplicant 0.8 (and of
the SIM gateway of hostapd 0.8) that keep state over time, and prove what they
promise over whole runs. `dafny verify dfyconfig.toml` checks everything.

Most components come in two layers. The lower layer has the form of the program:
classes with its fields, linked lists with their pointers, arrays and buffers, and
methods with its loops. The upper layer is a function on values for each operation.
The methods are proved to do what the functions say; the theorems about runs are
proved about the functions.

| files | component |
|---|---|
| `BssTable*`, `BssRounds`, `BssStore`, `BssLists`, `DlList` | the BSS table: two lists at once, capacity, expiry by missed scans and by age |
| `InfoElements`, `ElementChanges` | walking information elements (IEEE 802.11-2007 section 7.3.2) and detecting changes |
| `ScanSsids`, `ScanFreqs`, `Cyclic` | scan requests: SSID rotation and the union of frequency lists |
| `Networks`, `PriorityGroups`, `NetworkList` | configured networks and their priority groups, chained by pointers |
| `Blacklist`, `Matching`, `Selection*` | which BSS and network to try, and fairness over failed attempts |
| `Config*`, `WordList`, `FreqText`, `Decimal`, `TextBuffer` | the configuration file: writing it and reading it back |
| `MlmeScan`, `MlmeProbes`, `MlmeAuth`, `MlmeRetry`, `MlmeAssociation`, `MlmeBss` | the client MLME: channel scan and probing, retries, what an association rests on, hash index |
| `IbssRsn` | key choice in ad-hoc networks (IEEE 802.11-2007 section 8.4.9) |
| `GsmTriplets` | rotation through stored SIM triplets (compare RFC 4186 section 10.9) |

Where the code and what is promised of it differ, the code is modelled and the exact
condition is proved:

- With `bss_expiration_scan_count` 0, an entry updated in the very scan that ends is
  removed all the same (`BssTableRuns.ZeroCountExpiresUpdated`).
- The age flush stops at the first fresh entry, which loses stale ones exactly when one
  stands behind a fresh one (`BssTableAges.FlushByAgeExact`); a scan with results of
  different age leads there (`BssTableAges.OldEntryMissed`).
- A selection gives up on a priority group when its first usable result is not in the
  BSS table. `Selection.NullDespiteUsable` has the exact condition under which "nothing
  chosen" still means "nothing usable", `SelectionRounds.PickAfterRound` one that holds
  after every round whose usable results are stored, and
  `SelectionRounds.NullWithAccessPoint` a round where it fails.
- So a blacklist can be cleared while something usable is left. No BSSID is picked more
  often than the limit allows whatever happens, and the rounds of attempts are complete
  exactly as long as no clear is premature (`SelectionRuns.RunsAreRounds`);
  `SelectionStarvation.Starvation` is a scene in which an access point is never tried.
- A network that is written and read comes back unchanged exactly when four things hold
  (`ConfigFile.NetworkRoundTrip`), and a whole file exactly when all its networks do
  (`ConfigFile.FileExact`):
  - Its lines have at most 255 characters, which only that of id_str can exceed
    (`ConfigFile.OnlyIdStrCut`). A longer line is cut into pieces that are read as lines
    of their own: exactly then a string field does not survive
    (`ConfigCut.StringFieldExact`), and what is left of the line can set another field
    without an error (`ConfigCutExample.CutSetsDisabled`).
  - Its passphrase has no newline. Set in one piece such a passphrase is accepted, but
    no file yields it (`ConfigFile.ReadNetworkExact`), and the network is lost
    (`ConfigLostExamples.NewlineLosesNetwork`).
  - Its lists of protocols, key management and ciphers are not empty, and the fields
    that are never written have their defaults (`ConfigFile.KeptFields`). A refused word
    list leaves an empty one behind, and validation can empty that of group ciphers
    (`ConfigLostExamples.GroupEmptied`).
  - Validation accepts it: it refuses a network that lacks a pre-shared key, and drops
    CCMP from a group cipher list that the pairwise list does not support.

  For a network that itself came from a file this leaves three conditions
  (`ConfigRewrite.RewriteExact`).
- A comment behind a value is removed only if it has no quote, or a single one behind a
  text without quotes (`ConfigComment.CommentCut`). Behind a passphrase a comment in
  quotes becomes part of the key (`ConfigComment.CommentJoinsKey`).
- The mode of the network in use can be changed without starting authentication anew
  (ctrl_iface.c:1489-1542), and an ad-hoc reply makes room for one more answer to a
  challenge. So 3 such answers are the limit exactly as long as there is no ad-hoc
  reply, and each of these adds one (`MlmeAuth.ChallengeBound`,
  `MlmeAuth.ThreeAnswersExact`).

Things the model fixes: counters do not wrap, memory allocation succeeds, and objects
have identity instead of addresses. `realloc` moves an entry or not as the caller of
the model says. Scan results arrive in an arbitrary order. Clock readings, driver
answers, parsed security elements and the outcome of header checks are parameters.

## Model

Several rows name a method next to the lemmas about it: the method's contract ties the
state after it to a function of the state before, and the lemmas say what that function
promises. Where such a function reads like its method, further lemmas say what it means
in terms of bytes, bits, words and counts.

| member | source | states |
|---|---|---|
| `BssStore.Store.Get` | wpa_supplicant_hostapd-0.8_rtw_r7475.20130812/wpa_supplicant/bss.c:57-68 | The entry with exactly this BSSID and SSID, or none. |
| `BssStore.Store.RemoveBss` | wpa_supplicant_hostapd-0.8_rtw_r7475.20130812/wpa_supplicant/bss.c:44-54 | Both lists lose exactly that object, the count drops by one and the other entries keep their order. |
| `BssStore.Store.AddBss` | wpa_supplicant_hostapd-0.8_rtw_r7475.20130812/wpa_supplicant/bss.c:96-126 | Both lists gain the new entry at the end under the next id; over capacity the least recently updated entry goes. The invariant holds again. |
| `BssStore.Store.StoreElements` | wpa_supplicant_hostapd-0.8_rtw_r7475.20130812/wpa_supplicant/bss.c:270-287 | The new elements are stored; when the entry has to grow and moves, the new object stands on the id list exactly where the old one stood. |
| `DlList.Add` | wpa_supplicant_hostapd-0.8_rtw_r7475.20130812/src/utils/list.h:32-38 | Links an item behind any link of a circular list; following next and prev goes round the old links with the item between them. |
| `DlList.Del` | wpa_supplicant_hostapd-0.8_rtw_r7475.20130812/src/utils/list.h:45-51 | Takes an item out; following next and prev goes round the others, and the item points nowhere. |
| `DlList.MoveToTail` | wpa_supplicant_hostapd-0.8_rtw_r7475.20130812/wpa_supplicant/bss.c:267-289 | The item moved is last, and the others keep their order in both directions. |
| `DlList.Reallocate` | wpa_supplicant_hostapd-0.8_rtw_r7475.20130812/wpa_supplicant/bss.c:275-286 | Taken out, reallocated and linked behind its remembered predecessor, an item is where it was, in both directions, whether or not it has moved. |
| `BssLists.Lists.RemoveBss` | wpa_supplicant_hostapd-0.8_rtw_r7475.20130812/wpa_supplicant/bss.c:44-54 | Taking an entry off both circular lists by its links keeps them the lists of the table: following the links of either gives the entries that the value-level removal leaves, in order. |
| `BssLists.Lists.LinkNew` | wpa_supplicant_hostapd-0.8_rtw_r7475.20130812/wpa_supplicant/bss.c:96-126 | Linking a new entry at the tail of both circular lists keeps them the lists of the table. |
| `BssLists.Lists.MoveToEnd` | wpa_supplicant_hostapd-0.8_rtw_r7475.20130812/wpa_supplicant/bss.c:257-291 | An update on the links (off the one list, out of its place on the other and back behind its predecessor when it is reallocated, to the tail of the one) keeps both circular lists those of the table after the value-level update. |
| `BssStore.Store.UpdateBss` | wpa_supplicant_hostapd-0.8_rtw_r7475.20130812/wpa_supplicant/bss.c:257-291 | The updated entry is at the recent end with its id and key kept and its miss count cleared; its radio data and elements are those of the result and its time that of the data; the pointer current_bss is lost when the object moves, which it does only if the elements do not fit. |
| `BssStore.Store.Associate` | wpa_supplicant_hostapd-0.8_rtw_r7475.20130812/wpa_supplicant/events.c:1218-1251 | Sets current_bss and the two BSSIDs, which decide what counts as in use; both lists and the invariant are unchanged. |
| `BssStore.Store.UpdateStart` | wpa_supplicant_hostapd-0.8_rtw_r7475.20130812/wpa_supplicant/bss.c:302-307 | A new scan number; everything else unchanged. |
| `BssStore.Store.UpdateScanRes` | wpa_supplicant_hostapd-0.8_rtw_r7475.20130812/wpa_supplicant/bss.c:310-340 | Skips results without SSID, with an SSID over 32 bytes or with the P2P wildcard, updates a known entry and adds an unknown one; the lists hold what the value-level table holds. |
| `BssStore.Store.BssInUse` | wpa_supplicant_hostapd-0.8_rtw_r7475.20130812/wpa_supplicant/bss.c:294-299 | True exactly for the current BSS and for the associated or pending BSSID. |
| `BssStore.Store.IncludedInScan` | wpa_supplicant_hostapd-0.8_rtw_r7475.20130812/wpa_supplicant/bss.c:343-381 | True exactly when the scanned frequencies and SSIDs, where given, include the entry. |
| `BssStore.Store.UpdateEnd` | wpa_supplicant_hostapd-0.8_rtw_r7475.20130812/wpa_supplicant/bss.c:384-406 | Removing during the walk has the effect of the value-level walk: misses are counted and entries expire, on both lists at once. |
| `BssStore.Store.GetScanResults` | wpa_supplicant_hostapd-0.8_rtw_r7475.20130812/wpa_supplicant/scan.c:808-811 | One round (start, every result in order, end) takes the table to what the same round makes of its value, and keeps the invariant. |
| `BssStore.Store.FlushByAge` | wpa_supplicant_hostapd-0.8_rtw_r7475.20130812/wpa_supplicant/bss.c:409-431 | The early-exit walk over objects has the effect of the value-level age flush. |
| `BssStore.Store.Flush` | wpa_supplicant_hostapd-0.8_rtw_r7475.20130812/wpa_supplicant/bss.c:454-466 | Every entry not in use is removed from both lists. |
| `BssStore.RoundIsRun` | wpa_supplicant_hostapd-0.8_rtw_r7475.20130812/wpa_supplicant/scan.c:808-811 | A round of results is a run of table events, so what is proved of runs holds of rounds. |
| `BssTable.LastUpdateExact` | wpa_supplicant_hostapd-0.8_rtw_r7475.20130812/wpa_supplicant/bss.c:71-93 | The stored time is now minus the age exactly in microseconds, with a normalised microsecond part. |
| `BssTable.TimeBeforeExact` | wpa_supplicant_hostapd-0.8_rtw_r7475.20130812/wpa_supplicant/bss.c:409-431 | Comparing seconds, then microseconds, compares instants. |
| `BssTableContents.SsidExact` | wpa_supplicant_hostapd-0.8_rtw_r7475.20130812/wpa_supplicant/bss.c:310-340 | A result is stored under an SSID if and only if that is its first SSID element, of at most 32 bytes, and not DIRECT- beside a Wi-Fi Direct element. |
| `BssTableContents.ResultContents` | wpa_supplicant_hostapd-0.8_rtw_r7475.20130812/wpa_supplicant/bss.c:257-340 | After a result the entry with its key holds its radio data, elements and time, and every other entry is one that was listed. |
| `BssTableContents.HoldsLatest` | wpa_supplicant_hostapd-0.8_rtw_r7475.20130812/wpa_supplicant/bss.c:71-340 | After any run, each entry holds what the latest result with its key said: frequency, level and the other radio data, both kinds of elements, and the time of the data. Nothing else in the run has changed them. |
| `BssTableContents.AssociationExact` | wpa_supplicant_hostapd-0.8_rtw_r7475.20130812/wpa_supplicant/events.c:1218-1251 | After any run the associated and the pending BSSID are those that the latest association event set. |
| `BssTableContents.CurrentExact` | wpa_supplicant_hostapd-0.8_rtw_r7475.20130812/wpa_supplicant/bss.c:44-406 | Only an association sets the pointer to the current BSS; any other event loses it exactly when the entry moves because it has to grow, or is given up. |
| `BssTableContents.AssociatedStays` | wpa_supplicant_hostapd-0.8_rtw_r7475.20130812/wpa_supplicant/bss.c:294-466 | After any run, an entry with the associated or the pending BSSID comes unchanged through a scan end, an age flush and a full flush. |
| `BssTableContents.SparedExactly` | wpa_supplicant_hostapd-0.8_rtw_r7475.20130812/wpa_supplicant/bss.c:343-406 | After any run, the end of a new scan leaves an entry not seen in it as it is if and only if it is the current BSS or has the associated or pending BSSID, or the scan was of other frequencies, or of other SSIDs without the wildcard. |
| `BssTableInvariant.RemoveKeepsSound` | wpa_supplicant_hostapd-0.8_rtw_r7475.20130812/wpa_supplicant/bss.c:44-54 | Removal takes one entry out of both lists and nothing else, and keeps them consistent. |
| `BssTableInvariant.AddKeepsInv` | wpa_supplicant_hostapd-0.8_rtw_r7475.20130812/wpa_supplicant/bss.c:96-126 | Adding keeps: same entries on both lists, once each; unique keys; ids ascending; update order; count equal to length and within capacity. |
| `BssTableInvariant.UpdateKeepsSound` | wpa_supplicant_hostapd-0.8_rtw_r7475.20130812/wpa_supplicant/bss.c:257-291 | An update replaces an entry by one with the same id and key at the recent end and keeps the lists consistent. |
| `BssTableInvariant.ScanResKeepsInv` | wpa_supplicant_hostapd-0.8_rtw_r7475.20130812/wpa_supplicant/bss.c:310-340 | Any scan result keeps the whole invariant. |
| `BssTableInvariant.EvictsLeastRecent` | wpa_supplicant_hostapd-0.8_rtw_r7475.20130812/wpa_supplicant/bss.c:96-126 | In a full table the entry given up is the first of the update list, its update index is the least of all, and nothing else is lost. |
| `BssTableRuns.StepKeepsInv` | wpa_supplicant_hostapd-0.8_rtw_r7475.20130812/wpa_supplicant/bss.c:44-126 | Every event (result, scan start and end, age flush, flush, association) keeps the invariant. |
| `BssTableRuns.ReachableInv` | wpa_supplicant_hostapd-0.8_rtw_r7475.20130812/wpa_supplicant/bss.c:44-126 | The invariant holds after every run. |
| `BssTableRuns.MissCountExact` | wpa_supplicant_hostapd-0.8_rtw_r7475.20130812/wpa_supplicant/bss.c:384-406 | After every run, scan_miss_count is the number of new scans since the entry's last update that covered it, found it not in use and did not see it. |
| `BssTableRuns.ScanEndExpiresExactly` | wpa_supplicant_hostapd-0.8_rtw_r7475.20130812/wpa_supplicant/bss.c:384-406 | With an expiration count of at least one, a new scan removes an entry if and only if it exposed the entry and its misses reach the count; an entry updated in that scan stays. |
| `BssTableRuns.ZeroCountExpiresUpdated` | wpa_supplicant_hostapd-0.8_rtw_r7475.20130812/wpa_supplicant/bss.c:384-406 | With a count of zero the promise to keep updated entries fails: exactly the entries in use or not covered stay. |
| `BssTableRuns.TimelyRunInOrder` | wpa_supplicant_hostapd-0.8_rtw_r7475.20130812/wpa_supplicant/bss.c:71-93 | With results of age 0 and a clock that does not go back, the update list is in time order after every run. |
| `BssTableRuns.AgeFlushExact` | wpa_supplicant_hostapd-0.8_rtw_r7475.20130812/wpa_supplicant/bss.c:409-431 | In such runs an age flush keeps an entry if and only if it is in use or not older than the limit. |
| `BssTableExpiry.UpdateEndFilters` | wpa_supplicant_hostapd-0.8_rtw_r7475.20130812/wpa_supplicant/bss.c:384-406 | Expiring while walking the list leaves what filtering the list leaves. |
| `BssTableExpiry.SurvivorsExact` | wpa_supplicant_hostapd-0.8_rtw_r7475.20130812/wpa_supplicant/bss.c:384-406 | The entries after a scan end are exactly those that the rule for one entry keeps, each as that rule leaves it. |
| `BssTableExpiry.FlushLoop` | wpa_supplicant_hostapd-0.8_rtw_r7475.20130812/wpa_supplicant/bss.c:409-431 | The age loop removes stale entries up to the first fresh one not in use, and keeps both lists consistent. |
| `BssTableExpiry.EarlyExitExact` | wpa_supplicant_hostapd-0.8_rtw_r7475.20130812/wpa_supplicant/bss.c:409-431 | Stopping early removes what a full filter removes if and only if no stale entry stands behind a fresh one. |
| `BssTableAges.FlushByAgeExact` | wpa_supplicant_hostapd-0.8_rtw_r7475.20130812/wpa_supplicant/bss.c:409-431 | The same of the flush itself, after any run. |
| `BssTableAges.OldEntryMissed` | wpa_supplicant_hostapd-0.8_rtw_r7475.20130812/wpa_supplicant/bss.c:71-93 | One scan whose second result is a minute old leads to a flush that keeps an entry 70 seconds old where 30 are allowed. |
| `BssTableExpiry.FlushOnlyStale` | wpa_supplicant_hostapd-0.8_rtw_r7475.20130812/wpa_supplicant/bss.c:409-431 | Whatever the order, only entries too old and not in use are removed. |
| `BssTableExpiry.TimeOrderedFlushExact` | wpa_supplicant_hostapd-0.8_rtw_r7475.20130812/wpa_supplicant/bss.c:409-431 | On a list in time order the early exit loses nothing. |
| `BssTableExpiry.FlushKeepsInUse` | wpa_supplicant_hostapd-0.8_rtw_r7475.20130812/wpa_supplicant/bss.c:454-466 | A full flush keeps exactly the entries in use, in order. |
| `BssTableLru.RecencyExact` | wpa_supplicant_hostapd-0.8_rtw_r7475.20130812/wpa_supplicant/bss.c:96-126 | The reference history lists each key seen exactly once. |
| `BssTableLru.RecencyOrdered` | wpa_supplicant_hostapd-0.8_rtw_r7475.20130812/wpa_supplicant/bss.c:96-126 | It lists them in order of last sighting. |
| `BssTableLru.HoldsMostRecent` | wpa_supplicant_hostapd-0.8_rtw_r7475.20130812/wpa_supplicant/bss.c:96-126 | In runs in which nothing expires the table holds exactly the most recently seen keys, as many as fit, in that order: it is a bounded LRU map. |
| `BssTableSightings.EveryRunInSightOrder` | wpa_supplicant_hostapd-0.8_rtw_r7475.20130812/wpa_supplicant/bss.c:96-126 | After any run, with scan ends, age flushes and full flushes in it, every listed key has been seen, and the list is in strict order of last sighting. |
| `BssTableSightings.LossExact` | wpa_supplicant_hostapd-0.8_rtw_r7475.20130812/wpa_supplicant/bss.c:44-466 | After any run, an event takes a key off the list if and only if: a new key finds the list full and this key is its first; or a new scan ends and the entry has missed too many; or it is stale and no fresh entry is before it at an age flush; or it is not in use at a full flush. |
| `BssTableSightings.EvictsLongestUnseen` | wpa_supplicant_hostapd-0.8_rtw_r7475.20130812/wpa_supplicant/bss.c:96-126 | After any run, the key that makes room for a new one was last seen before every other listed key, and the table was full. |
| `BssRounds.ResultsHoldRecent` | wpa_supplicant_hostapd-0.8_rtw_r7475.20130812/wpa_supplicant/bss.c:302-340 | Taking the results of a round leaves the keys that were listed before and those of the round, by last sighting, as many as fit. |
| `BssRounds.RoundListed` | wpa_supplicant_hostapd-0.8_rtw_r7475.20130812/wpa_supplicant/scan.c:808-811 | At the end of a round, every result that can be stored is listed if and only if the table has room for as many different keys; the expiration count has to be at least one when a new scan ends. |
| `InfoElements.ParseSerialize` | wpa_supplicant_hostapd-0.8_rtw_r7475.20130812/wpa_supplicant/bss.c:499-566 | Parsing what was serialised gives the same elements and stops at the incomplete rest. |
| `InfoElements.SerializeParse` | wpa_supplicant_hostapd-0.8_rtw_r7475.20130812/wpa_supplicant/bss.c:499-566 | Every buffer is the serialisation of its parse plus an incomplete rest. |
| `InfoElements.GetIe` | wpa_supplicant_hostapd-0.8_rtw_r7475.20130812/wpa_supplicant/bss.c:499-515 | Points at the first complete element with the id, or is NULL when the parse has none. |
| `InfoElements.GetVendorIe` | wpa_supplicant_hostapd-0.8_rtw_r7475.20130812/wpa_supplicant/scan.c:586-604 | Points at the first vendor element of the type, or is NULL. |
| `InfoElements.GetVendorIeMulti` | wpa_supplicant_hostapd-0.8_rtw_r7475.20130812/wpa_supplicant/bss.c:538-566 | The concatenation of all matching vendor payloads, NULL when it is empty; it fits the buffer of as many bytes as there are element bytes. |
| `InfoElements.AreIesEqual` | wpa_supplicant_hostapd-0.8_rtw_r7475.20130812/wpa_supplicant/bss.c:129-182 | Equal exactly when the first elements, or for WPS the collected payloads, of both sides agree. |
| `InfoElements.CompareRes` | wpa_supplicant_hostapd-0.8_rtw_r7475.20130812/wpa_supplicant/bss.c:185-222 | With its shortcut for equal bytes, reports a change if and only if the full check for that change reports it. |
| `ElementChanges.ChangesExact` | wpa_supplicant_hostapd-0.8_rtw_r7475.20130812/wpa_supplicant/bss.c:129-222 | Each of the nine changes is reported if and only if what it is about differs: frequency, level, the privacy or IBSS bit, the elements, the first WPA or RSN element, the payloads of all WPS elements, or the first element of supported or extended rates. |
| `ScanSsids.Scanner.FindStart` | wpa_supplicant_hostapd-0.8_rtw_r7475.20130812/wpa_supplicant/scan.c:310-330 | The position after the cursor's network; the beginning for the wildcard or a network that is gone. |
| `ScanSsids.Scanner.WalkNetworks` | wpa_supplicant_hostapd-0.8_rtw_r7475.20130812/wpa_supplicant/scan.c:330-372 | The wrap-around walk ends, and lists the eligible networks in cyclic order from the start up to the cap. |
| `ScanSsids.Scanner.BuildSsids` | wpa_supplicant_hostapd-0.8_rtw_r7475.20130812/wpa_supplicant/scan.c:310-387 | Request and new cursor are those of one value-level scan. |
| `ScanSsids.RequestWellFormed` | wpa_supplicant_hostapd-0.8_rtw_r7475.20130812/wpa_supplicant/scan.c:310-387 | No network twice, only enabled scan_ssid networks, SSIDs and wildcard within the cap, and always a wildcard when there are several slots. |
| `ScanSsids.CursorLeft` | wpa_supplicant_hostapd-0.8_rtw_r7475.20130812/wpa_supplicant/scan.c:310-387 | A request with all slots used leaves the last network it lists as the cursor. One with a slot to spare includes the wildcard; with several slots it lists every network that asks for it and leaves the network behind the cursor's, from which it started; in all other cases it leaves the wildcard. |
| `ScanSsids.WalkAfterFullRequest` | wpa_supplicant_hostapd-0.8_rtw_r7475.20130812/wpa_supplicant/scan.c:310-387 | A request that fills its cap makes the next walk continue where it stopped. |
| `ScanSsids.ProbedBySlot` | wpa_supplicant_hostapd-0.8_rtw_r7475.20130812/wpa_supplicant/scan.c:310-387 | The i-th network in walk order is probed once the SSID slots of the scans exceed i. |
| `ScanSsids.EveryNetworkProbed` | wpa_supplicant_hostapd-0.8_rtw_r7475.20130812/wpa_supplicant/scan.c:310-387 | With several slots, every enabled scan_ssid network is probed within ceil(m/(k-1)) consecutive scans from any cursor. |
| `ScanSsids.OneSlotOrder` | wpa_supplicant_hostapd-0.8_rtw_r7475.20130812/wpa_supplicant/scan.c:310-387 | With one slot the next networks have one scan each and the wildcard follows the last. |
| `ScanSsids.OneSlotReachesWildcard` | wpa_supplicant_hostapd-0.8_rtw_r7475.20130812/wpa_supplicant/scan.c:310-387 | With one slot the wildcard comes within m+1 scans from any cursor. |
| `ScanSsids.OneSlotCoversAll` | wpa_supplicant_hostapd-0.8_rtw_r7475.20130812/wpa_supplicant/scan.c:310-387 | With one slot every such network comes within m+1 scans from any cursor. |
| `ScanFreqs.IntArrayLen` | wpa_supplicant_hostapd-0.8_rtw_r7475.20130812/wpa_supplicant/scan.c:120-126 | The number of entries before the terminating zero; 0 for NULL. |
| `ScanFreqs.IntArrayConcat` | wpa_supplicant_hostapd-0.8_rtw_r7475.20130812/wpa_supplicant/scan.c:129-146 | The zero-terminated concatenation of two zero-terminated lists. |
| `ScanFreqs.IntArraySortUnique` | wpa_supplicant_hostapd-0.8_rtw_r7475.20130812/wpa_supplicant/scan.c:162-185 | In place: strictly increasing, zero-terminated, with the same set of values. |
| `ScanFreqs.BuildFreqs` | wpa_supplicant_hostapd-0.8_rtw_r7475.20130812/wpa_supplicant/scan.c:358-370 | NULL exactly when no network is enabled or an enabled one is unrestricted; otherwise strictly increasing, zero-terminated, and with a frequency on it exactly when it is on the list of some enabled network. |
| `NetworkList.Config.AddPrioNetwork` | wpa_supplicant_hostapd-0.8_rtw_r7475.20130812/wpa_supplicant/config.c:1546-1585 | The chains through pnext become what adding the network to the value-level groups gives; no other chain changes. |
| `NetworkList.Config.UpdatePrioList` | wpa_supplicant_hostapd-0.8_rtw_r7475.20130812/wpa_supplicant/config.c:1597-1615 | The rebuilt chains are the groups of the network list, whatever the pointers were before. |
| `NetworkList.Config.AddNetwork` | wpa_supplicant_hostapd-0.8_rtw_r7475.20130812/wpa_supplicant/config.c:1784-1811 | Appends a network with an id no other has; groups and chains are right again. |
| `NetworkList.Config.RemoveNetwork` | wpa_supplicant_hostapd-0.8_rtw_r7475.20130812/wpa_supplicant/config.c:1820-1843 | Removes exactly the network with the id and reports whether there was one; groups and chains are right again. |
| `NetworkList.Config.SetPriority` | wpa_supplicant_hostapd-0.8_rtw_r7475.20130812/wpa_supplicant/ctrl_iface.c:1534-1539 | Changes one priority, nothing else, and the groups are right again. |
| `NetworkList.NextIdUnused` | wpa_supplicant_hostapd-0.8_rtw_r7475.20130812/wpa_supplicant/config.c:1784-1811 | The id of an added network differs from all others. |
| `NetworkList.NextIdExact` | wpa_supplicant_hostapd-0.8_rtw_r7475.20130812/wpa_supplicant/config.c:1784-1811 | The id of an added network is 0 on an empty list and otherwise one more than the greatest id. |
| `NetworkList.WithoutIdAt` | wpa_supplicant_hostapd-0.8_rtw_r7475.20130812/wpa_supplicant/config.c:1820-1843 | Dropping the entry found by the search drops all entries with that id. |
| `NetworkList.LinkTail` | wpa_supplicant_hostapd-0.8_rtw_r7475.20130812/wpa_supplicant/config.c:1546-1585 | One pointer write behind the last network of a chain extends that chain and leaves the others alone. |
| `PriorityGroups.GroupsAreGrouped` | wpa_supplicant_hostapd-0.8_rtw_r7475.20130812/wpa_supplicant/config.c:1546-1615 | Built one network at a time, group heads strictly descend in priority and each group is all networks of its priority in list order. |
| `PriorityGroups.FlattenIsStableSort` | wpa_supplicant_hostapd-0.8_rtw_r7475.20130812/wpa_supplicant/config.c:1546-1615 | The groups one after the other are a stable descending sort of the network list. |
| `PriorityGroups.StableSortUnique` | wpa_supplicant_hostapd-0.8_rtw_r7475.20130812/wpa_supplicant/config.c:1546-1615 | There is only one stable descending sort. |
| `Blacklist.List.Get` | wpa_supplicant_hostapd-0.8_rtw_r7475.20130812/wpa_supplicant/blacklist.c:27-40 | The item with the BSSID and its count, NULL exactly when the BSSID has no failures. |
| `Blacklist.List.Add` | wpa_supplicant_hostapd-0.8_rtw_r7475.20130812/wpa_supplicant/blacklist.c:59-83 | The failure count of this BSSID grows by one and is returned; all others stay; the list stays duplicate-free. |
| `Blacklist.List.Del` | wpa_supplicant_hostapd-0.8_rtw_r7475.20130812/wpa_supplicant/blacklist.c:92-113 | Exactly this BSSID is forgotten; succeeds exactly when it was listed. |
| `Blacklist.List.Clear` | wpa_supplicant_hostapd-0.8_rtw_r7475.20130812/wpa_supplicant/blacklist.c:120-133 | Nothing is listed any more. |
| `Matching.MatchPrivacy` | wpa_supplicant_hostapd-0.8_rtw_r7475.20130812/wpa_supplicant/events.c:279-308 | With mixed cells allowed always, otherwise exactly when the privacy bit of the result agrees with the network's use of WEP. |
| `Matching.SsidBssMatch` | wpa_supplicant_hostapd-0.8_rtw_r7475.20130812/wpa_supplicant/events.c:311-447 | True exactly when the network asks for no WPA key management or one announced RSN or WPA element suffices for it; the separate rejection for a missing element adds nothing. |
| `Matching.FreqAllowed` | wpa_supplicant_hostapd-0.8_rtw_r7475.20130812/wpa_supplicant/events.c:450-461 | True exactly when no list is given or the frequency is on it. |
| `SelectionSuits.AdmitsExact` | wpa_supplicant_hostapd-0.8_rtw_r7475.20130812/wpa_supplicant/events.c:279-603 | In terms of elements and bits: a network takes a result if and only if it is not disabled; BSSID, frequency list and first SSID element agree; with WPA key management some announced RSN or WPA element has a protocol, both ciphers and a key management in common with it; and an unprotected result is no IBSS, is allowed by key management and agrees in privacy. |
| `SelectionDisabled.LimitExact` | wpa_supplicant_hostapd-0.8_rtw_r7475.20130812/wpa_supplicant/events.c:491-515 | A single failure keeps a BSSID from being picked if and only if exactly one network is not disabled. |
| `Selection.Supplicant.EnabledNetworks` | wpa_supplicant_hostapd-0.8_rtw_r7475.20130812/wpa_supplicant/scan.c:79-89 | The number of networks that are not disabled. |
| `Selection.Supplicant.Blacklisted` | wpa_supplicant_hostapd-0.8_rtw_r7475.20130812/wpa_supplicant/events.c:491-515 | Skips a BSSID exactly when its failures exceed 0 with a single enabled network, 1 otherwise. |
| `Selection.Supplicant.NetMatch` | wpa_supplicant_hostapd-0.8_rtw_r7475.20130812/wpa_supplicant/events.c:519-603 | The sequence of checks accepts exactly the results that the network admits; never for a disabled network, another BSSID, an SSID of another name or a frequency off its list. |
| `Selection.Supplicant.ScanResMatch` | wpa_supplicant_hostapd-0.8_rtw_r7475.20130812/wpa_supplicant/events.c:464-606 | The first network of the group that can use a result that is not skipped. |
| `Selection.Supplicant.SelectBssOf` | wpa_supplicant_hostapd-0.8_rtw_r7475.20130812/wpa_supplicant/events.c:610-640 | The BSS entry of the first usable result of a group; nothing when that result has no entry, without trying later results. |
| `Selection.Supplicant.PickNetwork` | wpa_supplicant_hostapd-0.8_rtw_r7475.20130812/wpa_supplicant/events.c:644-670 | Ends after at most one clear: the choice under the blacklist or, without one, under the cleared blacklist, which is then empty and counted as cleared. |
| `Selection.PickExact` | wpa_supplicant_hostapd-0.8_rtw_r7475.20130812/wpa_supplicant/events.c:464-670 | When every result that some network can use has its entry: the choice is the first usable combination in order of group, result and network; the blacklist is cleared exactly when it is not empty and leaves nothing; nothing is chosen exactly when nothing is usable even without a blacklist. |
| `Selection.HighestPriority` | wpa_supplicant_hostapd-0.8_rtw_r7475.20130812/wpa_supplicant/events.c:644-670 | No network that can use any result has a higher priority than the chosen one. |
| `SelectionSuits.PickSuits` | wpa_supplicant_hostapd-0.8_rtw_r7475.20130812/wpa_supplicant/events.c:464-670 | Whatever the table and the blacklist hold, what is picked is a configured network that is not disabled and a result that suits it; the BSS has the BSSID and SSID of the result; and its failures are within the limit unless the blacklist was cleared. |
| `SelectionSuits.PickBest` | wpa_supplicant_hostapd-0.8_rtw_r7475.20130812/wpa_supplicant/events.c:464-670 | With every usable result listed, nothing is picked if and only if no configured network suits any result; and without a clear no network that suits a result within the limit has a higher priority than the one picked. |
| `SelectionDisabled.GroupsStripped` | wpa_supplicant_hostapd-0.8_rtw_r7475.20130812/wpa_supplicant/config.c:1546-1613 | The priority groups of the enabled networks are the groups of all networks with the disabled ones taken out and no empty group left. |
| `SelectionDisabled.DisabledIgnored` | wpa_supplicant_hostapd-0.8_rtw_r7475.20130812/wpa_supplicant/events.c:464-670 | Without the disabled networks the same network and BSS are picked, and the blacklist is cleared exactly when it was. |
| `SelectionDisabled.DisabledAdded` | wpa_supplicant_hostapd-0.8_rtw_r7475.20130812/wpa_supplicant/events.c:464-670 | A disabled network added anywhere changes neither the pick, nor whether the blacklist is cleared, nor the limit. |
| `Selection.PickNone` | wpa_supplicant_hostapd-0.8_rtw_r7475.20130812/wpa_supplicant/events.c:610-670 | Whatever the table holds: nothing is chosen if and only if in every group, under the blacklist and under the empty one, no result is usable or the first usable one has no entry; the blacklist is cleared if and only if it is not empty and this holds under it. |
| `Selection.NullMeansNothingUsable` | wpa_supplicant_hostapd-0.8_rtw_r7475.20130812/wpa_supplicant/events.c:610-670 | With the empty blacklist, "nothing chosen" means "nothing usable" if and only if some group has a usable result the first of which has its entry, or no group has a usable result. |
| `Selection.NullDespiteUsable` | wpa_supplicant_hostapd-0.8_rtw_r7475.20130812/wpa_supplicant/events.c:610-670 | The same under any blacklist: one of the two passes over the groups has to find an entry, or nothing is usable. |
| `Selection.ChosenIsFirst` | wpa_supplicant_hostapd-0.8_rtw_r7475.20130812/wpa_supplicant/events.c:610-670 | What is chosen is the first usable combination if and only if no earlier group has a usable result. |
| `SelectionRounds.StorableListed` | wpa_supplicant_hostapd-0.8_rtw_r7475.20130812/wpa_supplicant/events.c:610-640 | Right after a round that fits the table, every result that the table stores at all has its entry. |
| `SelectionRounds.PickAfterRound` | wpa_supplicant_hostapd-0.8_rtw_r7475.20130812/wpa_supplicant/events.c:464-670 | So if what can be used can be stored, the pick after a round is the first usable combination, and nothing is picked only when nothing can be used. |
| `SelectionRounds.NullWithAccessPoint` | wpa_supplicant_hostapd-0.8_rtw_r7475.20130812/wpa_supplicant/bss.c:310-340 | A first round in which a Wi-Fi Direct peer comes before an open access point: a network for any open access point gets nothing, although the access point is in the table; exactly unless the peer alone is blacklisted. |
| `SelectionRuns.RunsAreRounds` | wpa_supplicant_hostapd-0.8_rtw_r7475.20130812/wpa_supplicant/events.c:491-670 | In every scene: after any number of failed attempts no BSSID was picked more than limit+1 times since the last clear or in any finished round; and each finished round has picked every matchable BSSID exactly limit+1 times if and only if no clear so far came while something usable was left behind an unlisted result. |
| `SelectionRuns.AttemptKeepsInv` | wpa_supplicant_hostapd-0.8_rtw_r7475.20130812/wpa_supplicant/events.c:643-670 | In every scene one attempt keeps the bound, and the finished rounds stay complete if and only if the attempt does not clear prematurely. |
| `SelectionRuns.ClearComplete` | wpa_supplicant_hostapd-0.8_rtw_r7475.20130812/wpa_supplicant/events.c:643-670 | When a clear comes, the round has tried every matchable BSSID limit+1 times if and only if nothing usable is left. |
| `SelectionRuns.PrematureExact` | wpa_supplicant_hostapd-0.8_rtw_r7475.20130812/wpa_supplicant/events.c:610-670 | A clear is premature exactly when every group yields nothing, in some group only because its first usable result has no table entry. |
| `SelectionRuns.ListedNeverPremature` | wpa_supplicant_hostapd-0.8_rtw_r7475.20130812/wpa_supplicant/events.c:610-670 | With a table entry for every usable result no clear is premature. |
| `SelectionRuns.EveryAttemptPicks` | wpa_supplicant_hostapd-0.8_rtw_r7475.20130812/wpa_supplicant/events.c:643-670 | n attempts make n picks if some group yields a result when nothing is blacklisted, and none otherwise. |
| `SelectionRuns.Schedule` | wpa_supplicant_hostapd-0.8_rtw_r7475.20130812/wpa_supplicant/blacklist.c:54-83 | The attempts split into finished rounds and a rest, none longer than (limit+1) times the number of matchable BSSIDs; all finished rounds have that length if and only if no clear was premature. |
| `SelectionRuns.EveryoneTried` | wpa_supplicant_hostapd-0.8_rtw_r7475.20130812/wpa_supplicant/blacklist.c:54-83 | While no clear is premature nobody starves: after one round's worth of attempts every matchable BSSID has been tried limit+1 times. |
| `SelectionRuns.ListedYields` | wpa_supplicant_hostapd-0.8_rtw_r7475.20130812/wpa_supplicant/events.c:610-670 | With a table entry for every usable result some group yields a result exactly if anything can be matched. |
| `SelectionStarvation.NeverTried` | wpa_supplicant_hostapd-0.8_rtw_r7475.20130812/wpa_supplicant/events.c:464-670 | After a round with a Wi-Fi Direct peer and two open access points, one with a network of higher priority, the other access point is not picked in any number of attempts. |
| `SelectionStarvation.Starvation` | wpa_supplicant_hostapd-0.8_rtw_r7475.20130812/wpa_supplicant/events.c:610-670 | The program can receive that round, the access point is in the table and matchable, and every second attempt from the third on begins with a premature clear. |
| `ConfigString.HexStr2Bin` | wpa_supplicant_hostapd-0.8_rtw_r7475.20130812/src/utils/common.c:135-150 | The bytes the digits spell, or failure if one is not a digit. |
| `ConfigString.HexRoundTrip` | wpa_supplicant_hostapd-0.8_rtw_r7475.20130812/src/utils/common.c:135-150 | Reading the hexadecimal text of any byte string gives that string, whatever follows. |
| `ConfigString.IsHex` | wpa_supplicant_hostapd-0.8_rtw_r7475.20130812/wpa_supplicant/config.c:157-166 | True exactly when a byte is not printable ASCII. |
| `ConfigString.SnprintfHex` | wpa_supplicant_hostapd-0.8_rtw_r7475.20130812/src/utils/common.c:193-212 | Two lower-case digits for each byte, cut to the size of the buffer; the count returned is that of the bytes printed whole, nothing for an empty buffer. |
| `ConfigString.WriteString` | wpa_supplicant_hostapd-0.8_rtw_r7475.20130812/wpa_supplicant/config.c:198-207 | Quoted when printable, hexadecimal otherwise. |
| `ConfigString.StringValueExact` | wpa_supplicant_hostapd-0.8_rtw_r7475.20130812/wpa_supplicant/config.c:61-94 | A text is read as a string if and only if it is that string in double quotes, or does not start with a quote and its pairs of digits spell the bytes of the string; anything else fails. |
| `ConfigString.StringRoundTrip` | wpa_supplicant_hostapd-0.8_rtw_r7475.20130812/wpa_supplicant/config.c:61-207 | Every byte string, quotes and binary included, is read back as it was written. |
| `ConfigString.StringTextGood` | wpa_supplicant_hostapd-0.8_rtw_r7475.20130812/wpa_supplicant/config_file.c:41-91 | What is written for a string is left alone by comment removal and trimming. |
| `ConfigString.CutStringDiffers` | wpa_supplicant_hostapd-0.8_rtw_r7475.20130812/wpa_supplicant/config.c:61-94 | No proper beginning of the text of a string reads as that string. |
| `ConfigLine.Stream.Fgets` | wpa_supplicant_hostapd-0.8_rtw_r7475.20130812/wpa_supplicant/config_file.c:41-47 | Takes at most 255 characters and none after a newline. |
| `ConfigLine.Stream.NextLine` | wpa_supplicant_hostapd-0.8_rtw_r7475.20130812/wpa_supplicant/config_file.c:41-91 | The text of the next line that is neither empty nor a comment, with what follows left in the file. |
| `ConfigLine.Extract` | wpa_supplicant_hostapd-0.8_rtw_r7475.20130812/wpa_supplicant/config_file.c:50-83 | Cuts leading blanks, a comment outside the quotes and trailing white space; nothing is left of an empty or comment line, and no comment sign is left in a line without quotes. |
| `ConfigLine.NoComment` | wpa_supplicant_hostapd-0.8_rtw_r7475.20130812/wpa_supplicant/config_file.c:59-72 | In a written field line the search for a comment finds none, also with # or quotes inside the quotes. |
| `ConfigComment.CommentFromExact` | wpa_supplicant_hostapd-0.8_rtw_r7475.20130812/wpa_supplicant/config_file.c:59-68 | The search for a comment starts at the last quote of a line with several quotes, and at the beginning otherwise. |
| `ConfigComment.CommentCut` | wpa_supplicant_hostapd-0.8_rtw_r7475.20130812/wpa_supplicant/config_file.c:50-83 | A line with blanks in front and a comment behind says its text, plain or ending in a quote, if and only if the comment has no quote, or a single one while the text has none. |
| `ConfigComment.NothingCut` | wpa_supplicant_hostapd-0.8_rtw_r7475.20130812/wpa_supplicant/config_file.c:50-83 | A text without quotes and comment signs, or one that ends in a second quote, is said whole. |
| `ConfigComment.SaysNothing` | wpa_supplicant_hostapd-0.8_rtw_r7475.20130812/wpa_supplicant/config_file.c:50-57 | A line that is a comment or blank says nothing. |
| `ConfigComment.CommentedLine` | wpa_supplicant_hostapd-0.8_rtw_r7475.20130812/wpa_supplicant/config_file.c:41-91 | The next line of a file that starts with a text, blanks and such a comment is the text, and reading goes on behind it. |
| `ConfigComment.SkippedLine` | wpa_supplicant_hostapd-0.8_rtw_r7475.20130812/wpa_supplicant/config_file.c:41-91 | Comment lines and empty lines are passed over. |
| `ConfigComment.CommentJoinsKey` | wpa_supplicant_hostapd-0.8_rtw_r7475.20130812/wpa_supplicant/config.c:328-359 | A passphrase followed by a comment in quotes is read as one longer passphrase. |
| `ConfigLine.LineReadBack` | wpa_supplicant_hostapd-0.8_rtw_r7475.20130812/wpa_supplicant/config_file.c:41-91 | A written field line of at most 255 characters is read back whole, and reading goes on behind it. |
| `ConfigLine.LongLineCut` | wpa_supplicant_hostapd-0.8_rtw_r7475.20130812/wpa_supplicant/config_file.c:41-91 | Of a longer line only a proper beginning is read. |
| `Decimal.NumberRoundTrip` | wpa_supplicant_hostapd-0.8_rtw_r7475.20130812/wpa_supplicant/config.c:230-279 | atoi of what %d printed is the number, whatever follows that is no digit; for the values of an int nothing overflows on the way. |
| `ConfigValues.IntExact` | wpa_supplicant_hostapd-0.8_rtw_r7475.20130812/wpa_supplicant/config.c:230-257 | Any text is white space, at most one sign, digits and a rest; it sets the number the digits say, without digits 0, unless that is above the upper bound of the field. |
| `WordList.WriteMask` | wpa_supplicant_hostapd-0.8_rtw_r7475.20130812/wpa_supplicant/config.c:454-482 | The words of the bits that are set, in table order and separated by spaces; the fixed buffer never cuts them off. |
| `WordList.BuffersSuffice` | wpa_supplicant_hostapd-0.8_rtw_r7475.20130812/wpa_supplicant/config.c:559-765 | The fixed buffers of the five writers hold the words of every mask. |
| `WordList.ParseMask` | wpa_supplicant_hostapd-0.8_rtw_r7475.20130812/wpa_supplicant/config.c:402-450 | The union of the bits of the known words; accepted exactly when all are known and there is one. |
| `WordList.ParseCipher` | wpa_supplicant_hostapd-0.8_rtw_r7475.20130812/wpa_supplicant/config.c:651-700 | The union of the named ciphers, or failure at an unknown name or an empty list. |
| `WordList.ParsePairwise` | wpa_supplicant_hostapd-0.8_rtw_r7475.20130812/wpa_supplicant/config.c:769-786 | Accepts a cipher list exactly when it names only CCMP, TKIP and NONE. |
| `WordList.ParseGroup` | wpa_supplicant_hostapd-0.8_rtw_r7475.20130812/wpa_supplicant/config.c:798-816 | Accepts a cipher list exactly when it names only CCMP, TKIP, WEP104 and WEP40. |
| `ConfigMeaning.ListAccepted` | wpa_supplicant_hostapd-0.8_rtw_r7475.20130812/wpa_supplicant/config.c:402-824 | A list of protocols, key managements, ciphers or algorithms is accepted if and only if it has a word and all its words are among those the field knows and allows, spelled out for each kind. |
| `ConfigMeaning.ProtoMeans` | wpa_supplicant_hostapd-0.8_rtw_r7475.20130812/wpa_supplicant/config.c:402-450 | The WPA bit of a list of protocols is set exactly by the word WPA, the RSN bit exactly by RSN or WPA2. |
| `ConfigMeaning.KeyMgmtMeans` | wpa_supplicant_hostapd-0.8_rtw_r7475.20130812/wpa_supplicant/config.c:485-556 | The bits of a list of key managements are set exactly by their words: those for which selection asks for WPA by WPA-PSK or WPA-EAP, those for which it takes unprotected results by NONE or IEEE8021X. |
| `ConfigMeaning.CiphersMean` | wpa_supplicant_hostapd-0.8_rtw_r7475.20130812/wpa_supplicant/config.c:651-824 | The bits of a cipher list are set exactly by their words, those of WEP by WEP40 or WEP104. |
| `ConfigMeaning.AuthAlgsMean` | wpa_supplicant_hostapd-0.8_rtw_r7475.20130812/wpa_supplicant/config.c:828-878 | The bits of a list of algorithms are set exactly by their words. |
| `ConfigMeaning.WordsDecide` | wpa_supplicant_hostapd-0.8_rtw_r7475.20130812/wpa_supplicant/events.c:311-603 | From the texts to the choice: a network whose key_mgmt names WPA-PSK or WPA-EAP takes only results that announce what its proto names and what they share with it; a result that announces neither is taken only with NONE or IEEE8021X. |
| `ConfigMeaning.ProtoRestricts` | wpa_supplicant_hostapd-0.8_rtw_r7475.20130812/wpa_supplicant/events.c:311-447 | With key_mgmt=WPA-PSK, proto=WPA restricts a network to results with a WPA element, proto=RSN and proto=WPA2 to results with an RSN element. |
| `ConfigValues.WordFound` | wpa_supplicant_hostapd-0.8_rtw_r7475.20130812/wpa_supplicant/config.c:402-450 | Whatever stands between blanks, tabs and the ends of a list is one of its words, with the words before it and behind it around it. |
| `WordList.TokensOfJoin` | wpa_supplicant_hostapd-0.8_rtw_r7475.20130812/wpa_supplicant/config.c:402-450 | Splitting at blanks undoes joining with spaces. |
| `WordList.MaskRoundTrip` | wpa_supplicant_hostapd-0.8_rtw_r7475.20130812/wpa_supplicant/config.c:402-482 | Reading a written mask gives its bits that have a word, and is an error if and only if there are none. |
| `WordList.ListsRoundTrip` | wpa_supplicant_hostapd-0.8_rtw_r7475.20130812/wpa_supplicant/config.c:402-647 | For protocols, key management and authentication algorithms a mask comes back and is accepted if and only if it is not 0 and has no bit outside the table. |
| `WordList.CiphersRoundTrip` | wpa_supplicant_hostapd-0.8_rtw_r7475.20130812/wpa_supplicant/config.c:651-824 | A pairwise or group mask comes back if and only if it is not empty and holds only ciphers allowed there. |
| `FreqText.ParseFreqs` | wpa_supplicant_hostapd-0.8_rtw_r7475.20130812/wpa_supplicant/config.c:927-967 | The doubling array holds the numbers up to the first zero and is zero-terminated, whatever the length. |
| `FreqText.WriteFreqs` | wpa_supplicant_hostapd-0.8_rtw_r7475.20130812/wpa_supplicant/config.c:1003-1033 | The list up to its zero with single spaces, each entry printed as unsigned, cut to ten characters per entry. |
| `FreqText.TextFits` | wpa_supplicant_hostapd-0.8_rtw_r7475.20130812/wpa_supplicant/config.c:1003-1033 | For frequencies below 10^9 nothing is cut. |
| `FreqText.ListRoundTrip` | wpa_supplicant_hostapd-0.8_rtw_r7475.20130812/wpa_supplicant/config.c:927-1033 | Every list of positive frequencies below 10^9 is read back as it was written. |
| `ConfigNetwork.MacRoundTrip` | wpa_supplicant_hostapd-0.8_rtw_r7475.20130812/wpa_supplicant/config.c:283-324 | An address is read back from its colon form. |
| `ConfigValues.BssidExact` | wpa_supplicant_hostapd-0.8_rtw_r7475.20130812/wpa_supplicant/config.c:283-301 | The BSSID is unset exactly by no text, two quotes or the word any, and set exactly by a text that begins with six pairs of hexadecimal digits with colons between them. |
| `ConfigValues.StrLenExact` | wpa_supplicant_hostapd-0.8_rtw_r7475.20130812/wpa_supplicant/config.c:61-153 | A string field is unset exactly by the word NULL and set exactly by the quoted or hexadecimal text of a string within its length. |
| `ConfigValues.PassphraseExact` | wpa_supplicant_hostapd-0.8_rtw_r7475.20130812/wpa_supplicant/config.c:328-367 | A text sets a passphrase if and only if that has 8 to 63 characters and is what stands between the first character, a quote, and the last quote, or the end if there is no other. |
| `ConfigValues.RawPskExact` | wpa_supplicant_hostapd-0.8_rtw_r7475.20130812/wpa_supplicant/config.c:375-396 | A text sets a raw key if and only if it is its 64 hexadecimal digits. |
| `ConfigNetwork.PskRoundTrip` | wpa_supplicant_hostapd-0.8_rtw_r7475.20130812/wpa_supplicant/config.c:328-398 | The text of any passphrase of 8 to 63 characters or raw key sets what it was written for; it goes through the line reader if and only if there is no newline in it. |
| `ConfigNetwork.FieldRoundTrip` | wpa_supplicant_hostapd-0.8_rtw_r7475.20130812/wpa_supplicant/config.c:97-398 | For every kind of field and every value: what is written sets the value, and passes the line reader unharmed if and only if it is on one line. |
| `ConfigNetwork.RestoredExact` | wpa_supplicant_hostapd-0.8_rtw_r7475.20130812/wpa_supplicant/config_file.c:498-576 | After writing and reading, a value is what it was if and only if it is the default of its field, or the field is written at all and the value is not a mask without bits. |
| `ConfigBlock.ReadBlock` | wpa_supplicant_hostapd-0.8_rtw_r7475.20130812/wpa_supplicant/config_file.c:129-186 | The values after applying every line up to the closing brace, whether each line was in order, and what is left of the file. |
| `ConfigComment.FieldLineRead` | wpa_supplicant_hostapd-0.8_rtw_r7475.20130812/wpa_supplicant/config_file.c:94-186 | A line that names a field, also with blanks in front and a comment behind, sets it to the value of its text, and is an error exactly if the text has none. |
| `ConfigComment.SkippedInBlock` | wpa_supplicant_hostapd-0.8_rtw_r7475.20130812/wpa_supplicant/config_file.c:129-186 | Comment lines and empty lines in a block change nothing. |
| `ConfigComment.BadLineRefused` | wpa_supplicant_hostapd-0.8_rtw_r7475.20130812/wpa_supplicant/config_file.c:146-168 | A line without an equals sign, with an unknown name or with an open quote puts its block in error, whatever follows. |
| `ConfigLines.BlockExact` | wpa_supplicant_hostapd-0.8_rtw_r7475.20130812/wpa_supplicant/config_file.c:129-186 | For any table and any file: a block is read without error if and only if it is closed and each of its lines is the name of a field, an equals sign and a text that the field takes; reading goes on behind its brace. |
| `ConfigLines.LastLineDecides` | wpa_supplicant_hostapd-0.8_rtw_r7475.20130812/wpa_supplicant/config_file.c:129-186 | For any table and any file: the last line of a block that sets a field decides its value, and what no line sets stays as it was. |
| `ConfigBlock.BlockRoundTrip` | wpa_supplicant_hostapd-0.8_rtw_r7475.20130812/wpa_supplicant/config_file.c:498-576 | For any table of fields, a written block whose lines fit and are single lines is read back to its end without error, each value as it is restored. |
| `ConfigBlock.BlockKept` | wpa_supplicant_hostapd-0.8_rtw_r7475.20130812/wpa_supplicant/config_file.c:498-576 | The values restored are those written if and only if each of them is kept. |
| `ConfigCut.StringFieldExact` | wpa_supplicant_hostapd-0.8_rtw_r7475.20130812/wpa_supplicant/config_file.c:129-186 | After its written line and any lines written behind it have been read, and whatever the pieces of a cut line set, a string field holds what was written if and only if its line has at most 255 characters. |
| `ConfigCut.RestDiffers` | wpa_supplicant_hostapd-0.8_rtw_r7475.20130812/wpa_supplicant/config_file.c:129-186 | What is left of a cut line, read piece by piece up to the end of the block, never sets a field to the string that was written. |
| `ConfigCutExample.CutSetsDisabled` | wpa_supplicant_hostapd-0.8_rtw_r7475.20130812/wpa_supplicant/config_file.c:129-186 | A network whose id_str is 245 times A, a quote and disabled=1 comes back without error, with the id_str cut and the network disabled. |
| `ConfigFile.ReadNetworkFrom` | wpa_supplicant_hostapd-0.8_rtw_r7475.20130812/wpa_supplicant/config_file.c:94-186 | The network in the block unless there was an error or a missing pre-shared key, with CCMP dropped from a group cipher list that is too strong. |
| `ConfigFile.ValidatedExact` | wpa_supplicant_hostapd-0.8_rtw_r7475.20130812/wpa_supplicant/config_file.c:94-126 | A block is refused exactly if a key management with pre-shared keys is allowed and there is none; CCMP is dropped from its group ciphers exactly if neither it nor NONE is a pairwise cipher; nothing else changes. |
| `ConfigLines.NetworkExact` | wpa_supplicant_hostapd-0.8_rtw_r7475.20130812/wpa_supplicant/config_file.c:94-186 | For any file: a network is read if and only if its block is closed, each of its lines sets a field, and it has a key if it needs one; each field but the group ciphers is then what its last line says, or else its default. |
| `ConfigFile.TableOk` | wpa_supplicant_hostapd-0.8_rtw_r7475.20130812/wpa_supplicant/config.c:1441-1514 | The table of the build without EAP, with the fields that are read and never written, has distinct names, and defaults that stand for unset values. |
| `ConfigFile.NetworkRoundTrip` | wpa_supplicant_hostapd-0.8_rtw_r7475.20130812/wpa_supplicant/config_file.c:94-576 | A written network comes back unchanged if and only if its lines fit the buffer, no text has a newline, no value is lost to its default and validation has nothing against it; if they fit and none has a newline it comes back as validation leaves the restored values. |
| `ConfigFile.KeptFields` | wpa_supplicant_hostapd-0.8_rtw_r7475.20130812/wpa_supplicant/config_file.c:498-576 | No value is lost if and only if the lists of protocols, key management and both kinds of ciphers are not empty, and the six fields that are never written have their defaults. |
| `ConfigFile.OnlyPskOnTwoLines` | wpa_supplicant_hostapd-0.8_rtw_r7475.20130812/wpa_supplicant/config.c:328-398 | Of all fields only the passphrase can have a newline. |
| `ConfigRead.ReadFromLines` | wpa_supplicant_hostapd-0.8_rtw_r7475.20130812/wpa_supplicant/config_file.c:41-186 | Whatever the file, every value read is the one there was before, or has no newline and is not an empty mask. |
| `ConfigFile.ReadNetworkExact` | wpa_supplicant_hostapd-0.8_rtw_r7475.20130812/wpa_supplicant/config_file.c:94-186 | No file whatsoever holds a network with a newline in its passphrase, with no protocol, no key management or no pairwise cipher, without a pre-shared key it needs, or with CCMP for the group but neither CCMP nor none for pairs. |
| `ConfigLostExamples.AcceptedWhole` | wpa_supplicant_hostapd-0.8_rtw_r7475.20130812/wpa_supplicant/ctrl_iface.c:1489-1542 | The passphrase abcdefgh, newline, x is accepted when it is set in one piece. |
| `ConfigLostExamples.NewlineLosesNetwork` | wpa_supplicant_hostapd-0.8_rtw_r7475.20130812/wpa_supplicant/config.c:328-398 | A network with this passphrase is given up when its own block is read. |
| `ConfigLostExamples.GroupEmptied` | wpa_supplicant_hostapd-0.8_rtw_r7475.20130812/wpa_supplicant/config_file.c:94-126 | A network with CCMP for the group and TKIP for the pairwise cipher comes back with no group cipher, and as such does not come back again. |
| `ConfigRewrite.ReadStorable` | wpa_supplicant_hostapd-0.8_rtw_r7475.20130812/wpa_supplicant/config_file.c:94-186 | Every network read from a file of bytes, whose numbers are values of an int, is one the program can hold and validation accepts. |
| `ConfigRewrite.RewriteExact` | wpa_supplicant_hostapd-0.8_rtw_r7475.20130812/wpa_supplicant/config_file.c:94-576 | Written again, a network that was read from a file survives if and only if the line of its id_str fits, validation left it a group cipher, and the six fields that are never written have their defaults. |
| `ConfigRewrite.NothingWritten` | wpa_supplicant_hostapd-0.8_rtw_r7475.20130812/wpa_supplicant/config_file.c:498-576 | A network with nothing set is written as an empty block. |
| `ConfigFile.OnlyIdStrCut` | wpa_supplicant_hostapd-0.8_rtw_r7475.20130812/wpa_supplicant/config_file.c:498-576 | Of all lines of a network only that of id_str can be too long. |
| `ConfigFile.ReadConfig` | wpa_supplicant_hostapd-0.8_rtw_r7475.20130812/wpa_supplicant/config_file.c:272-343 | All lines of a file: global parameters and networks in order, and whether there was an error, which does not stop the reader. |
| `ConfigFile.FileRoundTrip` | wpa_supplicant_hostapd-0.8_rtw_r7475.20130812/wpa_supplicant/config_file.c:272-758 | A written file, global parameters first, comes back in order when all its networks survive; it is refused if and only if one of the parameters is. |
| `ConfigFile.FileExact` | wpa_supplicant_hostapd-0.8_rtw_r7475.20130812/wpa_supplicant/config_file.c:272-758 | A written file comes back without error, with the same parameters and networks in the same order, if and only if all parameters are accepted and each network survives: what is left of one that does not never stands in for it. |
| `MlmeScan.Mlme.StaReqScan` | wpa_supplicant_hostapd-0.8_rtw_r7475.20130812/wpa_supplicant/mlme.c:2808-2875 | Refused exactly while a scan runs or with an SSID over 32 bytes, and then nothing changes; otherwise a scan from the first channel with the current tuning saved. |
| `MlmeScan.Mlme.ActiveScan` | wpa_supplicant_hostapd-0.8_rtw_r7475.20130812/wpa_supplicant/mlme.c:2671-2692 | True exactly when some mode of the radio's kind has the radio's channel enabled, and its first such entry is not passive. |
| `MlmeScan.Mlme.ScanTimer` | wpa_supplicant_hostapd-0.8_rtw_r7475.20130812/wpa_supplicant/mlme.c:2695-2805 | One step of the scan as specified; a probe request goes out exactly when the scan is waiting and the channel is active; the timer is set for 33 ms before a probe and after it, 200 ms on a passive channel, 0 after a skip; the invariant holds again. |
| `MlmeScan.Mlme.VisitChannel` | wpa_supplicant_hostapd-0.8_rtw_r7475.20130812/wpa_supplicant/mlme.c:2736-2782 | Considers the channel at the position, tunes to it exactly when the filters pass it, and moves on. |
| `MlmeScan.Mlme.SkipChannel` | wpa_supplicant_hostapd-0.8_rtw_r7475.20130812/wpa_supplicant/mlme.c:2736-2758 | Skips exactly the channels the filters do not pass; one that it does not skip is in an enabled mode, not disabled and among the frequencies asked for. |
| `MlmeScan.PassesExact` | wpa_supplicant_hostapd-0.8_rtw_r7475.20130812/wpa_supplicant/mlme.c:2736-2758 | In a new scan a channel passes if and only if its mode is enabled, it is not disabled, it allows ad-hoc networks if one is in use, it is no 802.11b channel while 802.11g is enabled, and it is among the frequencies asked for, if any were. |
| `MlmeScan.AllPairsExact` | wpa_supplicant_hostapd-0.8_rtw_r7475.20130812/wpa_supplicant/mlme.c:2776-2782 | The order of visits lists every channel of every mode, in strict order, and nothing else. |
| `MlmeScan.TimerKeepsInv` | wpa_supplicant_hostapd-0.8_rtw_r7475.20130812/wpa_supplicant/mlme.c:2695-2805 | While a scan runs its timer is set, the channels before its position are exactly the visited ones, and it has waited on those it stayed at. |
| `MlmeScan.TimerDecreases` | wpa_supplicant_hostapd-0.8_rtw_r7475.20130812/wpa_supplicant/mlme.c:2695-2805 | Every timer lowers a measure, so a scan ends. |
| `MlmeScan.ScansEnd` | wpa_supplicant_hostapd-0.8_rtw_r7475.20130812/wpa_supplicant/mlme.c:2695-2805 | With any interleaving a scan uses no more timers than the measure it started with, and the saved tuning is untouched. |
| `MlmeScan.WholeScan` | wpa_supplicant_hostapd-0.8_rtw_r7475.20130812/wpa_supplicant/mlme.c:2695-2875 | From the request to the end, whatever interleaves: every (mode, channel) considered once in order, a wait exactly where it stayed, at most two timers per channel before the last, and the tuning as it was when the scan was asked for. |
| `MlmeScan.TimerStaysExactly` | wpa_supplicant_hostapd-0.8_rtw_r7475.20130812/wpa_supplicant/mlme.c:2736-2782 | With a fixed network and driver, every timer keeps it true of all visits that the scan stayed exactly on the channels that pass the filters and that the driver sets. |
| `MlmeScan.WaitedExactly` | wpa_supplicant_hostapd-0.8_rtw_r7475.20130812/wpa_supplicant/mlme.c:2695-2875 | From the request to the end, with a fixed network and driver: the scan has waited on exactly the channels that are in an enabled mode, not disabled, open to the kind of network in use, not 802.11b beside 802.11g, among the frequencies asked for, and set by the driver. |
| `MlmeScan.RunStaysExactly` | wpa_supplicant_hostapd-0.8_rtw_r7475.20130812/wpa_supplicant/mlme.c:2736-2782 | Along any run of a scan, each visit stayed exactly when the channel passes and the driver sets it. |
| `MlmeScan.ProbedUnlessPassive` | wpa_supplicant_hostapd-0.8_rtw_r7475.20130812/wpa_supplicant/mlme.c:2671-2798 | A timer that makes the scan stay tunes the radio to the channel, and a probe request will go out there exactly when that channel is not passive. |
| `MlmeProbes.RunRequests` | wpa_supplicant_hostapd-0.8_rtw_r7475.20130812/wpa_supplicant/mlme.c:2695-2805 | Over a run of a scan in which nothing else tunes the radio between a visit and its probe, the probe requests sent are, in order, those of the channels waited on that are not passive. |
| `MlmeProbes.ProbedExactly` | wpa_supplicant_hostapd-0.8_rtw_r7475.20130812/wpa_supplicant/mlme.c:2695-2875 | From the request to the end of such a scan: probe requests have gone out on exactly the channels with these properties (enabled, open to the network, asked for, set by the driver) that are not passive, in the order in which the scan waited on them. |
| `MlmeAuth.RetryBounds` | wpa_supplicant_hostapd-0.8_rtw_r7475.20130812/wpa_supplicant/mlme.c:223-313 | In every reachable state: at most 3 transaction-1 frames and 3 association requests since the last reset, and no more challenge replies than other Authentication frames. |
| `MlmeAuth.ChallengeBound` | wpa_supplicant_hostapd-0.8_rtw_r7475.20130812/wpa_supplicant/mlme.c:723-872 | In every run, at most 3 challenge replies and one more for each ad-hoc reply since the counters were reset. |
| `MlmeAuth.ChallengeBoundMet` | wpa_supplicant_hostapd-0.8_rtw_r7475.20130812/wpa_supplicant/mlme.c:748-872 | For every number of ad-hoc replies some run sends that many more than 3. |
| `MlmeAuth.ThreeAnswersExact` | wpa_supplicant_hostapd-0.8_rtw_r7475.20130812/wpa_supplicant/mlme.c:748-872 | 3 is the limit in all runs with at most k ad-hoc replies if and only if k is 0. |
| `MlmeAuth.StepSendsAtMostOne` | wpa_supplicant_hostapd-0.8_rtw_r7475.20130812/wpa_supplicant/mlme.c:223-913 | No event makes the program send more than one frame. |
| `MlmeAuth.SilentAccessPoint` | wpa_supplicant_hostapd-0.8_rtw_r7475.20130812/wpa_supplicant/mlme.c:2124-2191 | An access point that never answers gets exactly 3 frames, then the timer stays off. |
| `MlmeAuth.StepKeepsInv` | wpa_supplicant_hostapd-0.8_rtw_r7475.20130812/wpa_supplicant/mlme.c:545-567 | Every timer, frame and request keeps the counts of sent frames tied to the retry counters. |
| `MlmeAuth.Mlme.TryAuthenticate` | wpa_supplicant_hostapd-0.8_rtw_r7475.20130812/wpa_supplicant/mlme.c:270-313 | Sends exactly one transaction-1 frame while fewer than 3 attempts were made and none after that; never more than 3 in all. |
| `MlmeAuth.Mlme.TryAssociate` | wpa_supplicant_hostapd-0.8_rtw_r7475.20130812/wpa_supplicant/mlme.c:545-567 | Sends a request exactly while fewer than 3 attempts were made, privacy matches and rates are known; never more than 3 in all. |
| `MlmeAuth.Mlme.StaNewAuth` | wpa_supplicant_hostapd-0.8_rtw_r7475.20130812/wpa_supplicant/mlme.c:2162-2191 | Only in infrastructure mode: afterwards one frame has been sent since the reset, its answer is awaited, and the timer is set. |
| `MlmeAuth.Mlme.ChooseNextAlg` | wpa_supplicant_hostapd-0.8_rtw_r7475.20130812/wpa_supplicant/mlme.c:834-866 | The next configured algorithm in turn that differs from the refused one; never shared key. |
| `MlmeAuth.Mlme.RxMgmtAuth` | wpa_supplicant_hostapd-0.8_rtw_r7475.20130812/wpa_supplicant/mlme.c:748-913 | At most one frame goes out, never a transaction-1 frame; a challenge is answered only in infrastructure mode with shared keys; authenticated only by a success that matches algorithm and transaction. |
| `MlmeAuth.Mlme.TimerExpires` | wpa_supplicant_hostapd-0.8_rtw_r7475.20130812/wpa_supplicant/mlme.c:2124-2159 | At most one frame goes out; once all attempts have been made nothing is sent and the timer stays off. |
| `MlmeRetry.NeverForgotten` | wpa_supplicant_hostapd-0.8_rtw_r7475.20130812/wpa_supplicant/mlme.c:270-2191 | In every run in which privacy suits: when no timer is set, a program that authenticates or associates has made more than three attempts at it, and is not associated. |
| `MlmeRetry.DeauthenticatedRetries` | wpa_supplicant_hostapd-0.8_rtw_r7475.20130812/wpa_supplicant/mlme.c:913-956 | After a valid deauthentication while authenticating or later, the timer runs for a second, and when it expires a transaction-1 frame goes out exactly if fewer than three attempts were made; otherwise the program gives up. |
| `MlmeRetry.DisassociatedRetries` | wpa_supplicant_hostapd-0.8_rtw_r7475.20130812/wpa_supplicant/mlme.c:959-996 | After a valid disassociation the timer runs for a second, and when it expires a request to associate goes out while attempts are left and rates are known. |
| `MlmeRetry.SilentAfterAuthentication` | wpa_supplicant_hostapd-0.8_rtw_r7475.20130812/wpa_supplicant/mlme.c:545-567 | A BSS that authenticates the program and then stays silent gets exactly three association requests, and then the timer stays off. |
| `MlmeRetry.AssociatedTimer` | wpa_supplicant_hostapd-0.8_rtw_r7475.20130812/wpa_supplicant/mlme.c:1059-2159 | A response that joins sets the timer to two seconds, and each expiry sets it again without sending a counted frame. |
| `MlmeRetry.NextAlgExact` | wpa_supplicant_hostapd-0.8_rtw_r7475.20130812/wpa_supplicant/mlme.c:834-866 | After a refusal the next algorithm is another configured one, open or LEAP, and the same one exactly if there is none; LEAP comes behind shared key, open behind the fast transition. |
| `MlmeRetry.RefusalMovesOn` | wpa_supplicant_hostapd-0.8_rtw_r7475.20130812/wpa_supplicant/mlme.c:818-866 | A refused algorithm is replaced at once, and the next timer starts over with the other one. |
| `MlmeRetry.AdhocTimers` | wpa_supplicant_hostapd-0.8_rtw_r7475.20130812/wpa_supplicant/mlme.c:2104-2149 | A search that joins an ad-hoc network sets the timer to 30 seconds, again and again, without a counted frame; one that joins none leaves the timer off. |
| `MlmeRetry.FirstAlg` | wpa_supplicant_hostapd-0.8_rtw_r7475.20130812/wpa_supplicant/mlme.c:2162-2191 | Authentication starts with the fast transition in its mobility domain, otherwise with the first configured of open, shared and LEAP, and with open if there is none. |
| `MlmeRetry.TransitionRequests` | wpa_supplicant_hostapd-0.8_rtw_r7475.20130812/wpa_supplicant/mlme.c:1710-1771 | A transition that the BSS agrees to is followed at once by a request to associate. |
| `MlmeAssociation.StepFlags` | wpa_supplicant_hostapd-0.8_rtw_r7475.20130812/wpa_supplicant/mlme.c:714-1174 | How every event changes the two flags, and which events lead to an association being asked for. |
| `MlmeAssociation.AuthenticatedExact` | wpa_supplicant_hostapd-0.8_rtw_r7475.20130812/wpa_supplicant/mlme.c:714-956 | After any run the program is authenticated if and only if a matching success frame has come and no deauthentication from the BSS since. |
| `MlmeAssociation.AssociatedExact` | wpa_supplicant_hostapd-0.8_rtw_r7475.20130812/wpa_supplicant/mlme.c:913-1174 | After any run the program is associated if and only if a response has passed all checks while one was awaited, and since then it was not deauthenticated or disassociated by the BSS, did not leave, and no timer found a privacy mismatch. |
| `MlmeAssociation.AssociatingAdmitted` | wpa_supplicant_hostapd-0.8_rtw_r7475.20130812/wpa_supplicant/mlme.c:545-956 | An association is asked for or held only after an accepted Authentication frame or FT action, with no deauthentication since. |
| `MlmeAssociation.AssociationEarned` | wpa_supplicant_hostapd-0.8_rtw_r7475.20130812/wpa_supplicant/mlme.c:714-1174 | Behind every association of every run stand an admission and, after it, the response that joined, with no deauthentication since the first and no parting since the second. |
| `MlmeBss.Table.Get` | wpa_supplicant_hostapd-0.8_rtw_r7475.20130812/wpa_supplicant/mlme.c:1270-1281 | The hash lookup finds what a linear search of the list finds, for every BSSID. |
| `MlmeBss.Table.Add` | wpa_supplicant_hostapd-0.8_rtw_r7475.20130812/wpa_supplicant/mlme.c:1252-1266 | The new entry is first on the list and in its chain; list and index agree again. |
| `MlmeBss.Table.GetOrAdd` | wpa_supplicant_hostapd-0.8_rtw_r7475.20130812/wpa_supplicant/mlme.c:1435-1439 | Returns the listed entry or adds one, so BSSIDs stay unique. |
| `MlmeBss.Table.HashDel` | wpa_supplicant_hostapd-0.8_rtw_r7475.20130812/wpa_supplicant/mlme.c:1230-1248 | Unlinks the entry from its chain wherever it is; no other chain changes. |
| `MlmeBss.Table.ListDeinit` | wpa_supplicant_hostapd-0.8_rtw_r7475.20130812/wpa_supplicant/mlme.c:1297-1308 | List and every chain are empty. |
| `MlmeBss.SearchBucket` | wpa_supplicant_hostapd-0.8_rtw_r7475.20130812/wpa_supplicant/mlme.c:1270-1281 | Searching the bucket of a BSSID is searching the list. |
| `MlmeBss.InExactlyOneChain` | wpa_supplicant_hostapd-0.8_rtw_r7475.20130812/wpa_supplicant/mlme.c:1221-1226 | A listed entry is in the chain of its hash and in no other. |
| `MlmeBss.BucketOnce` | wpa_supplicant_hostapd-0.8_rtw_r7475.20130812/wpa_supplicant/mlme.c:1221-1226 | No entry is in a chain twice. |
| `IbssRsn.Memcmp` | wpa_supplicant_hostapd-0.8_rtw_r7475.20130812/wpa_supplicant/ibss_rsn.c:126-127 | Positive exactly when the first address has the greater byte where the two first differ, negative exactly when the second has, zero exactly for equal ones. |
| `IbssRsn.CompareExact` | wpa_supplicant_hostapd-0.8_rtw_r7475.20130812/wpa_supplicant/ibss_rsn.c:123-133 | What the sign of the comparison means, in both directions and for equality. |
| `IbssRsn.OneIsGreater` | wpa_supplicant_hostapd-0.8_rtw_r7475.20130812/wpa_supplicant/ibss_rsn.c:110-139 | Of two different addresses exactly one is greater, that is, has the greater byte at the first place where they differ. |
| `IbssRsn.OneHandshakeUsed` | wpa_supplicant_hostapd-0.8_rtw_r7475.20130812/wpa_supplicant/ibss_rsn.c:110-290 | The authenticator of a handshake uses its key exactly when the supplicant at the other end does, and exactly when it is the greater station; so of the two handshakes of a pair exactly one is used. |
| `IbssRsn.BothEndsFollow` | wpa_supplicant_hostapd-0.8_rtw_r7475.20130812/wpa_supplicant/ibss_rsn.c:110-290 | The greater station's handshake sets the key at both ends, the other at neither. |
| `IbssRsn.StepKeepsInv` | wpa_supplicant_hostapd-0.8_rtw_r7475.20130812/wpa_supplicant/ibss_rsn.c:110-290 | Every key set or removed by any half keeps all pairwise keys from the right handshakes. |
| `IbssRsn.RunKeepsInv` | wpa_supplicant_hostapd-0.8_rtw_r7475.20130812/wpa_supplicant/ibss_rsn.c:110-290 | After any run, every installed pairwise key, also one whose other end has none yet, is from the handshake of the greater station. |
| `IbssRsn.PairwiseAgreement` | wpa_supplicant_hostapd-0.8_rtw_r7475.20130812/wpa_supplicant/ibss_rsn.c:110-290 | For any number of stations and any interleaving and rekeying, the two ends of a pair never hold keys from oppositely initiated handshakes; the authenticator is the station with the greater byte at the first place where the addresses differ. |
| `IbssRsn.Station.SuppSet` | wpa_supplicant_hostapd-0.8_rtw_r7475.20130812/wpa_supplicant/ibss_rsn.c:110-139 | Leaves all keys alone exactly for a pairwise key while the own address is greater; otherwise sets or removes the one slot and never changes another, of this peer or of others. |
| `IbssRsn.Station.AuthSet` | wpa_supplicant_hostapd-0.8_rtw_r7475.20130812/wpa_supplicant/ibss_rsn.c:258-290 | Leaves all keys alone exactly for a pairwise key without an address or while the own address is smaller; otherwise sets or removes the one slot and never changes another. |
| `IbssRsn.EapolDstExact` | wpa_supplicant_hostapd-0.8_rtw_r7475.20130812/wpa_supplicant/ibss_rsn.c:499-539 | A frame of at least 99 bytes is taken if and only if it is an EAPOL-Key frame of type RSN, of any version, whose length is at least that of a key and within the frame; it is the supplicant's if and only if the acknowledgement bit of its key information is set. |
| `IbssRsn.EapolForms` | wpa_supplicant_hostapd-0.8_rtw_r7475.20130812/wpa_supplicant/ibss_rsn.c:508-528 | Shorter frames are discarded, and every longer one has the form just described. |
| `IbssRsn.Station.Start` | wpa_supplicant_hostapd-0.8_rtw_r7475.20130812/wpa_supplicant/ibss_rsn.c:377-418 | Adds a peer in front exactly when it is not listed and its halves can be set up; the list stays duplicate-free. |
| `IbssRsn.Station.Stop` | wpa_supplicant_hostapd-0.8_rtw_r7475.20130812/wpa_supplicant/ibss_rsn.c:421-458 | Removes exactly the peer with the address, or all; afterwards it is not listed. |
| `IbssRsn.Station.RxEapol` | wpa_supplicant_hostapd-0.8_rtw_r7475.20130812/wpa_supplicant/ibss_rsn.c:499-596 | Delivers a frame to the half it is for; starts an unlisted sender exactly on an RSN key frame that wants an acknowledgement; the list stays duplicate-free. |
| `GsmTriplets.Gateway.GetGsmTriplet` | wpa_supplicant_hostapd-0.8_rtw_r7475.20130812/hostapd/hlr_auc_gw.c:227-249 | The next triplet of the IMSI in cyclic order from the cursor, which moves behind it. |
| `GsmTriplets.Gateway.SimReqAuth` | wpa_supplicant_hostapd-0.8_rtw_r7475.20130812/hostapd/hlr_auc_gw.c:402-451 | The reply is the results of three consecutive lookups, or of more if more are asked for, each for this IMSI and in cyclic order from the cursor; it is empty when none is stored. |
| `GsmTriplets.NextFindsStored` | wpa_supplicant_hostapd-0.8_rtw_r7475.20130812/hostapd/hlr_auc_gw.c:227-249 | A lookup succeeds if and only if a triplet of that IMSI is stored. |
| `GsmTriplets.CallsFollowCycle` | wpa_supplicant_hostapd-0.8_rtw_r7475.20130812/hostapd/hlr_auc_gw.c:227-249 | Consecutive lookups run round the stored triplets for ever, in list order from the cursor. |
| `GsmTriplets.OneRoundReturnsEachOnce` | wpa_supplicant_hostapd-0.8_rtw_r7475.20130812/hostapd/hlr_auc_gw.c:227-249 | m lookups return each of m stored triplets exactly once, from any cursor. |
| `GsmTriplets.ReplyDistinctIffEnoughStored` | wpa_supplicant_hostapd-0.8_rtw_r7475.20130812/hostapd/hlr_auc_gw.c:402-451 | A reply repeats no triplet if and only if enough are stored, or none is. |
| `Cyclic.RotationExact` | wpa_supplicant_hostapd-0.8_rtw_r7475.20130812/hostapd/hlr_auc_gw.c:227-249 | A cyclic walk visits every marked position exactly once, whatever the start. |

## Left out

- WPS, P2P, FT over the air key material, TDLS and 802.11w: selection, key management words and network fields are those of a build without them; `MlmeAuth` keeps the FT branches that send frames.
- EAP: the fields of the build with EAP are not in the concrete table of `ConfigFile`; `ConfigBlock.BlockRoundTrip` holds of any table, so string and number fields of that build are covered, the `eap` and `password` fields are not.
- ConfigFile.ReadConfig: the contents of a blob are read as lines outside of blocks; which such lines are proper global parameters, and what they set, is an arbitrary predicate on the line.
- The lengths that a refused WEP key or a failed SET_NETWORK of a number leaves in memory; a refused word list, which leaves an empty mask, is covered.
- Decimal.NumberRoundTrip: the overflow of a C int in atoi is not modelled; a number that a field can hold is an int, and for these nothing overflows.
- ConfigBlock.ReadBlock: after an erroneous line a source parser may leave a partial or clamped value, where the model keeps the old one; the network is given up in both.
- FreqText.WriteFreqs: that a negative frequency, printed as unsigned, does not come back is left to the overflow of atoi.
- ConfigFile.FileExact: temporary networks, which the writer skips, are not in its list; global parameters with quotes, comment signs or over 254 characters are not covered.
- WordList.WriteMask: goes over a table in a loop where the source tests the bits one after the other.
- Selection.Supplicant.PickNetwork: works on the groups as values; that the pnext chains hold these values is what `NetworkList` proves.
- Matching.SsidBssMatch: the parser of security elements is an arbitrary function of their bytes.
- Frame contents of the MLME: frames are counted, not built; header checks are parameters of the steps.
- MlmeScan.Mlme.ScanTimer: the contents of the probe request, and what follows the end of a scan: the event that reports it, and the search for an ad-hoc network, which is an event of its own in `MlmeAuth`.
- Association responses: rates, WMM parameters and driver calls after a successful association.
- IBSS search and merge of the MLME: a search joins a network or not, as its parameter says; in this source it never does, because no channel is allowed for it. They send no counted frame.
- IbssRsn.PairwiseAgreement: the handshakes themselves are abstract; each half can set or remove any key of its own handshake at any time.
- GsmTriplets.Gateway.SimReqAuth: the text of a reply, its 1000-byte buffer, and the Milenage branch.
- Choice of the sort order of scan results: closeness of signal levels makes it non-transitive, so selection takes any order.
- BssStore.Store.StoreElements: the two lists of the table are sequences of the same objects here; that removing, adding and updating on the prev and next links gives these sequences is what `BssLists` proves. Walks over a list go along the sequence.
- SelectionRounds.PickAfterRound: one direction; a result that the table does not store may still find an entry left there under its name by an earlier result.
- The eloop timer queue: a timer is a field that says whether it is set, and for how long where that matters.
- Where the per-request SSID cap comes from (driver capability, at most 4, 1 with the user-space MLME): the theorems hold for every cap of at least one.
- Scan requests other than the ap_scan 1 loop (ap_scan 2, association without scan, P2P and WPS wildcards, filter_ssids).
- mjpg-streamer, control interfaces, D-Bus, logging, crypto and the WPA state machines.
