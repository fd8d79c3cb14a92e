# KGE VPN watchdog overview: a Dafny model of the page's data logic

The LuCI page of the KGE VPN watchdog shows the daemon's status, the list of
sites it probes and the VPN peers it may switch between. Its `render`
function holds the data logic modelled here:

- **Site list** (`SiteList`). It parses the stored site file, one record
  `name<TAB>url<TAB>block<TAB>success` per line, into the domains shown in
  the textarea, one per line. It also serialises the edited textarea back
  into records. Each saved record is `slug<TAB>domain<TAB>DEFAULT_BLOCK<TAB>slug`.
- **Whitelist** (`Whitelist`). This is the set built from the peers reply's
  `whitelist`, which is an array or a string of ids. The rule that decides
  which peer checkboxes start checked uses it.
- **Regions** (`Regions`). This is the bucket key of a peer, its trimmed
  region or the em dash `NO_REGION`. It also covers the buckets of rows,
  and the comparator and sort of `regionOrder`, with `NO_REGION` last.
- **Peer panel** (`PeerPanel`). It holds the checkbox of each peer, the map
  `peerCheckboxes` from id to checkbox, the map `regionToPeers` from region
  to rows, and the operations the buttons call: `selectAllPeers`,
  `setRegion` and `getSelectedPeers`. The checkboxes are an `array<bool>`
  indexed by peer position. Both maps refer to a checkbox by its index, so
  the two views of the same checkbox share one cell, as in the page.
- **Log tail** (`LogTail`). This is the count of log lines,
  `parseInt(status.log_tail_lines, 10) || 200`.
- **JavaScript strings** (`JsString`). These are `trim`, `split` on one
  character or on runs of white space, `join`, and the two regular
  expression replacements that reduce a URL to its domain. They follow the
  WhiteSpace and LineTerminator sets of section 12.2 and 12.3 of ECMA-262.

`Object.keys` on the two maps gives keys in first-insertion order. The
model keeps that order as a sequence beside each map. `localeCompare` is
modelled as lexicographic order of code points.

## Model

| member | source | states |
|---|---|---|
| SiteList.SitesText | applications/luci-app-kge-vpn-watchdog/htdocs/luci-static/resources/view/kge_vpn_watchdog/overview.js:97-111 | the textarea text is the file's domains joined by line breaks; splitting it on line breaks gives back exactly those domains, and a file without domains shows as empty text |
| SiteList.LineDomain | applications/luci-app-kge-vpn-watchdog/htdocs/luci-static/resources/view/kge_vpn_watchdog/overview.js:101-108 | a blank or comment line gives no domain; a domain that is read is non-empty and trimmed |
| SiteList.LineDomainOfSecondField | applications/luci-app-kge-vpn-watchdog/htdocs/luci-static/resources/view/kge_vpn_watchdog/overview.js:103-107 | a stored line whose second tab field is not blank after trimming gives the domain of that trimmed field, or nothing when that domain is empty |
| SiteList.LineDomainOfFirstField | applications/luci-app-kge-vpn-watchdog/htdocs/luci-static/resources/view/kge_vpn_watchdog/overview.js:103-107 | a stored line with no second tab field, or a blank one, gives the domain of its trimmed first field, or nothing when that is empty |
| SiteList.SiteDomainsRoundTrip | applications/luci-app-kge-vpn-watchdog/htdocs/luci-static/resources/view/kge_vpn_watchdog/overview.js:97-111 | joining the domains of a file and splitting the text again gives back the same domains |
| SiteList.SiteDomains | applications/luci-app-kge-vpn-watchdog/htdocs/luci-static/resources/view/kge_vpn_watchdog/overview.js:97-110 | every domain the parser reads from a stored file is non-empty, trimmed and on one line |
| SiteList.SkippedLineIgnored | applications/luci-app-kge-vpn-watchdog/htdocs/luci-static/resources/view/kge_vpn_watchdog/overview.js:102 | a line `IsSkipped` rejects, blank or starting with '#', contributes nothing wherever it stands among the lines |
| SiteList.SkippedRecordIgnored | applications/luci-app-kge-vpn-watchdog/htdocs/luci-static/resources/view/kge_vpn_watchdog/overview.js:98-102 | deleting a blank or comment line from a stored file changes none of its domains |
| SiteList.CollectAppend | applications/luci-app-kge-vpn-watchdog/htdocs/luci-static/resources/view/kge_vpn_watchdog/overview.js:100-109 | the parser reads the lines one after another: the domains of two runs of lines are the domains of each, concatenated |
| SiteList.CollectWellFormed | applications/luci-app-kge-vpn-watchdog/htdocs/luci-static/resources/view/kge_vpn_watchdog/overview.js:104-107 | every domain read from the file is non-empty and trimmed |
| SiteList.DefaultBlockIsOneField | applications/luci-app-kge-vpn-watchdog/htdocs/luci-static/resources/view/kge_vpn_watchdog/overview.js:188 | the default block pattern holds no tab and no line break, so it stays one field of one record |
| SiteList.Kept | applications/luci-app-kge-vpn-watchdog/htdocs/luci-static/resources/view/kge_vpn_watchdog/overview.js:193-194 | the kept textarea lines are trimmed and neither blank nor comments, and hold no line break when the input lines hold none |
| SiteList.KeptLines | applications/luci-app-kge-vpn-watchdog/htdocs/luci-static/resources/view/kge_vpn_watchdog/overview.js:193-194 | every kept line of the textarea is trimmed, neither blank nor a comment, and holds no line break |
| SiteList.KeptOfKept | applications/luci-app-kge-vpn-watchdog/htdocs/luci-static/resources/view/kge_vpn_watchdog/overview.js:194 | lines that are already trimmed and not blank or comments are kept as they are |
| SiteList.KeptLinesOfJoin | applications/luci-app-kge-vpn-watchdog/htdocs/luci-static/resources/view/kge_vpn_watchdog/overview.js:193-194 | trimmed, non-comment lines joined into a textarea come back as the kept lines |
| SiteList.StoredDomain | applications/luci-app-kge-vpn-watchdog/htdocs/luci-static/resources/view/kge_vpn_watchdog/overview.js:196 | a non-empty line never saves an empty domain, because an empty domain falls back to the line itself, and the saved domain holds no character the line does not hold |
| SiteList.Slug | applications/luci-app-kge-vpn-watchdog/htdocs/luci-static/resources/view/kge_vpn_watchdog/overview.js:197 | the slug is the prefix of the domain up to its first '.'; the whole domain when it has no '.' or starts with '.'; never empty for a non-empty domain |
| SiteList.Fields | applications/luci-app-kge-vpn-watchdog/htdocs/luci-static/resources/view/kge_vpn_watchdog/overview.js:197-198 | a record has four fields; none is empty for a non-empty line, and none holds a tab or line break that the line does not hold |
| SiteList.Record | applications/luci-app-kge-vpn-watchdog/htdocs/luci-static/resources/view/kge_vpn_watchdog/overview.js:198 | the record of a line without tabs splits back into exactly its four fields; the record of a line without line breaks is one line |
| SiteList.Records | applications/luci-app-kge-vpn-watchdog/htdocs/luci-static/resources/view/kge_vpn_watchdog/overview.js:195-199 | one record per kept line, in order, and each record is on one line when its textarea line is |
| SiteList.SaveContent | applications/luci-app-kge-vpn-watchdog/htdocs/luci-static/resources/view/kge_vpn_watchdog/overview.js:193-199 | the saved content splits into one line per kept textarea line, each that line's record; no kept line gives empty content |
| SiteList.LineDomainOfRecord | applications/luci-app-kge-vpn-watchdog/htdocs/luci-static/resources/view/kge_vpn_watchdog/overview.js:101-107 | reading a saved record back gives the domain of the line it was saved from |
| SiteList.SaveThenLoad | applications/luci-app-kge-vpn-watchdog/htdocs/luci-static/resources/view/kge_vpn_watchdog/overview.js:97-111 | saving the textarea and parsing the saved file gives the domains of the kept lines, in order |
| SiteList.ReloadedDomainsHaveNoPath | applications/luci-app-kge-vpn-watchdog/htdocs/luci-static/resources/view/kge_vpn_watchdog/overview.js:106 | after saving and reloading, no shown domain holds a '/' |
| SiteList.RecordOfDomain | applications/luci-app-kge-vpn-watchdog/htdocs/luci-static/resources/view/kge_vpn_watchdog/overview.js:195-198 | saving a line and saving its domain write the same record |
| SiteList.SaveIsStableAfterReload | applications/luci-app-kge-vpn-watchdog/htdocs/luci-static/resources/view/kge_vpn_watchdog/overview.js:193-199 | saving, reloading and saving again writes the same file as the first save |
| Whitelist.WhitelistSet | applications/luci-app-kge-vpn-watchdog/htdocs/luci-static/resources/view/kge_vpn_watchdog/overview.js:113-114 | a missing whitelist gives the empty set; an array gives exactly its ids; a string gives the empty set exactly when it is empty |
| Whitelist.CheckedRule | applications/luci-app-kge-vpn-watchdog/htdocs/luci-static/resources/view/kge_vpn_watchdog/overview.js:115 | `IsInitiallyChecked` (lines 115 and 243): an empty whitelist checks every peer; a non-empty one checks exactly its members |
| Whitelist.BlankTextChecksNoPeer | applications/luci-app-kge-vpn-watchdog/htdocs/luci-static/resources/view/kge_vpn_watchdog/overview.js:114-115 | a whitelist string of white space only yields the set holding only the empty id, so no peer with a non-empty id starts checked |
| Whitelist.TextIdsAreTokens | applications/luci-app-kge-vpn-watchdog/htdocs/luci-static/resources/view/kge_vpn_watchdog/overview.js:114 | the ids of a string that is not all white space are non-empty and hold no white space |
| Whitelist.TextAgreesWithList | applications/luci-app-kge-vpn-watchdog/htdocs/luci-static/resources/view/kge_vpn_watchdog/overview.js:114 | ids written as one space-separated string give the same set as the same ids given as an array |
| Whitelist.TextAgreesWithListRuns | applications/luci-app-kge-vpn-watchdog/htdocs/luci-static/resources/view/kge_vpn_watchdog/overview.js:113-114 | ids separated by any non-empty runs of white space, with any white space before and after, give the same set as the same ids given as an array |
| Regions.RegionKey | applications/luci-app-kge-vpn-watchdog/htdocs/luci-static/resources/view/kge_vpn_watchdog/overview.js:246 | the key is never empty; it is NO_REGION exactly when the trimmed region is empty or is NO_REGION itself, and otherwise it is the trimmed region |
| Regions.GroupRows | applications/luci-app-kge-vpn-watchdog/htdocs/luci-static/resources/view/kge_vpn_watchdog/overview.js:246-248 | every row of `Group`, the pushes onto one bucket, is the row of a peer with that key, and the rows follow the order of the peers |
| Regions.GroupHas | applications/luci-app-kge-vpn-watchdog/htdocs/luci-static/resources/view/kge_vpn_watchdog/overview.js:246-248 | peer i's checkbox is in the `Group` of a key exactly when that key is the peer's |
| Regions.BucketRows | applications/luci-app-kge-vpn-watchdog/htdocs/luci-static/resources/view/kge_vpn_watchdog/overview.js:247-248 | every row of a region `Bucket` is the row of a peer filed under that region, in peer order |
| Regions.OneBucketPerPeer | applications/luci-app-kge-vpn-watchdog/htdocs/luci-static/resources/view/kge_vpn_watchdog/overview.js:246-248 | each peer is in the `Bucket` of a region exactly when that region is its key, so it is in exactly one bucket |
| Regions.DistinctSpec | applications/luci-app-kge-vpn-watchdog/htdocs/luci-static/resources/view/kge_vpn_watchdog/overview.js:251 | `Distinct`, the `Object.keys` order of an object filled in order, holds each inserted key exactly once and no other key |
| Regions.LexCompare | applications/luci-app-kge-vpn-watchdog/htdocs/luci-static/resources/view/kge_vpn_watchdog/overview.js:294 | the comparison result is -1, 0 or 1 |
| Regions.LexCompareZero | applications/luci-app-kge-vpn-watchdog/htdocs/luci-static/resources/view/kge_vpn_watchdog/overview.js:294 | only equal strings compare equal |
| Regions.LexCompareFlip | applications/luci-app-kge-vpn-watchdog/htdocs/luci-static/resources/view/kge_vpn_watchdog/overview.js:294 | swapping the operands flips the sign |
| Regions.LexCompareTransitive | applications/luci-app-kge-vpn-watchdog/htdocs/luci-static/resources/view/kge_vpn_watchdog/overview.js:294 | 'compares before' is transitive |
| Regions.NoRegionLast | applications/luci-app-kge-vpn-watchdog/htdocs/luci-static/resources/view/kge_vpn_watchdog/overview.js:292-293 | the comparator puts NO_REGION after every other region, whichever side it is on |
| Regions.CompareRegions | applications/luci-app-kge-vpn-watchdog/htdocs/luci-static/resources/view/kge_vpn_watchdog/overview.js:291-295 | the comparator returns -1, 0 or 1, and returns 0 exactly for two equal regions other than NO_REGION |
| Regions.CompareRegionsConsistent | applications/luci-app-kge-vpn-watchdog/htdocs/luci-static/resources/view/kge_vpn_watchdog/overview.js:291-295 | on two different regions the comparator never says equal and gives opposite answers for the two argument orders |
| Regions.RegionBeforeTransitive | applications/luci-app-kge-vpn-watchdog/htdocs/luci-static/resources/view/kge_vpn_watchdog/overview.js:291-295 | the comparator's order is transitive |
| Regions.RegionBeforeAsymmetric | applications/luci-app-kge-vpn-watchdog/htdocs/luci-static/resources/view/kge_vpn_watchdog/overview.js:291-295 | no region comes before a region that comes before it |
| Regions.Insert | applications/luci-app-kge-vpn-watchdog/htdocs/luci-static/resources/view/kge_vpn_watchdog/overview.js:291 | inserting a region adds exactly that region to the elements |
| Regions.SortRegions | applications/luci-app-kge-vpn-watchdog/htdocs/luci-static/resources/view/kge_vpn_watchdog/overview.js:291 | the sorted region names are a permutation of the keys |
| Regions.InsertSorted | applications/luci-app-kge-vpn-watchdog/htdocs/luci-static/resources/view/kge_vpn_watchdog/overview.js:291-295 | inserting a new region into a sorted sequence keeps it sorted |
| Regions.SortRegionsSorted | applications/luci-app-kge-vpn-watchdog/htdocs/luci-static/resources/view/kge_vpn_watchdog/overview.js:291-295 | sorting distinct region names orders them by the comparator |
| Regions.SortedNoDup | applications/luci-app-kge-vpn-watchdog/htdocs/luci-static/resources/view/kge_vpn_watchdog/overview.js:291-295 | a sorted sequence holds no region twice |
| Regions.SortedFirst | applications/luci-app-kge-vpn-watchdog/htdocs/luci-static/resources/view/kge_vpn_watchdog/overview.js:291-295 | the first region of a sorted sequence comes before every other one |
| Regions.SortedSameFirst | applications/luci-app-kge-vpn-watchdog/htdocs/luci-static/resources/view/kge_vpn_watchdog/overview.js:291-295 | two sorted sequences of the same regions start with the same region |
| Regions.SortedUnique | applications/luci-app-kge-vpn-watchdog/htdocs/luci-static/resources/view/kge_vpn_watchdog/overview.js:291-295 | two sorted sequences of the same regions are equal, so the order does not depend on the sort algorithm |
| Regions.SortedLast | applications/luci-app-kge-vpn-watchdog/htdocs/luci-static/resources/view/kge_vpn_watchdog/overview.js:291-295 | in a sorted sequence a region that comes before no region is last |
| Regions.NoRegionShownLast | applications/luci-app-kge-vpn-watchdog/htdocs/luci-static/resources/view/kge_vpn_watchdog/overview.js:291-295 | when some peer has no region, NO_REGION is the last region shown |
| PeerPanel.Register | applications/luci-app-kge-vpn-watchdog/htdocs/luci-static/resources/view/kge_vpn_watchdog/overview.js:241-249 | one fresh checkbox per peer, each checked by the whitelist rule; the id map gives each id the checkbox of its last peer; each region bucket holds exactly its peers' rows in order; both key orders are the orders of first insertion |
| PeerPanel.TabulateRegistered | applications/luci-app-kge-vpn-watchdog/htdocs/luci-static/resources/view/kge_vpn_watchdog/overview.js:241-249 | the tables the registration loop builds are exactly the registered tables of the peers |
| PeerPanel.InitialSelection | applications/luci-app-kge-vpn-watchdog/htdocs/luci-static/resources/view/kge_vpn_watchdog/overview.js:243-245 | before any button is pressed the selection is exactly the peers the whitelist rule checks, and all ids in key order when the whitelist is empty |
| PeerPanel.Selected | applications/luci-app-kge-vpn-watchdog/htdocs/luci-static/resources/view/kge_vpn_watchdog/overview.js:259 | an id is selected exactly when it is one of the ids and its registered checkbox is checked; no id is selected twice |
| PeerPanel.SelectedUniform | applications/luci-app-kge-vpn-watchdog/htdocs/luci-static/resources/view/kge_vpn_watchdog/overview.js:259 | when every registered checkbox holds the same state, the selection is all ids or none of them |
| PeerPanel.DistinctIdsAllRegistered | applications/luci-app-kge-vpn-watchdog/htdocs/luci-static/resources/view/kge_vpn_watchdog/overview.js:241-251 | when no two peers share an id, the id map sends each peer's id to that peer's own checkbox, so `selectAllPeers` reaches every checkbox |
| PeerPanel.CheckKeys | applications/luci-app-kge-vpn-watchdog/htdocs/luci-static/resources/view/kge_vpn_watchdog/overview.js:251 | the registered checkbox of each given id is set to the given state and no other checkbox changes |
| PeerPanel.SetKeysAll | applications/luci-app-kge-vpn-watchdog/htdocs/luci-static/resources/view/kge_vpn_watchdog/overview.js:250-252 | after the loop over every key, each registered checkbox holds the state and every other checkbox keeps its old state |
| PeerPanel.CheckRows | applications/luci-app-kge-vpn-watchdog/htdocs/luci-static/resources/view/kge_vpn_watchdog/overview.js:254-256 | the checkbox of each given row is set to the given state and no other checkbox changes |
| PeerPanel.SetRegionRows | applications/luci-app-kge-vpn-watchdog/htdocs/luci-static/resources/view/kge_vpn_watchdog/overview.js:253-257 | after the loop over a region's rows, exactly the checkboxes of peers filed under it hold the state |
| PeerPanel.Panel.constructor | applications/luci-app-kge-vpn-watchdog/htdocs/luci-static/resources/view/kge_vpn_watchdog/overview.js:238-249 | the panel is valid; each checkbox's initial state follows the whitelist rule; the selection is exactly the listed peers, or every id in key order when the whitelist is empty |
| PeerPanel.Panel.SelectedIds | applications/luci-app-kge-vpn-watchdog/htdocs/luci-static/resources/view/kge_vpn_watchdog/overview.js:258-260 | an id is selected exactly when it is registered and its checkbox is checked; no id is selected twice |
| PeerPanel.Panel.SelectAll | applications/luci-app-kge-vpn-watchdog/htdocs/luci-static/resources/view/kge_vpn_watchdog/overview.js:250-252 | every registered checkbox is set to the state and every other one keeps its old state; afterwards the selection is every id in key order, or empty |
| PeerPanel.Panel.SetRegion | applications/luci-app-kge-vpn-watchdog/htdocs/luci-static/resources/view/kge_vpn_watchdog/overview.js:253-257 | exactly the checkboxes of peers filed under the region take the state and all others keep theirs; an unknown region changes nothing |
| PeerPanel.Panel.RegionOrder | applications/luci-app-kge-vpn-watchdog/htdocs/luci-static/resources/view/kge_vpn_watchdog/overview.js:291-295 | the region order is sorted by the comparator, holds each region once, and holds exactly the regions that have a bucket |
| LogTail.LogTail | applications/luci-app-kge-vpn-watchdog/htdocs/luci-static/resources/view/kge_vpn_watchdog/overview.js:93 | the count is never 0 |
| LogTail.LogTailFallback | applications/luci-app-kge-vpn-watchdog/htdocs/luci-static/resources/view/kge_vpn_watchdog/overview.js:93 | the count is 200 exactly when parseInt gives NaN, 0 or 200, and is otherwise the parsed value |
| LogTail.ParseInt | applications/luci-app-kge-vpn-watchdog/htdocs/luci-static/resources/view/kge_vpn_watchdog/overview.js:93 | `parseInt(s, 10)` is NaN exactly when, after leading white space and one optional sign, no decimal digit follows |
| LogTail.ParseSigned | applications/luci-app-kge-vpn-watchdog/htdocs/luci-static/resources/view/kge_vpn_watchdog/overview.js:93 | a negative result only comes from a leading '-' |
| LogTail.ParseDigits | applications/luci-app-kge-vpn-watchdog/htdocs/luci-static/resources/view/kge_vpn_watchdog/overview.js:93 | the digits give NaN exactly when the text does not start with a digit, and otherwise a non-negative value |
| LogTail.DecimalValueOfDecimal | applications/luci-app-kge-vpn-watchdog/htdocs/luci-static/resources/view/kge_vpn_watchdog/overview.js:93 | the decimal numeral of n reads back as n |
| LogTail.ParseDigitsOf | applications/luci-app-kge-vpn-watchdog/htdocs/luci-static/resources/view/kge_vpn_watchdog/overview.js:93 | the digits take the longest run of decimal digits and ignore what follows it |
| LogTail.ParseNegative | applications/luci-app-kge-vpn-watchdog/htdocs/luci-static/resources/view/kge_vpn_watchdog/overview.js:93 | a '-' sign negates the digits that follow it |
| LogTail.ParseShow | applications/luci-app-kge-vpn-watchdog/htdocs/luci-static/resources/view/kge_vpn_watchdog/overview.js:93 | parseInt reads back any integer written in decimal, after any leading white space and before any trailing non-digit text |
| LogTail.LogTailOfShow | applications/luci-app-kge-vpn-watchdog/htdocs/luci-static/resources/view/kge_vpn_watchdog/overview.js:93 | a non-zero count written in decimal, optionally padded and followed by text, is used as it is |
| LogTail.LogTailOfNonNumber | applications/luci-app-kge-vpn-watchdog/htdocs/luci-static/resources/view/kge_vpn_watchdog/overview.js:93 | a value with no digits after its sign falls back to 200 |
| JsString.TrimStart | applications/luci-app-kge-vpn-watchdog/htdocs/luci-static/resources/view/kge_vpn_watchdog/overview.js:101 | the result is a suffix of the string and does not start with white space |
| JsString.TrimEnd | applications/luci-app-kge-vpn-watchdog/htdocs/luci-static/resources/view/kge_vpn_watchdog/overview.js:101 | the result is a prefix of the string and does not end with white space |
| JsString.TrimStartRemovesWhiteSpace | applications/luci-app-kge-vpn-watchdog/htdocs/luci-static/resources/view/kge_vpn_watchdog/overview.js:101 | only white space is removed from the front |
| JsString.TrimEndRemovesWhiteSpace | applications/luci-app-kge-vpn-watchdog/htdocs/luci-static/resources/view/kge_vpn_watchdog/overview.js:101 | only white space is removed from the end |
| JsString.Trim | applications/luci-app-kge-vpn-watchdog/htdocs/luci-static/resources/view/kge_vpn_watchdog/overview.js:101 | the trimmed string neither starts nor ends with white space |
| JsString.TrimFixedPoint | applications/luci-app-kge-vpn-watchdog/htdocs/luci-static/resources/view/kge_vpn_watchdog/overview.js:101 | trimming changes a string exactly when it starts or ends with white space |
| JsString.TrimIdempotent | applications/luci-app-kge-vpn-watchdog/htdocs/luci-static/resources/view/kge_vpn_watchdog/overview.js:101 | trimming twice is trimming once |
| JsString.TrimEmpty | applications/luci-app-kge-vpn-watchdog/htdocs/luci-static/resources/view/kge_vpn_watchdog/overview.js:102 | a string trims to empty exactly when it is all white space |
| JsString.TrimPadded | applications/luci-app-kge-vpn-watchdog/htdocs/luci-static/resources/view/kge_vpn_watchdog/overview.js:114 | trimming a string that has no white space at its ends, padded with white space on both sides, gives the string back |
| JsString.Split | applications/luci-app-kge-vpn-watchdog/htdocs/luci-static/resources/view/kge_vpn_watchdog/overview.js:98 | split always gives at least one part; a string without the separator gives itself; the first part is the text before the first separator |
| JsString.SplitParts | applications/luci-app-kge-vpn-watchdog/htdocs/luci-static/resources/view/kge_vpn_watchdog/overview.js:98 | no part holds the separator, and joining the parts with it gives back the string |
| JsString.SplitJoin | applications/luci-app-kge-vpn-watchdog/htdocs/luci-static/resources/view/kge_vpn_watchdog/overview.js:98 | splitting parts joined by a separator they lack gives back the parts |
| JsString.JoinSnoc | applications/luci-app-kge-vpn-watchdog/htdocs/luci-static/resources/view/kge_vpn_watchdog/overview.js:110 | joining one more pushed part appends the separator and that part |
| JsString.JoinLacks | applications/luci-app-kge-vpn-watchdog/htdocs/luci-static/resources/view/kge_vpn_watchdog/overview.js:195-199 | a joined text holds no character other than the separator that none of its parts holds |
| JsString.SplitWhiteSpace | applications/luci-app-kge-vpn-watchdog/htdocs/luci-static/resources/view/kge_vpn_watchdog/overview.js:114 | splitting on white space gives at least one part, and no part holds white space |
| JsString.SplitWhiteSpaceTrimmed | applications/luci-app-kge-vpn-watchdog/htdocs/luci-static/resources/view/kge_vpn_watchdog/overview.js:114 | splitting a non-empty trimmed string on white space gives no empty part |
| JsString.SplitWhiteSpaceJoin | applications/luci-app-kge-vpn-watchdog/htdocs/luci-static/resources/view/kge_vpn_watchdog/overview.js:114 | splitting tokens joined by single spaces on white space gives back the tokens |
| JsString.SplitWhiteSpaceRuns | applications/luci-app-kge-vpn-watchdog/htdocs/luci-static/resources/view/kge_vpn_watchdog/overview.js:114 | splitting tokens joined by any non-empty runs of white space on white space gives back the tokens |
| JsString.StripScheme | applications/luci-app-kge-vpn-watchdog/htdocs/luci-static/resources/view/kge_vpn_watchdog/overview.js:106 | removing the scheme leaves a suffix of the URL |
| JsString.StripSchemeRemovesScheme | applications/luci-app-kge-vpn-watchdog/htdocs/luci-static/resources/view/kge_vpn_watchdog/overview.js:106 | the scheme is removed exactly when the URL starts with http:// or https:// in any case, and what is removed ends in :// |
| JsString.CutPath | applications/luci-app-kge-vpn-watchdog/htdocs/luci-static/resources/view/kge_vpn_watchdog/overview.js:106 | cutting the path leaves a prefix of the URL |
| JsString.CutPathStopsAtSlash | applications/luci-app-kge-vpn-watchdog/htdocs/luci-static/resources/view/kge_vpn_watchdog/overview.js:106 | on a single line the cut stops at the first '/' |
| JsString.Domain | applications/luci-app-kge-vpn-watchdog/htdocs/luci-static/resources/view/kge_vpn_watchdog/overview.js:106 | the domain is trimmed |
| JsString.DomainHasNoSlash | applications/luci-app-kge-vpn-watchdog/htdocs/luci-static/resources/view/kge_vpn_watchdog/overview.js:106 | the domain of a single-line URL holds no '/' |
| JsString.DomainIdempotent | applications/luci-app-kge-vpn-watchdog/htdocs/luci-static/resources/view/kge_vpn_watchdog/overview.js:106 | reducing a domain to its domain changes nothing |

## Left out

- The RPC calls, the DOM elements, the promises, the notifications and the polling are not modelled. The operations take the values the backend returned, and the checkbox states, as parameters and fields.
- The watchdog daemon and its backend scripts are not part of this model.
- The display of the log path, the line count, the status fields and the peer rows is left out, because those lines only format values.
- `localeCompare` is modelled as lexicographic order of code points. The page's locale collation is host-defined.
- Strings are sequences of Unicode scalar values. UTF-16 surrogate pairs are not modelled. The case-insensitive scheme match is exact: without the `u` flag, ECMAScript case folding never maps a non-ASCII character onto the ASCII letters of `http`/`https`.
- `Object.keys` is modelled as first-insertion order, and every key is treated as a fresh own property of a plain map. The model leaves out the reordering of integer-like keys. It also leaves out keys inherited from `Object.prototype`:
  - A region named `constructor` or `toString` makes `regionToPeers[r]` truthy at line 247 before anything is stored. Line 248 then throws a TypeError, because `push` is not a function of the inherited value.
  - A peer id `__proto__` sets the object's prototype instead of registering a checkbox at line 245.
- A peer's `id` is the already resolved `p.id || p` string, and its `region` is already a string. Peers without an id and values that `String()` converts are left out.
- Whitelist values other than missing, an array of strings or a string are left out, with their `String()` conversion.
- `parseInt` on non-string values, and precision beyond 2^53, are left out. The model's integers are unbounded.
- `row.cb` is always present in the model (line 255), because every row is built with its checkbox (line 248).
- A checkbox's initial state is taken to be the `checked` value computed at line 243. How the element builder `E()` (line 244) turns that value into the element's state is not part of this model.
- PeerPanel.Register gathers the checkbox states in a sequence during the `forEach` and allocates the array after it, not one checkbox per step. The resulting state is the same.
- JsString.Split: its ensures only gives the first part and the case without a separator. The full property, that the parts lack the separator and join back to the string, is lemma JsString.SplitParts.
- JsString.StripScheme: its ensures only says the result is a suffix. The exact scheme rule is lemma JsString.StripSchemeRemovesScheme.
