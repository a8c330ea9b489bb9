# switch-hacks-rs, modelled in Dafny

This project models the core of `switch-hacks-rs`, a desktop tool for Animal Crossing: New Horizons (ACNH) on a Nintendo Switch. The tool reads and writes the game's inventory in memory. It does this over USB, through the `peek`/`poke` text commands of a debugging stub running on the console. The core has three layers:

- **The Switch client** (`SwitchUtils`).
  - It finds the first IN and first OUT endpoint in the device's descriptor tree.
  - Before every transfer it sets the configuration, claims the interface and selects the alternate setting.
  - It sends a command as a 4-byte little-endian length header, then the command followed by CRLF.
  - It receives a 4-byte size header, then a payload sized by the caller's buffer.
  - `write_dword` sends `poke 0x<address> 0x<byte-swapped value>`. `read_bytes` sends `peek 0x<address> 0x<length>` and then receives.
- **The catalog** (`AcnhItems`).
  - It loads the `;`-separated items and recipes files: a header line, then the rows whose column count equals the header count.
  - A bad row ends loading with a panic.
  - It looks entries up by variant and id, and searches by space-separated keywords, case-insensitively.
- **The inventory** (`AcnhUtils`).
  - There are 40 slots of 8 bytes from `0xAFB1E6E0`.
  - An item slot holds the id, then the count less one. A recipe slot holds `0x16A2`, then the recipe id.
  - The fill, clear and set operations stop at the first failed write.
  - `get_inventory` reads the 320 bytes back and decodes them against the catalog.

Shared modules:

- `Seqs` holds `Option`, `FlatMap`, `Filter` and `Head`.
- `Bytes` holds the `u32` type and little- and big-endian byte order.
- `Text` models the Rust string operations the core uses:
  - `{:08x}` and `{}` formatting;
  - `from_str_radix(_, 16)`;
  - UTF-8 encoding;
  - `split`, `trim`, `to_lowercase` and `contains`.
- `Usb` holds the descriptor tree and a device handle. The handle's device is an oracle: it answers request number `n` with `device(n)`. A ghost trace records every request issued.

Every multi-step USB operation is specified by its *plan*, the requests it means to make. `Run` states what happens to a plan: requests are issued in order until the first one the device fails. Every transfer method is proved to leave exactly `Run`'s issued prefix in the trace and to return `Run`'s status. `Switch` also keeps a ghost log of its `write_dword` calls. The inventory operations are proved against write plans through the `Performed` predicate: the calls made are a prefix of the plan, every call but the last succeeded, and the result is `Ok` exactly when the whole plan succeeded.

Two details of the transfer code that the model keeps as written:
- `get_switch_enpoint` filters endpoints by direction only (src/switch_utils.rs:75-80), so `GetSwitchEndpoint` ignores the transfer type.
- `receive_bytes` reads into the whole caller buffer and only reports a size mismatch (src/switch_utils.rs:126-140), so `ReceiveBytes` reads `buf.Length` bytes whatever the size header says.

## Model

| member | source | states |
|---|---|---|
| Usb.DirectionOf | src/switch_utils.rs:75 | an endpoint is IN exactly when bit 7 of its address is set |
| Usb.RunStopsAtFirstFailure | src/switch_utils.rs:94-97 | a chain of `?` steps issues a prefix of its plan; it succeeds iff every step was issued and answered; otherwise the last step issued is the first failure and its error is the result |
| Usb.RunAppend | src/switch_utils.rs:105-116 | running two plans back to back runs the second only if the first succeeded, and the statuses compose |
| Usb.Received | src/switch_utils.rs:136-140 | a bulk read overwrites the front of the buffer with at most its length of received bytes and keeps the rest |
| Usb.DeviceHandle.ReadBulk | src/switch_utils.rs:136-140 | a read issues one `BulkIn` sized by the buffer; on success the buffer holds the received bytes; a failed read is taken to store nothing (see Left out) |
| Usb.Run | src/switch_utils.rs:94-97 | definition of a `?` chain over a plan; `RunStopsAtFirstFailure` and `RunAppend` state what it issues and returns |
| SwitchUtils.GetSwitchEndpoint | src/switch_utils.rs:61-88 | the result is the first endpoint of the wanted direction in configuration, interface, setting and endpoint order; unreadable configurations are skipped; `None` exactly when there is none |
| SwitchUtils.SearchConfig | src/switch_utils.rs:72-85 | the first matching endpoint of one configuration, in interface order |
| SwitchUtils.SearchInterface | src/switch_utils.rs:73-84 | the first matching endpoint of one interface, in alternate-setting order |
| SwitchUtils.SearchSetting | src/switch_utils.rs:74-83 | the first endpoint of one alternate setting whose direction matches, carrying that configuration, interface and setting number |
| SwitchUtils.DeviceMatchesSound | src/switch_utils.rs:66-87 | every candidate comes from an endpoint descriptor of that direction in a readable configuration, at the indices returned |
| SwitchUtils.DeviceMatchesComplete | src/switch_utils.rs:66-87 | every endpoint descriptor of that direction in a readable configuration gives a candidate |
| SwitchUtils.DeviceMatchesExactly | src/switch_utils.rs:66-87 | an endpoint is a candidate iff some endpoint descriptor of that direction in a readable configuration produces it: nothing invented, nothing missed |
| SwitchUtils.NoMatchIffNoEndpoint | src/switch_utils.rs:66-87 | the search finds nothing exactly when no readable configuration has an endpoint of that direction |
| SwitchUtils.SwapBytesReverses | src/switch_utils.rs:40 | the converted value's little-endian bytes are the value's bytes in reverse order |
| SwitchUtils.SwapBytesTwice | src/switch_utils.rs:40 | the conversion is its own inverse, so no information is lost |
| SwitchUtils.SwapBytesExample | src/switch_utils.rs:40 | the value `0x9c9` is sent as `0xc9090000` |
| SwitchUtils.SwapBytes | src/switch_utils.rs:40 | definition of `u32::from_le_bytes(value.to_be_bytes())`; `SwapBytesReverses` and `SwapBytesTwice` state its properties |
| SwitchUtils.CommandOfTokens | src/switch_utils.rs:42-47 | a formatted command is 26 ASCII characters: the verb, a space, `0x` and eight lower-case hex digits, a space, `0x` and eight lower-case hex digits; each numeric token parses back under radix 16 to the value formatted |
| SwitchUtils.PokeCommandWellFormed | src/switch_utils.rs:39-43 | the `poke` command names the address and the byte-swapped value, both recoverable from the text |
| SwitchUtils.PeekCommandWellFormed | src/switch_utils.rs:45-47 | the `peek` command names the address and the length, both recoverable from the text |
| SwitchUtils.PokeCommand | src/switch_utils.rs:42 | definition of the `poke` text; `PokeCommandWellFormed` states its form |
| SwitchUtils.PeekCommand | src/switch_utils.rs:47 | definition of the `peek` text; `PeekCommandWellFormed` states its form |
| SwitchUtils.LengthHeader | src/switch_utils.rs:106 | definition of the size header, `(len + 2) as u32` little-endian; `HeaderAnnouncesFrame` states it |
| SwitchUtils.CommandFrame | src/switch_utils.rs:114 | definition of the command's bytes and CRLF; `HeaderAnnouncesFrame` states it |
| SwitchUtils.HeaderAnnouncesFrame | src/switch_utils.rs:106-116 | the frame is the command's UTF-8 bytes followed by `0x0D 0x0A`, and the header is the little-endian encoding of the frame's length |
| SwitchUtils.PeekPokeFrameLength | src/switch_utils.rs:106-116 | every peek or poke frame is 28 bytes long and its header announces 28 |
| SwitchUtils.SendPlanWrites | src/switch_utils.rs:100-118 | sending is the configuration steps, then exactly two bulk writes to the write endpoint with a 5 s timeout: the header announcing the frame, then the frame |
| SwitchUtils.ConfigurePlan | src/switch_utils.rs:94-96 | definition of the three configuration requests; `ConfigureEndpoint` is proved against it |
| SwitchUtils.SendPlan | src/switch_utils.rs:105-116 | definition of the send requests; `SendPlanWrites` and `SendCommand` state what it does |
| SwitchUtils.ReceivePlan | src/switch_utils.rs:126-140 | definition of the receive requests; `ReceiveBytes` is proved against it |
| SwitchUtils.ConfigureEndpoint | src/switch_utils.rs:90-98 | sets the configuration, claims the interface and selects the setting in that order; the first failure ends it; the trace and status are those of the plan's run |
| SwitchUtils.SendCommand | src/switch_utils.rs:100-118 | the requests issued and the status are exactly those of the send plan's run, stopping at the first failure |
| SwitchUtils.ReadHeaderThenPayload | src/switch_utils.rs:128-140 | reads the 4-byte size header, then, only if that read succeeded, the buffer-sized payload; `mismatch` iff the header was read and differs from `length`; the buffer changes only when the payload read succeeds |
| SwitchUtils.ReceiveBytes | src/switch_utils.rs:120-144 | the requests issued and the status are those of the receive plan; on success the buffer holds the payload; once the endpoint is configured, a size header that differs from `length` sets `mismatch`, and the payload read still happens |
| SwitchUtils.Switch.constructor | src/switch_utils.rs:28-32 | the session holds the two endpoints and the handle, with no writes logged |
| SwitchUtils.Switch.WriteDword | src/switch_utils.rs:39-43 | issues the send plan of the `poke` command on the write endpoint, returns its status and logs the call with the requests it issued, every bulk one a write to the write endpoint |
| SwitchUtils.Switch.ReadBytes | src/switch_utils.rs:45-50 | issues the `peek` send plan and then, only if it succeeded, the receive plan; the buffer changes only on success, to the payload |
| SwitchUtils.Switch.WriteDwordTouchesOnlyWriteEndpoint | src/switch_utils.rs:39-43 | every bulk request of a `write_dword` is a write to the write endpoint |
| SwitchUtils.Switch.ReadsFollowPeek | src/switch_utils.rs:45-50 | in `read_bytes` every bulk read comes after the whole `peek` send |
| SwitchUtils.IssuedByAppend | src/switch_utils.rs:39-43 | the requests of two runs of logged writes are those of the first run, then those of the second |
| SwitchUtils.OnlyWritesToAppend | src/switch_utils.rs:39-43 | request runs that only write to the endpoint stay so when concatenated |
| SwitchUtils.Connect | src/switch_utils.rs:11-33 | connecting fails iff the read endpoint or the write endpoint is missing (the read one checked first); otherwise the session uses the first IN and the first OUT endpoint |
| SwitchUtils.PokeRun | src/switch_utils.rs:39-43 | definition of the device's run of one `write_dword` send plan; `Switch.WriteDword` and `Acnh.WriteWord` are stated against it |
| SwitchUtils.PokeRuns | src/switch_utils.rs:39-43 | definition of the device's answer to any `write_dword` call on an endpoint, as a function of request number, address and value |
| SwitchUtils.SentFromSingle | src/switch_utils.rs:39-43 | one call whose requests and status are its poke's run is a log the device produced |
| SwitchUtils.SentByAppend | src/acnh_utils.rs:64-67 | two logs of calls, the second starting where the first stopped, form one log the device produced |
| SwitchUtils.SentByUnique | src/switch_utils.rs:39-43 | two logs of the same pokes that the device produced from the same request number are equal: nothing in a log can be forged |
| SwitchUtils.SentFromUnique | src/switch_utils.rs:39-43 | the same, for the device's answers on one endpoint |
| SwitchUtils.CallsAppend | src/acnh_utils.rs:64-67 | consecutive groups of calls compose: the logs, the traces, the write-only property and the device runs |
| Text.Hex8RoundTrip | src/switch_utils.rs:42 | the eight digits of `{:08x}` read back under `from_str_radix(_, 16)` to the value |
| Text.Hex8Ascii | src/switch_utils.rs:42 | a `0x{:08x}` token is plain ASCII |
| Text.Hex8 | src/switch_utils.rs:42 | `0x{:08x}` is ten characters, `0x` then eight hex digits; `Hex8RoundTrip` reads it back |
| Text.FromStrRadix16 | src/acnh_items.rs:111-115 | definition of `u32::from_str_radix(_, 16)`: an optional `+`, then digits of either case, nothing above `u32::MAX`; an empty string or a lone `+` never parses; `Hex8RoundTrip` states the round trip |
| Text.Utf8OfAscii | src/switch_utils.rs:114 | an ASCII string's bytes are its characters, one byte each |
| Text.Utf8Append | src/switch_utils.rs:114 | the bytes of a concatenation are the concatenated bytes |
| Bytes.FromLeOfLeBytes | src/acnh_utils.rs:114-115 | decoding the little-endian bytes of a word gives the word back |
| Bytes.LeBytesOfFromLe | src/switch_utils.rs:40 | four bytes decoded little-endian and re-encoded are the same bytes |
| Bytes.BeIsReversedLe | src/switch_utils.rs:40 | the big-endian bytes are the little-endian bytes reversed |
| Text.SplitPiecesLackSeparator | src/acnh_items.rs:98-99 | no piece of a split contains the separator |
| Text.JoinSplit | src/acnh_items.rs:98-99 | the pieces of a split, joined with the separator, give back the string |
| Text.Split | src/acnh_items.rs:98-99 | `split` with a one-character separator gives at least one piece; `SplitPiecesLackSeparator` and `JoinSplit` state it |
| Text.SplitAround | src/acnh_items.rs:70 | splitting `a + sep + b` gives the pieces of `a` and then those of `b` |
| Text.TrimRemovesOuterWhitespace | src/acnh_items.rs:99 | `trim` keeps a contiguous middle of the string, drops only whitespace on either side, and what it keeps neither starts nor ends with whitespace |
| Text.TrimStartDropsWhitespace | src/acnh_items.rs:99 | the start trim drops a whitespace prefix and stops at the first other character |
| Text.TrimEndDropsWhitespace | src/acnh_items.rs:99 | the end trim drops a whitespace suffix and stops at the last other character |
| Text.Trim | src/acnh_items.rs:99 | `trim` never lengthens the string; `TrimRemovesOuterWhitespace` states what it keeps |
| Text.ToLower | src/acnh_items.rs:69-71 | ASCII letters are lowercased one for one and every other character is kept unchanged (see Left out) |
| Text.Contains | src/acnh_items.rs:71 | `contains` is true iff the pattern occurs at some position |
| Text.ParseDecimalOfDecimal | src/acnh_utils.rs:21 | the decimal rendering of a number reads back to that number |
| Seqs.HeadOfFilter | src/acnh_items.rs:56 | `filter(..).nth(0)` is `None` iff nothing matches, and otherwise the first match in order |
| Seqs.FilterIndices | src/acnh_items.rs:68-76 | `filter(..).collect()` is the input at strictly increasing indices, exactly those whose element satisfies the predicate |
| AcnhItems.GetId | src/acnh_items.rs:27-32 | the id of either variant |
| AcnhItems.GetType | src/acnh_items.rs:34-39 | the variant tag, `Item` iff the entry is an item |
| AcnhItems.KeywordsMatch | src/acnh_items.rs:70-75 | true iff every keyword, lowercased, occurs in the lowercased description |
| AcnhItems.EmptyKeywordOccurs | src/acnh_items.rs:71 | the empty keyword occurs in every description |
| AcnhItems.QueryMatchesExtend | src/acnh_items.rs:70-75 | a query with one more keyword matches iff the shorter query and the keyword both match |
| AcnhItems.KeywordsAppend | src/acnh_items.rs:70-75 | matching two keyword lists in a row is matching both |
| AcnhItems.Position | src/acnh_items.rs:112 | `position` is `None` iff the name is absent; otherwise an index holding the name |
| AcnhItems.PositionIsFirst | src/acnh_items.rs:112 | the index `position` finds is the first one holding the name |
| AcnhItems.Field | src/acnh_items.rs:112-118 | the column under a header name is present iff the header is |
| AcnhItems.FieldAtFirstHeader | src/acnh_items.rs:112-118 | the column under a name is the row's column at the index of the first header with that name |
| AcnhItems.TrimEach | src/acnh_items.rs:99 | the columns of a line are its pieces, each one trimmed, one for one |
| AcnhItems.Columns | src/acnh_items.rs:99 | definition of the trimmed `;` pieces of a line; `TrimEach` states it |
| AcnhItems.Headers | src/acnh_items.rs:100-105 | definition of the header list; `Catalog.NonEmptyColumns` is proved against it |
| AcnhItems.ParseRow | src/acnh_items.rs:107-130 | definition of one data row's outcome; `ParseRowOutcome` states it |
| AcnhItems.ParseRowOutcome | src/acnh_items.rs:107-130 | a row is skipped iff its column count differs from the header count; a row of the right width panics iff a required header (`id`, `eng`, `iName`, and `color` for items) is missing or the id is not base-16 `u32`; otherwise it becomes an entry of the file's kind with those fields |
| AcnhItems.ParseRowsAppend | src/acnh_items.rs:98-134 | loading two runs of lines is loading the first and then, unless it panicked, the second |
| AcnhItems.ParseRows | src/acnh_items.rs:98-134 | definition of loading the data rows in order until a panic; `ParseRowsAppend`, `RowStep` and `PanicEndsFile` state it |
| AcnhItems.ParseFile | src/acnh_items.rs:98-134 | definition of a whole file: the first line gives the headers, the rest are data rows; `TrailingNewlineIgnored` states it |
| AcnhItems.RowStep | src/acnh_items.rs:107-131 | one more row after rows that did not panic: the entries grow by the row's entry iff it is accepted, and the load has panicked iff this row panics |
| AcnhItems.PanicEndsFile | src/acnh_items.rs:111-125 | once a row panics, the lines after it have no effect |
| AcnhItems.ParsedItemsHaveKind | src/acnh_items.rs:109-129 | every entry loaded from a file has the file's kind |
| AcnhItems.SkippedRowChangesNothing | src/acnh_items.rs:108 | a row of the wrong width has no effect wherever it sits |
| AcnhItems.TrailingNewlineIgnored | src/acnh_items.rs:98-108 | a final newline adds an empty row, which changes nothing unless the header has exactly one column |
| AcnhItems.LoadFileHasKind | src/acnh_items.rs:86-137 | every entry one file appends has the kind that file was loaded as |
| AcnhItems.LoadFile | src/acnh_items.rs:86-137 | definition of one file's outcome; `Catalog.LoadItemsFile` is proved against it |
| AcnhItems.LoadBoth | src/acnh_items.rs:79-84 | definition of `load_items`; `ItemsBeforeRecipes` and `Catalog.LoadItems` state it |
| AcnhItems.ItemsBeforeRecipes | src/acnh_items.rs:79-84 | after `load_items` every item entry comes before every recipe entry |
| AcnhItems.Catalog.constructor | src/acnh_items.rs:48 | the catalog starts empty |
| AcnhItems.Catalog.GetItemById | src/acnh_items.rs:55-57 | `None` iff no `Item` entry has the id; otherwise the first such entry, and never a recipe |
| AcnhItems.Catalog.GetRecipeById | src/acnh_items.rs:59-61 | `None` iff no `Recipe` entry has the id; otherwise the first such entry, and never an item |
| AcnhItems.Catalog.FindItems | src/acnh_items.rs:67-77 | the result is drawn from the catalog and each entry matches every keyword; every matching catalog entry is in it |
| AcnhItems.Catalog.FindItemsInCatalogOrder | src/acnh_items.rs:67-77 | the results are the catalog entries at strictly increasing indices, and those indices are exactly the matching ones: catalog order and multiplicity are kept |
| AcnhItems.Catalog.FindItem | src/acnh_items.rs:63-65 | `None` iff nothing matches; otherwise the first search result, which is the catalog entry at the first matching index |
| AcnhItems.Catalog.EmptyQueryMatchesAll | src/acnh_items.rs:67-77 | the empty query returns the whole catalog in order |
| AcnhItems.Catalog.AddingKeywordNarrows | src/acnh_items.rs:67-77 | adding a keyword gives the previous results, in order, that also match the new keyword |
| AcnhItems.Catalog.LoadItemsFile | src/acnh_items.rs:86-137 | an unreadable file is an error that changes nothing; otherwise the file's entries are appended in order and a bad row ends it in a panic |
| AcnhItems.Catalog.LoadRows | src/acnh_items.rs:106-134 | the data lines are taken one at a time, in order: the entries appended are those of the rows up to the first panic, and the outcome is a panic iff some row panics |
| AcnhItems.Catalog.LoadRow | src/acnh_items.rs:107-130 | one row is parsed and its entry pushed iff the row is accepted; nothing is pushed for a skipped or panicking row |
| AcnhItems.Catalog.NonEmptyColumns | src/acnh_items.rs:100-105 | the header list is the non-empty columns of the first line, in order |
| AcnhItems.Catalog.LoadItems | src/acnh_items.rs:79-84 | loads the items file, then, only if that loaded, the recipes file; outcome and entries as `LoadBoth` |
| AcnhUtils.SlotAddress | src/acnh_utils.rs:65 | slot `n` is at `0xAFB1E6E0 + 8n` |
| AcnhUtils.SlotWords | src/acnh_utils.rs:64-79 | definition of a slot's two words; `SlotPokesContents` and `ShownCountIsWrittenCount` state them |
| AcnhUtils.SlotPokes | src/acnh_utils.rs:58-81 | definition of a slot's two writes; `SlotPokesContents` states them |
| AcnhUtils.InventorySlotsFit | src/acnh_utils.rs:84 | the addresses of all 40 slots fit in a `u32` |
| AcnhUtils.SlotPokesContents | src/acnh_utils.rs:58-81 | an item slot write is the id at the slot then `count - 1` four bytes on; a recipe slot write is `0x16A2` then the recipe id, whatever the count |
| AcnhUtils.FillPokesLayout | src/acnh_utils.rs:83-102 | a fill makes two writes per slot, in ascending slot order, write `k` at `0xAFB1E6E0 + 4k`, the even ones the slot's first word and the odd ones its second |
| AcnhUtils.FillPokes | src/acnh_utils.rs:83-102 | a fill over `n` slots makes `2n` writes; `FillPokesLayout` states where each one goes |
| AcnhUtils.ClearedLayout | src/acnh_utils.rs:104-106 | clearing writes `0xfffe` as every slot's first word and 0 as its second |
| AcnhUtils.PerformedAppend | src/acnh_utils.rs:64-67 | two `?`-chained writes: the second happens only after the first succeeded, and their records compose |
| AcnhUtils.PerformedStopped | src/acnh_utils.rs:64-67 | after a failed write nothing more is attempted, whatever was planned after it |
| AcnhUtils.PerformedStop | src/acnh_utils.rs:84-86 | a fill that fails at some slot has made a prefix of the whole 40-slot plan and failed with that slot's error |
| AcnhUtils.FillStep | src/acnh_utils.rs:83-102 | one slot of a fill loop: when the slot succeeded the fill has performed the plan of one more slot; when it failed the fill has failed its whole 40-slot plan with that slot's error |
| AcnhUtils.Acnh.constructor | src/acnh_utils.rs:31-35 | the game session wraps a connected switch |
| AcnhUtils.Acnh.WriteWord | src/acnh_utils.rs:64-67 | one `write_dword`, recorded with its result; the status and the requests recorded are exactly the device's run of the `poke` send plan from the current request number; the log grows by `writes`, the trace by exactly their requests, and every bulk request among them is a write to the write endpoint; each logged call's requests and status are those the device gives its poke's send plan, each call starting where the previous one stopped |
| AcnhUtils.Acnh.SetInventoryItem | src/acnh_utils.rs:58-69 | the id write and then the count write, stopping at the first failure; the log grows by `writes`, the trace by exactly their requests, and every bulk request among them is a write to the write endpoint; each logged call's requests and status are those the device gives its poke's send plan, each call starting where the previous one stopped |
| AcnhUtils.Acnh.SetInventoryRecipe | src/acnh_utils.rs:71-81 | the marker write and then the recipe-id write, stopping at the first failure; the log grows by `writes`, the trace by exactly their requests, and every bulk request among them is a write to the write endpoint; each logged call's requests and status are those the device gives its poke's send plan, each call starting where the previous one stopped |
| AcnhUtils.Acnh.SetInventory | src/acnh_utils.rs:37-56 | the writes of the item or the recipe operation, by the entry's variant; the log grows by `writes`, the trace by exactly their requests, and every bulk request among them is a write to the write endpoint; each logged call's requests and status are those the device gives its poke's send plan, each call starting where the previous one stopped |
| AcnhUtils.Acnh.FillInventoryItems | src/acnh_utils.rs:83-88 | the slot writes for slots 0 to 39 in order, stopping at the first failed slot; the log grows by `writes`, the trace by exactly their requests, and every bulk request among them is a write to the write endpoint; each logged call's requests and status are those the device gives its poke's send plan, each call starting where the previous one stopped |
| AcnhUtils.Acnh.FillInventoryRecipes | src/acnh_utils.rs:90-95 | the recipe slot writes for slots 0 to 39 in order, stopping at the first failed slot; the log grows by `writes`, the trace by exactly their requests, and every bulk request among them is a write to the write endpoint; each logged call's requests and status are those the device gives its poke's send plan, each call starting where the previous one stopped |
| AcnhUtils.Acnh.FillInventory | src/acnh_utils.rs:97-102 | the slot writes of the entry's variant for slots 0 to 39 in order, stopping at the first failed slot; the log grows by `writes`, the trace by exactly their requests, and every bulk request among them is a write to the write endpoint; each logged call's requests and status are those the device gives its poke's send plan, each call starting where the previous one stopped |
| AcnhUtils.Acnh.ClearInventory | src/acnh_utils.rs:104-106 | the fill of item `0xfffe` with count 1, stopping at the first failure; the log grows by `writes`, the trace by exactly their requests, and every bulk request among them is a write to the write endpoint; each logged call's requests and status are those the device gives its poke's send plan, each call starting where the previous one stopped |
| AcnhUtils.Acnh.GetInventory | src/acnh_utils.rs:108-144 | issues the `peek` of 320 bytes at `0xAFB1E6E0` into a zeroed buffer; a failure is returned with no entries; otherwise the 40 entries decoded from the data received |
| AcnhUtils.DecodeInventory | src/acnh_utils.rs:112-143 | one entry per inventory slot, 40 in all |
| AcnhUtils.DecodeSlot | src/acnh_utils.rs:117-140 | first word `0x16A2`: a recipe entry with the second word as id and count 1; otherwise an item entry with the first word as id and the second as count |
| AcnhUtils.DecodeSlotClassifies | src/acnh_utils.rs:113-141 | first word `0x16A2`: the recipe named by the second word, count 1; otherwise: the item named by the first word, with the second word as count; a catalog miss is an `Unknown` entry carrying the raw id |
| AcnhUtils.ShownCountIsWrittenCount | src/acnh_utils.rs:17-28 | an item written with count `c` (stored as `c - 1`) is shown as its rendering, ` x`, and digits that read back as `c` |
| AcnhUtils.ToString | src/acnh_utils.rs:17-28 | the text starts with the entry's rendering; a recipe continues with `(Recipe)`, an item with ` x` and a decimal, with no leading zero, that reads back as the count plus one |
| AcnhUtils.ImageWords | src/acnh_utils.rs:114-115 | the bytes at offsets `8i` and `8i + 4` of the read buffer are the words at the slot's two write addresses |
| AcnhUtils.ApplyDistinct | src/acnh_utils.rs:84-86 | writes to distinct addresses all land |
| AcnhUtils.FillThenDecode | src/acnh_utils.rs:83-144 | the writer and reader layouts agree: in a memory that stores each written word at its address, reading back a fill decodes every slot as the fill's two words; an item fill gives that item with stored count `count - 1`, a recipe fill that recipe with count 1 |

## Left out

- USB library plumbing: the context, opening the device by vendor and product id (`0x057E`, `0x3000`) and reading the device descriptor are not modelled. `Connect` starts from the configuration descriptors (an unreadable one is `None`) and an open handle. The `expect` panics of `Switch::new` become the `Connection` error cases.
- Timeouts are recorded in each request (5 s to send, 30 s to receive) but time is not modelled; a timeout is one of the device's failure replies.
- The device's replies come from the oracle `device`. What the console does with a `poke`, and what memory a `peek` returns, are not modelled.
- `FillThenDecode` is stated for a memory that stores each written word at its address and reads existing words little-endian. That is an assumption about the console, not a property of the program. In particular it does not model the byte swap `write_dword` applies before sending. The source's comment alone says that swap is needed.
- Short transfers: a bulk write is taken to send all its bytes. A bulk read into a buffer stores at most the buffer's length, and the model needs nothing more. A device reply longer than the buffer counts as a success of `Usb.DeviceHandle.ReadBulk` that keeps the first `buf.Length` bytes; libusb reports it as an overflow error instead.
- Usb.DeviceHandle.ReadBulk: a failed read is assumed to store nothing in the buffer. A real `read_bulk` may have stored part of the data before it reports a timeout. The same assumption carries into `ReadHeaderThenPayload`, `ReceiveBytes` and `Switch.ReadBytes`, whose "the buffer changes only on success" rests on it.
- `println!` output, including the size-mismatch warning, is not modelled. The mismatch is returned as the ghost `mismatch` of `ReceiveBytes`.
- `AcnhItems::new` and `ACNH::new` panic on failure. Here the catalog is built empty and loaded with `LoadItems`, which returns the outcome. `Acnh` is built from a connected `Switch`.
- File I/O: opening and reading the catalog files is replaced by `FileContents`, either the text or `Unreadable`. The fixed paths `./csv/items.csv` and `./csv/recipes.csv` are not modelled.
- A panic while loading ends the program. The model returns `Panicked` and keeps the entries appended before the bad row. It does not model the process ending.
- The `{:?}` Debug rendering used as search text is the `describe` parameter of `FindItems`. The `Display` rendering of an entry is the `display` parameter of `ToString`. Neither is defined by the part of the repository modelled here.
- AcnhItems.KeywordsMatch, Text.ToLower: lowercasing is modelled for ASCII letters only. Rust's `to_lowercase` also maps non-ASCII letters, sometimes to several characters. The whitespace set of `trim` is the full Unicode one.
- AcnhUtils.Acnh.SetInventoryItem, AcnhUtils.Acnh.FillInventoryItems, AcnhUtils.Acnh.SetInventory, AcnhUtils.Acnh.FillInventory, AcnhUtils.SlotWords, AcnhUtils.SlotPokes, AcnhUtils.FillPokes: require `count >= 1` for an item (the last three for kind `ItemKind`). The source computes `count - 1` and underflows for 0.
- AcnhUtils.SlotAddress, AcnhUtils.SlotPokes, AcnhUtils.Acnh.SetInventoryItem, AcnhUtils.Acnh.SetInventoryRecipe, AcnhUtils.Acnh.SetInventory: require `SlotFits(slot)`, the slot's address plus 4 fitting in a `u32`. The source's `INVENTORY_OFFSET + slot * 8 + 4` overflows for larger slots.
- AcnhUtils.ToString: requires the stored count of an item to be below `u32::MAX`. The source's `self.count + 1` overflows for that value.
- `main.rs` is not part of this model.
