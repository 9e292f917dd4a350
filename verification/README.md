# Localization Package Extensions — audio pair tables, in Dafny

This project models the audio side of the Unity "Localization Package Extensions"
tools. An `AudioPairTable` asset pairs the entries of a string table collection with
audio clips, one clip per (entry, locale). The model covers six parts:

- **The table** (`AudioPairTable`, `audio_pair_table.dfy`): the list of
  `(key, keyId, locale, clip)` pairs, its edit operations and its two lookup indexes.
- **Reconciliation** (`PairSync`, `pair_sync.dfy`): the editor commands that realign a
  table with its collection's shared data.
- **Bulk import** (`ClipReader`, `clip_reader.dfy`): the pure core of the window that
  builds clip names from a format string and pairs matching clips with entries.
- **The table editor window** (`TableWindow`, `table_window.dfy`): which asset belongs to
  a collection, column order, what a cell shows, what editing a cell does, and where a new
  asset is saved.
- **The bit-mask helper** (`Mask`, `mask.dfy`): the locale multi-selection helper.
- **Host stand-ins** (`Localization`, `Strings`): the host types and the .NET string
  operations the code relies on.
  - `Localization` holds the locale ids, entries, shared data and clips.
  - `Strings` holds ordinal `Contains`/`Replace`, `long.ToString`, `IsNullOrWhiteSpace`
    and `Substring`. Strings are sequences of Unicode scalar values, not UTF-16 code units.

`Seqs` holds the generic list operations:

- `RemoveAll` is a filter.
- A first and a last search.
- LINQ's `OrderBy` is a stable sort with its own correctness proof.

`Wrappers` holds `Option`.

Mutable objects become values. Each mutating method is a function, or a method with real
out-parameters, from the old list or mask to the new one.

- **A C# `null`:** a clip that may be `null` is `Option<Clip>`. A `null` table is `None`.
- **Exceptions:** a path that makes `Substring` throw is `None` or `Failed`. A collection
  whose lookup would throw stops `SyncAll` (`failedAt`).
- **Host inputs become parameters:**
  - asset searches;
  - the data path;
  - the culture names of a locale;
  - which string-table values exist;
  - the clips found under a folder.

Behaviour modelled as written, where it differs from what the names, comments or the
editor's help text suggest:

- **`AddPair`:**
  - It removes only pairs with the same key *in the same locale*. Its doc comment says
    pairs with the same key or key id are removed.
  - A pair sharing only the key id therefore survives (`AddPairKeepsSameIdOtherKey`).
  - Re-adding a key under a new id can orphan the old id (`AddPairCanOrphanKeyId`).
- **Bulk import, naming:**
  - The `ThreeLetterISOLanguageName` locale style substitutes the *two*-letter name
    (`ThreeLetterStyleReadsTwoLetterName`).
  - The `{table}` keyword the help box advertises is never substituted
    (`TableKeywordIsLiteral`).
  - `{id}` is replaced after `{key}`, so an `{id}` inside a key is expanded too.
  - `{locale}` is replaced only when the format itself contains it.
- **Bulk import, target cells:** the `Empty`/`Filled` switch asks `HasClip` with the
  collection *name* as the entry key, not with the entry's key. When no key equals the
  collection name, the decision is effectively taken once per table
  (`TargetDecidedPerTable`).
- **Clearing a clip cell** removes the entry's pairs by key id in *every* locale, not only
  in the edited column (`ClearedEverywhere`).
- **`GetMaskValue(selectedIndices)`** sets bit `i` for each *position* `i` of the list. It
  never reads the index values.
- **C# `1 << i`** on an `int` uses only the low five bits of `i`, so index `i` addresses
  bit `i % 32`. Every mask property is stated modulo 32.

## Model

| member | source | states |
|---|---|---|
| AudioPairTable.RemovePair | Runtime/Scripts/AudioPairTable.cs:96-102 | a pair survives iff the reference does not refer to it (by key for a name reference, by key id for an id reference), across all locales; an empty reference changes nothing |
| AudioPairTable.RemovePairAt | Runtime/Scripts/AudioPairTable.cs:107-113 | a pair survives iff it is not referred to in the given locale; an empty reference changes nothing |
| AudioPairTable.RemovePairCounts | Runtime/Scripts/AudioPairTable.cs:96-113 | removal keeps every occurrence of an untargeted pair and none of a targeted one |
| AudioPairTable.RemovePairKeepsOrder | Runtime/Scripts/AudioPairTable.cs:96-113 | survivors keep their relative order: removal distributes over concatenation |
| AudioPairTable.AddPair | Runtime/Scripts/AudioPairTable.cs:87-91 | the added pair is last; for a non-blank key no other pair has its key and locale; pairs of any other key or locale keep all their occurrences; a blank key, which the host turns into the empty reference, removes nothing |
| AudioPairTable.AddPairMembers | Runtime/Scripts/AudioPairTable.cs:87-91 | the pairs present afterwards are exactly the new pair and the old pairs with another key or locale, or every old pair when the new key is blank |
| AudioPairTable.AddPairKeepsSameIdOtherKey | Runtime/Scripts/AudioPairTable.cs:83-91 | a pair sharing only the key id (other key, or same key in another locale) is not deleted, contrary to the doc comment |
| AudioPairTable.AddPairCanOrphanKeyId | Runtime/Scripts/AudioPairTable.cs:87-91 | re-adding key `a` with a new id in the same locale makes the old id stop resolving |
| AudioPairTable.Index | Runtime/Scripts/AudioPairTable.cs:53-67 | the index has a cell for a key (or key id) and a locale iff some pair has that key (or id) in that locale |
| AudioPairTable.IndexIsLastWriter | Runtime/Scripts/AudioPairTable.cs:53-67 | the index fold is last-writer-wins: a cell exists iff some pair has that key (or id) and locale, and holds the last such pair's clip |
| AudioPairTable.LookupIsLastMatch | Runtime/Scripts/AudioPairTable.cs:146-178 | a name reference goes through the key index and an id reference through the id index, each reaching the last matching pair; an empty reference reaches nothing |
| AudioPairTable.Lookup | Runtime/Scripts/AudioPairTable.cs:146-178 | the reference reaches a cell iff some pair matches it in the locale; the empty reference matches no pair |
| AudioPairTable.HasClip | Runtime/Scripts/AudioPairTable.cs:115-131 | `HasClip` holds iff some pair matches the reference in the locale, and never for the empty reference |
| AudioPairTable.HasClipIffSomeMatch | Runtime/Scripts/AudioPairTable.cs:115-131 | `HasClip` holds iff some pair matches the reference in the locale, and a non-null clip implies `HasClip` |
| AudioPairTable.GetAudioClipIsLastMatch | Runtime/Scripts/AudioPairTable.cs:146-178 | `GetAudioClip` is `null` when nothing matches and otherwise the clip of the last matching pair |
| AudioPairTable.GetAudioClip | Runtime/Scripts/AudioPairTable.cs:150-153 | an empty reference always yields `null` |
| AudioPairTable.AddPairThenLookup | Runtime/Scripts/AudioPairTable.cs:87-91 | after adding a pair, both its key and its key id find its clip in its locale |
| AudioPairTable.AddPairKeepsOtherKeyLookups | Runtime/Scripts/AudioPairTable.cs:87-131 | adding a pair leaves every key lookup and `HasClip` answer for another key or another locale unchanged |
| AudioPairTable.LastMatchIsLookedUp | Runtime/Scripts/AudioPairTable.cs:146-178 | `GetAudioClip` returns the clip of the last pair the reference selects in the locale |
| AudioPairTable.AddPairIsLastMatch | Runtime/Scripts/AudioPairTable.cs:87-91 | after `AddPair(p)`, `p` is the last pair its key and its key id select in its locale |
| AudioPairTable.AddPairKeepsLastMatch | Runtime/Scripts/AudioPairTable.cs:87-91 | adding a pair a reference does not select, and that differs in key or locale from the last pair the reference selects, keeps that last pair |
| AudioPairTable.LastClipOfFilter | Runtime/Scripts/AudioPairTable.cs:89 | removing only pairs a lookup cannot see does not change what the lookup finds |
| Localization.NameRef | Runtime/Scripts/AudioPairTable.cs:89 | a string key converts to the empty reference iff it is blank, and otherwise to a name reference to that key |
| Localization.IdRef | Editor/Scripts/AudioPairTableWindow.cs:239 | a key id converts to the empty reference iff it is 0, and otherwise to an id reference to that id |
| Localization.EntryById | Editor/Scripts/AudioPairTableEditor.cs:84 | `GetEntry(keyId)` finds an entry carrying that id, and `null` iff no entry has it |
| Localization.EntryByKey | Editor/Scripts/AudioPairTableEditor.cs:109 | `GetEntry(key)` finds an entry carrying that key, and `null` iff no entry has it |
| Localization.KeyLookupInvertsId | Editor/Scripts/AudioPairTableEditor.cs:84-109 | with unique ids and keys, looking an entry up by its key and by its id both find that entry |
| PairSync.KeepUsed | Editor/Scripts/AudioPairTableEditor.cs:58-65 | a pair is kept iff its key id names an entry of the shared data |
| PairSync.RemovePairsWithUnusedKeyId | Editor/Scripts/AudioPairTableEditor.cs:52-71 | the loop over a copy leaves exactly the pairs with a used key id, in order, and counts the removed pairs |
| PairSync.UpdatedKeys | Editor/Scripts/AudioPairTableEditor.cs:82-91 | length and order, key ids, locales and clips are kept; a pair whose key id resolves takes that entry's key, others keep theirs |
| PairSync.UpdatePairsKeyByKeyId | Editor/Scripts/AudioPairTableEditor.cs:76-96 | the loop produces the refreshed list and counts exactly the positions whose pair changed |
| PairSync.UpdatedKeyIds | Editor/Scripts/AudioPairTableEditor.cs:107-116 | keys, locales and clips are kept; a pair whose key resolves takes that entry's id, others keep theirs |
| PairSync.UpdatePairsKeyIdByKey | Editor/Scripts/AudioPairTableEditor.cs:101-122 | the loop produces the refreshed list and counts exactly the positions whose pair changed |
| PairSync.UpdateKeysIdempotent | Editor/Scripts/AudioPairTableEditor.cs:76-96 | a second key refresh changes nothing and counts no update |
| PairSync.UpdateKeyIdsIdempotent | Editor/Scripts/AudioPairTableEditor.cs:101-122 | a second id refresh changes nothing and counts no update, whatever the shared data |
| PairSync.SyncPairs | Editor/Scripts/AudioPairTableEditor.cs:127-131 | after sync every pair's key id names an entry and its key is that entry's key, and every pair whose key id was in use is still there with only its key refreshed |
| PairSync.Sync | Editor/Scripts/AudioPairTableEditor.cs:127-131 | removal followed by key refresh yields the synced list |
| PairSync.SyncIdempotent | Editor/Scripts/AudioPairTableEditor.cs:127-131 | syncing a synced list changes nothing |
| PairSync.SyncAgreesWithKeyIds | Editor/Scripts/AudioPairTableEditor.cs:101-131 | with unique ids and keys, refreshing key ids after a sync changes nothing |
| PairSync.SyncAll | Editor/Scripts/AudioPairTableEditor.cs:137-154 | tables are synced one by one against their own collection; the run stops exactly at the first table with pairs whose collection is missing, leaving it and later tables untouched, while a missing collection for a table without pairs passes |
| PairSync.SyncedTable | Editor/Scripts/AudioPairTableEditor.cs:55-60 | a synced table keeps its collection name and every pair resolves to an entry with its key; without a collection it is unchanged |
| ClipReader.DefaultSettings | Editor/Scripts/AudioClipReaderWindow.cs:69-100 | the window opens with the `Code` style, target `All`, and the mask `-1` selecting every locale |
| ClipReader.ThreeLetterStyleReadsTwoLetterName | Editor/Scripts/AudioClipReaderWindow.cs:175-180 | the three-letter ISO style substitutes the two-letter name, never the three-letter one when they differ |
| ClipReader.LocaleText | Editor/Scripts/AudioClipReaderWindow.cs:161-186 | the `{locale}` text is the locale's code or one of the five culture names the switch reads, never the culture's three-letter ISO name field |
| ClipReader.CandidateName | Editor/Scripts/AudioClipReaderWindow.cs:155-187 | a format containing none of `{key}`, `{id}` and `{locale}` is used as the clip name unchanged |
| ClipReader.DefaultFormatName | Editor/Scripts/AudioClipReaderWindow.cs:70 | the default format `{key}_{locale}` names the clip `<key>_<locale text>` for every key that contains neither `{id}` nor `{locale}` |
| ClipReader.KeyFormatName | Editor/Scripts/AudioClipReaderWindow.cs:155-159 | under the format `{key}` the clip name is the key with every `{id}` in it replaced by the entry's id, and nothing else replaced |
| ClipReader.IdInsideKeyIsExpanded | Editor/Scripts/AudioClipReaderWindow.cs:155-157 | `{id}` is replaced after `{key}`, so a key `a{id}` of entry 7 yields `a7` |
| ClipReader.KeyLocaleStaysLiteral | Editor/Scripts/AudioClipReaderWindow.cs:155-161 | under a format with `{key}` but no `{locale}`, a `{locale}` the key brings in is still in the clip name, and the name is the same for every locale text |
| ClipReader.LocaleInsideKeyStaysLiteral | Editor/Scripts/AudioClipReaderWindow.cs:159 | an instance of the rule: under the format `{key}` the key `a{locale}` names the clip `a{locale}` for every locale text |
| ClipReader.TableKeywordIsLiteral | Editor/Scripts/AudioClipReaderWindow.cs:60-65 | the advertised `{table}` keyword is never substituted |
| ClipReader.Skips | Editor/Scripts/AudioClipReaderWindow.cs:141-153 | `All` never skips; `Empty` skips iff the collection name is not blank and some pair has it as key in the table's locale; `Filled` skips iff the name is blank or no such pair exists |
| ClipReader.FirstClipNamed | Editor/Scripts/AudioClipReaderWindow.cs:189 | the first clip with the name, or `null` iff none has it |
| ClipReader.EntryPair | Editor/Scripts/AudioClipReaderWindow.cs:141-196 | an entry yields a pair iff its cell is not skipped and some folder clip has the candidate name; the pair carries the entry's key and id, the table's locale and the first clip with that name |
| ClipReader.ApplyEntry | Editor/Scripts/AudioClipReaderWindow.cs:189-196 | every pair afterwards was there before or is the entry's pair; pairs of other locales keep every occurrence |
| ClipReader.ApplyEntryPairs | Editor/Scripts/AudioClipReaderWindow.cs:189-196 | after an entry is applied, its key and its id both find the chosen clip in the table's locale |
| ClipReader.ApplyEntries | Editor/Scripts/AudioClipReaderWindow.cs:139-197 | other locales' pairs keep every occurrence; every pair afterwards was there before or pairs a folder clip in the table's locale |
| ClipReader.ApplyTables | Editor/Scripts/AudioClipReaderWindow.cs:136-198 | pairs of non-target locales keep every occurrence; every new pair is in a target locale and holds a folder clip |
| ClipReader.ReadAndApply | Editor/Scripts/AudioClipReaderWindow.cs:117-137 | a blank folder changes nothing; the import throws iff the folder is not blank and the `Substring` start, counted in Unicode scalar values, is negative or past its end; otherwise only locales the mask selects are touched and the collection name is kept |
| ClipReader.ApplyEntriesPairsEntry | Editor/Scripts/AudioClipReaderWindow.cs:139-197 | with all cells targeted, after a table is applied every entry of it whose candidate name some folder clip carries finds, by key and by key id, the first such clip in the table's locale |
| ClipReader.ApplyTablesPairsEntry | Editor/Scripts/AudioClipReaderWindow.cs:136-198 | the same holds after the loop over all tables, for a target table whose locale no other table of the collection has |
| ClipReader.ReadAndApplyPairsEntry | Editor/Scripts/AudioClipReaderWindow.cs:117-198 | a usable folder is imported, and every entry of a selected table is paired, by key and by key id, with the first folder clip carrying its candidate name |
| ClipReader.ApplyEntryKeepsSkip | Editor/Scripts/AudioClipReaderWindow.cs:141-148 | applying an entry whose key is not the collection name does not change the target-cell decision |
| ClipReader.TargetDecidedPerTable | Editor/Scripts/AudioClipReaderWindow.cs:139-153 | when no key equals the collection name, a skipped table is left alone and otherwise is applied as with `All` |
| TableWindow.FindConnectedAudioTable | Editor/Scripts/AudioPairTableWindow.cs:91-106 | the first asset naming the collection, or `null` iff none does |
| TableWindow.IndexOf | Editor/Scripts/AudioPairTableWindow.cs:151 | `-1` iff the locale is absent, otherwise the position of its first occurrence |
| TableWindow.LocaleColumns | Editor/Scripts/AudioPairTableWindow.cs:151 | the columns are a permutation of the string tables, sorted by locale position, with equal positions in collection order |
| TableWindow.ColumnsFollowProjectOrder | Editor/Scripts/AudioPairTableWindow.cs:151 | columns of unknown locales come first, and known distinct locales appear in project order |
| TableWindow.BindCell | Editor/Scripts/AudioPairTableWindow.cs:181-210 | rows past the last entry draw nothing, a row without a table value throws, a shown clip comes from a pair with the entry's id in the column's locale, and the empty id 0 shows none |
| TableWindow.BindCellShowsLastMatch | Editor/Scripts/AudioPairTableWindow.cs:195-210 | a row with a table value and a non-empty id shows exactly the clip of the last pair with that id in the column's locale, and none when no pair has it |
| TableWindow.KeyCell | Editor/Scripts/AudioPairTableWindow.cs:332-338 | the key column shows the row's key, or nothing past the last entry |
| TableWindow.OnClipChanged | Editor/Scripts/AudioPairTableWindow.cs:233-251 | clearing removes every pair with the entry's id, and nothing for the empty id 0; choosing appends the pair of the entry and the column's locale |
| TableWindow.EditedCellShowsClip | Editor/Scripts/AudioPairTableWindow.cs:210-245 | after choosing or clearing a clip, rebinding the same cell shows exactly that clip or none; an entry with the empty id 0 shows none |
| TableWindow.ClearedEverywhere | Editor/Scripts/AudioPairTableWindow.cs:235-240 | clearing one cell clears the entry's id lookups in every locale; for the empty id 0 the list is unchanged |
| TableWindow.ChosenClipKeepsOtherKeyLookups | Editor/Scripts/AudioPairTableWindow.cs:243-246 | choosing a clip leaves the key lookups of other keys, and of the same key in other locales, unchanged |
| TableWindow.CreateAudioPairTableAsset | Editor/Scripts/AudioPairTableWindow.cs:341-354 | a blank path cancels, a path whose `Substring` start, counted in Unicode scalar values, is negative or past its end throws, otherwise an empty table for the collection is created at the project-relative path |
| TableWindow.CreatedAssetIsConnected | Editor/Scripts/AudioPairTableWindow.cs:91-106 | when no earlier asset names the collection, a newly created asset is the one the window connects to |
| Mask.HasIsMaskTest | Editor/Scripts/Mask.cs:16-19 | `Has(index)` is the test `(value & (1 << index)) != 0` |
| Mask.PositionIsMod | Editor/Scripts/Mask.cs:16-19 | the bit an index addresses through `1 << index` is the index modulo 32 |
| Mask.Select | Editor/Scripts/Mask.cs:21-24 | exactly the indices congruent to `index` modulo 32 are selected |
| Mask.Add | Editor/Scripts/Mask.cs:26-29 | the addressed index becomes selected and every other index keeps its state |
| Mask.Remove | Editor/Scripts/Mask.cs:31-34 | the addressed index becomes unselected and every other index keeps its state |
| Mask.Toggle | Editor/Scripts/Mask.cs:36-39 | the addressed index flips and every other index keeps its state |
| Mask.ToggleTwice | Editor/Scripts/Mask.cs:36-39 | toggling the same index twice restores the mask |
| Mask.SelectAll | Editor/Scripts/Mask.cs:41-44 | every index is selected |
| Mask.SelectNone | Editor/Scripts/Mask.cs:46-49 | no index is selected |
| Mask.SelectedIndices | Editor/Scripts/Mask.cs:58-65 | the selected indices below `length`, strictly increasing: `i` is listed iff it is in range and selected |
| Mask.GetSelectedIndicesInto | Editor/Scripts/Mask.cs:58-65 | the loop lists exactly the selected indices below `length`, nothing for a negative length |
| Mask.GetSelectedIndices | Editor/Scripts/Mask.cs:51-56 | the list-returning overload yields the same indices |
| Mask.SelectedElements | Editor/Scripts/Mask.cs:105-117 | the `k`-th result is the source element at the `k`-th selected position |
| Mask.GetSelectedItemsInto | Editor/Scripts/Mask.cs:74-81 | the loop yields the elements at selected positions, in order |
| Mask.GetSelectedItems | Editor/Scripts/Mask.cs:67-72 | the list-returning overload yields the same elements |
| Mask.GetSelectedElements | Editor/Scripts/Mask.cs:105-117 | the loop testing `maskValue & (1 << i)` yields the elements at selected positions |
| Mask.GetSelectedElementsInto | Editor/Scripts/Mask.cs:118-128 | the overload filling a list yields the same elements |
| Mask.GetMaskValueOfIndices | Editor/Scripts/Mask.cs:83-92 | the mask selects exactly the indices whose low five bits are below the list's length; index values are ignored |
| Mask.MaskValueOf | Editor/Scripts/Mask.cs:94-103 | bit `j` is set iff some position addressing bit `j` holds a selected element |
| Mask.GetMaskValue | Editor/Scripts/Mask.cs:94-103 | the loop computes that mask |
| Mask.MaskRoundTrip | Editor/Scripts/Mask.cs:94-117 | for at most 32 elements, reading back the mask built from a selection yields the selected source elements in source order |
| Mask.MaskBitOfPosition | Editor/Scripts/Mask.cs:94-103 | below 32 elements, bit `i` records exactly whether `source[i]` is selected |
| Seqs.SortBy | Editor/Scripts/AudioPairTableWindow.cs:151 | `OrderBy` as a stable sort: sorted, a permutation, and each key's elements in original order |
| Seqs.FilterAppend | Runtime/Scripts/AudioPairTable.cs:99 | `RemoveAll` keeps survivors in order: filtering distributes over concatenation |
| Seqs.PickIsFilter | Editor/Scripts/Mask.cs:74-81 | picking by position is filtering by value when the two tests agree |
| Strings.ContainsIffOccurs | Editor/Scripts/AudioClipReaderWindow.cs:159 | ordinal `Contains` holds iff the pattern occurs at some index |
| Strings.Replace | Editor/Scripts/AudioClipReaderWindow.cs:155-157 | a string without the pattern is returned unchanged |
| Strings.ReplaceKeepsReplacement | Editor/Scripts/AudioClipReaderWindow.cs:155-156 | when the pattern occurs, the result contains everything the replacement text contains |
| Strings.ReplaceKeepsOtherKeyword | Editor/Scripts/AudioClipReaderWindow.cs:157 | replacing one `{...}` keyword keeps every occurrence of a different one |
| Strings.ReplaceSkipsUnmatched | Editor/Scripts/AudioClipReaderWindow.cs:155-157 | a prefix at none of whose positions the pattern starts is copied unchanged, and the rest is replaced as on its own |
| Strings.DecimalString | Editor/Scripts/AudioClipReaderWindow.cs:157 | `long.ToString()` is non-empty, has no `{`, and starts with `-` iff negative |
| Strings.DecimalRoundTrip | Editor/Scripts/AudioClipReaderWindow.cs:157 | reading the decimal text back yields the number |
| Strings.RelativePath | Editor/Scripts/AudioClipReaderWindow.cs:122 | `Substring(dataPath.Length - 6)` succeeds iff the start is within the path, and the result is the path's suffix from there, lengths counted in Unicode scalar values |
| Strings.RelativePathInsideAssets | Editor/Scripts/AudioPairTableWindow.cs:350 | a path inside `<project>/Assets` becomes `Assets` followed by the rest |

## Left out

- Init caching: the `_initialized` flag, the editor tick check and the play-mode reset
  (AudioPairTable.cs:45-51, 69-80) are not modelled. Every lookup sees an index freshly
  built from the current list.
- The `null` pair list that `Init` replaces by an empty list: the list is never `null`
  here.
- Pair identity: C# pairs are references, and the editor commands mutate them in place.
  Here pairs are values, and a list is compared element by element.
- `TableEntryReference` itself is not part of this model's sources. Its implicit
  conversions are modelled as `NameRef` and `IdRef`: a blank string and the id 0 become the
  empty reference, any other string a name reference and any other id an id reference. A
  name reference compares with a pair's key and an id reference with its key id.
- The index's `long` key ids and the 64-bit range of `long.ToString()` are unbounded
  integers here.
- Strings.DecimalString: writes a negative number with the ASCII `-`. `long.ToString()`
  uses the current culture's negative sign, which is `-` for the invariant culture and
  most others; a culture with another sign is not modelled.
- `PlayAndUnload`, `AutoAudioUnloader`, preview playback, highlighting, `Debug.Log`,
  dirty flags and saving are I/O and are not modelled.
- The Google translation window, project settings and font localizers are outside this
  model.
- Culture data: `CultureInfo` names come from a function supplied by the caller.
- Asset search and dialogs: their results are parameters. The clips under a folder are a
  sequence whose order stands in for the unspecified `HashSet` enumeration order.
- `GetStringTableCollection` returning `null`: the three reconciliation commands take the
  shared data as given. `SyncAll` models the missing-collection case, and the
  reader window's collection is taken as present.
- The `TargetCell` enum's declaration is not part of this model's sources. Its three
  values come from their uses in AudioClipReaderWindow.cs:141-153.
- Mask.Select, Mask.Add, Mask.Remove, Mask.Toggle: `index` is any integer and addresses
  bit `index % 32`. The C# masking of shift counts is modelled through that, and the sign
  of the `int` is not.
- Strings.Replace: its contract states only that a string without the pattern comes back
  unchanged. The left-to-right, non-overlapping scan is its definition, and the
  consequences used here are stated by ReplaceLeading, ReplaceSkipsPrefix and
  ReplaceMismatchedBrace.
- Mask.MaskRoundTrip: stated for at most 32 elements. Beyond that, positions share bits
  and the read-back also returns elements whose bit was set by another position.
- ClipReader.DefaultFormatName: stated for keys that contain neither `{id}` nor
  `{locale}`. Such keys have those keywords expanded too; KeyFormatName states what
  happens to them under the format `{key}`.
- ClipReader.ApplyEntriesPairsEntry, ClipReader.ApplyTablesPairsEntry,
  ClipReader.ReadAndApplyPairsEntry: stated with all cells targeted, unique entry keys and
  ids, and, for the whole loop, one string table per locale. The `Empty` and `Filled`
  targets reduce to it table by table through TargetDecidedPerTable. They look the entry
  up by `Name(e.key)` and `Id(e.id)` directly. The editor reaches those references only
  for a non-blank key and a non-zero id; otherwise NameRef and IdRef give `Empty`, which
  finds nothing.
- Strings.RelativePath: lengths count Unicode scalar values, while .NET `Length` and
  `Substring` count UTF-16 code units. For a data path or picked path that holds a
  character outside the Basic Multilingual Plane, the start index, the throw condition
  and the result differ from the host's. ClipReader.ReadAndApply and
  TableWindow.CreateAudioPairTableAsset inherit this for their throw conditions. Ordinal
  `Contains`/`Replace` and `IsNullOrWhiteSpace` give the same results in either encoding.
- TableWindow.BindCell: its own contract states where a shown clip comes from, not that
  one is shown. Which clip is shown is stated by TableWindow.BindCellShowsLastMatch.
- Mask.GetSelectedItemsInto, Mask.GetSelectedElementsInto: the out-list is a fresh
  result, separate from the source. In C# the list is cleared first (Mask.cs:76, 120), so
  passing the source itself as the out-list gives an empty result. Aliasing is not
  modelled.
- UI toolkit element construction, enabling and styling are not modelled.
