/** The data side of the table editor window (Editor/Scripts/AudioPairTableWindow.cs): which
    `AudioPairTable` belongs to a string table collection, the order of the locale columns,
    what a cell shows, what editing a cell's clip does to the pair list, and the path a new
    asset is saved under. The UI toolkit elements, asset search and preview playback are
    not modelled. */
module TableWindow {
  import opened Wrappers
  import opened Localization
  import opened AudioPairTable
  import Seqs
  import Strings

  /** `FindConnectedAudioTable`: the first `AudioPairTable` asset, in the order the asset
      search returns them, whose collection name is the selected collection's; `null`
      (`None`) when there is none. */
  function FindConnectedAudioTable(tables: seq<Table>, name: string): (r: Option<Table>)
    ensures r.None? <==> forall i :: 0 <= i < |tables| ==> tables[i].tableCollectionName != name
    ensures r.Some? ==> exists i :: 0 <= i < |tables| && tables[i] == r.value && r.value.tableCollectionName == name
                                    && forall j :: 0 <= j < i ==> tables[j].tableCollectionName != name
  {
    match Seqs.FirstIndex(tables, (t: Table) => t.tableCollectionName == name)
    case None => None
    case Some(i) => Some(tables[i])
  }

  /** `List.IndexOf`: the position of the first occurrence, or `-1`. */
  function IndexOf(s: seq<LocaleId>, l: LocaleId): (r: int)
    ensures r == -1 <==> l !in s
    ensures r != -1 ==> 0 <= r < |s| && s[r] == l && l !in s[..r]
  {
    match Seqs.FirstIndex(s, (x: LocaleId) => x == l)
    case None => -1
    case Some(i) => i
  }

  /** The sort key of a string table's column: the position of its locale among the
      project's locales, `-1` for a locale the project does not have. */
  function ColumnKey(allLocales: seq<LocaleId>): StringTable -> int {
    (t: StringTable) => IndexOf(allLocales, t.localeId)
  }

  /** The locale columns after the key column: the collection's string tables ordered by
      the position of their locale in the project's locale list (a stable sort, so tables
      with equal positions keep the collection's order). */
  function LocaleColumns(tables: seq<StringTable>, allLocales: seq<LocaleId>): (r: seq<StringTable>)
    ensures multiset(r) == multiset(tables)
    ensures forall i, j :: 0 <= i < j < |r| ==> IndexOf(allLocales, r[i].localeId) <= IndexOf(allLocales, r[j].localeId)
    ensures forall k :: Seqs.KeyClass(r, ColumnKey(allLocales), k) == Seqs.KeyClass(tables, ColumnKey(allLocales), k)
  {
    var r := Seqs.SortBy(tables, ColumnKey(allLocales));
    assert forall i, j :: 0 <= i < j < |r| ==> ColumnKey(allLocales)(r[i]) <= ColumnKey(allLocales)(r[j]);
    r
  }

  /** Tables of locales the project does not list come first; among listed locales, a
      column never precedes one whose locale comes earlier in the project's list. */
  lemma ColumnsFollowProjectOrder(tables: seq<StringTable>, allLocales: seq<LocaleId>, i: int, j: int)
    requires 0 <= i < j < |LocaleColumns(tables, allLocales)|
    ensures var r := LocaleColumns(tables, allLocales);
            r[j].localeId !in allLocales ==> r[i].localeId !in allLocales
    ensures var r := LocaleColumns(tables, allLocales);
            r[i].localeId in allLocales && r[j].localeId in allLocales && r[i].localeId != r[j].localeId ==>
              IndexOf(allLocales, r[i].localeId) < IndexOf(allLocales, r[j].localeId)
  {
    var r := LocaleColumns(tables, allLocales);
    var a, b := IndexOf(allLocales, r[i].localeId), IndexOf(allLocales, r[j].localeId);
    assert a <= b;
    if r[i].localeId in allLocales && r[j].localeId in allLocales && r[i].localeId != r[j].localeId {
      assert allLocales[a] == r[i].localeId && allLocales[b] == r[j].localeId;
    }
  }

  /** What a locale cell of row `i` shows. `Blank`: the row guard `i > Count - 1` returns
      before drawing. `Faulted`: the string table has no value for the entry, so the
      handler dereferences `null` and throws. `Shown(clip)`: the clip field holds `clip`. */
  datatype Cell = Blank | Faulted | Shown(clip: Option<Clip>)

  /** `column_bind_cell`: the row's entry is looked up in the string table (`hasValue`
      says for which key ids it holds a value), and the clip field shows
      `GetAudioClip(value.KeyId, locale)`. The key id reaches `GetAudioClip` through the
      host's conversion, so the empty id `0` always shows no clip. */
  function BindCell(pairs: seq<Pair>, entries: seq<Entry>, hasValue: int -> bool, l: LocaleId, i: nat): (c: Cell)
    ensures c.Blank? <==> i >= |entries|
    ensures c.Faulted? <==> i < |entries| && !hasValue(entries[i].id)
    ensures c.Shown? && entries[i].id == 0 ==> c.clip.None?
    ensures c.Shown? && c.clip.Some? ==>
      exists k :: 0 <= k < |pairs| && pairs[k].keyId == entries[i].id && pairs[k].localeId == l
                  && pairs[k].audioClip == c.clip
  {
    if i > |entries| - 1 then Blank
    else if !hasValue(entries[i].id) then Faulted
    else
      var clip := GetAudioClip(pairs, IdRef(entries[i].id), l);
      assert clip.Some? ==> exists k :: 0 <= k < |pairs| && pairs[k].keyId == entries[i].id && pairs[k].localeId == l
                                       && pairs[k].audioClip == clip by {
        CellClipComesFromPair(pairs, entries[i].id, l);
      }
      Shown(clip)
  }

  lemma CellClipComesFromPair(pairs: seq<Pair>, id: int, l: LocaleId)
    ensures GetAudioClip(pairs, IdRef(id), l).Some? ==>
      exists k :: 0 <= k < |pairs| && pairs[k].keyId == id && pairs[k].localeId == l
                  && pairs[k].audioClip == GetAudioClip(pairs, IdRef(id), l)
  {
    if id == 0 {
      return;
    }
    assert IdRef(id) == Id(id);
    LookupIsLastMatch(pairs, Id(id), l);
    var w := LastClip(pairs, MatchesAt(Id(id), l));
    if w.Some? {
      var k :| 0 <= k < |pairs| && MatchesAt(Id(id), l)(pairs[k]) && w.value == pairs[k].audioClip
               && forall j :: k < j < |pairs| ==> !MatchesAt(Id(id), l)(pairs[j]);
      assert pairs[k].keyId == id && pairs[k].localeId == l;
    }
  }

  /** A row with a table value and a non-empty key id shows the clip of the last pair with
      that id in the column's locale, and no clip when no pair has it. */
  lemma BindCellShowsLastMatch(pairs: seq<Pair>, entries: seq<Entry>, hasValue: int -> bool, l: LocaleId, i: nat)
    requires i < |entries| && hasValue(entries[i].id) && entries[i].id != 0
    ensures BindCell(pairs, entries, hasValue, l, i)
            == Shown(match Seqs.LastWhere(pairs, MatchesAt(Id(entries[i].id), l))
                     case None => None
                     case Some(q) => q.audioClip)
  {
    var r := Id(entries[i].id);
    assert IdRef(entries[i].id) == r;
    match Seqs.LastWhere(pairs, MatchesAt(r, l))
    case None =>
      GetAudioClipIsLastMatch(pairs, r, l);
    case Some(q) =>
      LastMatchIsLookedUp(pairs, r, l, q);
  }

  /** `key_column_bind_cell`: the key of row `i`, or nothing past the last entry. */
  function KeyCell(entries: seq<Entry>, i: nat): (r: Option<string>)
    ensures r.None? <==> i >= |entries|
    ensures r.Some? ==> r.value == entries[i].key
  {
    if i > |entries| - 1 then None else Some(entries[i].key)
  }

  /** `_on_clip_changed`: clearing the clip field removes the entry's pairs by key id, in
      every locale (through the host's conversion, so the empty id `0` removes nothing);
      choosing a clip adds a pair of the entry's key, key id, the column's locale and the
      clip. */
  function OnClipChanged(pairs: seq<Pair>, e: Entry, l: LocaleId, clip: Option<Clip>): (r: seq<Pair>)
    ensures clip.None? && e.id != 0 ==> forall q :: q in r <==> q in pairs && q.keyId != e.id
    ensures clip.None? && e.id == 0 ==> r == pairs
    ensures clip.Some? ==> |r| > 0 && r[|r| - 1] == Pair(e.key, e.id, l, clip)
  {
    match clip
    case None => RemovePair(pairs, IdRef(e.id))
    case Some(_) => AddPair(pairs, Pair(e.key, e.id, l, clip))
  }

  /** Editing a cell is seen by the cell: after choosing or clearing a clip in the column of
      locale `l`, rebinding the same row shows exactly that clip (or none). An entry with
      the empty key id `0` shows no clip whatever is chosen. */
  lemma EditedCellShowsClip(pairs: seq<Pair>, entries: seq<Entry>, hasValue: int -> bool, l: LocaleId, i: nat, clip: Option<Clip>)
    requires i < |entries| && hasValue(entries[i].id)
    ensures BindCell(OnClipChanged(pairs, entries[i], l, clip), entries, hasValue, l, i)
            == Shown(if entries[i].id == 0 then None else clip)
  {
    var e := entries[i];
    if e.id == 0 {
    } else if clip.Some? {
      AddPairThenLookup(pairs, Pair(e.key, e.id, l, clip));
    } else {
      ClearedEverywhere(pairs, e, l);
    }
  }

  /** Clearing one cell clears the entry in every locale column, not just the edited one,
      because the removal is by key id alone; for the empty key id `0` it clears nothing. */
  lemma ClearedEverywhere(pairs: seq<Pair>, e: Entry, l: LocaleId)
    ensures e.id != 0 ==> forall l' :: GetAudioClip(OnClipChanged(pairs, e, l, None), Id(e.id), l').None?
    ensures e.id != 0 ==> forall l' :: !HasClip(OnClipChanged(pairs, e, l, None), Id(e.id), l')
    ensures e.id == 0 ==> OnClipChanged(pairs, e, l, None) == pairs
  {
    if e.id == 0 {
      return;
    }
    var r := OnClipChanged(pairs, e, l, None);
    forall l' ensures GetAudioClip(r, Id(e.id), l').None? && !HasClip(r, Id(e.id), l') {
      forall k | 0 <= k < |r| ensures !Matches(Id(e.id), l', r[k]) {
        assert r[k] in r;
      }
      GetAudioClipIsLastMatch(r, Id(e.id), l');
      HasClipIffSomeMatch(r, Id(e.id), l');
    }
  }

  /** Choosing a clip in one cell leaves the key lookups of every other key, in every
      locale, and of the same key in every locale but the column's, as they were. Lookups
      by key id are not protected this way (`AddPairCanOrphanKeyId`). */
  lemma ChosenClipKeepsOtherKeyLookups(pairs: seq<Pair>, e: Entry, l: LocaleId, c: Clip, k: string, l': LocaleId)
    requires k != e.key || l' != l
    ensures GetAudioClip(OnClipChanged(pairs, e, l, Some(c)), Name(k), l') == GetAudioClip(pairs, Name(k), l')
  {
    AddPairKeepsOtherKeyLookups(pairs, Pair(e.key, e.id, l, Some(c)), k, l');
  }

  /** The outcome of `CreateAudioPairTableAsset`. */
  datatype Creation = Cancelled | Failed | Created(path: string, asset: Table)

  /** `CreateAudioPairTableAsset`: a blank path from the save dialog cancels; otherwise a
      new, empty table for the collection is created at the project-relative path, and an
      unusable path makes `Substring` throw. */
  function CreateAudioPairTableAsset(path: string, dataPath: string, collectionName: string): (r: Creation)
    ensures r.Cancelled? <==> Strings.IsBlank(path)
    ensures r.Failed? <==> !Strings.IsBlank(path) && Strings.RelativePath(path, dataPath).None?
    ensures r.Created? ==> && Some(r.path) == Strings.RelativePath(path, dataPath)
                           && r.asset == Table(collectionName, [])
  {
    if Strings.IsBlank(path) then Cancelled
    else match Strings.RelativePath(path, dataPath)
      case None => Failed
      case Some(relative) => Created(relative, Table(collectionName, []))
  }

  /** A created asset is the one the window connects to next, unless another asset for the
      same collection already comes earlier in the search order. */
  lemma CreatedAssetIsConnected(tables: seq<Table>, path: string, dataPath: string, name: string)
    requires CreateAudioPairTableAsset(path, dataPath, name).Created?
    requires forall i :: 0 <= i < |tables| ==> tables[i].tableCollectionName != name
    ensures FindConnectedAudioTable(tables + [CreateAudioPairTableAsset(path, dataPath, name).asset], name)
            == Some(Table(name, []))
  {
    var t := CreateAudioPairTableAsset(path, dataPath, name).asset;
    var s := tables + [t];
    assert s[|tables|] == t;
    var r := FindConnectedAudioTable(s, name);
    var i :| 0 <= i < |s| && s[i] == r.value && r.value.tableCollectionName == name;
    if i < |tables| {
      assert s[i] == tables[i];
    }
  }
}
