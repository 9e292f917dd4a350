/** The host localization types the tools operate on (Unity's Localization package and
    `AudioClip`), reduced to the fields the modelled code reads. */
module Localization {
  import opened Wrappers
  import Strings

  /** `LocaleIdentifier`: two identifiers are equal when their codes are. */
  datatype LocaleId = LocaleId(code: string)

  /** The names a locale's `CultureInfo` exposes. Culture data is not modelled: callers
      supply these as an uninterpreted function of the locale. */
  datatype CultureNames = CultureNames(
    name: string,
    displayName: string,
    nativeName: string,
    twoLetterIsoLanguageName: string,
    threeLetterIsoLanguageName: string,
    threeLetterWindowsLanguageName: string)

  /** An `AudioClip` asset. Unity objects compare by instance id; `name` is the asset name
      that bulk import matches against. A C# `null` clip is `None` where one can occur. */
  datatype Clip = Clip(instanceId: int, name: string)

  /** `TableEntryReference`: nothing, an entry's string key, or its numeric key id. */
  datatype EntryRef = Empty | Name(key: string) | Id(id: int)

  /** The host's implicit conversion of a `string` key to a reference: a null, empty or
      white-space key gives the `Empty` reference, any other key a `Name` reference. */
  function NameRef(key: string): (r: EntryRef)
    ensures r.Empty? <==> Strings.IsBlank(key)
    ensures r.Name? ==> r.key == key
    ensures !r.Id?
  {
    if Strings.IsBlank(key) then Empty else Name(key)
  }

  /** The host's implicit conversion of a `long` key id to a reference: the empty id `0`
      gives the `Empty` reference, any other id an `Id` reference. */
  function IdRef(id: int): (r: EntryRef)
    ensures r.Empty? <==> id == 0
    ensures r.Id? ==> r.id == id
    ensures !r.Name?
  {
    if id == 0 then Empty else Id(id)
  }

  /** `SharedTableEntry`: the stable id and the current key of one localization entry. */
  datatype Entry = Entry(id: int, key: string)

  /** `SharedTableData`: the entries shared by all string tables of a collection, in order. */
  datatype SharedData = SharedData(entries: seq<Entry>)

  /** The host guarantees unique ids and unique keys, so id -> key is an injective finite
      map whose inverse is key -> id. */
  predicate Valid(d: SharedData) {
    && (forall i, j :: 0 <= i < j < |d.entries| ==> d.entries[i].id != d.entries[j].id)
    && (forall i, j :: 0 <= i < j < |d.entries| ==> d.entries[i].key != d.entries[j].key)
  }

  /** Whether a reference designates an entry: a `Name` by its key, an `Id` by its key id;
      `Empty` designates none. */
  predicate Designates(r: EntryRef, e: Entry) {
    match r
    case Empty => false
    case Name(key) => e.key == key
    case Id(id) => e.id == id
  }

  /** The first entry a reference designates, the linear search both `SharedData.GetEntry`
      overloads perform. */
  function GetEntry(d: SharedData, r: EntryRef): (res: Option<Entry>)
    ensures res.Some? ==> res.value in d.entries && Designates(r, res.value)
    ensures res.None? <==> forall e :: e in d.entries ==> !Designates(r, e)
    decreases |d.entries|
  {
    if |d.entries| == 0 then None
    else if Designates(r, d.entries[0]) then Some(d.entries[0])
    else GetEntry(SharedData(d.entries[1..]), r)
  }

  /** `SharedData.GetEntry(long id)`: the entry with this id, or `null`. */
  function EntryById(d: SharedData, id: int): (r: Option<Entry>)
    ensures r.Some? ==> r.value in d.entries && r.value.id == id
    ensures r.None? <==> forall e :: e in d.entries ==> e.id != id
  {
    GetEntry(d, Id(id))
  }

  /** `SharedData.GetEntry(string key)`: the entry with this key, or `null`. */
  function EntryByKey(d: SharedData, key: string): (r: Option<Entry>)
    ensures r.Some? ==> r.value in d.entries && r.value.key == key
    ensures r.None? <==> forall e :: e in d.entries ==> e.key != key
  {
    GetEntry(d, Name(key))
  }

  /** With unique keys, looking an entry up by its own key finds that entry: key -> id is
      the inverse of id -> key. */
  lemma {:induction false} KeyLookupInvertsId(d: SharedData, e: Entry)
    requires Valid(d) && e in d.entries
    ensures EntryByKey(d, e.key) == Some(e)
    ensures EntryById(d, e.id) == Some(e)
    decreases |d.entries|
  {
    if d.entries[0] != e {
      var rest := SharedData(d.entries[1..]);
      assert e in rest.entries;
      assert Valid(rest) by {
        forall i, j | 0 <= i < j < |rest.entries|
          ensures rest.entries[i].id != rest.entries[j].id && rest.entries[i].key != rest.entries[j].key
        {
          assert rest.entries[i] == d.entries[i + 1] && rest.entries[j] == d.entries[j + 1];
        }
      }
      var k :| 0 <= k < |d.entries| && d.entries[k] == e;
      assert k > 0;
      KeyLookupInvertsId(rest, e);
    }
  }

  /** `StringTable`: one locale's table of a collection, with the collection's shared data. */
  datatype StringTable = StringTable(tableCollectionName: string, localeId: LocaleId, shared: SharedData)
}
