/** The pure core of the bulk clip import, `AudioClipReaderWindow.ReadAndApply`
    (Editor/Scripts/AudioClipReaderWindow.cs): for every entry of every selected locale's
    string table, build a clip name from the format, find a clip with that name among the
    clips of the chosen folder, and pair it with the entry. The dialogs, the asset search
    and saving are replaced by parameters. */
module ClipReader {
  import opened Wrappers
  import opened Localization
  import opened AudioPairTable
  import Strings
  import Mask
  import Seqs

  /** How the `{locale}` keyword is spelled. */
  datatype LocaleStyle =
    | Code
    | Name
    | DisplayName
    | NativeName
    | TwoLetterISOLanguageName
    | ThreeLetterISOLanguageName
    | ThreeLetterWindowsLanguageName

  /** Which cells an import may fill. */
  datatype TargetCell = All | Empty | Filled

  /** The window's fields: format, locale style, target cells and the locale mask. */
  datatype Settings = Settings(format: string, style: LocaleStyle, target: TargetCell, localeMask: bv32)

  /** The values the window opens with: format `{key}_{locale}`, `Code` style, all cells,
      and the mask `-1`, which selects every locale. */
  function DefaultSettings(): (s: Settings)
    ensures forall i :: Mask.Has(s.localeMask, i)
    ensures s.style.Code? && s.target.All?
  {
    Settings("{key}_{locale}", Code, All, Mask.SelectAll())
  }

  /** What the import reads besides the tables: the settings, the clips found in the folder
      (a set in the source; a sequence here, whose order decides between equally named
      clips), and the culture names of each locale. */
  datatype Reader = Reader(settings: Settings, clips: seq<Clip>, culture: LocaleId -> CultureNames)

  /** The text substituted for `{locale}`. The `ThreeLetterISOLanguageName` style reads the
      two-letter name, exactly as the source does, so no style reads the culture's
      three-letter ISO name. */
  function LocaleText(style: LocaleStyle, l: LocaleId, c: CultureNames): (r: string)
    ensures r in [l.code, c.name, c.displayName, c.nativeName, c.twoLetterIsoLanguageName, c.threeLetterWindowsLanguageName]
  {
    match style
    case Code => l.code
    case Name => c.name
    case DisplayName => c.displayName
    case NativeName => c.nativeName
    case TwoLetterISOLanguageName => c.twoLetterIsoLanguageName
    case ThreeLetterISOLanguageName => c.twoLetterIsoLanguageName
    case ThreeLetterWindowsLanguageName => c.threeLetterWindowsLanguageName
  }

  /** The `ThreeLetterISOLanguageName` style yields the same text as the two-letter style,
      and so never the culture's three-letter ISO name when the two differ. */
  lemma ThreeLetterStyleReadsTwoLetterName(l: LocaleId, c: CultureNames)
    ensures LocaleText(ThreeLetterISOLanguageName, l, c) == LocaleText(TwoLetterISOLanguageName, l, c)
    ensures c.twoLetterIsoLanguageName != c.threeLetterIsoLanguageName ==>
      LocaleText(ThreeLetterISOLanguageName, l, c) != c.threeLetterIsoLanguageName
  {
  }

  /** The clip name looked for: `{key}` is replaced first, then `{id}` (so a `{id}` inside
      the key is replaced too), then `{locale}`, but only when the format itself contains
      `{locale}`. The advertised `{table}` keyword is never replaced. A format with none
      of the three keywords is the clip name as it stands. */
  function CandidateName(format: string, e: Entry, localeText: string): (r: string)
    ensures !Strings.Contains(format, "{key}") && !Strings.Contains(format, "{id}") && !Strings.Contains(format, "{locale}")
            ==> r == format
  {
    var named := Strings.Replace(Strings.Replace(format, "{key}", e.key), "{id}", Strings.DecimalString(e.id));
    if Strings.Contains(format, "{locale}") then Strings.Replace(named, "{locale}", localeText) else named
  }

  /** The keywords replaced before `{locale}` leave a `{locale}` alone. */
  lemma LocaleKeywordSurvives(pat: string, rep: string)
    requires pat == "{key}" || pat == "{id}"
    ensures Strings.Replace("{locale}", pat, rep) == "{locale}"
  {
    var s := "{locale}";
    assert s[1] == 'l' && pat[1] in "ki";
    assert s[1..] == "locale}";
    Strings.ReplaceMismatchedBrace(s, pat, rep);
  }

  /** The default format names the clip `<key>_<locale>` for every key that itself
      contains neither `{id}` nor `{locale}`. */
  lemma DefaultFormatName(e: Entry, t: string)
    requires !Strings.Contains(e.key, "{id}") && !Strings.Contains(e.key, "{locale}")
    ensures CandidateName(DefaultSettings().format, e, t) == e.key + "_" + t
  {
    DefaultFormatKeyStep(e.key);
    DefaultFormatIdStep(e.key, Strings.DecimalString(e.id));
    DefaultFormatLocaleStep(e.key, t);
    DefaultFormatHasLocale();
  }

  lemma DefaultFormatIdStep(k: string, id: string)
    requires !Strings.Contains(k, "{id}")
    ensures Strings.Replace((k + "_") + "{locale}", "{id}", id) == (k + "_") + "{locale}"
  {
    assert '_' !in "{id}";
    LocaleKeywordSurvives("{id}", id);
    KeywordFreeTail(k, '_', "{locale}", "{id}", id);
  }

  lemma DefaultFormatLocaleStep(k: string, t: string)
    requires !Strings.Contains(k, "{locale}")
    ensures Strings.Replace((k + "_") + "{locale}", "{locale}", t) == k + "_" + t
  {
    assert '_' !in "{locale}";
    KeywordAfterSeparator(k, '_', "{locale}", t);
  }

  /** `k`, a separator, then a tail in which `pat` is not replaced: nothing changes when
      `k` does not contain `pat` and the separator does not occur in it. */
  lemma KeywordFreeTail(k: string, sep: char, tail: string, pat: string, rep: string)
    requires |pat| > 0 && pat[0] == '{' && sep != '{' && sep !in pat && !Strings.Contains(k, pat)
    requires Strings.Replace(tail, pat, rep) == tail
    ensures Strings.Replace((k + [sep]) + tail, pat, rep) == (k + [sep]) + tail
  {
    var rest := [sep] + tail;
    assert (k + [sep]) + tail == k + rest;
    Strings.NoOccurrenceBefore(k, rest, pat);
    Strings.ReplaceSkipsUnmatched(k, rest, pat, rep);
    Strings.ReplaceSkipsPrefix([sep], tail, pat, rep);
  }

  /** `k`, a separator, then the keyword: only the trailing keyword is replaced. */
  lemma KeywordAfterSeparator(k: string, sep: char, pat: string, rep: string)
    requires |pat| > 0 && pat[0] == '{' && sep != '{' && sep !in pat && !Strings.Contains(k, pat)
    ensures Strings.Replace((k + [sep]) + pat, pat, rep) == (k + [sep]) + rep
  {
    var rest := [sep] + pat;
    assert (k + [sep]) + pat == k + rest;
    Strings.NoOccurrenceBefore(k, rest, pat);
    Strings.ReplaceSkipsUnmatched(k, rest, pat, rep);
    TrailingKeyword([sep], pat, rep);
  }

  lemma DefaultFormatKeyStep(key: string)
    ensures Strings.Replace("{key}_{locale}", "{key}", key) == (key + "_") + "{locale}"
  {
    assert "{key}_{locale}" == "{key}" + ("_" + "{locale}");
    Strings.ReplaceLeading("{key}", "_" + "{locale}", key);
    Strings.ReplaceSkipsPrefix("_", "{locale}", "{key}", key);
    LocaleKeywordSurvives("{key}", key);
  }

  lemma DefaultFormatHasLocale()
    ensures Strings.Contains("{key}_{locale}", "{locale}")
  {

  }

  /** Under the format `{key}` the clip name is the key with the `{id}`s it brings in
      expanded, because `{id}` is replaced after `{key}`; a `{locale}` it brings in stays
      literal, because only the format is tested for `{locale}`. */
  lemma KeyFormatName(e: Entry, t: string)
    ensures CandidateName("{key}", e, t) == Strings.Replace(e.key, "{id}", Strings.DecimalString(e.id))
  {
    WholeKeyword("{key}", e.key);
    KeyFormatHasNoLocale();
  }

  /** For instance, the key `a{id}` of entry 7 under the format `{key}` names the clip
      `a7`. */
  lemma IdInsideKeyIsExpanded(t: string)
    ensures CandidateName("{key}", Entry(7, "a{id}"), t) == "a7"
  {
    KeyFormatName(Entry(7, "a{id}"), t);
    assert Strings.DecimalString(7) == "7";
    TrailingKeyword("a", "{id}", "7");
  }

  /** And the key `a{locale}` names the clip `a{locale}`, whatever the locale. */
  lemma LocaleInsideKeyStaysLiteral(t: string)
    ensures CandidateName("{key}", Entry(7, "a{locale}"), t) == "a{locale}"
  {
    KeyFormatName(Entry(7, "a{locale}"), t);
    assert "a{locale}" == "a" + "{locale}";
    Strings.ReplaceSkipsPrefix("a", "{locale}", "{id}", Strings.DecimalString(7));
    LocaleKeywordSurvives("{id}", Strings.DecimalString(7));
  }

  /** In general: when the format has `{key}` but no `{locale}`, a `{locale}` the key brings
      in is still in the clip name, and the locale text plays no part in the name. */
  lemma {:induction false} KeyLocaleStaysLiteral(format: string, e: Entry, t: string, t': string)
    requires Strings.Contains(format, "{key}") && !Strings.Contains(format, "{locale}")
    requires Strings.Contains(e.key, "{locale}")
    ensures Strings.Contains(CandidateName(format, e, t), "{locale}")
    ensures CandidateName(format, e, t) == CandidateName(format, e, t')
  {
    var keyed := Strings.Replace(format, "{key}", e.key);
    Strings.ReplaceKeepsReplacement(format, "{key}", e.key, "{locale}");
    assert "{id}"[1..] == "id}" && "{locale}"[1..] == "locale}";
    Strings.ReplaceKeepsOtherKeyword(keyed, "{id}", Strings.DecimalString(e.id), "{locale}");
  }

  lemma WholeKeyword(pat: string, rep: string)
    requires |pat| > 0
    ensures Strings.Replace(pat, pat, rep) == rep
  {
    assert pat + [] == pat;
    Strings.ReplaceLeading(pat, [], rep);
  }

  lemma TrailingKeyword(a: string, pat: string, rep: string)
    requires |pat| > 0 && pat[0] == '{' && '{' !in a
    ensures Strings.Replace(a + pat, pat, rep) == a + rep
  {
    Strings.ReplaceSkipsPrefix(a, pat, pat, rep);
    WholeKeyword(pat, rep);
  }

  lemma KeyFormatHasNoLocale()
    ensures !Strings.Contains("{key}", "{locale}")
  {
  }

  /** The `{table}` keyword is never replaced, whatever the entry and locale. */
  lemma TableKeywordIsLiteral(e: Entry, t: string)
    ensures CandidateName("{table}", e, t) == "{table}"
  {
    var f := "{table}";
    assert f[1] == 't' && f[1..] == "table}";
    Strings.ReplaceMismatchedBrace(f, "{key}", e.key);
    Strings.ReplaceMismatchedBrace(f, "{id}", Strings.DecimalString(e.id));
    assert !Strings.Contains(f, "{locale}");
  }

  /** `clips.FirstOrDefault(x => x.name == name)`. */
  function FirstClipNamed(clips: seq<Clip>, name: string): (r: Option<Clip>)
    ensures r.None? <==> forall i :: 0 <= i < |clips| ==> clips[i].name != name
    ensures r.Some? ==> exists i :: 0 <= i < |clips| && clips[i] == r.value && r.value.name == name
                                    && forall j :: 0 <= j < i ==> clips[j].name != name
  {
    match Seqs.FirstIndex(clips, (c: Clip) => c.name == name)
    case None => None
    case Some(i) => Some(clips[i])
  }

  /** The target-cell switch: `Empty` skips when the table already has a clip, `Filled`
      skips when it has none. The source asks `HasClip` with the collection's NAME as the
      entry key, not with the entry's key: `Empty` skips exactly when some pair has the
      collection name as its key in the table's locale. A blank collection name becomes
      the `Empty` reference, which never has a clip. */
  predicate Skips(target: TargetCell, pairs: seq<Pair>, t: StringTable)
    ensures Skips(target, pairs, t) ==> !target.All?
    ensures target.Empty? ==>
      (Skips(target, pairs, t) <==>
         (!Strings.IsBlank(t.tableCollectionName) &&
          exists i :: 0 <= i < |pairs| && pairs[i].key == t.tableCollectionName && pairs[i].localeId == t.localeId))
    ensures target.Filled? ==>
      (Skips(target, pairs, t) <==>
         (Strings.IsBlank(t.tableCollectionName) ||
          forall i :: 0 <= i < |pairs| ==> !(pairs[i].key == t.tableCollectionName && pairs[i].localeId == t.localeId)))
  {
    match target
    case All => false
    case Empty => HasClip(pairs, NameRef(t.tableCollectionName), t.localeId)
    case Filled => !HasClip(pairs, NameRef(t.tableCollectionName), t.localeId)
  }

  /** The name the import looks for when it applies entry `e` to table `t`. */
  function NameFor(t: StringTable, e: Entry, rd: Reader): string {
    CandidateName(rd.settings.format, e, LocaleText(rd.settings.style, t.localeId, rd.culture(t.localeId)))
  }

  /** The pair one entry contributes, if any: nothing when the cell is skipped or no clip
      carries the candidate name; otherwise the entry's key and id in the table's locale,
      with the first clip of that name. */
  function EntryPair(pairs: seq<Pair>, t: StringTable, e: Entry, rd: Reader): (r: Option<Pair>)
    ensures r.Some? <==> !Skips(rd.settings.target, pairs, t) && exists i :: 0 <= i < |rd.clips| && rd.clips[i].name == NameFor(t, e, rd)
    ensures r.Some? ==> && r.value.key == e.key && r.value.keyId == e.id && r.value.localeId == t.localeId
                        && r.value.audioClip.Some? && r.value.audioClip.value.name == NameFor(t, e, rd)
                        && exists i :: 0 <= i < |rd.clips| && rd.clips[i] == r.value.audioClip.value
                                       && forall j :: 0 <= j < i ==> rd.clips[j].name != NameFor(t, e, rd)
  {
    if Skips(rd.settings.target, pairs, t) then None
    else
      var s := rd.settings;
      var text := LocaleText(s.style, t.localeId, rd.culture(t.localeId));
      match FirstClipNamed(rd.clips, CandidateName(s.format, e, text))
      case None => None
      case Some(c) => Some(Pair(e.key, e.id, t.localeId, Some(c)))
  }

  /** One iteration of the inner loop: `AddPair` the entry's pair, if it has one. Every
      pair afterwards was there before or is the entry's pair, and pairs of other locales
      keep every occurrence. */
  function ApplyEntry(pairs: seq<Pair>, t: StringTable, e: Entry, rd: Reader): (r: seq<Pair>)
    ensures forall q :: q in r ==> q in pairs || Some(q) == EntryPair(pairs, t, e, rd)
    ensures forall q: Pair :: q.localeId != t.localeId ==> multiset(r)[q] == multiset(pairs)[q]
  {
    match EntryPair(pairs, t, e, rd)
    case None => pairs
    case Some(p) =>
      assert forall q :: q in AddPair(pairs, p) ==> q in pairs || q == p by {
        forall q | q in AddPair(pairs, p) ensures q in pairs || q == p {
          AddPairMembers(pairs, p, q);
        }
      }
      AddPair(pairs, p)
  }

  /** After an entry is applied, its key and its id both find the chosen clip in the table's
      locale. */
  lemma ApplyEntryPairs(pairs: seq<Pair>, t: StringTable, e: Entry, rd: Reader)
    requires EntryPair(pairs, t, e, rd).Some?
    ensures GetAudioClip(ApplyEntry(pairs, t, e, rd), EntryRef.Name(e.key), t.localeId) == EntryPair(pairs, t, e, rd).value.audioClip
    ensures GetAudioClip(ApplyEntry(pairs, t, e, rd), Id(e.id), t.localeId) == EntryPair(pairs, t, e, rd).value.audioClip
  {
    AddPairThenLookup(pairs, EntryPair(pairs, t, e, rd).value);
  }

  /** The inner loop over one table's entries, in order. Pairs of other locales keep every
      occurrence, and every pair afterwards either was there before or pairs one of the
      folder's clips in this table's locale. */
  function ApplyEntries(pairs: seq<Pair>, t: StringTable, entries: seq<Entry>, rd: Reader): (r: seq<Pair>)
    ensures forall q: Pair :: q.localeId != t.localeId ==> multiset(r)[q] == multiset(pairs)[q]
    ensures forall q :: q in r ==> q in pairs || (q.localeId == t.localeId && q.audioClip.Some? && q.audioClip.value in rd.clips)
    decreases |entries|
  {
    if |entries| == 0 then pairs
    else ApplyEntries(ApplyEntry(pairs, t, entries[0], rd), t, entries[1..], rd)
  }

  /** One iteration of the outer loop: a table of a target locale has its entries applied,
      any other table is passed over. Only the table's own locale can change, and only
      with folder clips. */
  function ApplyTable(pairs: seq<Pair>, t: StringTable, targets: seq<LocaleId>, rd: Reader): (r: seq<Pair>)
    ensures t.localeId !in targets ==> r == pairs
    ensures forall q: Pair :: q.localeId != t.localeId ==> multiset(r)[q] == multiset(pairs)[q]
    ensures forall q :: q in r ==> q in pairs || (q.localeId == t.localeId && q.audioClip.Some? && q.audioClip.value in rd.clips)
  {
    if t.localeId in targets then ApplyEntries(pairs, t, t.shared.entries, rd) else pairs
  }

  /** The outer loop: every table of the collection whose locale is a target locale, in the
      collection's order. Pairs of locales that are not targets keep every occurrence, and
      every new pair is in a target locale and holds one of the folder's clips. */
  function ApplyTables(pairs: seq<Pair>, tables: seq<StringTable>, targets: seq<LocaleId>, rd: Reader): (r: seq<Pair>)
    ensures forall q: Pair :: q.localeId !in targets ==> multiset(r)[q] == multiset(pairs)[q]
    ensures forall q :: q in r ==> q in pairs || (q.localeId in targets && q.audioClip.Some? && q.audioClip.value in rd.clips)
    decreases |tables|
  {
    if |tables| == 0 then pairs
    else ApplyTables(ApplyTable(pairs, tables[0], targets, rd), tables[1..], targets, rd)
  }

  /** `ReadAndApply`. A blank folder choice cancels and leaves the table as it was; a folder
      path shorter than the start index `Substring` is given throws (`None`) before any
      change. Otherwise the clips under the relative folder are read and every table whose
      locale the mask selects is applied. */
  function ReadAndApply(ap: Table, targetFolder: string, dataPath: string, clipsUnder: string -> seq<Clip>,
                        collection: seq<StringTable>, allLocales: seq<LocaleId>, settings: Settings,
                        culture: LocaleId -> CultureNames): (r: Option<Table>)
    ensures Strings.IsBlank(targetFolder) ==> r == Some(ap)
    ensures r.None? <==> !Strings.IsBlank(targetFolder) && Strings.RelativePath(targetFolder, dataPath).None?
    ensures r.Some? ==> r.value.tableCollectionName == ap.tableCollectionName
    ensures r.Some? ==> forall q: Pair :: q.localeId !in Mask.SelectedElements(allLocales, settings.localeMask) ==>
                          multiset(r.value.pairMap)[q] == multiset(ap.pairMap)[q]
  {
    if Strings.IsBlank(targetFolder) then Some(ap)
    else match Strings.RelativePath(targetFolder, dataPath)
      case None => None
      case Some(relative) =>
        var targets := Mask.SelectedElements(allLocales, settings.localeMask);
        Some(ap.(pairMap := ApplyTables(ap.pairMap, collection, targets, Reader(settings, clipsUnder(relative), culture))))
  }

  /** An entry whose key differs from the collection name does not change whether the
      table "has a clip" in the sense the target-cell switch asks. */
  lemma ApplyEntryKeepsSkip(pairs: seq<Pair>, t: StringTable, e: Entry, rd: Reader, target: TargetCell)
    requires e.key != t.tableCollectionName
    ensures Skips(target, ApplyEntry(pairs, t, e, rd), t) == Skips(target, pairs, t)
  {
    var p := EntryPair(pairs, t, e, rd);
    if p.Some? && !Strings.IsBlank(t.tableCollectionName) {
      AddPairKeepsOtherKeyLookups(pairs, p.value, t.tableCollectionName, t.localeId);
    }
  }

  /** When no entry's key equals the collection name, the target-cell decision is taken
      once per table: a skipping table is left alone, and otherwise the table is applied
      exactly as with `All`. */
  lemma {:induction false} TargetDecidedPerTable(pairs: seq<Pair>, t: StringTable, entries: seq<Entry>, rd: Reader)
    requires forall i :: 0 <= i < |entries| ==> entries[i].key != t.tableCollectionName
    ensures ApplyEntries(pairs, t, entries, rd) ==
      if Skips(rd.settings.target, pairs, t) then pairs
      else ApplyEntries(pairs, t, entries, rd.(settings := rd.settings.(target := All)))
    decreases |entries|
  {
    if |entries| > 0 {
      var all := rd.(settings := rd.settings.(target := All));
      var e := entries[0];
      ApplyEntryKeepsSkip(pairs, t, e, rd, rd.settings.target);
      TargetDecidedPerTable(ApplyEntry(pairs, t, e, rd), t, entries[1..], rd);
      if Skips(rd.settings.target, pairs, t) {
        assert ApplyEntry(pairs, t, e, rd) == pairs;
      } else {
        assert ApplyEntry(pairs, t, e, rd) == ApplyEntry(pairs, t, e, all);
        TargetDecidedPerTable(ApplyEntry(pairs, t, e, all), t, entries[1..], all);
      }
    }
  }

  /** A pair that is the last one its key (or its key id) selects in its locale stays so
      while entries are applied whose keys and ids both differ from its own, or which
      belong to a table of another locale. */
  lemma {:induction false} LaterEntriesKeepPair(pairs: seq<Pair>, t: StringTable, entries: seq<Entry>, rd: Reader, q: Pair, r: EntryRef)
    requires r == EntryRef.Name(q.key) || r == Id(q.keyId)
    requires Seqs.LastWhere(pairs, MatchesAt(r, q.localeId)) == Some(q)
    requires t.localeId != q.localeId || forall i :: 0 <= i < |entries| ==> entries[i].key != q.key && entries[i].id != q.keyId
    ensures Seqs.LastWhere(ApplyEntries(pairs, t, entries, rd), MatchesAt(r, q.localeId)) == Some(q)
    decreases |entries|
  {
    if |entries| > 0 {
      ApplyEntryKeepsPair(pairs, t, entries[0], rd, q, r);
      assert t.localeId != q.localeId || forall i :: 0 <= i < |entries[1..]| ==> entries[1..][i].key != q.key && entries[1..][i].id != q.keyId;
      LaterEntriesKeepPair(ApplyEntry(pairs, t, entries[0], rd), t, entries[1..], rd, q, r);
    }
  }

  lemma {:induction false} ApplyEntryKeepsPair(pairs: seq<Pair>, t: StringTable, e: Entry, rd: Reader, q: Pair, r: EntryRef)
    requires r == EntryRef.Name(q.key) || r == Id(q.keyId)
    requires Seqs.LastWhere(pairs, MatchesAt(r, q.localeId)) == Some(q)
    requires t.localeId != q.localeId || (e.key != q.key && e.id != q.keyId)
    ensures Seqs.LastWhere(ApplyEntry(pairs, t, e, rd), MatchesAt(r, q.localeId)) == Some(q)
  {
    var p := EntryPair(pairs, t, e, rd);
    if p.Some? {
      AddPairKeepsLastMatch(pairs, p.value, r, q.localeId);
    }
  }

  /** With all cells targeted and entry `k` distinct in key and id from the others, the pair
      entry `k` contributes is, after the whole table, the last one its key (or its key
      id, `r`) selects in the table's locale. */
  lemma {:induction false} ApplyEntriesLastPair(pairs: seq<Pair>, t: StringTable, entries: seq<Entry>, rd: Reader,
                                                k: nat, c: Clip, r: EntryRef)
    requires rd.settings.target.All?
    requires k < |entries|
    requires forall i :: 0 <= i < |entries| && i != k ==> entries[i].key != entries[k].key && entries[i].id != entries[k].id
    requires FirstClipNamed(rd.clips, NameFor(t, entries[k], rd)) == Some(c)
    requires r == EntryRef.Name(entries[k].key) || r == Id(entries[k].id)
    ensures Seqs.LastWhere(ApplyEntries(pairs, t, entries, rd), MatchesAt(r, t.localeId))
            == Some(Pair(entries[k].key, entries[k].id, t.localeId, Some(c)))
  {
    var e := entries[k];
    var q := Pair(e.key, e.id, t.localeId, Some(c));
    var before := ApplyEntries(pairs, t, entries[..k], rd);
    ApplyEntriesSplit(pairs, t, entries, rd, k);
    FirstEntryIsLastPair(before, t, e, rd, c, r);
    SuffixDistinct(entries, k, entries[k + 1..]);
    LaterEntriesKeepPair(ApplyEntry(before, t, e, rd), t, entries[k + 1..], rd, q, r);
  }

  /** The inner loop run over a list is the loop over the entries before position `k`,
      then entry `k`, then the loop over the entries after it. */
  lemma {:induction false} ApplyEntriesSplit(pairs: seq<Pair>, t: StringTable, entries: seq<Entry>, rd: Reader, k: nat)
    requires k < |entries|
    ensures ApplyEntries(pairs, t, entries, rd)
            == ApplyEntries(ApplyEntry(ApplyEntries(pairs, t, entries[..k], rd), t, entries[k], rd), t, entries[k + 1..], rd)
    decreases k
  {
    var next := ApplyEntry(pairs, t, entries[0], rd);
    if k == 0 {
      assert entries[..0] == [];
      assert entries[1..] == entries[k + 1..];
    } else {
      var tail := entries[1..];
      ApplyEntriesSplit(next, t, tail, rd, k - 1);
      assert tail[k - 1] == entries[k] && tail[k..] == entries[k + 1..];
      assert entries[..k][0] == entries[0] && entries[..k][1..] == tail[..k - 1];
    }
  }

  /** The entries after position `k` differ from entry `k` in key and id. */
  lemma {:induction false} SuffixDistinct(entries: seq<Entry>, k: nat, post: seq<Entry>)
    requires k < |entries| && post == entries[k + 1..]
    requires forall i :: 0 <= i < |entries| && i != k ==> entries[i].key != entries[k].key && entries[i].id != entries[k].id
    ensures forall i :: 0 <= i < |post| ==> post[i].key != entries[k].key && post[i].id != entries[k].id
  {
    forall i | 0 <= i < |post| ensures post[i].key != entries[k].key && post[i].id != entries[k].id {
      assert post[i] == entries[k + 1 + i];
    }
  }

  lemma {:induction false} FirstEntryIsLastPair(pairs: seq<Pair>, t: StringTable, e: Entry, rd: Reader, c: Clip, r: EntryRef)
    requires rd.settings.target.All?
    requires FirstClipNamed(rd.clips, NameFor(t, e, rd)) == Some(c)
    requires r == EntryRef.Name(e.key) || r == Id(e.id)
    ensures Seqs.LastWhere(ApplyEntry(pairs, t, e, rd), MatchesAt(r, t.localeId)) == Some(Pair(e.key, e.id, t.localeId, Some(c)))
  {
    var q := Pair(e.key, e.id, t.localeId, Some(c));
    assert EntryPair(pairs, t, e, rd) == Some(q);
    AddPairIsLastMatch(pairs, q, r);
  }

  /** The import pairs every entry that finds a clip: with all cells targeted, after a
      table is applied, the key and the key id of each of its entries find, in the table's
      locale, the first folder clip carrying the entry's candidate name, whatever the
      table held before. */
  lemma {:induction false} ApplyEntriesPairsEntry(pairs: seq<Pair>, t: StringTable, rd: Reader, e: Entry, c: Clip)
    requires rd.settings.target.All? && Valid(t.shared) && e in t.shared.entries
    requires FirstClipNamed(rd.clips, NameFor(t, e, rd)) == Some(c)
    ensures GetAudioClip(ApplyEntries(pairs, t, t.shared.entries, rd), EntryRef.Name(e.key), t.localeId) == Some(c)
    ensures GetAudioClip(ApplyEntries(pairs, t, t.shared.entries, rd), Id(e.id), t.localeId) == Some(c)
  {
    var es := t.shared.entries;
    var k := EntryIndex(t.shared, e);
    ApplyEntriesLastPair(pairs, t, es, rd, k, c, EntryRef.Name(e.key));
    ApplyEntriesLastPair(pairs, t, es, rd, k, c, Id(e.id));
    var r := ApplyEntries(pairs, t, es, rd);
    var q := Pair(e.key, e.id, t.localeId, Some(c));
    LastMatchIsLookedUp(r, EntryRef.Name(e.key), t.localeId, q);
    LastMatchIsLookedUp(r, Id(e.id), t.localeId, q);
  }

  /** Tables of other locales leave the last pair of a key (or key id) in a locale alone. */
  lemma {:induction false} LaterTablesKeepPair(pairs: seq<Pair>, tables: seq<StringTable>, targets: seq<LocaleId>, rd: Reader, q: Pair, r: EntryRef)
    requires r == EntryRef.Name(q.key) || r == Id(q.keyId)
    requires Seqs.LastWhere(pairs, MatchesAt(r, q.localeId)) == Some(q)
    requires forall j :: 0 <= j < |tables| ==> tables[j].localeId != q.localeId
    ensures Seqs.LastWhere(ApplyTables(pairs, tables, targets, rd), MatchesAt(r, q.localeId)) == Some(q)
    decreases |tables|
  {
    if |tables| > 0 {
      var t := tables[0];
      if t.localeId in targets {
        LaterEntriesKeepPair(pairs, t, t.shared.entries, rd, q, r);
      }
      LaterTablesKeepPair(ApplyTable(pairs, t, targets, rd), tables[1..], targets, rd, q, r);
    }
  }

  /** The position of an entry in valid shared data: no other entry shares its key or id. */
  lemma {:induction false} EntryIndex(d: SharedData, e: Entry) returns (k: nat)
    requires Valid(d) && e in d.entries
    ensures k < |d.entries| && d.entries[k] == e
    ensures forall i :: 0 <= i < |d.entries| && i != k ==> d.entries[i].key != e.key && d.entries[i].id != e.id
  {
    var es := d.entries;
    k :| 0 <= k < |es| && es[k] == e;
    forall i | 0 <= i < |es| && i != k ensures es[i].key != e.key && es[i].id != e.id {
      if i < k {
        assert es[i].id != es[k].id && es[i].key != es[k].key;
      } else {
        assert es[k].id != es[i].id && es[k].key != es[i].key;
      }
    }
  }

  lemma {:induction false} ApplyTablesLastPair(pairs: seq<Pair>, tables: seq<StringTable>, targets: seq<LocaleId>, rd: Reader,
                                               ti: nat, e: Entry, c: Clip, r: EntryRef)
    requires rd.settings.target.All?
    requires ti < |tables| && tables[ti].localeId in targets
    requires forall j :: 0 <= j < |tables| && j != ti ==> tables[j].localeId != tables[ti].localeId
    requires Valid(tables[ti].shared) && e in tables[ti].shared.entries
    requires FirstClipNamed(rd.clips, NameFor(tables[ti], e, rd)) == Some(c)
    requires r == EntryRef.Name(e.key) || r == Id(e.id)
    ensures Seqs.LastWhere(ApplyTables(pairs, tables, targets, rd), MatchesAt(r, tables[ti].localeId))
            == Some(Pair(e.key, e.id, tables[ti].localeId, Some(c)))
    decreases |tables|
  {
    if ti == 0 {
      TablesTailDistinct(tables);
      TargetTableLastPair(pairs, tables[0], tables[1..], targets, rd, e, c, r);
    } else {
      TablesTailKeepDistinct(tables, ti);
      ApplyTablesLastPair(ApplyTable(pairs, tables[0], targets, rd), tables[1..], targets, rd, ti - 1, e, c, r);
    }
  }

  /** The tables after the first one have other locales than the first. */
  lemma {:induction false} TablesTailDistinct(tables: seq<StringTable>)
    requires 0 < |tables|
    requires forall j :: 0 < j < |tables| ==> tables[j].localeId != tables[0].localeId
    ensures forall j :: 0 <= j < |tables[1..]| ==> tables[1..][j].localeId != tables[0].localeId
  {
    forall j | 0 <= j < |tables[1..]| ensures tables[1..][j].localeId != tables[0].localeId {
      assert tables[1..][j] == tables[j + 1];
    }
  }

  /** Dropping the first table keeps the `ti`-th one's locale distinct from the others. */
  lemma {:induction false} TablesTailKeepDistinct(tables: seq<StringTable>, ti: nat)
    requires 0 < ti < |tables|
    requires forall j :: 0 <= j < |tables| && j != ti ==> tables[j].localeId != tables[ti].localeId
    ensures tables[1..][ti - 1] == tables[ti]
    ensures forall j :: 0 <= j < |tables[1..]| && j != ti - 1 ==> tables[1..][j].localeId != tables[ti].localeId
  {
    forall j | 0 <= j < |tables[1..]| && j != ti - 1 ensures tables[1..][j].localeId != tables[ti].localeId {
      assert tables[1..][j] == tables[j + 1];
    }
  }

  lemma {:induction false} TargetTableLastPair(pairs: seq<Pair>, t: StringTable, rest: seq<StringTable>, targets: seq<LocaleId>,
                                               rd: Reader, e: Entry, c: Clip, r: EntryRef)
    requires rd.settings.target.All? && t.localeId in targets
    requires forall j :: 0 <= j < |rest| ==> rest[j].localeId != t.localeId
    requires Valid(t.shared) && e in t.shared.entries
    requires FirstClipNamed(rd.clips, NameFor(t, e, rd)) == Some(c)
    requires r == EntryRef.Name(e.key) || r == Id(e.id)
    ensures Seqs.LastWhere(ApplyTables(ApplyTable(pairs, t, targets, rd), rest, targets, rd), MatchesAt(r, t.localeId))
            == Some(Pair(e.key, e.id, t.localeId, Some(c)))
  {
    var q := Pair(e.key, e.id, t.localeId, Some(c));
    var k := EntryIndex(t.shared, e);
    ApplyEntriesLastPair(pairs, t, t.shared.entries, rd, k, c, r);
    LaterTablesKeepPair(ApplyTable(pairs, t, targets, rd), rest, targets, rd, q, r);
  }

  /** The outer loop keeps what a target table's entries were paired with, given the host's
      one string table per locale in a collection. */
  lemma {:induction false} ApplyTablesPairsEntry(pairs: seq<Pair>, tables: seq<StringTable>, targets: seq<LocaleId>, rd: Reader,
                              ti: nat, e: Entry, c: Clip)
    requires rd.settings.target.All?
    requires ti < |tables| && tables[ti].localeId in targets
    requires forall j :: 0 <= j < |tables| && j != ti ==> tables[j].localeId != tables[ti].localeId
    requires Valid(tables[ti].shared) && e in tables[ti].shared.entries
    requires FirstClipNamed(rd.clips, NameFor(tables[ti], e, rd)) == Some(c)
    ensures GetAudioClip(ApplyTables(pairs, tables, targets, rd), EntryRef.Name(e.key), tables[ti].localeId) == Some(c)
    ensures GetAudioClip(ApplyTables(pairs, tables, targets, rd), Id(e.id), tables[ti].localeId) == Some(c)
  {
    ApplyTablesLastPair(pairs, tables, targets, rd, ti, e, c, EntryRef.Name(e.key));
    ApplyTablesLastPair(pairs, tables, targets, rd, ti, e, c, Id(e.id));
    var r := ApplyTables(pairs, tables, targets, rd);
    var q := Pair(e.key, e.id, tables[ti].localeId, Some(c));
    LastMatchIsLookedUp(r, EntryRef.Name(e.key), q.localeId, q);
    LastMatchIsLookedUp(r, Id(e.id), q.localeId, q);
  }

  /** `ReadAndApply` with all cells targeted: for a usable folder, every entry of every
      string table whose locale the mask selects ends up paired, by key and by key id, with
      the first clip under the folder that carries its candidate name. */
  lemma {:induction false} ReadAndApplyPairsEntry(ap: Table, targetFolder: string, dataPath: string, clipsUnder: string -> seq<Clip>,
                               collection: seq<StringTable>, allLocales: seq<LocaleId>, settings: Settings,
                               culture: LocaleId -> CultureNames, ti: nat, e: Entry, c: Clip)
    requires !Strings.IsBlank(targetFolder) && Strings.RelativePath(targetFolder, dataPath).Some?
    requires settings.target.All?
    requires ti < |collection| && collection[ti].localeId in Mask.SelectedElements(allLocales, settings.localeMask)
    requires forall j :: 0 <= j < |collection| && j != ti ==> collection[j].localeId != collection[ti].localeId
    requires Valid(collection[ti].shared) && e in collection[ti].shared.entries
    requires var rd := Reader(settings, clipsUnder(Strings.RelativePath(targetFolder, dataPath).value), culture);
             FirstClipNamed(rd.clips, NameFor(collection[ti], e, rd)) == Some(c)
    ensures var r := ReadAndApply(ap, targetFolder, dataPath, clipsUnder, collection, allLocales, settings, culture);
            && r.Some?
            && GetAudioClip(r.value.pairMap, EntryRef.Name(e.key), collection[ti].localeId) == Some(c)
            && GetAudioClip(r.value.pairMap, Id(e.id), collection[ti].localeId) == Some(c)
  {
    var rd := Reader(settings, clipsUnder(Strings.RelativePath(targetFolder, dataPath).value), culture);
    var targets := Mask.SelectedElements(allLocales, settings.localeMask);
    ApplyTablesPairsEntry(ap.pairMap, collection, targets, rd, ti, e, c);
  }
}
