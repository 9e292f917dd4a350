/** The runtime `AudioPairTable` asset (Runtime/Scripts/AudioPairTable.cs): a flat list of
    (key, key id, locale, clip) records, edited by remove-then-append, and looked up through
    two indexes built from the list. Every lookup here sees a freshly built index; the
    editor-tick and play-mode caching that can leave the index stale is not modelled. */
module AudioPairTable {
  import opened Wrappers
  import opened Localization
  import Seqs
  import Strings

  /** `AudioStringPair`. `audioClip` is `None` for a C# `null` clip. */
  datatype Pair = Pair(key: string, keyId: int, localeId: LocaleId, audioClip: Option<Clip>)

  /** The serialized part of the asset: its string table collection and its pair list. */
  datatype Table = Table(tableCollectionName: string, pairMap: seq<Pair>)

  /** A pair is referred to by a `Name` reference with its key and by an `Id` reference
      with its key id; the `Empty` reference refers to nothing. */
  predicate Refers(r: EntryRef, p: Pair) {
    match r
    case Empty => false
    case Name(k) => p.key == k
    case Id(n) => p.keyId == n
  }

  predicate Matches(r: EntryRef, l: LocaleId, p: Pair) {
    Refers(r, p) && p.localeId == l
  }

  /** The predicate `RemovePair(r)` keeps. */
  function Unreferred(r: EntryRef): Pair -> bool {
    p => !Refers(r, p)
  }

  /** The predicate `RemovePair(r, l)` keeps. */
  function Unmatched(r: EntryRef, l: LocaleId): Pair -> bool {
    p => !Matches(r, l, p)
  }

  /** The predicate the lookups select by. */
  function MatchesAt(r: EntryRef, l: LocaleId): Pair -> bool {
    p => Matches(r, l, p)
  }

  /** `RemovePair(entryReference)`: drops every pair the reference refers to, in all
      locales; an `Empty` reference changes nothing. */
  function RemovePair(pairs: seq<Pair>, r: EntryRef): (res: seq<Pair>)
    ensures forall q :: q in res <==> q in pairs && !Refers(r, q)
    ensures r.Empty? ==> res == pairs
  {
    if r.Empty? then Seqs.FilterKeepsAll(pairs, Unreferred(r)); Seqs.Filter(pairs, Unreferred(r))
    else Seqs.Filter(pairs, Unreferred(r))
  }

  /** `RemovePair(entryReference, localeID)`: drops the pairs the reference refers to in
      that one locale. */
  function RemovePairAt(pairs: seq<Pair>, r: EntryRef, l: LocaleId): (res: seq<Pair>)
    ensures forall q :: q in res <==> q in pairs && !Matches(r, l, q)
    ensures r.Empty? ==> res == pairs
  {
    if r.Empty? then Seqs.FilterKeepsAll(pairs, Unmatched(r, l)); Seqs.Filter(pairs, Unmatched(r, l))
    else Seqs.Filter(pairs, Unmatched(r, l))
  }

  /** Removal keeps every occurrence of a pair it does not target, and no occurrence of one
      it does: nothing else changes. */
  lemma RemovePairCounts(pairs: seq<Pair>, r: EntryRef, l: LocaleId)
    ensures forall q :: multiset(RemovePair(pairs, r))[q] == if Refers(r, q) then 0 else multiset(pairs)[q]
    ensures forall q :: multiset(RemovePairAt(pairs, r, l))[q] == if Matches(r, l, q) then 0 else multiset(pairs)[q]
  {
    Seqs.FilterMultiset(pairs, Unreferred(r));
    Seqs.FilterMultiset(pairs, Unmatched(r, l));
  }

  /** Survivors keep their relative order: removal distributes over concatenation. */
  lemma RemovePairKeepsOrder(a: seq<Pair>, b: seq<Pair>, r: EntryRef, l: LocaleId)
    ensures RemovePair(a + b, r) == RemovePair(a, r) + RemovePair(b, r)
    ensures RemovePairAt(a + b, r, l) == RemovePairAt(a, r, l) + RemovePairAt(b, r, l)
  {
    Seqs.FilterAppend(a, b, Unreferred(r));
    Seqs.FilterAppend(a, b, Unmatched(r, l));
  }

  /** `AddPair(pair)`: removes the pairs with the same key in the same locale, then appends
      `p`. The key reaches `RemovePair` through the host's conversion, so a blank key
      removes nothing. Afterwards `p` is the last pair; for a non-blank key it is the only
      one with its key and locale; every pair with another key or locale keeps all of its
      occurrences. */
  function AddPair(pairs: seq<Pair>, p: Pair): (res: seq<Pair>)
    ensures |res| > 0 && res[|res| - 1] == p
    ensures !Strings.IsBlank(p.key) ==> forall i :: 0 <= i < |res| - 1 ==> !(res[i].key == p.key && res[i].localeId == p.localeId)
    ensures forall q: Pair :: !(q.key == p.key && q.localeId == p.localeId) ==> multiset(res)[q] == multiset(pairs)[q]
    ensures Strings.IsBlank(p.key) ==> res == pairs + [p]
  {
    var kept := RemovePairAt(pairs, NameRef(p.key), p.localeId);
    AppendAfterRemoval(pairs, p, kept);
    kept + [p]
  }

  lemma AppendAfterRemoval(pairs: seq<Pair>, p: Pair, kept: seq<Pair>)
    requires kept == RemovePairAt(pairs, NameRef(p.key), p.localeId)
    ensures !Strings.IsBlank(p.key) ==> forall i :: 0 <= i < |kept| ==> !(kept[i].key == p.key && kept[i].localeId == p.localeId)
    ensures forall q: Pair :: !(q.key == p.key && q.localeId == p.localeId) ==> multiset(kept + [p])[q] == multiset(pairs)[q]
  {
    RemovePairCounts(pairs, NameRef(p.key), p.localeId);
    assert forall i :: 0 <= i < |kept| ==> kept[i] in kept;
    assert multiset(kept + [p]) == multiset(kept) + multiset{p};
  }

  /** The pairs present after `AddPair(p)` are exactly `p` and the pairs that were present
      with another key or locale, or with any key when `p`'s key is blank. */
  lemma AddPairMembers(pairs: seq<Pair>, p: Pair, q: Pair)
    ensures q in AddPair(pairs, p) <==> q == p || (q in pairs && (Strings.IsBlank(p.key) || !(q.key == p.key && q.localeId == p.localeId)))
  {
    var kept := RemovePairAt(pairs, NameRef(p.key), p.localeId);
    assert AddPair(pairs, p) == kept + [p];
    assert q in kept <==> q in pairs && !Matches(NameRef(p.key), p.localeId, q);
  }

  /** Contrary to its doc comment, `AddPair` does not delete a pair that only shares the key
      id: a pair with another key, or the same key in another locale, survives. */
  lemma AddPairKeepsSameIdOtherKey(pairs: seq<Pair>, p: Pair, q: Pair)
    requires q in pairs && q.keyId == p.keyId && (q.key != p.key || q.localeId != p.localeId)
    ensures q in AddPair(pairs, p)
  {
    assert multiset(pairs)[q] > 0;
  }

  /** Value of an index cell. */
  type LocaleClips = map<LocaleId, Option<Clip>>

  /** Some pair has key `k` (as `keyOf` reads it) in locale `l`. */
  predicate Occurs<K(==)>(pairs: seq<Pair>, keyOf: Pair -> K, k: K, l: LocaleId) {
    exists i :: 0 <= i < |pairs| && keyOf(pairs[i]) == k && pairs[i].localeId == l
  }

  lemma OccursSnoc<K>(pairs: seq<Pair>, keyOf: Pair -> K, k: K, l: LocaleId)
    requires |pairs| > 0
    ensures Occurs(pairs, keyOf, k, l) <==>
      Occurs(pairs[..|pairs| - 1], keyOf, k, l) || (keyOf(pairs[|pairs| - 1]) == k && pairs[|pairs| - 1].localeId == l)
  {
    var init := pairs[..|pairs| - 1];
    if Occurs(pairs, keyOf, k, l) && !(keyOf(pairs[|pairs| - 1]) == k && pairs[|pairs| - 1].localeId == l) {
      var i :| 0 <= i < |pairs| && keyOf(pairs[i]) == k && pairs[i].localeId == l;
      assert init[i] == pairs[i];
    }
    if Occurs(init, keyOf, k, l) {
      var i :| 0 <= i < |init| && keyOf(init[i]) == k && init[i].localeId == l;
      assert pairs[i] == init[i];
    }
  }

  /** The index `Init` builds: one pass over the list, creating a key's inner map on first
      sight and assigning `[key][locale] = clip`, so later pairs overwrite earlier ones. A
      cell exists exactly for the keys and locales some pair has. */
  function Index<K(!new)>(pairs: seq<Pair>, keyOf: Pair -> K): (idx: map<K, LocaleClips>)
    ensures forall k, l :: Find(idx, k, l).Some? <==> Occurs(pairs, keyOf, k, l)
  {
    if |pairs| == 0 then map[]
    else
      var idx := Index(pairs[..|pairs| - 1], keyOf);
      var p := pairs[|pairs| - 1];
      var inner := if keyOf(p) in idx then idx[keyOf(p)] else map[];
      var r := idx[keyOf(p) := inner[p.localeId := p.audioClip]];
      assert forall k, l :: Find(r, k, l).Some? <==> Occurs(pairs, keyOf, k, l) by {
        forall k, l ensures Find(r, k, l).Some? <==> Occurs(pairs, keyOf, k, l) {
          OccursSnoc(pairs, keyOf, k, l);
        }
      }
      r
  }

  function ByKey(): Pair -> string {
    (p: Pair) => p.key
  }

  function ById(): Pair -> int {
    (p: Pair) => p.keyId
  }

  /** `TryGetValue` on both levels of an index: `Some(clip)` when the cell exists. */
  function Find<K>(idx: map<K, LocaleClips>, k: K, l: LocaleId): Option<Option<Clip>> {
    if k in idx && l in idx[k] then Some(idx[k][l]) else None
  }

  /** The index cell a reference reaches: `Name` references go through the key index, `Id`
      references through the key-id index, and `Empty` reaches no cell. */
  function Lookup(pairs: seq<Pair>, r: EntryRef, l: LocaleId): (res: Option<Option<Clip>>)
    ensures res.Some? <==> exists i :: 0 <= i < |pairs| && Matches(r, l, pairs[i])
  {
    match r
    case Empty => None
    case Name(k) => Find(Index(pairs, ByKey()), k, l)
    case Id(n) => Find(Index(pairs, ById()), n, l)
  }

  /** `HasClip(entryReference, localeId)`: the reference reaches an index cell. */
  predicate HasClip(pairs: seq<Pair>, r: EntryRef, l: LocaleId)
    ensures HasClip(pairs, r, l) <==> exists i :: 0 <= i < |pairs| && Matches(r, l, pairs[i])
    ensures r.Empty? ==> !HasClip(pairs, r, l)
  {
    Lookup(pairs, r, l).Some?
  }

  /** `GetAudioClip(entryReference, localeId)`: the clip in the cell the reference reaches,
      or `null`; an `Empty` reference always yields `null`. */
  function GetAudioClip(pairs: seq<Pair>, r: EntryRef, l: LocaleId): (c: Option<Clip>)
    ensures r.Empty? ==> c.None?
  {
    match Lookup(pairs, r, l)
    case Some(clip) => clip
    case None => None
  }

  /** Reference definition of a lookup: the clip of the last pair satisfying `sel`. */
  function LastClip(pairs: seq<Pair>, sel: Pair -> bool): (r: Option<Option<Clip>>)
    ensures r.None? <==> forall i :: 0 <= i < |pairs| ==> !sel(pairs[i])
    ensures r.Some? ==> exists i :: 0 <= i < |pairs| && sel(pairs[i]) && r.value == pairs[i].audioClip
                                    && forall j :: i < j < |pairs| ==> !sel(pairs[j])
  {
    match Seqs.LastIndex(pairs, sel)
    case None => None
    case Some(i) => Some(pairs[i].audioClip)
  }

  /** The fold in `Init` is last-writer-wins: the cell for `(k, l)` exists exactly when some
      pair has that key and locale, and holds the clip of the last such pair. */
  lemma {:induction false} IndexIsLastWriter<K(!new)>(pairs: seq<Pair>, keyOf: Pair -> K, k: K, l: LocaleId, sel: Pair -> bool)
    requires forall q :: sel(q) <==> keyOf(q) == k && q.localeId == l
    ensures Find(Index(pairs, keyOf), k, l) == LastClip(pairs, sel)
  {
    if |pairs| > 0 {
      IndexIsLastWriter(pairs[..|pairs| - 1], keyOf, k, l, sel);
    }
  }

  /** Every lookup reaches the clip of the last pair in the list matching the reference and
      locale, and no cell when no pair matches. */
  lemma LookupIsLastMatch(pairs: seq<Pair>, r: EntryRef, l: LocaleId)
    ensures Lookup(pairs, r, l) == LastClip(pairs, MatchesAt(r, l))
  {
    match r
    case Empty =>
    case Name(k) => IndexIsLastWriter(pairs, ByKey(), k, l, MatchesAt(r, l));
    case Id(n) => IndexIsLastWriter(pairs, ById(), n, l, MatchesAt(r, l));
  }

  /** `HasClip` holds exactly when some pair matches the reference in the locale, and a
      non-null `GetAudioClip` implies `HasClip`. */
  lemma HasClipIffSomeMatch(pairs: seq<Pair>, r: EntryRef, l: LocaleId)
    ensures HasClip(pairs, r, l) <==> exists i :: 0 <= i < |pairs| && Matches(r, l, pairs[i])
    ensures GetAudioClip(pairs, r, l).Some? ==> HasClip(pairs, r, l)
  {
    LookupIsLastMatch(pairs, r, l);
    if !HasClip(pairs, r, l) {
      forall i | 0 <= i < |pairs| ensures !Matches(r, l, pairs[i]) {
        assert !MatchesAt(r, l)(pairs[i]);
      }
    }
  }

  /** `GetAudioClip` returns the clip of the last matching pair, or `null` when none
      matches. */
  lemma GetAudioClipIsLastMatch(pairs: seq<Pair>, r: EntryRef, l: LocaleId)
    ensures (exists i :: 0 <= i < |pairs| && Matches(r, l, pairs[i])) || GetAudioClip(pairs, r, l).None?
    ensures forall i :: 0 <= i < |pairs| && Matches(r, l, pairs[i])
                        && (forall j :: i < j < |pairs| ==> !Matches(r, l, pairs[j]))
                        ==> GetAudioClip(pairs, r, l) == pairs[i].audioClip
  {
    LookupIsLastMatch(pairs, r, l);
    HasClipIffSomeMatch(pairs, r, l);
    var sel := MatchesAt(r, l);
    forall i | 0 <= i < |pairs| && Matches(r, l, pairs[i]) && (forall j :: i < j < |pairs| ==> !Matches(r, l, pairs[j]))
      ensures GetAudioClip(pairs, r, l) == pairs[i].audioClip
    {
      assert sel(pairs[i]);
      var w := LastClip(pairs, sel);
      var i' :| 0 <= i' < |pairs| && sel(pairs[i']) && w.value == pairs[i'].audioClip
                && forall j :: i' < j < |pairs| ==> !sel(pairs[j]);
      assert i' == i;
    }
  }

  /** After `AddPair(p)`, a freshly built index finds `p`'s clip both by its key and by its
      key id in its locale. */
  lemma AddPairThenLookup(pairs: seq<Pair>, p: Pair)
    ensures GetAudioClip(AddPair(pairs, p), Name(p.key), p.localeId) == p.audioClip
    ensures GetAudioClip(AddPair(pairs, p), Id(p.keyId), p.localeId) == p.audioClip
  {
    var res := AddPair(pairs, p);
    LookupIsLastMatch(res, Name(p.key), p.localeId);
    LookupIsLastMatch(res, Id(p.keyId), p.localeId);
    assert MatchesAt(Name(p.key), p.localeId)(res[|res| - 1]);
    assert MatchesAt(Id(p.keyId), p.localeId)(res[|res| - 1]);
  }

  lemma LastClipSnoc(a: seq<Pair>, y: Pair, sel: Pair -> bool)
    ensures LastClip(a + [y], sel) == if sel(y) then Some(y.audioClip) else LastClip(a, sel)
  {
    assert (a + [y])[..|a|] == a;
  }

  /** Removing only pairs that `sel` rejects does not change the last pair `sel` accepts. */
  lemma {:induction false} LastClipOfFilter(s: seq<Pair>, keep: Pair -> bool, sel: Pair -> bool)
    requires forall q :: sel(q) ==> keep(q)
    ensures LastClip(Seqs.Filter(s, keep), sel) == LastClip(s, sel)
  {
    if |s| > 0 {
      var init, last := s[..|s| - 1], s[|s| - 1];
      assert s == init + [last] && s[..|s|] == s;
      Seqs.FilterStep(s, |s| - 1, keep);
      LastClipOfFilter(init, keep, sel);
      LastClipSnoc(init, last, sel);
      if keep(last) {
        LastClipSnoc(Seqs.Filter(init, keep), last, sel);
      } else {
        assert Seqs.Filter(s, keep) == Seqs.Filter(init, keep);
      }
    }
  }

  /** `AddPair(p)` leaves every key lookup for another key or another locale as it was. */
  lemma AddPairKeepsOtherKeyLookups(pairs: seq<Pair>, p: Pair, k: string, l: LocaleId)
    requires k != p.key || l != p.localeId
    ensures GetAudioClip(AddPair(pairs, p), Name(k), l) == GetAudioClip(pairs, Name(k), l)
    ensures HasClip(AddPair(pairs, p), Name(k), l) == HasClip(pairs, Name(k), l)
  {
    var sel := MatchesAt(Name(k), l);
    var keep := Unmatched(NameRef(p.key), p.localeId);
    var kept := RemovePairAt(pairs, NameRef(p.key), p.localeId);
    assert AddPair(pairs, p) == kept + [p];
    LookupIsLastMatch(AddPair(pairs, p), Name(k), l);
    LookupIsLastMatch(pairs, Name(k), l);
    LastClipSnoc(kept, p, sel);
    LastClipOfFilter(pairs, keep, sel);
  }

  /** A lookup finds the clip of the last pair the reference selects in the locale. */
  lemma LastMatchIsLookedUp(pairs: seq<Pair>, r: EntryRef, l: LocaleId, q: Pair)
    requires Seqs.LastWhere(pairs, MatchesAt(r, l)) == Some(q)
    ensures GetAudioClip(pairs, r, l) == q.audioClip
  {
    LookupIsLastMatch(pairs, r, l);
  }

  /** After `AddPair(p)`, `p` is the last pair any reference to it selects in its locale. */
  lemma AddPairIsLastMatch(pairs: seq<Pair>, p: Pair, r: EntryRef)
    requires Refers(r, p)
    ensures Seqs.LastWhere(AddPair(pairs, p), MatchesAt(r, p.localeId)) == Some(p)
  {
    var kept := RemovePairAt(pairs, NameRef(p.key), p.localeId);
    assert AddPair(pairs, p) == kept + [p];
    Seqs.LastWhereSnoc(kept, p, MatchesAt(r, p.localeId));
  }

  /** `AddPair(p)` keeps the last pair a reference selects in a locale, when `p` is not
      selected and that pair does not share `p`'s key and locale. */
  lemma AddPairKeepsLastMatch(pairs: seq<Pair>, p: Pair, r: EntryRef, l: LocaleId)
    requires !Matches(r, l, p)
    requires var w := Seqs.LastWhere(pairs, MatchesAt(r, l));
             w.Some? ==> w.value.key != p.key || w.value.localeId != p.localeId
    ensures Seqs.LastWhere(AddPair(pairs, p), MatchesAt(r, l)) == Seqs.LastWhere(pairs, MatchesAt(r, l))
  {
    var kept := RemovePairAt(pairs, NameRef(p.key), p.localeId);
    assert AddPair(pairs, p) == kept + [p];
    Seqs.LastWhereSnoc(kept, p, MatchesAt(r, l));
    Seqs.LastWhereOfFilter(pairs, Unmatched(NameRef(p.key), p.localeId), MatchesAt(r, l));
  }

  /** Key-id lookups are not protected the same way: adding a pair under an existing key
      with a new key id drops the old pair, so the old id stops resolving in that locale. */
  lemma AddPairCanOrphanKeyId()
    ensures var l := LocaleId("en");
            var before := [Pair("a", 5, l, Some(Clip(1, "a_en")))];
            var res := AddPair(before, Pair("a", 7, l, Some(Clip(2, "a_en"))));
            GetAudioClip(before, Id(5), l) == Some(Clip(1, "a_en")) && GetAudioClip(res, Id(5), l).None?
  {
    var l := LocaleId("en");
    var before := [Pair("a", 5, l, Some(Clip(1, "a_en")))];
    var p := Pair("a", 7, l, Some(Clip(2, "a_en")));
    var res := AddPair(before, p);
    assert res == [p] by {
      assert "a"[0] == 'a' && !Strings.IsBlank("a");
      var keep := Unmatched(Name("a"), l);
      assert !keep(before[0]) && before[1..] == [];
      assert RemovePairAt(before, Name("a"), l) == Seqs.Filter(before, keep) == [];
    }
    GetAudioClipIsLastMatch(before, Id(5), l);
    HasClipIffSomeMatch(res, Id(5), l);
  }
}
