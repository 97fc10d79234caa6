/**
 * `AnimeTrie`: the in-memory catalog index. Records are kept in a table by id; their
 * titles, genre names and studio names are indexed in three prefix trees whose nodes
 * hold record ids.
 *
 * Ghost state: `indexed` is every record whose texts went into the trees since the last
 * `clear`. Removing a record only deletes its table entry, so the trees keep its ids:
 * `NoStaleIds()` (every id in a tree node is a table key) holds after adding and
 * clearing but is broken by removing an indexed record.
 */
module AnimeIndex {
  import opened Wrappers
  import opened Text
  import opened Sorting
  import opened Normalization
  import opened Entities
  import opened TrieArena
  import opened Suggestions

  /** The three trees. */
  datatype Field = Titles | Genres | Studios

  /** The title strings `add_anime` considers, before it skips the blank ones. */
  function TitleTexts(a: Anime): set<string> {
    {a.title, DisplayTitle(a), OrEmpty(a.titleEnglish), OrEmpty(a.titleJapanese)}
  }

  /** The same strings in field order, duplicates kept. */
  function TitleList(a: Anime): (titles: seq<string>)
    ensures forall t :: t in titles <==> t in TitleTexts(a)
  {
    [a.title, DisplayTitle(a), OrEmpty(a.titleEnglish), OrEmpty(a.titleJapanese)]
  }

  /** The texts `add_anime` walks for the tree of field f. */
  function FieldTexts(a: Anime, f: Field): seq<string> {
    match f
    case Titles => TitleList(a)
    case Genres => GenreNames(a.genres)
    case Studios => StudioNames(a.studios)
  }

  /** Whether `add_anime` indexes text t in the tree of field f: a title only when it is not blank. */
  predicate Admits(u: Unicode, f: Field, t: string) {
    f != Titles || Strip(u, t) != []
  }

  /** The (key, id) pairs one `_add_to_trie` per admitted text adds. */
  ghost function KeysOf(u: Unicode, f: Field, texts: seq<string>, id: int): set<(string, int)>
    decreases |texts|
  {
    if texts == [] then {}
    else
      KeysOf(u, f, texts[..|texts| - 1], id)
      + (if Admits(u, f, texts[|texts| - 1]) then {(Normalize(u, texts[|texts| - 1]), id)} else {})
  }

  /** The pairs are exactly the keys of the admitted texts, each with the id. */
  lemma KeysOfMembers(u: Unicode, f: Field, texts: seq<string>, id: int)
    ensures forall k :: 0 <= k < |texts| && Admits(u, f, texts[k]) ==> (Normalize(u, texts[k]), id) in KeysOf(u, f, texts, id)
    ensures forall e :: e in KeysOf(u, f, texts, id) ==>
      exists k :: 0 <= k < |texts| && Admits(u, f, texts[k]) && e == (Normalize(u, texts[k]), id)
  {
    KeysOfHas(u, f, texts, id);
    KeysOfFrom(u, f, texts, id);
  }

  /** Every admitted text contributes its pair. */
  lemma {:induction false} KeysOfHas(u: Unicode, f: Field, texts: seq<string>, id: int)
    ensures forall k :: 0 <= k < |texts| && Admits(u, f, texts[k]) ==> (Normalize(u, texts[k]), id) in KeysOf(u, f, texts, id)
    decreases |texts|
  {
    if texts != [] {
      var init := texts[..|texts| - 1];
      KeysOfHas(u, f, init, id);
      forall k | 0 <= k < |texts| && Admits(u, f, texts[k]) ensures (Normalize(u, texts[k]), id) in KeysOf(u, f, texts, id) {
        if k < |init| {
          assert init[k] == texts[k];
        }
      }
    }
  }

  /** Every pair comes from an admitted text. */
  lemma {:induction false} KeysOfFrom(u: Unicode, f: Field, texts: seq<string>, id: int)
    ensures forall e :: e in KeysOf(u, f, texts, id) ==>
      exists k :: 0 <= k < |texts| && Admits(u, f, texts[k]) && e == (Normalize(u, texts[k]), id)
    decreases |texts|
  {
    if texts != [] {
      var init := texts[..|texts| - 1];
      KeysOfFrom(u, f, init, id);
      forall e | e in KeysOf(u, f, texts, id)
        ensures exists k :: 0 <= k < |texts| && Admits(u, f, texts[k]) && e == (Normalize(u, texts[k]), id)
      {
        if e in KeysOf(u, f, init, id) {
          var k :| 0 <= k < |init| && Admits(u, f, init[k]) && e == (Normalize(u, init[k]), id);
          assert init[k] == texts[k];
        } else {
          assert Admits(u, f, texts[|texts| - 1]) && e == (Normalize(u, texts[|texts| - 1]), id);
        }
      }
    }
  }

  /** Only which texts occur matters, not their order or repetition. */
  lemma KeysOfSameTexts(u: Unicode, f: Field, a: seq<string>, b: seq<string>, id: int)
    requires forall t :: t in a <==> t in b
    ensures KeysOf(u, f, a, id) == KeysOf(u, f, b, id)
  {
    KeysOfMembers(u, f, a, id);
    KeysOfMembers(u, f, b, id);
    forall e | e in KeysOf(u, f, a, id) ensures e in KeysOf(u, f, b, id) {
      var k :| 0 <= k < |a| && Admits(u, f, a[k]) && e == (Normalize(u, a[k]), id);
      assert a[k] in b;
    }
    forall e | e in KeysOf(u, f, b, id) ensures e in KeysOf(u, f, a, id) {
      var k :| 0 <= k < |b| && Admits(u, f, b[k]) && e == (Normalize(u, b[k]), id);
      assert b[k] in a;
    }
  }

  /** The (key, id) pairs one record adds to the tree of field f. */
  ghost function EntriesOf(u: Unicode, a: Anime, f: Field): set<(string, int)> {
    KeysOf(u, f, FieldTexts(a, f), a.id)
  }

  /** Every pair a record adds carries its id. */
  lemma EntriesOfId(u: Unicode, a: Anime, f: Field)
    ensures forall e :: e in EntriesOf(u, a, f) ==> e.1 == a.id
  {
    KeysOfMembers(u, f, FieldTexts(a, f), a.id);
  }

  /** The (key, id) pairs a sequence of records adds to the tree of field f. */
  ghost function EntriesIn(u: Unicode, records: seq<Anime>, f: Field): set<(string, int)>
    decreases |records|
  {
    if records == [] then {}
    else EntriesIn(u, records[..|records| - 1], f) + EntriesOf(u, records[|records| - 1], f)
  }

  lemma {:induction false} EntriesInMembers(u: Unicode, records: seq<Anime>, f: Field)
    ensures forall e :: e in EntriesIn(u, records, f) ==> exists k :: 0 <= k < |records| && e in EntriesOf(u, records[k], f)
    decreases |records|
  {
    if records != [] {
      var init := records[..|records| - 1];
      EntriesInMembers(u, init, f);
      forall e | e in EntriesIn(u, records, f) ensures exists k :: 0 <= k < |records| && e in EntriesOf(u, records[k], f) {
        if e in EntriesIn(u, init, f) {
          var k :| 0 <= k < |init| && e in EntriesOf(u, init[k], f);
          assert init[k] == records[k];
        } else {
          assert e in EntriesOf(u, records[|records| - 1], f);
        }
      }
    }
  }

  lemma EntriesInAdd(u: Unicode, records: seq<Anime>, a: Anime, f: Field)
    ensures EntriesIn(u, records + [a], f) == EntriesIn(u, records, f) + EntriesOf(u, a, f)
  {
    assert (records + [a])[..|records|] == records;
  }

  /** Whether the record puts anything into any tree. */
  ghost predicate HasText(u: Unicode, a: Anime) {
    EntriesOf(u, a, Titles) != {} || EntriesOf(u, a, Genres) != {} || EntriesOf(u, a, Studios) != {}
  }

  /** The record named by prefix in the tree of field f: one of its texts normalizes to an extension of it. */
  ghost predicate Matches(u: Unicode, a: Anime, f: Field, prefix: string) {
    exists e :: e in EntriesOf(u, a, f) && Reaches(Normalize(u, prefix), e.0)
  }

  /** A Python set's iteration: each element once, in an order the model does not fix. */
  method Enumerate(texts: set<string>) returns (r: seq<string>)
    ensures forall t :: t in r <==> t in texts
    ensures |r| == |texts|
  {
    r := [];
    var rest := texts;
    while rest != {}
      invariant rest <= texts
      invariant forall t :: t in r <==> t in texts && t !in rest
      invariant |r| + |rest| == |texts|
      decreases |rest|
    {
      NonEmptyStrings(rest);
      var t :| t in rest;
      r := r + [t];
      rest := rest - {t};
    }
  }

  /**
   * One `add_anime` loop over one tree: `_add_to_trie` for each admitted text,
   * in the order given.
   */
  method InsertTexts(trie: Trie, u: Unicode, f: Field, texts: seq<string>, id: int)
    requires trie.Valid()
    modifies trie
    ensures trie.Valid()
    ensures trie.entries == old(trie.entries) + KeysOf(u, f, texts, id)
  {
    for i := 0 to |texts|
      invariant trie.Valid()
      invariant trie.entries == old(trie.entries) + KeysOf(u, f, texts[..i], id)
    {
      KeysOfStep(u, f, texts, i, id);
      if f != Titles || Strip(u, texts[i]) != [] {
        trie.Insert(u, texts[i], id);
      }
    }
    assert texts[..|texts|] == texts;
  }

  /** One more text adds its pair when it is admitted, and nothing otherwise. */
  lemma KeysOfStep(u: Unicode, f: Field, texts: seq<string>, i: int, id: int)
    requires 0 <= i < |texts|
    ensures KeysOf(u, f, texts[..i + 1], id)
      == KeysOf(u, f, texts[..i], id) + (if Admits(u, f, texts[i]) then {(Normalize(u, texts[i]), id)} else {})
  {
    assert texts[..i + 1][..i] == texts[..i];
  }

  /**
   * The records of `ids` in order, as `[table[i] for i in ids]`: a `KeyError` for the
   * first id the table lacks.
   */
  function Listing(table: map<int, Anime>, ids: seq<int>): (r: Result<seq<Anime>, Exception>)
    ensures r.Success? <==> forall k :: 0 <= k < |ids| ==> ids[k] in table
    ensures r.Success? ==> |r.value| == |ids| && forall k :: 0 <= k < |ids| ==> r.value[k] == table[ids[k]]
    ensures r.Failure? ==> exists k :: 0 <= k < |ids| && ids[k] !in table && r.error == KeyError(ids[k])
                                      && forall j :: 0 <= j < k ==> ids[j] in table
    decreases |ids|
  {
    if ids == [] then Success([])
    else if ids[0] !in table then Failure(KeyError(ids[0]))
    else
      match Listing(table, ids[1..])
      case Failure(e) =>
        assert forall k :: 1 <= k < |ids| ==> ids[k] == ids[1..][k - 1];
        Failure(e)
      case Success(rest) => Success([table[ids[0]]] + rest)
  }

  /** `results[:limit]` when limit is truthy, the whole list otherwise; an exception passes through. */
  function Limit(r: Result<seq<Anime>, Exception>, limit: Option<int>): (l: Result<seq<Anime>, Exception>)
    ensures r.Failure? ==> l == r
    ensures r.Success? ==> l.Success? && l.value <= r.value
    ensures r.Success? && !TruthyInt(limit) ==> l == r
    ensures r.Success? && TruthyInt(limit) && limit.value > 0 ==> |l.value| == if limit.value <= |r.value| then limit.value else |r.value|
    ensures r.Success? && TruthyInt(limit) && limit.value < 0 ==> |l.value| == if |r.value| + limit.value >= 0 then |r.value| + limit.value else 0
  {
    match r
    case Failure(_) => r
    case Success(xs) => if TruthyInt(limit) then Success(SliceTo(xs, limit.value)) else r
  }

  /** The list comprehension over already sorted ids. */
  method ListIds(table: map<int, Anime>, ids: seq<int>) returns (r: Result<seq<Anime>, Exception>)
    ensures r == Listing(table, ids)
  {
    var results: seq<Anime> := [];
    var k := 0;
    while k < |ids|
      invariant 0 <= k <= |ids|
      invariant forall j :: 0 <= j < k ==> ids[j] in table
      invariant |results| == k && forall j :: 0 <= j < k ==> results[j] == table[ids[j]]
    {
      if ids[k] !in table {
        return Failure(KeyError(ids[k]));
      }
      results := results + [table[ids[k]]];
      k := k + 1;
    }
    assert Listing(table, ids).Success?;
    assert Listing(table, ids).value == results;
    return Success(results);
  }

  /** The ids an `advanced_search` keeps: those every truthy prefix finds, or every table key when none is truthy. */
  ghost function AdvancedIds(titleIds: set<int>, genreIds: set<int>, studioIds: set<int>, keys: set<int>,
                             title: Option<string>, genre: Option<string>, studio: Option<string>): set<int>
  {
    if !TruthyString(title) && !TruthyString(genre) && !TruthyString(studio) then keys
    else
      set id | id in titleIds + genreIds + studioIds
        && (TruthyString(title) ==> id in titleIds)
        && (TruthyString(genre) ==> id in genreIds)
        && (TruthyString(studio) ==> id in studioIds)
  }

  /** With at least one truthy prefix, the kept ids are the intersection of the sets of the truthy prefixes. */
  lemma AdvancedIdsMembers(titleIds: set<int>, genreIds: set<int>, studioIds: set<int>, keys: set<int>,
                           title: Option<string>, genre: Option<string>, studio: Option<string>)
    requires TruthyString(title) || TruthyString(genre) || TruthyString(studio)
    ensures forall id :: id in AdvancedIds(titleIds, genreIds, studioIds, keys, title, genre, studio) <==>
      && (TruthyString(title) ==> id in titleIds)
      && (TruthyString(genre) ==> id in genreIds)
      && (TruthyString(studio) ==> id in studioIds)
  {
  }

  /** A title prefix alone keeps exactly the title hits, so `advanced_search` then agrees with `search_by_title`. */
  lemma AdvancedTitleOnly(titleIds: set<int>, genreIds: set<int>, studioIds: set<int>, keys: set<int>, title: string)
    requires title != ""
    ensures AdvancedIds(titleIds, genreIds, studioIds, keys, Some(title), None, None) == titleIds
  {
    assert TruthyString(Some(title)) && !TruthyString(None);
    AdvancedIdsMembers(titleIds, genreIds, studioIds, keys, Some(title), None, None);
  }

  /**
   * A blank prefix normalizes to "" and so stops at the root, which holds only the ids of empty
   * keys. Over the ASCII tables, `search_by_title(" ")` misses a record keyed "naruto", and so does
   * `advanced_search(title_prefix=" ")`, while `advanced_search()` with no prefix keeps every key.
   */
  lemma BlankPrefixMisses()
    ensures Normalize(Ascii(), " ") == ""
    ensures Ids({("naruto", 1)}, Normalize(Ascii(), " ")) == {}
    ensures AdvancedIds(Ids({("naruto", 1)}, Normalize(Ascii(), " ")), {}, {}, {1}, Some(" "), None, None) == {}
    ensures AdvancedIds({}, {}, {}, {1}, None, None, None) == {1}
  {
    assert AsciiLower(" ") == " ";
    assert Strip(Ascii(), " ") == "";
  }

  // ---------------------------------------------------------------------------
  // get_all_anime: the records ordered by lower-cased display title.

  /** The sort key of `get_all_anime`. */
  function SortKey(u: Unicode, a: Anime): string {
    u.lower(DisplayTitle(a))
  }

  /** No record's key is smaller than the key of a record before it. */
  predicate SortedByKey(u: Unicode, s: seq<Anime>) {
    forall i, j :: 0 <= i < j < |s| ==> !LexLess(SortKey(u, s[j]), SortKey(u, s[i]))
  }

  /** Puts a after every record whose key is not greater than its own: one step of a stable insertion sort. */
  function InsertByKey(u: Unicode, s: seq<Anime>, a: Anime): (r: seq<Anime>)
    requires SortedByKey(u, s)
    ensures SortedByKey(u, r)
    ensures multiset(r) == multiset(s) + multiset{a}
    decreases |s|
  {
    if s == [] then [a]
    else if LexLess(SortKey(u, a), SortKey(u, s[0])) then
      InsertFront(u, s, a);
      [a] + s
    else
      var tail := InsertByKey(u, s[1..], a);
      assert s == [s[0]] + s[1..];
      InsertBehind(u, s, a, tail);
      [s[0]] + tail
  }

  lemma InsertFront(u: Unicode, s: seq<Anime>, a: Anime)
    requires SortedByKey(u, s) && s != []
    requires LexLess(SortKey(u, a), SortKey(u, s[0]))
    ensures SortedByKey(u, [a] + s)
  {
    forall k | 0 <= k < |s| ensures !LexLess(SortKey(u, s[k]), SortKey(u, a)) {
      if LexLess(SortKey(u, s[k]), SortKey(u, a)) {
        LexLessTransitive(SortKey(u, s[k]), SortKey(u, a), SortKey(u, s[0]));
        LexLessIrreflexive(SortKey(u, s[0]));
      }
    }
  }

  lemma InsertBehind(u: Unicode, s: seq<Anime>, a: Anime, tail: seq<Anime>)
    requires SortedByKey(u, s) && s != []
    requires !LexLess(SortKey(u, a), SortKey(u, s[0]))
    requires SortedByKey(u, tail) && multiset(tail) == multiset(s[1..]) + multiset{a}
    ensures SortedByKey(u, [s[0]] + tail)
  {
    forall k | 0 <= k < |tail| ensures !LexLess(SortKey(u, tail[k]), SortKey(u, s[0])) {
      assert tail[k] in multiset(tail);
      if tail[k] != a {
        assert tail[k] in s[1..];
        var j :| 0 <= j < |s[1..]| && s[1..][j] == tail[k];
        assert s[j + 1] == tail[k];
      }
    }
  }

  /** `table.values()`. */
  ghost function Records(table: map<int, Anime>): set<Anime> {
    set id | id in table :: table[id]
  }

  /** A table whose records sit under their own ids holds each of its records under that record's id. */
  lemma RecordsById(table: map<int, Anime>)
    requires forall id :: id in table ==> table[id].id == id
    ensures forall b :: b in Records(table) <==> b.id in table && table[b.id] == b
  {
    forall b | b in Records(table)
      ensures b.id in table && table[b.id] == b
    {
      var k :| k in table && table[k] == b;
    }
  }

  /**
   * `sorted(table.values(), key=SortKey)`, one insertion at a time. Records kept under
   * distinct ids are distinct, so the list has one entry per id.
   */
  method SortByKey(u: Unicode, table: map<int, Anime>) returns (r: seq<Anime>)
    requires forall id :: id in table ==> table[id].id == id
    ensures SortedByKey(u, r)
    ensures multiset(r) == multiset(Records(table))
    ensures |r| == |table|
  {
    r := [];
    ghost var done: set<Anime> := {};
    var rest := table.Keys;
    RecordsById(table);
    while rest != {}
      invariant rest <= table.Keys
      invariant SortedByKey(u, r)
      invariant multiset(r) == multiset(done)
      invariant forall a :: a in done <==> a in Records(table) && a.id !in rest
      invariant |done| + |rest| == |table|
      decreases |rest|
    {
      NonEmptyInts(rest);
      var id :| id in rest;
      var a := table[id];
      assert a !in done;
      r := InsertByKey(u, r, a);
      done := done + {a};
      rest := rest - {id};
    }
    assert done == Records(table);
  }

  /**
   * What the three trees and the table hold, given the records indexed since the last
   * `clear`: each tree the pairs those records add for its field, and each table entry a
   * record with that id which was indexed.
   */
  ghost predicate Indexes(u: Unicode, titles: set<(string, int)>, genres: set<(string, int)>, studios: set<(string, int)>,
                          table: map<int, Anime>, indexed: seq<Anime>)
  {
    && titles == EntriesIn(u, indexed, Titles)
    && genres == EntriesIn(u, indexed, Genres)
    && studios == EntriesIn(u, indexed, Studios)
    && (forall id :: id in table ==> table[id].id == id && table[id] in indexed)
  }

  /** Every indexed record is still the table's record for its id. */
  ghost predicate SyncedWith(table: map<int, Anime>, indexed: seq<Anime>) {
    forall k :: 0 <= k < |indexed| ==> indexed[k].id in table && table[indexed[k].id] == indexed[k]
  }

  /** Every id among the pairs is a table key. */
  ghost predicate Known(entries: set<(string, int)>, table: map<int, Anime>) {
    forall e :: e in entries ==> e.1 in table
  }

  /** Adding a record with a new id to the table, and its pairs to the trees, keeps the three relations. */
  lemma IndexesAdd(u: Unicode, titles: set<(string, int)>, genres: set<(string, int)>, studios: set<(string, int)>,
                   table: map<int, Anime>, indexed: seq<Anime>, a: Anime)
    requires Indexes(u, titles, genres, studios, table, indexed) && a.id !in table
    ensures Indexes(u, titles + EntriesOf(u, a, Titles), genres + EntriesOf(u, a, Genres),
                    studios + EntriesOf(u, a, Studios), table[a.id := a], indexed + [a])
    ensures SyncedWith(table, indexed) ==> SyncedWith(table[a.id := a], indexed + [a])
    ensures Known(titles, table) && Known(genres, table) && Known(studios, table) ==>
      && Known(titles + EntriesOf(u, a, Titles), table[a.id := a])
      && Known(genres + EntriesOf(u, a, Genres), table[a.id := a])
      && Known(studios + EntriesOf(u, a, Studios), table[a.id := a])
  {
    EntriesInAdd(u, indexed, a, Titles);
    EntriesInAdd(u, indexed, a, Genres);
    EntriesInAdd(u, indexed, a, Studios);
    EntriesOfId(u, a, Titles);
    EntriesOfId(u, a, Genres);
    EntriesOfId(u, a, Studios);
    var table', indexed' := table[a.id := a], indexed + [a];
    forall id | id in table' ensures table'[id].id == id && table'[id] in indexed' {
      if id != a.id {
        assert table[id] in indexed;
      } else {
        assert indexed'[|indexed|] == a;
      }
    }
    if SyncedWith(table, indexed) {
      forall k | 0 <= k < |indexed'| ensures indexed'[k].id in table' && table'[indexed'[k].id] == indexed'[k] {
        if k < |indexed| {
          assert indexed'[k] == indexed[k];
        }
      }
    }
  }

  /** A record's pairs are among the pairs of any sequence of records it belongs to. */
  lemma {:induction false} EntriesInContains(u: Unicode, records: seq<Anime>, a: Anime, f: Field)
    requires a in records
    ensures EntriesOf(u, a, f) <= EntriesIn(u, records, f)
    decreases |records|
  {
    var init := records[..|records| - 1];
    if records[|records| - 1] != a {
      assert a in init by {
        var k :| 0 <= k < |records| && records[k] == a;
        assert init[k] == a;
      }
      EntriesInContains(u, init, a, f);
    }
  }

  /**
   * Listing the sorted ids succeeds exactly when every id is a table key; the records then
   * come in strictly ascending id order and are the table's records for those ids.
   */
  lemma ListingSorted(table: map<int, Anime>, ids: set<int>)
    requires forall id :: id in table ==> table[id].id == id
    ensures Listing(table, Ascending(ids)).Success? <==> ids <= table.Keys
    ensures var r := Listing(table, Ascending(ids));
      r.Success? ==>
        && (forall i, j :: 0 <= i < j < |r.value| ==> r.value[i].id < r.value[j].id)
        && (forall a :: a in r.value <==> a.id in ids && a.id in table && table[a.id] == a)
  {
    var sorted := Ascending(ids);
    var r := Listing(table, sorted);
    if ids <= table.Keys {
      assert forall k :: 0 <= k < |sorted| ==> sorted[k] in table by {
        forall k | 0 <= k < |sorted| ensures sorted[k] in table {
          assert sorted[k] in sorted;
        }
      }
    } else {
      var id :| id in ids && id !in table;
      assert id in sorted;
    }
    if r.Success? {
      forall a ensures a in r.value <==> a.id in ids && a.id in table && table[a.id] == a {
        if a in r.value {
          var k :| 0 <= k < |r.value| && r.value[k] == a;
          assert sorted[k] in sorted;
        }
        if a.id in ids && a.id in table && table[a.id] == a {
          var k :| 0 <= k < |sorted| && sorted[k] == a.id;
          assert r.value[k] == a;
        }
      }
    }
  }

  /**
   * With nothing removed since the last clear, the ids a tree holds under a prefix are the
   * table keys whose records match that prefix for the tree's field.
   */
  lemma IdsMatch(u: Unicode, table: map<int, Anime>, indexed: seq<Anime>, f: Field, prefix: string)
    requires forall id :: id in table ==> table[id].id == id && table[id] in indexed
    requires SyncedWith(table, indexed)
    ensures forall id :: id in Ids(EntriesIn(u, indexed, f), Normalize(u, prefix)) <==>
      id in table && Matches(u, table[id], f, prefix)
  {
    var entries := EntriesIn(u, indexed, f);
    var p := Normalize(u, prefix);
    EntriesInMembers(u, indexed, f);
    forall id ensures id in Ids(entries, p) <==> id in table && Matches(u, table[id], f, prefix) {
      if id in Ids(entries, p) {
        var e :| e in entries && Reaches(p, e.0) && e.1 == id;
        var k :| 0 <= k < |indexed| && e in EntriesOf(u, indexed[k], f);
        EntriesOfId(u, indexed[k], f);
        assert table[id] == indexed[k];
      }
      if id in table && Matches(u, table[id], f, prefix) {
        var e :| e in EntriesOf(u, table[id], f) && Reaches(p, e.0);
        EntriesInContains(u, indexed, table[id], f);
        EntriesOfId(u, table[id], f);
        assert e in entries;
      }
    }
  }

  /** The record has a text in field f whose normalized form extends the normalized prefix. */
  ghost predicate Extends(u: Unicode, a: Anime, f: Field, prefix: string) {
    exists e :: e in EntriesOf(u, a, f) && Normalize(u, prefix) <= e.0
  }

  /**
   * With the trees built from the indexed records and every one of them still in the
   * table, a title is suggestable exactly when it is the display title of a table record
   * with a text that extends the prefix.
   */
  lemma SuggestableMatch(u: Unicode, table: map<int, Anime>, indexed: seq<Anime>, f: Field, prefix: string)
    requires forall id :: id in table ==> table[id].id == id && table[id] in indexed
    requires SyncedWith(table, indexed)
    ensures forall s :: Suggestable(EntriesIn(u, indexed, f), table, Normalize(u, prefix), s) <==>
      exists id :: id in table && Extends(u, table[id], f, prefix) && s == DisplayTitle(table[id])
  {
    var entries := EntriesIn(u, indexed, f);
    var p := Normalize(u, prefix);
    EntriesInMembers(u, indexed, f);
    forall s ensures Suggestable(entries, table, p, s) <==>
      exists id :: id in table && Extends(u, table[id], f, prefix) && s == DisplayTitle(table[id])
    {
      if Suggestable(entries, table, p, s) {
        var e :| e in entries && p <= e.0 && e.1 in table && s == DisplayTitle(table[e.1]);
        var k :| 0 <= k < |indexed| && e in EntriesOf(u, indexed[k], f);
        EntriesOfId(u, indexed[k], f);
        assert table[e.1] == indexed[k];
        assert Extends(u, table[e.1], f, prefix);
      }
      if exists id :: id in table && Extends(u, table[id], f, prefix) && s == DisplayTitle(table[id]) {
        var id :| id in table && Extends(u, table[id], f, prefix) && s == DisplayTitle(table[id]);
        var e :| e in EntriesOf(u, table[id], f) && p <= e.0;
        EntriesInContains(u, indexed, table[id], f);
        EntriesOfId(u, table[id], f);
        assert e in entries;
      }
    }
  }

  /** Deleting a table entry keeps the relations: the trees still hold what the indexed records added. */
  lemma IndexesRemove(u: Unicode, titles: set<(string, int)>, genres: set<(string, int)>, studios: set<(string, int)>,
                      table: map<int, Anime>, indexed: seq<Anime>, id: int)
    requires Indexes(u, titles, genres, studios, table, indexed)
    ensures Indexes(u, titles, genres, studios, table - {id}, indexed)
  {
  }

  class AnimeTrie {
    const u: Unicode
    var root: Trie
    var genreTrie: Trie
    var studioTrie: Trie
    var animeById: map<int, Anime>
    /** Every record whose texts went into the trees since the last `clear`, in the order added. */
    ghost var indexed: seq<Anime>

    /** The three trees are distinct and each is well formed. */
    ghost predicate TreesValid()
      reads this, root, genreTrie, studioTrie
    {
      && root != genreTrie && root != studioTrie && genreTrie != studioTrie
      && root.Valid() && genreTrie.Valid() && studioTrie.Valid()
    }

    ghost predicate Valid()
      reads this, root, genreTrie, studioTrie
    {
      TreesValid() && Indexes(u, root.entries, genreTrie.entries, studioTrie.entries, animeById, indexed)
    }

    /** Every id held by a node of any of the three trees is a table key. */
    ghost predicate NoStaleIds()
      reads this, root, genreTrie, studioTrie
    {
      && (forall n :: 0 <= n < |root.nodes| ==> root.nodes[n].animeIds <= animeById.Keys)
      && (forall n :: 0 <= n < |genreTrie.nodes| ==> genreTrie.nodes[n].animeIds <= animeById.Keys)
      && (forall n :: 0 <= n < |studioTrie.nodes| ==> studioTrie.nodes[n].animeIds <= animeById.Keys)
    }

    /** Every indexed record is still the table's record for its id: nothing was removed since the last clear. */
    ghost predicate Synced()
      reads this
    {
      SyncedWith(animeById, indexed)
    }

    /** No stale ids in the nodes exactly when every inserted id is a table key. */
    lemma NoStaleIdsIffEntries()
      requires TreesValid()
      ensures NoStaleIds() <==>
        Known(root.entries, animeById) && Known(genreTrie.entries, animeById) && Known(studioTrie.entries, animeById)
    {
      root.NodesWithin(animeById.Keys);
      genreTrie.NodesWithin(animeById.Keys);
      studioTrie.NodesWithin(animeById.Keys);
    }

    /** Every id a tree holds for its field is the id of an indexed record. */
    lemma EntryIds(f: Field, entries: set<(string, int)>)
      requires entries == EntriesIn(u, indexed, f)
      ensures forall e :: e in entries ==> exists k :: 0 <= k < |indexed| && e.1 == indexed[k].id
    {
      EntriesInMembers(u, indexed, f);
      forall e | e in entries ensures exists k :: 0 <= k < |indexed| && e.1 == indexed[k].id {
        var k :| 0 <= k < |indexed| && e in EntriesOf(u, indexed[k], f);
        EntriesOfId(u, indexed[k], f);
      }
    }

    /** With nothing removed since the last clear, no node holds a stale id. */
    lemma SyncedNoStaleIds()
      requires Valid() && Synced()
      ensures NoStaleIds()
    {
      EntryIds(Titles, root.entries);
      EntryIds(Genres, genreTrie.entries);
      EntryIds(Studios, studioTrie.entries);
      NoStaleIdsIffEntries();
    }

    /** `AnimeTrie()`: an empty table and three empty trees. */
    constructor (u: Unicode)
      ensures Valid() && Synced() && NoStaleIds()
      ensures this.u == u
      ensures animeById == map[] && indexed == []
      ensures fresh(root) && fresh(genreTrie) && fresh(studioTrie)
    {
      this.u := u;
      root := new Trie();
      genreTrie := new Trie();
      studioTrie := new Trie();
      animeById := map[];
      indexed := [];
    }

    /** `total_anime`. */
    function TotalAnime(): (n: nat)
      reads this
      ensures n == 0 <==> animeById == map[]
    {
      |animeById|
    }

    /** The first loop of `add_anime`: each distinct title that is not blank, in the set's order. */
    method AddTitles(anime: Anime)
      requires root.Valid()
      modifies root
      ensures root.Valid()
      ensures root.entries == old(root.entries) + EntriesOf(u, anime, Titles)
    {
      var titles := Enumerate(TitleTexts(anime));
      InsertTexts(root, u, Titles, titles, anime.id);
      KeysOfSameTexts(u, Titles, titles, TitleList(anime), anime.id);
    }

    /** The second loop of `add_anime`: every genre name. */
    method AddGenres(anime: Anime)
      requires genreTrie.Valid()
      modifies genreTrie
      ensures genreTrie.Valid()
      ensures genreTrie.entries == old(genreTrie.entries) + EntriesOf(u, anime, Genres)
    {
      InsertTexts(genreTrie, u, Genres, GenreNames(anime.genres), anime.id);
    }

    /** The third loop of `add_anime`: every studio name. */
    method AddStudios(anime: Anime)
      requires studioTrie.Valid()
      modifies studioTrie
      ensures studioTrie.Valid()
      ensures studioTrie.entries == old(studioTrie.entries) + EntriesOf(u, anime, Studios)
    {
      InsertTexts(studioTrie, u, Studios, StudioNames(anime.studios), anime.id);
    }

    /** The three loops of `add_anime`. */
    method AddTexts(anime: Anime)
      requires TreesValid()
      modifies root, genreTrie, studioTrie
      ensures TreesValid()
      ensures root.entries == old(root.entries) + EntriesOf(u, anime, Titles)
      ensures genreTrie.entries == old(genreTrie.entries) + EntriesOf(u, anime, Genres)
      ensures studioTrie.entries == old(studioTrie.entries) + EntriesOf(u, anime, Studios)
    {
      AddTitles(anime);
      AddGenres(anime);
      AddStudios(anime);
    }

    /** Records a new record in the table and the ghost log once its texts are in the trees. */
    method Register(anime: Anime, ghost titles: set<(string, int)>, ghost genres: set<(string, int)>, ghost studios: set<(string, int)>)
      requires TreesValid() && anime.id !in animeById
      requires Indexes(u, titles, genres, studios, animeById, indexed)
      requires root.entries == titles + EntriesOf(u, anime, Titles)
      requires genreTrie.entries == genres + EntriesOf(u, anime, Genres)
      requires studioTrie.entries == studios + EntriesOf(u, anime, Studios)
      modifies this
      ensures Valid()
      ensures root == old(root) && genreTrie == old(genreTrie) && studioTrie == old(studioTrie)
      ensures animeById == old(animeById)[anime.id := anime] && indexed == old(indexed) + [anime]
      ensures old(Synced()) ==> Synced()
      ensures old(Known(titles, animeById) && Known(genres, animeById) && Known(studios, animeById)) ==>
        Known(root.entries, animeById) && Known(genreTrie.entries, animeById) && Known(studioTrie.entries, animeById)
    {
      IndexesAdd(u, titles, genres, studios, animeById, indexed, anime);
      animeById, indexed := animeById[anime.id := anime], indexed + [anime];
    }

    /** `add_anime`: a known id is ignored; a new record goes into the table and its texts into the trees. */
    method AddAnime(anime: Anime)
      requires Valid()
      modifies this, root, genreTrie, studioTrie
      ensures Valid()
      ensures root == old(root) && genreTrie == old(genreTrie) && studioTrie == old(studioTrie)
      ensures anime.id in old(animeById) ==> unchanged(this, root, genreTrie, studioTrie)
      ensures anime.id !in old(animeById) ==>
        animeById == old(animeById)[anime.id := anime] && indexed == old(indexed) + [anime]
      ensures anime.id !in old(animeById) ==> TotalAnime() == old(TotalAnime()) + 1
      ensures old(Synced()) ==> Synced()
      ensures old(NoStaleIds()) ==> NoStaleIds()
    {
      if anime.id in animeById {
        return;
      }
      NoStaleIdsIffEntries();
      ghost var titles, genres, studios := root.entries, genreTrie.entries, studioTrie.entries;
      AddTexts(anime);
      Register(anime, titles, genres, studios);
      NoStaleIdsIffEntries();
    }

    /** `remove_anime`: deletes the table entry only; the trees keep the record's ids. */
    method RemoveAnime(id: int) returns (removed: bool)
      requires Valid()
      modifies this
      ensures Valid()
      ensures removed <==> id in old(animeById)
      ensures !removed ==> unchanged(this)
      ensures removed ==> animeById == old(animeById) - {id}
      ensures root == old(root) && genreTrie == old(genreTrie) && studioTrie == old(studioTrie)
      ensures indexed == old(indexed)
      ensures removed && HasText(u, old(animeById)[id]) ==> !NoStaleIds()
    {
      if id !in animeById {
        return false;
      }
      ghost var a := animeById[id];
      IndexesRemove(u, root.entries, genreTrie.entries, studioTrie.entries, animeById, indexed, id);
      animeById := animeById - {id};
      removed := true;
      if HasText(u, a) {
        StaleAfterRemove(a);
      }
    }

    /** An indexed record with text whose id is no longer a table key leaves a stale id in some tree. */
    lemma StaleAfterRemove(a: Anime)
      requires Valid() && a in indexed && a.id !in animeById && HasText(u, a)
      ensures !NoStaleIds()
    {
      NoStaleIdsIffEntries();
      EntriesInContains(u, indexed, a, Titles);
      EntriesInContains(u, indexed, a, Genres);
      EntriesInContains(u, indexed, a, Studios);
      EntriesOfId(u, a, Titles);
      EntriesOfId(u, a, Genres);
      EntriesOfId(u, a, Studios);
      if EntriesOf(u, a, Titles) != {} {
        var e :| e in EntriesOf(u, a, Titles);
        assert e in root.entries;
      } else if EntriesOf(u, a, Genres) != {} {
        var e :| e in EntriesOf(u, a, Genres);
        assert e in genreTrie.entries;
      } else {
        var e :| e in EntriesOf(u, a, Studios);
        assert e in studioTrie.entries;
      }
    }

    /** `clear`: three fresh trees and an empty table. */
    method Clear()
      modifies this
      ensures Valid() && Synced() && NoStaleIds()
      ensures animeById == map[] && indexed == []
      ensures fresh(root) && fresh(genreTrie) && fresh(studioTrie)
      ensures root.entries == {} && genreTrie.entries == {} && studioTrie.entries == {}
      ensures TotalAnime() == 0
    {
      root := new Trie();
      genreTrie := new Trie();
      studioTrie := new Trie();
      animeById := map[];
      indexed := [];
    }

    /** `[self._anime_by_id[i] for i in sorted(self._search_in_trie(trie, prefix))]`. */
    method Lookup(trie: Trie, prefix: string) returns (r: Result<seq<Anime>, Exception>)
      requires trie.Valid()
      ensures r == Listing(animeById, Ascending(Ids(trie.entries, Normalize(u, prefix))))
    {
      var ids := trie.Search(u, prefix);
      var sorted := SortedIds(ids);
      r := ListIds(animeById, sorted);
    }

    /** `search_by_title`: the title hits in id order, cut to `limit` when it is truthy. */
    method SearchByTitle(prefix: string, limit: Option<int> := None) returns (r: Result<seq<Anime>, Exception>)
      requires Valid()
      ensures r == Limit(Listing(animeById, Ascending(Ids(root.entries, Normalize(u, prefix)))), limit)
    {
      var results := Lookup(root, prefix);
      r := Limit(results, limit);
    }

    /** `search_by_genre`: the genre hits in id order. */
    method SearchByGenre(prefix: string) returns (r: Result<seq<Anime>, Exception>)
      requires Valid()
      ensures r == Listing(animeById, Ascending(Ids(genreTrie.entries, Normalize(u, prefix))))
    {
      r := Lookup(genreTrie, prefix);
    }

    /** `search_by_studio`: the studio hits in id order. */
    method SearchByStudio(prefix: string) returns (r: Result<seq<Anime>, Exception>)
      requires Valid()
      ensures r == Listing(animeById, Ascending(Ids(studioTrie.entries, Normalize(u, prefix))))
    {
      r := Lookup(studioTrie, prefix);
    }

    /** The tree of a field. */
    function Tree(f: Field): (t: Trie)
      reads this
      ensures f == Titles ==> t == root
      ensures f == Genres ==> t == genreTrie
      ensures f == Studios ==> t == studioTrie
    {
      match f
      case Titles => root
      case Genres => genreTrie
      case Studios => studioTrie
    }

    /**
     * What a search finds: with no stale id it succeeds, in strictly ascending id order;
     * with nothing removed since the last clear, a table record is listed exactly when it
     * matches the prefix for the field.
     */
    lemma SearchMeaning(f: Field, prefix: string)
      requires Valid()
      ensures var r := Listing(animeById, Ascending(Ids(Tree(f).entries, Normalize(u, prefix))));
        && (NoStaleIds() ==> r.Success?)
        && (r.Success? ==> forall i, j :: 0 <= i < j < |r.value| ==> r.value[i].id < r.value[j].id)
        && (r.Success? ==> forall a :: a in r.value ==> a.id in animeById && animeById[a.id] == a)
        && (Synced() ==> r.Success? && forall id :: id in animeById ==> (animeById[id] in r.value <==> Matches(u, animeById[id], f, prefix)))
    {
      var entries := Tree(f).entries;
      var ids := Ids(entries, Normalize(u, prefix));
      ListingSorted(animeById, ids);
      NoStaleIdsIffEntries();
      if Synced() {
        SyncedNoStaleIds();
      }
      if NoStaleIds() {
        assert ids <= animeById.Keys by {
          forall id | id in ids ensures id in animeById {
            var e :| e in entries && Reaches(Normalize(u, prefix), e.0) && e.1 == id;
          }
        }
      }
      if Synced() {
        IdsMatch(u, animeById, indexed, f, prefix);
      }
    }

    /** The title search of a table that holds only a, under its own non-blank title, lists exactly a. */
    lemma OnlyRecordListed(a: Anime)
      requires Valid() && Synced() && animeById == map[a.id := a] && Strip(u, a.title) != []
      ensures var l := Listing(animeById, Ascending(Ids(root.entries, Normalize(u, a.title))));
        l.Success? && a in l.value && forall b :: b in l.value ==> b == a
    {
      SearchMeaning(Titles, a.title);
      OwnTitleMatches(u, a);
      assert Tree(Titles) == root;
      assert a.id in animeById && animeById[a.id] == a;
    }

    /**
     * After an indexed record with a non-blank title is removed, searching for that title
     * raises `KeyError`: the title tree still holds its id.
     */
    lemma RemovedTitleRaises(a: Anime)
      requires Valid() && a in indexed && a.id !in animeById && Strip(u, a.title) != []
      ensures Listing(animeById, Ascending(Ids(root.entries, Normalize(u, a.title)))).Failure?
    {
      var key := Normalize(u, a.title);
      KeysOfMembers(u, Titles, TitleList(a), a.id);
      assert (key, a.id) in EntriesOf(u, a, Titles) by {
        assert TitleList(a)[0] == a.title;
      }
      EntriesInContains(u, indexed, a, Titles);
      assert key[..|key|] == key;
      assert a.id in Ids(root.entries, key);
      ListingSorted(animeById, Ids(root.entries, key));
    }

    /**
     * The id filtering of `advanced_search`: each truthy prefix is searched in its own tree
     * and intersected with what the earlier ones found; with none truthy, every table key.
     */
    method AdvancedResultIds(title: Option<string>, genre: Option<string>, studio: Option<string>)
      returns (ids: set<int>)
      requires Valid()
      ensures ids == AdvancedIds(
        Ids(root.entries, Normalize(u, OrEmpty(title))),
        Ids(genreTrie.entries, Normalize(u, OrEmpty(genre))),
        Ids(studioTrie.entries, Normalize(u, OrEmpty(studio))),
        animeById.Keys, title, genre, studio)
    {
      ghost var titleHits := Ids(root.entries, Normalize(u, OrEmpty(title)));
      ghost var genreHits := Ids(genreTrie.entries, Normalize(u, OrEmpty(genre)));
      ghost var studioHits := Ids(studioTrie.entries, Normalize(u, OrEmpty(studio)));
      var resultIds: Option<set<int>> := None;
      if TruthyString(title) {
        var titleIds := root.Search(u, title.value);
        resultIds := Some(titleIds);
      }
      if TruthyString(genre) {
        var genreIds := genreTrie.Search(u, genre.value);
        resultIds := if resultIds.None? then Some(genreIds) else Some(resultIds.value * genreIds);
      }
      if TruthyString(studio) {
        var studioIds := studioTrie.Search(u, studio.value);
        resultIds := if resultIds.None? then Some(studioIds) else Some(resultIds.value * studioIds);
      }
      if resultIds.None? {
        ids := animeById.Keys;
      } else {
        ids := resultIds.value;
        AdvancedIdsMembers(titleHits, genreHits, studioHits, animeById.Keys, title, genre, studio);
      }
    }

    /** `advanced_search`: the filtered ids, listed in id order and cut to `limit` when it is truthy. */
    method AdvancedSearch(title: Option<string> := None, genre: Option<string> := None, studio: Option<string> := None,
                          limit: Option<int> := None)
      returns (r: Result<seq<Anime>, Exception>)
      requires Valid()
      ensures r == Limit(Listing(animeById, Ascending(AdvancedIds(
        Ids(root.entries, Normalize(u, OrEmpty(title))),
        Ids(genreTrie.entries, Normalize(u, OrEmpty(genre))),
        Ids(studioTrie.entries, Normalize(u, OrEmpty(studio))),
        animeById.Keys, title, genre, studio))), limit)
    {
      var resultIds := AdvancedResultIds(title, genre, studio);
      var sorted := SortedIds(resultIds);
      var results := ListIds(animeById, sorted);
      r := Limit(results, limit);
    }

    /**
     * With nothing removed since the last clear, `advanced_search` succeeds and lists a
     * table record exactly when it matches every truthy prefix in that prefix's field.
     */
    lemma AdvancedSearchMeaning(title: Option<string>, genre: Option<string>, studio: Option<string>)
      requires Valid() && Synced()
      requires TruthyString(title) || TruthyString(genre) || TruthyString(studio)
      ensures var r := Listing(animeById, Ascending(AdvancedIds(
        Ids(root.entries, Normalize(u, OrEmpty(title))),
        Ids(genreTrie.entries, Normalize(u, OrEmpty(genre))),
        Ids(studioTrie.entries, Normalize(u, OrEmpty(studio))),
        animeById.Keys, title, genre, studio)));
        && r.Success?
        && (forall i, j :: 0 <= i < j < |r.value| ==> r.value[i].id < r.value[j].id)
        && forall id :: id in animeById ==> (animeById[id] in r.value <==>
          && (TruthyString(title) ==> Matches(u, animeById[id], Titles, OrEmpty(title)))
          && (TruthyString(genre) ==> Matches(u, animeById[id], Genres, OrEmpty(genre)))
          && (TruthyString(studio) ==> Matches(u, animeById[id], Studios, OrEmpty(studio))))
    {
      var titleHits := Ids(root.entries, Normalize(u, OrEmpty(title)));
      var genreHits := Ids(genreTrie.entries, Normalize(u, OrEmpty(genre)));
      var studioHits := Ids(studioTrie.entries, Normalize(u, OrEmpty(studio)));
      var ids := AdvancedIds(titleHits, genreHits, studioHits, animeById.Keys, title, genre, studio);
      AdvancedIdsMembers(titleHits, genreHits, studioHits, animeById.Keys, title, genre, studio);
      IdsMatch(u, animeById, indexed, Titles, OrEmpty(title));
      IdsMatch(u, animeById, indexed, Genres, OrEmpty(genre));
      IdsMatch(u, animeById, indexed, Studios, OrEmpty(studio));
      ListingSorted(animeById, ids);
      assert ids <= animeById.Keys;
    }

    /** `get_all_anime`: every table record once, ordered by lower-cased display title. */
    method GetAllAnime() returns (r: seq<Anime>)
      requires Valid()
      ensures SortedByKey(u, r)
      ensures multiset(r) == multiset(Records(animeById))
      ensures |r| == |animeById|
    {
      r := SortByKey(u, animeById);
    }

    /**
     * `get_suggestions`: walks the normalized prefix down the title tree, collects the
     * display titles of live records below it, and returns them sorted, each once.
     */
    method GetSuggestions(prefix: string, max: int := 10) returns (r: seq<string>)
      requires Valid()
      ensures Normalize(u, prefix) !in root.index ==> r == []
      ensures StrictlyAscendingStrings(r)
      ensures |r| <= Bound(max)
      ensures forall s :: s in r ==> Suggestable(root.entries, animeById, Normalize(u, prefix), s)
      ensures |r| < Bound(max) ==> forall e :: e in root.entries && Normalize(u, prefix) <= e.0 && e.1 in animeById ==>
        DisplayTitle(animeById[e.1]) in r
    {
      var key := Normalize(u, prefix);
      var node := root.Find(key);
      if node.None? {
        assert forall e :: e in root.entries && key <= e.0 ==> e.0[..|key|] == key && e.0[..|key|] in root.index;
        return [];
      }
      assert root.paths[node.value] == key;
      var found := CollectSuggestions(root.nodes, root.index, root.paths, root.parents, root.entries,
                                      node.value, animeById, max);
      r := SortStrings(found);
    }

    /**
     * With nothing removed since the last clear, the suggestions are display titles of
     * table records with a title that extends the prefix, and all of them when fewer
     * than the limit come back.
     */
    lemma SuggestionsMeaning(prefix: string, r: seq<string>, max: int)
      requires Valid() && Synced()
      requires forall s :: s in r ==> Suggestable(root.entries, animeById, Normalize(u, prefix), s)
      requires |r| < Bound(max) ==> forall e :: e in root.entries && Normalize(u, prefix) <= e.0 && e.1 in animeById ==>
        DisplayTitle(animeById[e.1]) in r
      ensures forall s :: s in r ==> exists id :: id in animeById && Extends(u, animeById[id], Titles, prefix) && s == DisplayTitle(animeById[id])
      ensures |r| < Bound(max) ==> forall id :: id in animeById && Extends(u, animeById[id], Titles, prefix) ==> DisplayTitle(animeById[id]) in r
    {
      SuggestableMatch(u, animeById, indexed, Titles, prefix);
      if |r| < Bound(max) {
        forall id | id in animeById && Extends(u, animeById[id], Titles, prefix) ensures DisplayTitle(animeById[id]) in r {
          assert Suggestable(root.entries, animeById, Normalize(u, prefix), DisplayTitle(animeById[id]));
          var e :| e in root.entries && Normalize(u, prefix) <= e.0 && e.1 in animeById && DisplayTitle(animeById[id]) == DisplayTitle(animeById[e.1]);
        }
      }
    }
  }

  /**
   * A caller's view of `AnimeTrie()`, `add_anime` and `search_by_title` with the default
   * limit: a new index holding one record finds that record under its own non-blank title,
   * and nothing else.
   */
  method FindOwnTitle(u: Unicode, a: Anime) returns (r: Result<seq<Anime>, Exception>)
    requires Strip(u, a.title) != []
    ensures r.Success? && a in r.value
    ensures forall b :: b in r.value ==> b == a
  {
    var t := new AnimeTrie(u);
    t.AddAnime(a);
    t.OnlyRecordListed(a);
    r := t.SearchByTitle(a.title);
  }

  /** A record with a non-blank title matches the search for that title. */
  lemma OwnTitleMatches(u: Unicode, a: Anime)
    requires Strip(u, a.title) != []
    ensures Matches(u, a, Titles, a.title)
  {
    KeysOfMembers(u, Titles, TitleList(a), a.id);
    assert TitleList(a)[0] == a.title;
    assert (Normalize(u, a.title), a.id) in EntriesOf(u, a, Titles);
  }
}
