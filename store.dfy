/**
 * The keyword store of dao/topic.go and dao/theme.go: one implementation
 * for both kinds. Rows live in a store (a sequence, so keyword lists keep
 * store order); reads go through the shared cache; every mutation writes the
 * store first and only then deletes cache keys.
 */
module KeywordStore {
  import opened Wrappers
  import opened Records
  import opened CacheAside
  import Pattern

  /** Errors the data-access operations return. */
  datatype Error =
    | Invalid        // keyword or value left empty
    | Exists         // create of a keyword already listed
    | NotFound       // update or delete of a keyword not listed
    | NoneAffected   // the store write matched no row
    | SystemError    // the store write failed
    | ReadFailed     // a store read (keyword list or row) failed
    | BadPattern     // the search pattern does not compile

  datatype Result<T> = Ok(value: T) | Err(error: Error)

  /** The `error` result of a mutation. */
  datatype Outcome = Done | Failed(error: Error)

  // ---------------------------------------------------------------------
  // The store as a value

  /** The keyword column, in store order. */
  function Keywords(rows: seq<Row>): (ks: seq<string>)
    ensures |ks| == |rows|
    ensures forall i :: 0 <= i < |rows| ==> ks[i] == rows[i].keyword
  {
    if rows == [] then [] else [rows[0].keyword] + Keywords(rows[1..])
  }

  /** What a read by keyword fills in: the first row with that keyword, or
      the zero row when there is none (the "found" flag is ignored). */
  function EntryFor(rows: seq<Row>, k: string): (r: Row)
    ensures k in Keywords(rows) ==> r.keyword == k && r in rows
    ensures k !in Keywords(rows) ==> r == ZeroRow
  {
    if rows == [] then ZeroRow
    else if rows[0].keyword == k then rows[0]
    else EntryFor(rows[1..], k)
  }

  /** The row a kind stores: themes have no image column. */
  function RowOf(kind: Kind, k: string, v: string, image: string): Row {
    Row(k, v, if kind.HasImage() then image else "")
  }

  /** One row after a struct update with value `v` and image `image`: a
      struct update writes only the non-empty fields, so an empty `image`
      keeps the old column. */
  function UpdatedRow(row: Row, v: string, image: string): Row {
    Row(row.keyword, v, if image == "" then row.image else image)
  }

  /** The update by keyword: every row with keyword `k` is updated, the
      others are kept, in place. */
  function Updated(rows: seq<Row>, k: string, v: string, image: string): (r: seq<Row>)
    ensures |r| == |rows|
    ensures forall i :: 0 <= i < |rows| ==>
      r[i] == if rows[i].keyword == k then UpdatedRow(rows[i], v, image) else rows[i]
  {
    if rows == [] then []
    else
      var row := if rows[0].keyword == k then UpdatedRow(rows[0], v, image) else rows[0];
      [row] + Updated(rows[1..], k, v, image)
  }

  /** The delete by keyword: the rows with another keyword, in order. */
  function Without(rows: seq<Row>, k: string): (r: seq<Row>)
    ensures forall row <- r :: row.keyword != k && row in rows
    ensures forall row <- rows :: row.keyword != k ==> row in r
  {
    if rows == [] then []
    else (if rows[0].keyword == k then [] else [rows[0]]) + Without(rows[1..], k)
  }

  /** The number of rows a write by keyword affects. */
  function Matching(rows: seq<Row>, k: string): (n: nat)
    ensures n == 0 <==> k !in Keywords(rows)
    ensures n <= |rows|
  {
    if rows == [] then 0
    else (if rows[0].keyword == k then 1 else 0) + Matching(rows[1..], k)
  }

  lemma {:induction false} KeywordsAppend(rows: seq<Row>, row: Row)
    ensures Keywords(rows + [row]) == Keywords(rows) + [row.keyword]
  {
  }

  /** Appending a row leaves every read unchanged except that of a keyword
      the store did not have, which now finds the new row. */
  lemma {:induction false} EntryForAppend(rows: seq<Row>, row: Row, k: string)
    ensures EntryFor(rows + [row], k) ==
      if k in Keywords(rows) then EntryFor(rows, k)
      else if row.keyword == k then row
      else ZeroRow
  {
    if rows != [] {
      assert (rows + [row])[1..] == rows[1..] + [row];
      EntryForAppend(rows[1..], row, k);
    } else {
      assert rows + [row] == [row];
    }
  }

  /** An update keeps the keyword column. */
  lemma {:induction false} KeywordsUpdated(rows: seq<Row>, k: string, v: string, image: string)
    ensures Keywords(Updated(rows, k, v, image)) == Keywords(rows)
  {
  }

  /** After an update, a read of the updated keyword finds the new value,
      and a read of any other keyword finds what it found before. */
  lemma {:induction false} EntryForUpdated(rows: seq<Row>, k: string, v: string, image: string, k': string)
    ensures EntryFor(Updated(rows, k, v, image), k') ==
      if k' == k && k in Keywords(rows) then UpdatedRow(EntryFor(rows, k), v, image)
      else EntryFor(rows, k')
  {
    if rows != [] {
      EntryForUpdated(rows[1..], k, v, image, k');
      assert Updated(rows, k, v, image)[1..] == Updated(rows[1..], k, v, image);
    }
  }

  /** After a delete the keyword is gone from the column and reads as the
      zero row; every other read is unchanged. */
  lemma {:induction false} EntryForWithout(rows: seq<Row>, k: string, k': string)
    ensures k !in Keywords(Without(rows, k))
    ensures forall x :: x in Keywords(Without(rows, k)) <==> x in Keywords(rows) && x != k
    ensures EntryFor(Without(rows, k), k') == if k' == k then ZeroRow else EntryFor(rows, k')
  {
    if rows != [] {
      EntryForWithout(rows[1..], k, k');
      if rows[0].keyword == k {
        assert Without(rows, k) == Without(rows[1..], k);
      } else {
        assert Without(rows, k) == [rows[0]] + Without(rows[1..], k);
        assert Without(rows, k)[1..] == Without(rows[1..], k);
      }
    }
  }

  // ---------------------------------------------------------------------
  // The cache, as seen by one kind

  /** No cached value of the kind is stale: a cached list is the store's
      keyword column and a cached entry is what a read would find now. */
  ghost predicate CoherentIn(kind: Kind, rows: seq<Row>, e: map<string, CacheVal>) {
    && (KeywordsKey(kind) in e ==> e[KeywordsKey(kind)] == KeywordList(Keywords(rows)))
    && (forall k :: DataKey(kind, k) in e ==> e[DataKey(kind, k)] == Entry(EntryFor(rows, k)))
  }

  /** Every cached entry of the kind is for a keyword the store holds. */
  ghost predicate BackedIn(kind: Kind, rows: seq<Row>, e: map<string, CacheVal>) {
    forall k :: DataKey(kind, k) in e ==> k in Keywords(rows)
  }

  /** `e'` agrees with `e` on every key the kind does not own. */
  ghost predicate Untouched(kind: Kind, e: map<string, CacheVal>, e': map<string, CacheVal>) {
    forall key :: !OwnedBy(kind, key) ==>
      (key in e <==> key in e') && (key in e ==> e[key] == e'[key])
  }

  /** A read by keyword through cache `e`: the cached row on a hit; on a
      miss the store's answer, or nothing when the store read fails. */
  function LookupIn(e: map<string, CacheVal>, kind: Kind, rows: seq<Row>, k: string, readOk: bool): Option<Row> {
    var key := DataKey(kind, k);
    if key in e then (if e[key].Entry? then Some(e[key].row) else None)
    else if readOk then Some(EntryFor(rows, k))
    else None
  }

  /** The cache after that read: a miss that succeeded keeps its row. */
  function AfterLookup(e: map<string, CacheVal>, kind: Kind, rows: seq<Row>, k: string, readOk: bool): map<string, CacheVal> {
    var key := DataKey(kind, k);
    if key !in e && readOk then e[key := Entry(EntryFor(rows, k))] else e
  }

  /** The read of `k` in a search, where the keywords of `failing` cannot be read from the store. */
  function ReadFor(e: map<string, CacheVal>, kind: Kind, rows: seq<Row>, failing: set<string>, k: string): Option<Row> {
    LookupIn(e, kind, rows, k, k !in failing)
  }

  /** The cache after the read of `k` in a search. */
  function CacheAfterRead(e: map<string, CacheVal>, kind: Kind, rows: seq<Row>, failing: set<string>, k: string): map<string, CacheVal> {
    AfterLookup(e, kind, rows, k, k !in failing)
  }

  /** What a pattern search yields over `keys`: for each keyword that
      matches, in order, its row, unless reading it fails. */
  function Found(e: map<string, CacheVal>, kind: Kind, rows: seq<Row>, keys: seq<string>,
                 query: string, failing: set<string>): seq<Row>
  {
    if keys == [] then []
    else
      var hit := if Pattern.Matches(query, keys[0]) then ReadFor(e, kind, rows, failing, keys[0]) else None;
      (if hit.Some? then [hit.value] else []) + Found(e, kind, rows, keys[1..], query, failing)
  }

  /** The search over the store alone: the rows of the matching keywords,
      in order, except those of `unreadable`. */
  function FoundInStore(rows: seq<Row>, keys: seq<string>, query: string, unreadable: set<string>): seq<Row> {
    if keys == [] then []
    else
      (if Pattern.Matches(query, keys[0]) && keys[0] !in unreadable then [EntryFor(rows, keys[0])] else [])
      + FoundInStore(rows, keys[1..], query, unreadable)
  }

  /** The keywords of `failing` whose rows are not cached either. */
  function Unreadable(e: map<string, CacheVal>, kind: Kind, failing: set<string>): set<string> {
    set k | k in failing && !Cached(e, kind, k)
  }

  predicate Cached(e: map<string, CacheVal>, kind: Kind, k: string) {
    DataKey(kind, k) in e
  }

  /** With a coherent cache, a search returns exactly the store's rows of the
      matching keywords, skipping those that are neither cached nor readable. */
  lemma {:induction false} FoundCoherent(e: map<string, CacheVal>, kind: Kind, rows: seq<Row>,
                                        keys: seq<string>, query: string, failing: set<string>)
    requires CoherentIn(kind, rows, e)
    ensures Found(e, kind, rows, keys, query, failing)
         == FoundInStore(rows, keys, query, Unreadable(e, kind, failing))
  {
    if keys != [] {
      FoundCoherent(e, kind, rows, keys[1..], query, failing);
    }
  }

  /** Each row a store search returns is the row of a listed keyword that
      matches the query, and each readable listed match is returned. */
  lemma {:induction false} FoundInStoreMembers(rows: seq<Row>, keys: seq<string>, query: string,
                                              unreadable: set<string>, row: Row)
    requires forall k <- keys :: k in Keywords(rows)
    ensures row in FoundInStore(rows, keys, query, unreadable) <==>
      exists k :: k in keys && Pattern.Matches(query, k) && k !in unreadable && row == EntryFor(rows, k)
    ensures row in FoundInStore(rows, keys, query, unreadable) ==>
      row.keyword in keys && Pattern.Matches(query, row.keyword)
  {
    if keys != [] {
      FoundInStoreMembers(rows, keys[1..], query, unreadable, row);
    }
  }

  /** A read through the cache changes no read of any keyword. */
  lemma AfterLookupKeepsReads(e: map<string, CacheVal>, kind: Kind, rows: seq<Row>, failing: set<string>, k: string)
    ensures forall k' :: ReadFor(CacheAfterRead(e, kind, rows, failing, k), kind, rows, failing, k')
                      == ReadFor(e, kind, rows, failing, k')
  {
    forall k' {
      DataKeyInjective(kind, kind, k, k');
    }
  }

  /** Coherence of a kind depends only on the keys it owns, so what another
      kind's operations do to the cache cannot make it stale. */
  lemma CoherenceIsLocal(kind: Kind, other: Kind, rows: seq<Row>, e: map<string, CacheVal>, e': map<string, CacheVal>)
    requires kind != other
    requires Untouched(other, e, e')
    ensures CoherentIn(kind, rows, e) <==> CoherentIn(kind, rows, e')
    ensures BackedIn(kind, rows, e) <==> BackedIn(kind, rows, e')
  {
    KeysOwned(kind, "");
    OwnersDisjoint(KeywordsKey(kind));
    forall k ensures DataKey(kind, k) in e <==> DataKey(kind, k) in e'
      ensures DataKey(kind, k) in e ==> e[DataKey(kind, k)] == e'[DataKey(kind, k)]
    {
      KeysOwned(kind, k);
      OwnersDisjoint(DataKey(kind, k));
    }
  }

  // ---------------------------------------------------------------------
  // Reads of the keyword list through the cache

  /** `LoadTopicKeywords` through cache `e`: the cached list on a hit; on a
      miss the store's keyword column, or nothing when the store read fails. */
  function ListIn(e: map<string, CacheVal>, kind: Kind, rows: seq<Row>, loadOk: bool): Option<seq<string>> {
    var key := KeywordsKey(kind);
    if key in e then (if e[key].KeywordList? then Some(e[key].keywords) else None)
    else if loadOk then Some(Keywords(rows))
    else None
  }

  /** The cache after that read: a miss that succeeded keeps the column. */
  function AfterList(e: map<string, CacheVal>, kind: Kind, rows: seq<Row>, loadOk: bool): map<string, CacheVal> {
    var key := KeywordsKey(kind);
    if key !in e && loadOk then e[key := KeywordList(Keywords(rows))] else e
  }

  /** `HasTopicKeyword`: the loaded list holds `k`; false when loading fails. */
  predicate ListedIn(e: map<string, CacheVal>, kind: Kind, rows: seq<Row>, loadOk: bool, k: string) {
    var ks := ListIn(e, kind, rows, loadOk);
    ks.Some? && k in ks.value
  }

  /** The image column a kind writes: themes have none. */
  function ImageOf(kind: Kind, image: string): string {
    if kind.HasImage() then image else ""
  }

  /** What a write leaves behind: its outcome, the rows and the cache entries. */
  datatype Written = Written(outcome: Outcome, rows: seq<Row>, entries: map<string, CacheVal>)

  /** `CreateTopic` on store `rows` through cache `e`: an empty keyword or
      value is refused; a keyword the loaded list holds is refused as
      existing; a failed insert is a system error; otherwise the row is
      appended and the cached list dropped. A list that cannot be loaded
      holds nothing, so the create goes ahead (`CreateUnlistedOnFailedLoad`).
      The list read's own cache fill stays in every case past validation. */
  function CreateEffect(e: map<string, CacheVal>, kind: Kind, rows: seq<Row>, keyword: string, value: string,
                        image: string, loadOk: bool, insertOk: bool): Written
  {
    if keyword == "" || value == "" then Written(Failed(Invalid), rows, e)
    else
      var e1 := AfterList(e, kind, rows, loadOk);
      if ListedIn(e, kind, rows, loadOk, keyword) then Written(Failed(Exists), rows, e1)
      else if !insertOk then Written(Failed(SystemError), rows, e1)
      else Written(Done, rows + [RowOf(kind, keyword, value, image)], e1 - {KeywordsKey(kind)})
  }

  /** Once a create is done, creating the same keyword again with a list
      that loads is refused as existing (or as invalid with an empty value),
      and nothing is inserted. */
  lemma CreateThenExists(e: map<string, CacheVal>, kind: Kind, rows: seq<Row>, keyword: string,
                         value: string, image: string, loadOk: bool, insertOk: bool,
                         value2: string, image2: string, insertOk2: bool)
    ensures var w := CreateEffect(e, kind, rows, keyword, value, image, loadOk, insertOk);
      var w2 := CreateEffect(w.entries, kind, w.rows, keyword, value2, image2, true, insertOk2);
      w.outcome == Done ==>
        && w2.outcome == (if value2 == "" then Failed(Invalid) else Failed(Exists))
        && w2.rows == w.rows
  {
    var w := CreateEffect(e, kind, rows, keyword, value, image, loadOk, insertOk);
    if w.outcome == Done {
      KeywordsAppend(rows, RowOf(kind, keyword, value, image));
      assert KeywordsKey(kind) !in w.entries;
      assert keyword in Keywords(w.rows);
    }
  }

  /** A keyword the store already holds is inserted a second time when the
      keyword list is not cached and cannot be loaded: the create is done and
      the store then holds one more row with that keyword. */
  lemma CreateUnlistedOnFailedLoad(e: map<string, CacheVal>, kind: Kind, rows: seq<Row>, keyword: string,
                                   value: string, image: string)
    requires keyword != "" && value != ""
    requires keyword in Keywords(rows) && KeywordsKey(kind) !in e
    ensures var w := CreateEffect(e, kind, rows, keyword, value, image, false, true);
      && w.outcome == Done
      && Matching(w.rows, keyword) == Matching(rows, keyword) + 1 >= 2
  {
    MatchingAppend(rows, RowOf(kind, keyword, value, image), keyword);
  }

  /** Appending a row adds one match for its own keyword. */
  lemma {:induction false} MatchingAppend(rows: seq<Row>, row: Row, k: string)
    ensures Matching(rows + [row], k) == Matching(rows, k) + (if row.keyword == k then 1 else 0)
  {
    if rows == [] {
      assert rows + [row] == [row];
    } else {
      assert (rows + [row])[1..] == rows[1..] + [row];
      MatchingAppend(rows[1..], row, k);
    }
  }

  /** `UpdateTopic` on store `rows` through cache `e`: an empty keyword or
      value is refused; an unlisted keyword is not found; a failed write is
      a system error; a write that affects no row is reported; otherwise
      the keyword's rows are updated and the list and data keys dropped. */
  function UpdateEffect(e: map<string, CacheVal>, kind: Kind, rows: seq<Row>, keyword: string, value: string,
                        image: string, loadOk: bool, writeOk: bool): Written
  {
    if keyword == "" || value == "" then Written(Failed(Invalid), rows, e)
    else
      var e1 := AfterList(e, kind, rows, loadOk);
      if !ListedIn(e, kind, rows, loadOk, keyword) then Written(Failed(NotFound), rows, e1)
      else if !writeOk then Written(Failed(SystemError), rows, e1)
      else if keyword !in Keywords(rows) then Written(Failed(NoneAffected), rows, e1)
      else Written(Done, Updated(rows, keyword, value, ImageOf(kind, image)),
                   e1 - {KeywordsKey(kind), DataKey(kind, keyword)})
  }

  /** `DeleteTopicByKeyword` on store `rows` through cache `e`: as the
      update, with the keyword's rows removed on success. */
  function DeleteEffect(e: map<string, CacheVal>, kind: Kind, rows: seq<Row>, keyword: string,
                        loadOk: bool, writeOk: bool): Written
  {
    if keyword == "" then Written(Failed(Invalid), rows, e)
    else
      var e1 := AfterList(e, kind, rows, loadOk);
      if !ListedIn(e, kind, rows, loadOk, keyword) then Written(Failed(NotFound), rows, e1)
      else if !writeOk then Written(Failed(SystemError), rows, e1)
      else if keyword !in Keywords(rows) then Written(Failed(NoneAffected), rows, e1)
      else Written(Done, Without(rows, keyword), e1 - {KeywordsKey(kind), DataKey(kind, keyword)})
  }

  /** The cache after a pattern search over `keys` has read every matching keyword in turn. */
  function SearchCache(e: map<string, CacheVal>, kind: Kind, rows: seq<Row>, keys: seq<string>,
                       query: string, failing: set<string>): map<string, CacheVal>
    decreases |keys|
  {
    if keys == [] then e
    else
      var e' := if Pattern.Matches(query, keys[0]) then CacheAfterRead(e, kind, rows, failing, keys[0]) else e;
      SearchCache(e', kind, rows, keys[1..], query, failing)
  }

  lemma UntouchedTrans(kind: Kind, e: map<string, CacheVal>, e': map<string, CacheVal>, e'': map<string, CacheVal>)
    requires Untouched(kind, e, e') && Untouched(kind, e', e'')
    ensures Untouched(kind, e, e'')
  {
  }

  /** Reading the list keeps the kind's cache coherent and backed, touches
      only the list key, and under coherence yields the store's column. */
  lemma ListReadKeeps(e: map<string, CacheVal>, kind: Kind, rows: seq<Row>, loadOk: bool)
    ensures CoherentIn(kind, rows, e) ==>
      CoherentIn(kind, rows, AfterList(e, kind, rows, loadOk))
      && (ListIn(e, kind, rows, loadOk).Some? ==> ListIn(e, kind, rows, loadOk).value == Keywords(rows))
    ensures BackedIn(kind, rows, e) ==> BackedIn(kind, rows, AfterList(e, kind, rows, loadOk))
    ensures Untouched(kind, e, AfterList(e, kind, rows, loadOk))
    ensures forall k :: Cached(AfterList(e, kind, rows, loadOk), kind, k) == Cached(e, kind, k)
  {
    var key := KeywordsKey(kind);
    if key !in e && loadOk {
      var e' := e[key := KeywordList(Keywords(rows))];
      KeysOwned(kind, "");
      forall k ensures DataKey(kind, k) != key {
        ListKeyIsNoDataKey(kind, kind, k);
      }
      assert forall x :: x != key ==> (x in e' <==> x in e) && (x in e ==> e'[x] == e[x]);
    }
  }

  /** Reading a row keeps the kind's cache coherent, keeps it backed when the
      keyword is stored, touches only that row's key, and under coherence
      yields the store's row. */
  lemma RowReadKeeps(e: map<string, CacheVal>, kind: Kind, rows: seq<Row>, k: string, readOk: bool)
    ensures CoherentIn(kind, rows, e) ==>
      CoherentIn(kind, rows, AfterLookup(e, kind, rows, k, readOk))
      && (LookupIn(e, kind, rows, k, readOk).Some? ==> LookupIn(e, kind, rows, k, readOk).value == EntryFor(rows, k))
    ensures BackedIn(kind, rows, e) && k in Keywords(rows) ==> BackedIn(kind, rows, AfterLookup(e, kind, rows, k, readOk))
    ensures Untouched(kind, e, AfterLookup(e, kind, rows, k, readOk))
  {
    var key := DataKey(kind, k);
    if key !in e && readOk {
      var e' := e[key := Entry(EntryFor(rows, k))];
      KeysOwned(kind, k);
      ListKeyIsNoDataKey(kind, kind, k);
      forall k' | k' != k ensures DataKey(kind, k') != key {
        DataKeyInjective(kind, kind, k, k');
      }
      assert forall x :: x != key ==> (x in e' <==> x in e) && (x in e ==> e'[x] == e[x]);
    }
  }

  /** A read of a keyword leaves every search result over any keywords as it was. */
  lemma {:induction false} FoundAfterRead(e: map<string, CacheVal>, kind: Kind, rows: seq<Row>, keys: seq<string>,
                                         query: string, failing: set<string>, k: string)
    ensures Found(CacheAfterRead(e, kind, rows, failing, k), kind, rows, keys, query, failing)
         == Found(e, kind, rows, keys, query, failing)
  {
    if keys != [] {
      AfterLookupKeepsReads(e, kind, rows, failing, k);
      FoundAfterRead(e, kind, rows, keys[1..], query, failing, k);
    }
  }

  /** One step of a search: the first keyword's read, then the rest of the
      search over the cache that read leaves. */
  lemma SearchStep(e: map<string, CacheVal>, kind: Kind, rows: seq<Row>, keys: seq<string>,
                   query: string, failing: set<string>)
    requires keys != []
    ensures var e' := if Pattern.Matches(query, keys[0]) then CacheAfterRead(e, kind, rows, failing, keys[0]) else e;
      var hit := if Pattern.Matches(query, keys[0]) then ReadFor(e, kind, rows, failing, keys[0]) else None;
      && Found(e, kind, rows, keys, query, failing) == (if hit.Some? then [hit.value] else []) + Found(e', kind, rows, keys[1..], query, failing)
      && SearchCache(e, kind, rows, keys, query, failing) == SearchCache(e', kind, rows, keys[1..], query, failing)
  {
    FoundAfterRead(e, kind, rows, keys[1..], query, failing, keys[0]);
  }

  /** The reads of a search keep the kind's cache coherent, keep it backed
      when every key read is stored, and touch only the kind's keys. */
  lemma {:induction false} SearchKeeps(e: map<string, CacheVal>, kind: Kind, rows: seq<Row>, keys: seq<string>,
                                      query: string, failing: set<string>)
    ensures CoherentIn(kind, rows, e) ==> CoherentIn(kind, rows, SearchCache(e, kind, rows, keys, query, failing))
    ensures BackedIn(kind, rows, e) && (forall k <- keys :: k in Keywords(rows)) ==>
      BackedIn(kind, rows, SearchCache(e, kind, rows, keys, query, failing))
    ensures Untouched(kind, e, SearchCache(e, kind, rows, keys, query, failing))
    decreases |keys|
  {
    if keys != [] {
      var e' := if Pattern.Matches(query, keys[0]) then CacheAfterRead(e, kind, rows, failing, keys[0]) else e;
      RowReadKeeps(e, kind, rows, keys[0], keys[0] !in failing);
      SearchKeeps(e', kind, rows, keys[1..], query, failing);
      UntouchedTrans(kind, e, e', SearchCache(e', kind, rows, keys[1..], query, failing));
    }
  }

  /** Dropping the list key after a create keeps a coherent, backed cache so:
      every cached row is of a stored keyword, whose read the new row does not change. */
  lemma CreateKeeps(kind: Kind, rows: seq<Row>, e: map<string, CacheVal>, row: Row)
    requires CoherentIn(kind, rows, e) && BackedIn(kind, rows, e)
    ensures CoherentIn(kind, rows + [row], e - {KeywordsKey(kind)})
    ensures BackedIn(kind, rows + [row], e - {KeywordsKey(kind)})
  {
    KeywordsAppend(rows, row);
    forall k | DataKey(kind, k) in e - {KeywordsKey(kind)}
      ensures (e - {KeywordsKey(kind)})[DataKey(kind, k)] == Entry(EntryFor(rows + [row], k))
    {
      EntryForAppend(rows, row, k);
    }
  }

  /** Dropping the list key and the keyword's key after an update keeps the
      cache coherent and backed: the column is unchanged and every other read too. */
  lemma UpdateKeeps(kind: Kind, rows: seq<Row>, e: map<string, CacheVal>, k: string, v: string, image: string)
    ensures CoherentIn(kind, rows, e) ==>
      CoherentIn(kind, Updated(rows, k, v, image), e - {KeywordsKey(kind), DataKey(kind, k)})
    ensures BackedIn(kind, rows, e) ==>
      BackedIn(kind, Updated(rows, k, v, image), e - {KeywordsKey(kind), DataKey(kind, k)})
  {
    KeywordsUpdated(rows, k, v, image);
    forall k' | DataKey(kind, k') in e - {KeywordsKey(kind), DataKey(kind, k)}
      ensures k' != k && EntryFor(Updated(rows, k, v, image), k') == EntryFor(rows, k')
    {
      EntryForUpdated(rows, k, v, image, k');
    }
  }

  /** The same for a delete: only the deleted keyword's read changes, and its key is gone. */
  lemma DeleteKeeps(kind: Kind, rows: seq<Row>, e: map<string, CacheVal>, k: string)
    ensures CoherentIn(kind, rows, e) ==>
      CoherentIn(kind, Without(rows, k), e - {KeywordsKey(kind), DataKey(kind, k)})
    ensures BackedIn(kind, rows, e) ==>
      BackedIn(kind, Without(rows, k), e - {KeywordsKey(kind), DataKey(kind, k)})
  {
    EntryForWithout(rows, k, k);
    forall k' | DataKey(kind, k') in e - {KeywordsKey(kind), DataKey(kind, k)}
      ensures k' != k && EntryFor(Without(rows, k), k') == EntryFor(rows, k')
      ensures k' in Keywords(rows) ==> k' in Keywords(Without(rows, k))
    {
      EntryForWithout(rows, k, k');
    }
  }

  /** Dropping the kind's own keys touches nothing of any other kind. */
  lemma DropOwnKeys(kind: Kind, e: map<string, CacheVal>, k: string)
    ensures Untouched(kind, e, e - {KeywordsKey(kind)})
    ensures Untouched(kind, e, e - {KeywordsKey(kind), DataKey(kind, k)})
  {
    KeysOwned(kind, k);
  }

  // ---------------------------------------------------------------------
  // The data-access layer of one kind

  /** The store of one kind together with the cache all kinds share. */
  class Store {
    const kind: Kind
    const cache: Cache
    var rows: seq<Row>

    constructor (kind: Kind, cache: Cache)
      ensures this.kind == kind && this.cache == cache && rows == []
    {
      this.kind := kind;
      this.cache := cache;
      rows := [];
    }

    /** No cached value of the kind is stale. */
    ghost predicate Coherent()
      reads this, cache
    {
      CoherentIn(kind, rows, cache.entries)
    }

    /** Every cached row of the kind is of a stored keyword. */
    ghost predicate Backed()
      reads this, cache
    {
      BackedIn(kind, rows, cache.entries)
    }

    /** The list loader: the keyword column, collected row by row, or
        nothing when the store read fails. */
    method KeywordColumn(loadOk: bool) returns (r: Option<seq<string>>)
      ensures r == if loadOk then Some(Keywords(rows)) else None
    {
      if !loadOk {
        return None;
      }
      var keywords: seq<string> := [];
      for i := 0 to |rows|
        invariant |keywords| == i
        invariant forall j :: 0 <= j < i ==> keywords[j] == rows[j].keyword
      {
        keywords := keywords + [rows[i].keyword];
      }
      assert keywords == Keywords(rows);
      r := Some(keywords);
    }

    /** `LoadTopicKeywords`: the keyword list through the cache. */
    method LoadKeywords(loadOk: bool) returns (r: Result<seq<string>>)
      modifies cache
      ensures r == match ListIn(old(cache.entries), kind, rows, loadOk)
                   case Some(ks) => Ok(ks)
                   case None => Err(ReadFailed)
      ensures cache.entries == AfterList(old(cache.entries), kind, rows, loadOk)
      ensures Untouched(kind, old(cache.entries), cache.entries)
      ensures old(Coherent()) ==> Coherent() && (r.Ok? ==> r.value == Keywords(rows))
      ensures old(Backed()) ==> Backed()
    {
      ListReadKeeps(cache.entries, kind, rows, loadOk);
      var column := KeywordColumn(loadOk);
      var loaded := if column.Some? then Some(KeywordList(column.value)) else None;
      var v := cache.FindWithCache(KeywordsKey(kind), loaded);
      if v.Some? && v.value.KeywordList? {
        r := Ok(v.value.keywords);
      } else {
        r := Err(ReadFailed);
      }
    }

    /** `GetTopicByKeyword`: one row through the cache. A read of an absent
        keyword succeeds with the zero row, which is then cached. */
    method GetByKeyword(keyword: string, readOk: bool) returns (r: Result<Row>)
      modifies cache
      ensures r == match LookupIn(old(cache.entries), kind, rows, keyword, readOk)
                   case Some(row) => Ok(row)
                   case None => Err(ReadFailed)
      ensures cache.entries == AfterLookup(old(cache.entries), kind, rows, keyword, readOk)
      ensures Untouched(kind, old(cache.entries), cache.entries)
      ensures old(Coherent()) ==> Coherent() && (r.Ok? ==> r.value == EntryFor(rows, keyword))
      ensures old(Backed()) && keyword in Keywords(rows) ==> Backed()
    {
      RowReadKeeps(cache.entries, kind, rows, keyword, readOk);
      var loaded := if readOk then Some(Entry(EntryFor(rows, keyword))) else None;
      var v := cache.FindWithCache(DataKey(kind, keyword), loaded);
      if v.Some? && v.value.Entry? {
        r := Ok(v.value.row);
      } else {
        r := Err(ReadFailed);
      }
    }

    /** `HasTopicKeyword`: a scan of the loaded list; false when loading fails. */
    method HasKeyword(keyword: string, loadOk: bool) returns (b: bool)
      modifies cache
      ensures b == ListedIn(old(cache.entries), kind, rows, loadOk, keyword)
      ensures cache.entries == AfterList(old(cache.entries), kind, rows, loadOk)
      ensures Untouched(kind, old(cache.entries), cache.entries)
      ensures old(Coherent()) ==> Coherent() && (b ==> keyword in Keywords(rows))
      ensures old(Coherent()) && KeywordsKey(kind) in old(cache.entries) ==> (b <==> keyword in Keywords(rows))
      ensures old(Backed()) ==> Backed()
    {
      var r := LoadKeywords(loadOk);
      if r.Err? {
        return false;
      }
      var keywords := r.value;
      var i := 0;
      while i < |keywords|
        invariant 0 <= i <= |keywords|
        invariant keyword !in keywords[..i]
      {
        if keywords[i] == keyword {
          return true;
        }
        i := i + 1;
      }
      assert keywords[..i] == keywords;
      b := false;
    }

    /** One turn of that loop: read the keyword when it matches. */
    method ReadIfMatching(k: string, query: string, failing: set<string>) returns (hit: Option<Row>)
      modifies cache
      ensures hit == if Pattern.Matches(query, k) then ReadFor(old(cache.entries), kind, rows, failing, k) else None
      ensures cache.entries == if Pattern.Matches(query, k) then CacheAfterRead(old(cache.entries), kind, rows, failing, k)
                               else old(cache.entries)
    {
      hit := None;
      if Pattern.Matches(query, k) {
        var row := GetByKeyword(k, k !in failing);
        if row.Ok? {
          hit := Some(row.value);
        }
      }
    }

    /** The loop of `SearchTopicsWithKeyword`: read each keyword that
        matches, in order, and keep the rows whose read succeeds. */
    method ReadMatching(keywords: seq<string>, query: string, failing: set<string>) returns (result: seq<Row>)
      modifies cache
      ensures result == Found(old(cache.entries), kind, rows, keywords, query, failing)
      ensures cache.entries == SearchCache(old(cache.entries), kind, rows, keywords, query, failing)
    {
      ghost var e1 := cache.entries;
      result := [];
      for i := 0 to |keywords|
        invariant SearchCache(cache.entries, kind, rows, keywords[i..], query, failing)
               == SearchCache(e1, kind, rows, keywords, query, failing)
        invariant result + Found(cache.entries, kind, rows, keywords[i..], query, failing)
               == Found(e1, kind, rows, keywords, query, failing)
      {
        SearchStep(cache.entries, kind, rows, keywords[i..], query, failing);
        assert keywords[i..][1..] == keywords[i + 1..];
        var hit := ReadIfMatching(keywords[i], query, failing);
        if hit.Some? {
          result := result + [hit.value];
        }
      }
      assert keywords[|keywords|..] == [];
    }

    /** `SearchTopicsWithKeyword`: the rows of the listed keywords that match
        the `%` pattern, in list order; a keyword whose read fails is skipped. */
    method Search(query: string, compiles: bool, loadOk: bool, failing: set<string>) returns (r: Result<seq<Row>>)
      modifies cache
      ensures !compiles ==> r == Err(BadPattern) && cache.entries == old(cache.entries)
      ensures compiles ==>
        var e1 := AfterList(old(cache.entries), kind, rows, loadOk);
        match ListIn(old(cache.entries), kind, rows, loadOk)
        case None => r == Err(ReadFailed) && cache.entries == e1
        case Some(ks) => r == Ok(Found(e1, kind, rows, ks, query, failing))
                         && cache.entries == SearchCache(e1, kind, rows, ks, query, failing)
      ensures Untouched(kind, old(cache.entries), cache.entries)
      ensures old(Coherent()) ==>
        && Coherent()
        && (r.Ok? ==> r.value == FoundInStore(rows, Keywords(rows), query, Unreadable(old(cache.entries), kind, failing)))
      ensures old(Coherent() && Backed()) ==> Backed()
    {
      if !compiles {
        return Err(BadPattern);
      }
      ghost var e0 := cache.entries;
      var listed := LoadKeywords(loadOk);
      if listed.Err? {
        return Err(ReadFailed);
      }
      var keywords := listed.value;
      ghost var e1 := cache.entries;
      var result := ReadMatching(keywords, query, failing);
      r := Ok(result);
      SearchKeeps(e1, kind, rows, keywords, query, failing);
      UntouchedTrans(kind, e0, e1, cache.entries);
      ListReadKeeps(e0, kind, rows, loadOk);
      assert Unreadable(e1, kind, failing) == Unreadable(e0, kind, failing);
      if old(Coherent()) {
        FoundCoherent(e1, kind, rows, keywords, query, failing);
      }
    }

    /** `CreateTopic`: validate, refuse a listed keyword, insert one row, then
        drop the cached list. The keyword's own cache key is left alone. */
    method Create(keyword: string, value: string, image: string, loadOk: bool, insertOk: bool) returns (o: Outcome)
      modifies this, cache
      ensures Written(o, rows, cache.entries)
        == CreateEffect(old(cache.entries), kind, old(rows), keyword, value, image, loadOk, insertOk)
      ensures Untouched(kind, old(cache.entries), cache.entries)
      ensures old(Coherent() && Backed()) ==> Coherent() && Backed()
    {
      if keyword == "" || value == "" {
        return Failed(Invalid);
      }
      ghost var e0 := cache.entries;
      var has := HasKeyword(keyword, loadOk);
      if has {
        return Failed(Exists);
      }
      if !insertOk {
        return Failed(SystemError);
      }
      ghost var e1 := cache.entries;
      ghost var rows0 := rows;
      rows := rows + [RowOf(kind, keyword, value, image)];
      cache.Delete(KeywordsKey(kind));
      o := Done;
      DropOwnKeys(kind, e1, keyword);
      UntouchedTrans(kind, e0, e1, cache.entries);
      if CoherentIn(kind, rows0, e0) && BackedIn(kind, rows0, e0) {
        CreateKeeps(kind, rows0, e1, RowOf(kind, keyword, value, image));
      }
    }

    /** `UpdateTopic`: validate, require a listed keyword, update its rows,
        then drop the cached list and the keyword's cached row. */
    method Update(keyword: string, value: string, image: string, loadOk: bool, writeOk: bool) returns (o: Outcome)
      modifies this, cache
      ensures Written(o, rows, cache.entries)
        == UpdateEffect(old(cache.entries), kind, old(rows), keyword, value, image, loadOk, writeOk)
      ensures Untouched(kind, old(cache.entries), cache.entries)
      ensures old(Coherent()) ==> Coherent() && o != Failed(NoneAffected)
      ensures old(Backed()) ==> Backed()
    {
      if keyword == "" || value == "" {
        return Failed(Invalid);
      }
      ghost var e0 := cache.entries;
      var has := HasKeyword(keyword, loadOk);
      if !has {
        return Failed(NotFound);
      }
      if !writeOk {
        return Failed(SystemError);
      }
      var affected := Matching(rows, keyword);
      if affected == 0 {
        return Failed(NoneAffected);
      }
      ghost var e1 := cache.entries;
      WriteUpdate(keyword, value, ImageOf(kind, image));
      o := Done;
      UntouchedTrans(kind, e0, e1, cache.entries);
    }

    /** The writes of a successful update: the rows, then the list key and
        the keyword's data key dropped from the cache. */
    method WriteUpdate(keyword: string, value: string, image: string)
      modifies this, cache
      ensures rows == Updated(old(rows), keyword, value, image)
      ensures cache.entries == old(cache.entries) - {KeywordsKey(kind), DataKey(kind, keyword)}
      ensures Untouched(kind, old(cache.entries), cache.entries)
      ensures old(Coherent()) ==> Coherent()
      ensures old(Backed()) ==> Backed()
    {
      ghost var e1, rows0 := cache.entries, rows;
      rows := Updated(rows, keyword, value, image);
      cache.Delete(KeywordsKey(kind));
      cache.Delete(DataKey(kind, keyword));
      DropOwnKeys(kind, e1, keyword);
      UpdateKeeps(kind, rows0, e1, keyword, value, image);
    }

    /** `DeleteTopicByKeyword`: validate, require a listed keyword, delete its
        rows, then drop the cached list and the keyword's cached row. */
    method Delete(keyword: string, loadOk: bool, writeOk: bool) returns (o: Outcome)
      modifies this, cache
      ensures Written(o, rows, cache.entries)
        == DeleteEffect(old(cache.entries), kind, old(rows), keyword, loadOk, writeOk)
      ensures Untouched(kind, old(cache.entries), cache.entries)
      ensures old(Coherent()) ==> Coherent() && o != Failed(NoneAffected)
      ensures old(Backed()) ==> Backed()
    {
      if keyword == "" {
        return Failed(Invalid);
      }
      ghost var e0 := cache.entries;
      var has := HasKeyword(keyword, loadOk);
      if !has {
        return Failed(NotFound);
      }
      if !writeOk {
        return Failed(SystemError);
      }
      var affected := Matching(rows, keyword);
      if affected == 0 {
        return Failed(NoneAffected);
      }
      ghost var e1 := cache.entries;
      WriteDelete(keyword);
      o := Done;
      UntouchedTrans(kind, e0, e1, cache.entries);
    }

    /** The writes of a successful delete: the rows, then the list key and
        the keyword's data key dropped from the cache. */
    method WriteDelete(keyword: string)
      modifies this, cache
      ensures rows == Without(old(rows), keyword)
      ensures cache.entries == old(cache.entries) - {KeywordsKey(kind), DataKey(kind, keyword)}
      ensures Untouched(kind, old(cache.entries), cache.entries)
      ensures old(Coherent()) ==> Coherent()
      ensures old(Backed()) ==> Backed()
    {
      ghost var e1, rows0 := cache.entries, rows;
      rows := Without(rows, keyword);
      cache.Delete(KeywordsKey(kind));
      cache.Delete(DataKey(kind, keyword));
      DropOwnKeys(kind, e1, keyword);
      DeleteKeeps(kind, rows0, e1, keyword);
    }
  }
}
