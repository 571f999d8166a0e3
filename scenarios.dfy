/**
 * Two runs of the data-access layer that show how its operations interact
 * through the shared cache.
 */
module Scenarios {
  import opened Wrappers
  import opened Records
  import opened KeywordStore

  /** A read of a keyword the store lacks caches the zero row. Creating that
      keyword drops only the list key, so the next read still answers with
      the zero row although the store now holds the new row. */
  method StaleAfterCreate(s: Store, keyword: string, value: string)
    returns (before: Result<Row>, o: Outcome, after: Result<Row>)
    requires keyword != "" && value != ""
    requires s.Coherent() && keyword !in Keywords(s.rows)
    modifies s, s.cache
    ensures before == Ok(ZeroRow) && o == Done && after == Ok(ZeroRow)
    ensures EntryFor(s.rows, keyword) == RowOf(s.kind, keyword, value, "") != ZeroRow
    ensures !s.Coherent()
  {
    before := s.GetByKeyword(keyword, true);
    ListReadKeeps(s.cache.entries, s.kind, s.rows, true);
    ghost var rows0, e0 := s.rows, s.cache.entries;
    assert !ListedIn(e0, s.kind, rows0, true, keyword);
    o := s.Create(keyword, value, "", true, true);
    assert s.cache.entries == AfterList(e0, s.kind, rows0, true) - {KeywordsKey(s.kind)};
    ListKeyIsNoDataKey(s.kind, s.kind, keyword);
    after := s.GetByKeyword(keyword, true);
    EntryForAppend(rows0, RowOf(s.kind, keyword, value, ""), keyword);
    KeywordsAppend(rows0, RowOf(s.kind, keyword, value, ""));
  }

  /** Topics and themes share one cache, yet a theme update or delete keeps
      a coherent topic cache coherent, leaves every topic cache entry and the
      topic rows alone. */
  method ThemeWritesKeepTopics(topics: Store, themes: Store, keyword: string, value: string,
                               loadOk: bool, writeOk: bool)
    returns (updated: Outcome, deleted: Outcome)
    requires topics.kind == Topic && themes.kind == Theme && topics.cache == themes.cache
    requires topics.Coherent()
    modifies themes, themes.cache
    ensures topics.rows == old(topics.rows) && topics.Coherent()
    ensures Untouched(Theme, old(topics.cache.entries), topics.cache.entries)
  {
    ghost var e0 := topics.cache.entries;
    updated := themes.Update(keyword, value, "", loadOk, writeOk);
    ghost var e1 := topics.cache.entries;
    deleted := themes.Delete(keyword, loadOk, writeOk);
    UntouchedTrans(Theme, e0, e1, topics.cache.entries);
    CoherenceIsLocal(Topic, Theme, topics.rows, e0, topics.cache.entries);
  }
}
