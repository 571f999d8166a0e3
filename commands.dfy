/**
 * The topic command handler `TopicQuery` (messageservice/topic.go): the
 * argument split of the add, update and delete commands, the keyword search
 * that answers a plain query, and the order in which a command goes through
 * the image rewriter and the store.
 */
module Commands {
  import opened Wrappers
  import opened Strs
  import opened Records
  import opened KeywordStore
  import Media

  // ---------------------------------------------------------------------
  // Arguments: `strings.Split(arg, "*")`, then `strings.TrimSpace` per field

  /** The keyword and content of an add or update command. */
  datatype Fields = Fields(keyword: string, value: string)

  /** The trimmed second and third fields; `None` when there are fewer than three. */
  function ParseEntry(arg: string): Option<Fields> {
    var fields := Split(arg, '*');
    if |fields| < 3 then None else Some(Fields(TrimSpace(fields[1]), TrimSpace(fields[2])))
  }

  /** The trimmed second field of a delete command; `None` when there is none. */
  function ParseKeyword(arg: string): Option<string> {
    var fields := Split(arg, '*');
    if |fields| < 2 then None else Some(TrimSpace(fields[1]))
  }

  /** An add or update command is refused exactly when it has fewer than two
      `*`, and a delete command exactly when it has none. */
  lemma ParseNeedsStars(arg: string)
    ensures ParseEntry(arg).None? <==> CountChar(arg, '*') < 2
    ensures ParseKeyword(arg).None? <==> CountChar(arg, '*') < 1
  {
  }

  /** The keyword and content are the trimmed second and third fields, and
      whatever follows a third `*` is ignored. */
  lemma {:induction false} ParseEntryFields(command: string, keyword: string, value: string, tail: string)
    requires '*' !in command && '*' !in keyword && '*' !in value
    requires tail == [] || tail[0] == '*'
    ensures ParseEntry(command + "*" + keyword + "*" + value + tail)
      == Some(Fields(TrimSpace(keyword), TrimSpace(value)))
  {
    var arg := command + "*" + keyword + "*" + value + tail;
    assert arg == command + ['*'] + (keyword + ['*'] + (value + tail));
    SplitCons(command, keyword + ['*'] + (value + tail), '*');
    SplitCons(keyword, value + tail, '*');
    SplitFirst(value, tail, '*');
    var rest := Split(value + tail, '*');
    assert Split(arg, '*') == [command] + ([keyword] + rest);
  }

  /** The keyword of a delete command is the trimmed second field, and
      whatever follows a second `*` is ignored. */
  lemma {:induction false} ParseKeywordField(command: string, keyword: string, tail: string)
    requires '*' !in command && '*' !in keyword
    requires tail == [] || tail[0] == '*'
    ensures ParseKeyword(command + "*" + keyword + tail) == Some(TrimSpace(keyword))
  {
    var arg := command + "*" + keyword + tail;
    assert arg == command + ['*'] + (keyword + tail);
    SplitCons(command, keyword + tail, '*');
    SplitFirst(keyword, tail, '*');
  }

  // ---------------------------------------------------------------------
  // The keyword search of a plain query

  /** The keywords that contain `query`, in list order. */
  function Containing(keywords: seq<string>, query: string): seq<string>
    decreases |keywords|
  {
    if keywords == [] then []
    else
      var last := keywords[|keywords| - 1];
      Containing(keywords[..|keywords| - 1], query) + (if Contains(last, query) then [last] else [])
  }

  /** The match list: the query alone when it is a keyword, otherwise every
      keyword that contains it. */
  function Candidates(keywords: seq<string>, query: string): seq<string> {
    if query in keywords then [query] else Containing(keywords, query)
  }

  /** A keyword is listed exactly when it contains the query. */
  lemma {:induction false} ContainingIff(keywords: seq<string>, query: string, k: string)
    ensures k in Containing(keywords, query) <==> k in keywords && Contains(k, query)
    decreases |keywords|
  {
    if keywords != [] {
      var init := keywords[..|keywords| - 1];
      ContainingIff(init, query, k);
      assert keywords == init + [keywords[|keywords| - 1]];
    }
  }

  /** Listing keeps the list order: the matches of two lists one after the
      other are the matches of the first, then those of the second. */
  lemma {:induction false} ContainingAppend(a: seq<string>, b: seq<string>, query: string)
    ensures Containing(a + b, query) == Containing(a, query) + Containing(b, query)
    decreases |b|
  {
    if b == [] {
      assert a + b == a;
    } else {
      var init := b[..|b| - 1];
      ContainingAppend(a, init, query);
      assert (a + b)[..|a + b| - 1] == a + init;
    }
  }

  /** What a query lists: only the query when it is a keyword, and otherwise
      exactly the keywords that contain it. */
  lemma CandidatesIff(keywords: seq<string>, query: string, k: string)
    ensures query in keywords ==> (k in Candidates(keywords, query) <==> k == query)
    ensures query !in keywords ==> (k in Candidates(keywords, query) <==> k in keywords && Contains(k, query))
  {
    ContainingIff(keywords, query, k);
  }

  /** The search loop of `TopicQuery`: collect the keywords that contain the
      query, until one equals it, which then stands alone. */
  method MatchKeywords(keywords: seq<string>, searchKey: string) returns (matchList: seq<string>)
    ensures matchList == Candidates(keywords, searchKey)
  {
    matchList := [];
    for i := 0 to |keywords|
      invariant searchKey !in keywords[..i]
      invariant matchList == Containing(keywords[..i], searchKey)
    {
      var keyword := keywords[i];
      assert keywords[..i + 1][..i] == keywords[..i];
      if Contains(keyword, searchKey) {
        matchList := matchList + [keyword];
      }
      if keyword == searchKey {
        matchList := [keyword];
        break;
      }
    }
    assert keywords[..|keywords|] == keywords;
  }

  // ---------------------------------------------------------------------
  // Answering a plain query

  /** The reply to a plain query: nothing matched, the content of the one
      match, the list of matches to choose from, or the system error. */
  datatype Answer = NoMatch | Reply(value: string) | Choose(keywords: seq<string>) | ErrorNote

  /** The answer through cache `e`: load the list, match the trimmed query,
      and read the content of a single match. */
  function AnswerIn(e: map<string, CacheVal>, rows: seq<Row>, arg: string, loadOk: bool, readOk: bool): Answer {
    match ListIn(e, Topic, rows, loadOk)
    case None => ErrorNote
    case Some(keywords) =>
      var matches := Candidates(keywords, TrimSpace(arg));
      if |matches| == 0 then NoMatch
      else if |matches| > 1 then Choose(matches)
      else match LookupIn(AfterList(e, Topic, rows, loadOk), Topic, rows, matches[0], readOk)
        case None => ErrorNote
        case Some(row) => Reply(row.value)
  }

  /** The plain-query branch of `TopicQuery`. */
  method Query(store: Store, arg: string, loadOk: bool, readOk: bool) returns (a: Answer)
    requires store.kind == Topic
    modifies store.cache
    ensures a == AnswerIn(old(store.cache.entries), store.rows, arg, loadOk, readOk)
    ensures Untouched(Topic, old(store.cache.entries), store.cache.entries)
    ensures old(store.Coherent()) ==> store.Coherent()
    ensures old(store.Coherent() && store.Backed()) ==> store.Backed()
    ensures old(store.Coherent()) && a.Reply? ==>
      exists k :: Candidates(Keywords(store.rows), TrimSpace(arg)) == [k] && a.value == EntryFor(store.rows, k).value
  {
    var keywords := store.LoadKeywords(loadOk);
    if keywords.Err? {
      return ErrorNote;
    }
    var matchList := MatchKeywords(keywords.value, TrimSpace(arg));
    if |matchList| == 0 {
      return NoMatch;
    }
    if |matchList| > 1 {
      return Choose(matchList);
    }
    CandidatesIff(keywords.value, TrimSpace(arg), matchList[0]);
    assert matchList[0] in keywords.value by {
      assert matchList[0] in matchList;
    }
    ghost var e1 := store.cache.entries;
    var result := store.GetByKeyword(matchList[0], readOk);
    UntouchedTrans(Topic, old(store.cache.entries), e1, store.cache.entries);
    if result.Err? {
      return ErrorNote;
    }
    a := Reply(result.value.value);
    assert old(store.Coherent()) ==> matchList == Candidates(Keywords(store.rows), TrimSpace(arg)) == [matchList[0]];
  }

  // ---------------------------------------------------------------------
  // The add, update and delete commands

  /** How a command ends: refused for its arguments, abandoned because an
      image could not be saved, or with the store's outcome and the joined
      save paths handed to it. */
  datatype CommandResult = BadArguments | ImageFailed | Stored(outcome: Outcome, paths: string)

  /** The add command: split, rewrite the images, then create the topic with
      the rewritten content and the save paths. No store call happens when
      the arguments are short or a download fails. */
  method Add(store: Store, arg: string, clock: nat -> int, download: (string, string) -> bool,
             loadOk: bool, insertOk: bool)
    returns (res: CommandResult, fetched: seq<Media.Fetch>)
    requires store.kind == Topic
    modifies store, store.cache
    ensures ParseEntry(arg).None? ==>
      res == BadArguments && fetched == [] && store.rows == old(store.rows) && store.cache.entries == old(store.cache.entries)
    ensures ParseEntry(arg).Some? ==>
      var en := ParseEntry(arg).value;
      var p := Media.Process(en.value, en.keyword, clock, download);
      && fetched == Media.Run(en.value, Media.Plans(Media.Blocks(en.value), en.keyword, clock),
                              |Media.Blocks(en.value)|, download).fetched
      && (p.DownloadFailed? ==>
            res == ImageFailed && store.rows == old(store.rows) && store.cache.entries == old(store.cache.entries))
      && (p.Processed? ==>
            var w := CreateEffect(old(store.cache.entries), Topic, old(store.rows),
                                  en.keyword, p.content, p.paths, loadOk, insertOk);
            res == Stored(w.outcome, p.paths) && store.rows == w.rows && store.cache.entries == w.entries)
    ensures old(store.Coherent() && store.Backed()) ==> store.Coherent() && store.Backed()
  {
    var entry := ParseEntry(arg);
    if entry.None? {
      return BadArguments, [];
    }
    var keyword, value := entry.value.keyword, entry.value.value;
    var processed;
    processed, fetched := Media.ProcessImages(value, keyword, clock, download);
    if processed.DownloadFailed? {
      return ImageFailed, fetched;
    }
    var o := store.Create(keyword, processed.content, processed.paths, loadOk, insertOk);
    res := Stored(o, processed.paths);
  }

  /** The update command: split, rewrite the images, then update the topic. */
  method Change(store: Store, arg: string, clock: nat -> int, download: (string, string) -> bool,
                loadOk: bool, writeOk: bool)
    returns (res: CommandResult, fetched: seq<Media.Fetch>)
    requires store.kind == Topic
    modifies store, store.cache
    ensures ParseEntry(arg).None? ==>
      res == BadArguments && fetched == [] && store.rows == old(store.rows) && store.cache.entries == old(store.cache.entries)
    ensures ParseEntry(arg).Some? ==>
      var en := ParseEntry(arg).value;
      var p := Media.Process(en.value, en.keyword, clock, download);
      && fetched == Media.Run(en.value, Media.Plans(Media.Blocks(en.value), en.keyword, clock),
                              |Media.Blocks(en.value)|, download).fetched
      && (p.DownloadFailed? ==>
            res == ImageFailed && store.rows == old(store.rows) && store.cache.entries == old(store.cache.entries))
      && (p.Processed? ==>
            var w := UpdateEffect(old(store.cache.entries), Topic, old(store.rows),
                                  en.keyword, p.content, p.paths, loadOk, writeOk);
            res == Stored(w.outcome, p.paths) && store.rows == w.rows && store.cache.entries == w.entries)
    ensures old(store.Coherent()) ==> store.Coherent()
    ensures old(store.Backed()) ==> store.Backed()
  {
    var entry := ParseEntry(arg);
    if entry.None? {
      return BadArguments, [];
    }
    var keyword, value := entry.value.keyword, entry.value.value;
    var processed;
    processed, fetched := Media.ProcessImages(value, keyword, clock, download);
    if processed.DownloadFailed? {
      return ImageFailed, fetched;
    }
    var o := store.Update(keyword, processed.content, processed.paths, loadOk, writeOk);
    res := Stored(o, processed.paths);
  }

  /** The delete command: split, then delete the topic. */
  method Remove(store: Store, arg: string, loadOk: bool, writeOk: bool) returns (res: CommandResult)
    requires store.kind == Topic
    modifies store, store.cache
    ensures ParseKeyword(arg).None? ==>
      res == BadArguments && store.rows == old(store.rows) && store.cache.entries == old(store.cache.entries)
    ensures ParseKeyword(arg).Some? ==>
      var w := DeleteEffect(old(store.cache.entries), Topic, old(store.rows), ParseKeyword(arg).value, loadOk, writeOk);
      res == Stored(w.outcome, "") && store.rows == w.rows && store.cache.entries == w.entries
    ensures old(store.Coherent()) ==> store.Coherent()
    ensures old(store.Backed()) ==> store.Backed()
  {
    var keyword := ParseKeyword(arg);
    if keyword.None? {
      return BadArguments;
    }
    var o := store.Delete(keyword.value, loadOk, writeOk);
    res := Stored(o, "");
  }
}
