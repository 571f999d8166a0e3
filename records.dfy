/**
 * The stored entities (model/database/topic.go, model/database/theme.go)
 * and the cache keys under which the data-access layer keeps them
 * (dao/topic.go, dao/theme.go).
 */
module Records {

  /** The two entity kinds. They share one implementation; only topics
      carry an image column. */
  datatype Kind = Topic | Theme {
    /** Table name, and the prefix of every cache key of the kind. */
    function Name(): (n: string)
      ensures |n| == 5
    {
      match this
      case Topic => "topic"
      case Theme => "theme"
    }

    predicate HasImage() {
      Topic?
    }
  }

  /** One stored row, without the store-assigned id and timestamps.
      `image` holds the `;`-joined local image paths (always empty for themes). */
  datatype Row = Row(keyword: string, value: string, image: string)

  /** The zero value of the row struct: what a read of an absent keyword leaves behind. */
  const ZeroRow := Row("", "", "")

  /** A cached value: the keyword list, or one row. */
  datatype CacheVal = KeywordList(keywords: seq<string>) | Entry(row: Row)

  /** `CacheKeyTopicKeywords` / `CacheKeyThemeKeywords`. */
  function KeywordsKey(kind: Kind): string {
    kind.Name() + "_keywords"
  }

  /** `CacheKeyTopicData` / `CacheKeyThemeData` formatted with a keyword. */
  function DataKey(kind: Kind, keyword: string): string {
    kind.Name() + "_data_" + keyword
  }

  /** The cache keys of a kind: those that start with its name and `_`. */
  predicate OwnedBy(kind: Kind, key: string) {
    |key| >= 6 && key[..6] == kind.Name() + "_"
  }

  /** The list key of a kind is never the data key of any keyword of any kind. */
  lemma ListKeyIsNoDataKey(kind: Kind, other: Kind, keyword: string)
    ensures KeywordsKey(kind) != DataKey(other, keyword)
  {
    assert KeywordsKey(kind)[6] == 'k';
    assert DataKey(other, keyword)[6] == 'd';
  }

  /** Data keys determine their kind and keyword. */
  lemma DataKeyInjective(kind: Kind, other: Kind, k: string, k': string)
    ensures DataKey(kind, k) == DataKey(other, k') <==> kind == other && k == k'
  {
    if DataKey(kind, k) == DataKey(other, k') {
      assert kind.Name()[1] == DataKey(kind, k)[1] == DataKey(other, k')[1] == other.Name()[1];
      assert k == DataKey(kind, k)[11..];
      assert k' == DataKey(other, k')[11..];
    }
  }

  /** Both keys of a kind belong to it. */
  lemma KeysOwned(kind: Kind, keyword: string)
    ensures OwnedBy(kind, KeywordsKey(kind)) && OwnedBy(kind, DataKey(kind, keyword))
  {
    assert KeywordsKey(kind)[..6] == kind.Name() + "_";
    assert DataKey(kind, keyword)[..6] == kind.Name() + "_";
  }

  /** No key belongs to both kinds. */
  lemma OwnersDisjoint(key: string)
    ensures !(OwnedBy(Topic, key) && OwnedBy(Theme, key))
  {
    assert (Topic.Name() + "_")[1] != (Theme.Name() + "_")[1];
  }
}
