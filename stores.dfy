/** The documents kept in the two stores, `papers` (the corpus) and `metas`
    (the timeline), and an in-memory stand-in for the persistent dictionary
    that holds each of them. */
module Stores {

  /** A document of the papers store: exactly the keys `authors`, `title`,
      `summary`, `_time` and `_id`. */
  datatype PaperDoc = PaperDoc(authors: seq<string>, title: string, summary: string, time: int, id: string)

  /** A document of the metas store: the keys `_time` and `_id`. */
  datatype MetaDoc = MetaDoc(time: int, id: string)

  /** A key-value store: assignment by key replaces whatever was there. */
  class KvStore<V> {
    var data: map<string, V>

    constructor (init: map<string, V>)
      ensures data == init
    {
      data := init;
    }

    /** `store[key] = value` */
    method Set(key: string, value: V)
      modifies this
      ensures data == old(data)[key := value]
    {
      data := data[key := value];
    }
  }
}
