/** The records of gopod: what the OPML decoder yields, the in-memory podcast,
    and the row stored in the Podcast table. */
module Types {

  /** One second-level `outline` element of an OPML document, as decoded:
      the `text`, `type` and `xmlUrl` attributes, each empty when absent. */
  datatype OpmlItem = OpmlItem(text: string, kind: string, xmlUrl: string)

  /** An episode of a podcast; declared by the program but never filled in. */
  datatype Episode = Episode(id: int, name: string, url: string)

  /** A podcast feed held in memory. */
  datatype Podcast = Podcast(id: int, name: string, url: string, episodes: map<int, Episode>)

  /** The non-key columns of one row of the Podcast table. */
  datatype Row = Row(name: string, url: string)

  /** The outcome of reading the OPML file and decoding its XML, which the
      model takes as given: the read failed, the XML did not decode, or it
      decoded to this list of items (`body>outline>outline`, in document order). */
  datatype OpmlSource = Unreadable | Malformed | Parsed(items: seq<OpmlItem>)

  /** A computation that either finishes with a value or panics. */
  datatype Outcome<T> = Completed(value: T) | Panicked

  /** An optional value. */
  datatype Option<T> = None | Some(value: T)

  /** The row that `INSERT INTO Podcast (id, name, url)` stores for a podcast. */
  function RowOf(p: Podcast): Row
  {
    Row(p.name, p.url)
  }
}
