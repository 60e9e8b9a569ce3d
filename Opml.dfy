/** `readSubscriptionsFromOpml`: turning the decoded outline items of an OPML
    file into podcasts. Reading the file and decoding its XML are taken as an
    input (`OpmlSource`). */
module Opml {
  import opened Types

  /** The podcast made of the item at position `i`: the position is its id, the
      `text` attribute its name, the `xmlUrl` attribute its URL, and it has no
      episodes yet. */
  function PodcastOf(i: int, item: OpmlItem): Podcast
  {
    Podcast(i, item.text, item.xmlUrl, map[])
  }

  /** One podcast per item, in the items' order. */
  function PodcastsFrom(items: seq<OpmlItem>): seq<Podcast>
  {
    seq(|items|, i requires 0 <= i < |items| => PodcastOf(i, items[i]))
  }

  /** What the reader yields for each outcome of reading and decoding the file. */
  function SubscriptionsOf(source: OpmlSource): Outcome<seq<Podcast>>
  {
    match source
    case Unreadable => Completed([])
    case Malformed => Panicked
    case Parsed(items) => Completed(PodcastsFrom(items))
  }

  /** The reader: a file that cannot be read gives no podcasts, XML that does
      not decode panics, and otherwise a slice as long as the item list is
      allocated and filled position by position. */
  method ReadSubscriptionsFromOpml(source: OpmlSource) returns (r: Outcome<seq<Podcast>>)
    ensures r.Panicked? <==> source.Malformed?
    ensures source.Unreadable? ==> r == Completed([])
    ensures source.Parsed? ==> r.Completed? && |r.value| == |source.items|
    ensures source.Parsed? ==>
      forall i :: 0 <= i < |source.items| ==>
        && r.value[i].id == i
        && r.value[i].name == source.items[i].text
        && r.value[i].url == source.items[i].xmlUrl
        && r.value[i].episodes == map[]
    ensures r == SubscriptionsOf(source)
  {
    var podcasts: seq<Podcast> := [];
    match source {
      case Unreadable =>
        r := Completed(podcasts);
      case Malformed =>
        r := Panicked;
      case Parsed(items) =>
        if |items| > 0 {
          var slice := new Podcast[|items|];
          for i := 0 to |items|
            invariant forall j :: 0 <= j < i ==> slice[j] == PodcastOf(j, items[j])
          {
            slice[i] := Podcast(i, items[i].text, items[i].xmlUrl, map[]);
          }
          podcasts := slice[..];
        }
        assert podcasts == PodcastsFrom(items);
        r := Completed(podcasts);
    }
  }
}
