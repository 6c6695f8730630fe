/** The game record both pages read from `games.json`, and the one piece of
    rendering they share: a list of labels shown one element per entry. */
module Games {
  import opened Wrappers

  /** The `type` of a media entry: the pages test for the strings `image` and
      `youtube`; anything else is carried as it is. */
  datatype MediaType = Image | YouTube | Unrecognized(name: string)

  datatype Media = Media(kind: MediaType, url: string)

  /** One catalog entry. A missing `media` array is the empty sequence; a
      missing or empty `featuredImage` is `None` or `Some("")`. */
  datatype Game = Game(
    id: int,
    name: string,
    description: string,
    publisher: string,
    releaseDate: string,
    price: real,
    image: string,
    featuredImage: Option<string>,
    platform: seq<string>,
    tags: seq<string>,
    featured: bool,
    media: seq<Media>)

  /** The loops that emit one `<span>` per platform or tag: one element per
      entry, in order, and nothing else. */
  method Labels(items: seq<string>) returns (shown: seq<string>)
    ensures shown == items
  {
    shown := [];
    for i := 0 to |items|
      invariant shown == items[..i]
    {
      shown := shown + [items[i]];
    }
  }
}
