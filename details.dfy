/** The single-game page (`details.js`): resolve the game named by the `id`
    query parameter, or send the browser home, and render the game with its
    full media gallery. */
module Details {
  import opened Wrappers
  import opened Seqs
  import opened Text
  import opened Patterns
  import opened Games
  import Catalog

  /** The characters at which this page's pattern stops a video id: `[^&\?\/]`. */
  const DetailsStops: set<char> := {'&', '?', '/'}

  // ================================================================ video ids

  /** `[a-zA-Z0-9_-]`. */
  predicate IdChar(c: char) {
    'a' <= c <= 'z' || 'A' <= c <= 'Z' || '0' <= c <= '9' || c == '_' || c == '-'
  }

  /** `^([a-zA-Z0-9_-]{11})$`. */
  predicate IsBareId(url: string) {
    |url| == 11 && forall i :: 0 <= i < |url| ==> IdChar(url[i])
  }

  /** `getYouTubeVideoId` of this page: the address pattern first, then the
      bare-id pattern, and `None` (JavaScript's `null`) when neither matches. */
  function VideoId(url: string): Option<string> {
    match Search(Alternation, url, DetailsStops)
    case Some(token) => Some(token)
    case None => if IsBareId(url) then Some(url) else None
  }

  /** An id this page extracts is never empty and never holds `&`, `?` or `/`. */
  lemma VideoIdUsable(url: string)
    ensures VideoId(url).Some? ==> VideoId(url).value != []
    ensures VideoId(url).Some? ==> forall i :: 0 <= i < |VideoId(url).value| ==> VideoId(url).value[i] !in DetailsStops
  {
    var m := Search(Alternation, url, DetailsStops);
    if m.None? && IsBareId(url) {
      forall i | 0 <= i < |url| ensures url[i] !in DetailsStops {
        assert IdChar(url[i]);
      }
    }
  }

  /** Extraction fails exactly when the address pattern matches at no position
      and the string is not an 11-character id. */
  lemma VideoIdNoneIff(url: string)
    ensures VideoId(url).None? <==>
      (forall j :: 0 <= j <= |url| ==> MatchHere(Alternation, url[j..], DetailsStops).None?) && !IsBareId(url)
  {
    SearchFromNoneIff(Alternation, url, DetailsStops, 0);
  }

  /** An address with one of the three prefixes yields the token after it,
      when no `youtu` comes before the prefix. */
  lemma VideoIdFromAddress(pre: string, prefix: string, token: string, rest: string)
    requires prefix == Watch || prefix == Short || prefix == Embed
    requires FreeOf(pre, Youtu)
    requires token != [] && forall k :: 0 <= k < |token| ==> token[k] !in DetailsStops
    requires rest == [] || rest[0] in DetailsStops
    ensures VideoId(pre + prefix + token + rest) == Some(token)
  {
    AlternationFinds(pre, prefix, token, rest, DetailsStops);
  }

  /** A string without a `.` contains none of the pattern's prefixes. */
  lemma DotlessNeverMatches(s: string)
    requires forall k :: 0 <= k < |s| ==> s[k] != '.'
    ensures Search(Alternation, s, DetailsStops).None?
  {
    forall j | 0 <= j <= |s| ensures MatchHere(Alternation, s[j..], DetailsStops).None? {
      var t := s[j..];
      AlternationNeedsDot(t, DetailsStops);
      if |t| > 7 {
        assert t[5] == s[j + 5] && t[7] == s[j + 7];
      }
    }
    SearchFromNoneIff(Alternation, s, DetailsStops, 0);
  }

  /** On an 11-character id the two pages agree: both return it unchanged. */
  lemma PagesAgreeOnBareIds(url: string)
    requires IsBareId(url)
    ensures VideoId(url) == Some(url)
    ensures Catalog.VideoId(url) == url
  {
    forall k | 0 <= k < |url| ensures url[k] != '.' && url[k] != '/' && url[k] != '?' {
      assert IdChar(url[k]);
    }
    DotlessNeverMatches(url);
  }

  /** Where the two pages differ: the catalog keeps a `/` inside the id... */
  lemma CatalogKeepsSlash()
    ensures Catalog.VideoId("youtu.be/abc/def") == "abc/def"
  {
    var token := "abc/def";
    forall k | 0 <= k < |token| ensures token[k] !in Catalog.CatalogStops {
    }
    assert "youtu.be/abc/def" == "" + Short + token + "";
    FreeOfWithoutFirst("", Youtu);
    Catalog.VideoIdFromAddress("", Short, token, "");
  }

  /** ...while this page stops the id there. */
  lemma DetailsStopsAtSlash()
    ensures VideoId("youtu.be/abc/def") == Some("abc")
  {
    var rest := "/def";
    assert rest[0] in DetailsStops;
    assert "youtu.be/abc/def" == "" + Short + "abc" + rest;
    FreeOfWithoutFirst("", Youtu);
    VideoIdFromAddress("", Short, "abc", rest);
  }

  /** Where the two pages differ: an 11-character string that is not an id is
      returned by the catalog as it is, while this page gives up. */
  lemma PagesDifferOnNonId()
    ensures Catalog.VideoId("hello world") == "hello world"
    ensures VideoId("hello world") == None
  {
    var hw := "hello world";
    assert |hw| == 11 && '/' !in hw && '?' !in hw;
    assert !IdChar(hw[5]);
    forall k | 0 <= k < |hw| ensures hw[k] != '.' {
    }
    DotlessNeverMatches(hw);
  }

  lemma WatchExample()
    ensures VideoId("https://www.youtube.com/watch?v=dQw4w9WgXcQ") == Some("dQw4w9WgXcQ")
  {
    assert "https://www.youtube.com/watch?v=dQw4w9WgXcQ" == "https://www." + Watch + "dQw4w9WgXcQ" + "";
    FreeOfWithoutFirst("https://www.", Youtu);
    VideoIdFromAddress("https://www.", Watch, "dQw4w9WgXcQ", "");
  }

  lemma ShortExample()
    ensures VideoId("https://youtu.be/dQw4w9WgXcQ") == Some("dQw4w9WgXcQ")
  {
    assert "https://youtu.be/dQw4w9WgXcQ" == "https://" + Short + "dQw4w9WgXcQ" + "";
    FreeOfWithoutFirst("https://", Youtu);
    VideoIdFromAddress("https://", Short, "dQw4w9WgXcQ", "");
  }

  lemma EmbedExample()
    ensures VideoId("https://www.youtube.com/embed/dQw4w9WgXcQ") == Some("dQw4w9WgXcQ")
  {
    assert "https://www.youtube.com/embed/dQw4w9WgXcQ" == "https://www." + Embed + "dQw4w9WgXcQ" + "";
    FreeOfWithoutFirst("https://www.", Youtu);
    VideoIdFromAddress("https://www.", Embed, "dQw4w9WgXcQ", "");
  }

  lemma BareExample()
    ensures VideoId("dQw4w9WgXcQ") == Some("dQw4w9WgXcQ")
  {
    var id := "dQw4w9WgXcQ";
    forall k | 0 <= k < |id| ensures IdChar(id[k]) {
    }
    PagesAgreeOnBareIds(id);
  }

  // ================================================================ lookup

  /** `basePath`: pages under `/Assets/Components/` reach the site root two levels up. */
  function BasePath(pathname: string): string {
    if Contains(pathname, "/Assets/Components/") then "../../" else ""
  }

  /** The base path is `../../` exactly when `/Assets/Components/` occurs in the pathname. */
  lemma BasePathMeaning(pathname: string)
    ensures BasePath(pathname) == "../../" <==>
            exists i :: 0 <= i <= |pathname| && OccursAt(pathname, "/Assets/Components/", i)
    ensures BasePath(pathname) == "" || BasePath(pathname) == "../../"
  {
    ContainsMeansOccurs(pathname, "/Assets/Components/");
  }

  /** `found` is the first game of `games` whose `id` equals `id`, or `None`
      when there is none (`NaN`, `None`, equals no id). */
  ghost predicate IsFirstWithId(games: seq<Game>, id: Option<int>, found: Option<Game>) {
    if found.Some? then
      exists i :: 0 <= i < |games| && games[i] == found.value && id == Some(games[i].id)
                  && forall j :: 0 <= j < i ==> id != Some(games[j].id)
    else
      forall i :: 0 <= i < |games| ==> id != Some(games[i].id)
  }

  /** The search loop of `loadGameData`: stop at the first game with the id. */
  method FindGame(games: seq<Game>, id: Option<int>) returns (found: Option<Game>)
    ensures IsFirstWithId(games, id, found)
  {
    found := None;
    var i := 0;
    while i < |games|
      invariant 0 <= i <= |games|
      invariant forall j :: 0 <= j < i ==> id != Some(games[j].id)
    {
      if id == Some(games[i].id) {
        found := Some(games[i]);
        break;
      }
      i := i + 1;
    }
  }

  /** The id `parseInt(getGameId())` reads: a missing parameter is `null`,
      which `parseInt` reads as the string "null". */
  function QueryId(idParam: Option<string>): Option<int> {
    ParseInt(idParam.GetOr("null"))
  }

  /** A link written as `details.html?id=' + game.id` brings up that game,
      assuming ids are unique. */
  lemma LinkFindsGame(games: seq<Game>, i: nat)
    requires i < |games|
    requires forall j, k :: 0 <= j < k < |games| ==> games[j].id != games[k].id
    ensures IsFirstWithId(games, QueryId(Some(DecimalString(games[i].id))), Some(games[i]))
  {
    ParseIntOfDecimal(games[i].id);
  }

  /** A page without an `id` parameter finds nothing and goes home. */
  lemma MissingIdFindsNothing(games: seq<Game>)
    ensures IsFirstWithId(games, QueryId(None), None)
  {
    ParseIntOfLetter("null");
  }

  // ================================================================ rendering

  /** Whether the gallery loop emits a block for `m`: always for an image,
      for a video when its id is truthy, never for another type. */
  predicate Shown(m: Media) {
    match m.kind
    case Image => true
    case YouTube => VideoId(m.url).Some? && VideoId(m.url).value != ""
    case Unrecognized(_) => false
  }

  /** Since an extracted id is never empty, a video is shown exactly when extraction succeeds. */
  lemma ShownIff(m: Media)
    ensures Shown(m) <==> m.kind == Image || (m.kind == YouTube && VideoId(m.url).Some?)
  {
    VideoIdUsable(m.url);
  }

  datatype MediaBlock = ImageBlock(url: string, alt: string) | VideoBlock(videoId: string)

  /** The block emitted for a shown entry. */
  function Block(name: string, m: Media): MediaBlock {
    if m.kind == YouTube then VideoBlock(VideoId(m.url).GetOr("")) else ImageBlock(m.url, name + " screenshot")
  }

  function Blocks(name: string, ms: seq<Media>): seq<MediaBlock> {
    seq(|ms|, k requires 0 <= k < |ms| => Block(name, ms[k]))
  }

  datatype Gallery = Hidden | Grid(blocks: seq<MediaBlock>)

  /** The gallery: hidden for a missing or empty media list, otherwise one
      block per shown entry, in order. */
  function GalleryOf(name: string, media: seq<Media>): Gallery {
    if media == [] then Hidden else Grid(Blocks(name, Filter(media, Shown)))
  }

  /** The gallery keeps exactly the shown entries, in order: block `k` is the
      block of the `k`-th shown entry, so there are never more blocks than entries. */
  lemma GalleryKeepsShown(name: string, media: seq<Media>)
    requires media != []
    ensures GalleryOf(name, media).Grid?
    ensures var blocks := GalleryOf(name, media).blocks;
            var kept := Positions(media, Shown);
            |blocks| == |kept| <= |media|
            && forall k :: 0 <= k < |blocks| ==> blocks[k] == Block(name, media[kept[k]])
  {
    FilterAtPositions(media, Shown);
  }

  /** The gallery is hidden exactly when there is no media. */
  lemma GalleryHiddenIff(name: string, media: seq<Media>)
    ensures GalleryOf(name, media) == Hidden <==> media == []
  {
  }

  /** The gallery loop of `displayGameDetails`. */
  method BuildGallery(name: string, media: seq<Media>) returns (blocks: seq<MediaBlock>)
    ensures blocks == Blocks(name, Filter(media, Shown))
  {
    blocks := [];
    for i := 0 to |media|
      invariant blocks == Blocks(name, Filter(media[..i], Shown))
    {
      var item := media[i];
      FilterStep(media, Shown, i);
      if item.kind == Image {
        blocks := blocks + [ImageBlock(item.url, name + " screenshot")];
      } else if item.kind == YouTube {
        var videoId := VideoId(item.url);
        if videoId.Some? && videoId.value != "" {
          blocks := blocks + [VideoBlock(videoId.value)];
        }
      }
    }
    assert media[..|media|] == media;
  }

  datatype PriceView = FreeToPlay(text: string, cssClass: string) | Fixed(amount: real)

  datatype DetailsView = DetailsView(
    pageTitle: string,
    heroImage: string,
    heroAlt: string,
    description: string,
    sidebarTitle: string,
    price: PriceView,
    publisher: string,
    releaseDate: string,
    platforms: seq<string>,
    tags: seq<string>,
    gallery: Gallery)

  /** What the page shows for game `g`. */
  ghost predicate Shows(v: DetailsView, g: Game) {
    v.pageTitle == g.name + " - Steam" && v.heroImage == g.image && v.heroAlt == g.name
    && v.description == g.description && v.sidebarTitle == g.name
    && v.price == (if g.price == 0.0 then FreeToPlay("Free to Play", "free") else Fixed(g.price))
    && v.publisher == g.publisher && v.releaseDate == g.releaseDate
    && v.platforms == g.platform && v.tags == g.tags
    && v.gallery == GalleryOf(g.name, g.media)
  }

  /** A free game is labelled "Free to Play" with the `free` class, and only a free one. */
  lemma FreeGames(v: DetailsView, g: Game)
    requires Shows(v, g)
    ensures v.price == FreeToPlay("Free to Play", "free") <==> g.price == 0.0
  {
  }

  /** `displayGameDetails`. */
  method DisplayGameDetails(g: Game) returns (view: DetailsView)
    ensures Shows(view, g)
  {
    var price := if g.price == 0.0 then FreeToPlay("Free to Play", "free") else Fixed(g.price);
    var platforms := Labels(g.platform);
    var tags := Labels(g.tags);
    var gallery := Hidden;
    if |g.media| > 0 {
      var blocks := BuildGallery(g.name, g.media);
      gallery := Grid(blocks);
    }
    view := DetailsView(g.name + " - Steam", g.image, g.name, g.description, g.name, price,
                        g.publisher, g.releaseDate, platforms, tags, gallery);
  }

  datatype Outcome = Show(view: DetailsView) | Redirect(href: string)

  /** The state of `details.js`: the game being shown. */
  class DetailsPage {
    var gameData: Option<Game>

    constructor ()
      ensures gameData == None
    {
      gameData := None;
    }

    /** `loadGameData` after the fetch, for the page at `pathname` with `id`
        query parameter `idParam`. `catalog` is `None` when the fetch or the
        parse failed: then the browser goes home and `gameData` keeps its
        value. Otherwise the first game with the id is stored; it is shown if
        there is one, and otherwise the browser goes home. */
    method LoadGameData(pathname: string, catalog: Option<seq<Game>>, idParam: Option<string>)
      returns (outcome: Outcome)
      modifies this
      ensures catalog.None? ==> outcome == Redirect(BasePath(pathname) + "index.html")
                                && gameData == old(gameData)
      ensures catalog.Some? ==> IsFirstWithId(catalog.value, QueryId(idParam), gameData)
      ensures catalog.Some? && gameData.None? ==> outcome == Redirect(BasePath(pathname) + "index.html")
      ensures catalog.Some? && gameData.Some? ==> outcome.Show? && Shows(outcome.view, gameData.value)
    {
      var isInComponentsFolder := IndexOf(pathname, "/Assets/Components/") != -1;
      var basePath := "";
      if isInComponentsFolder {
        basePath := "../../";
      }
      if catalog.None? {
        return Redirect(basePath + "index.html");
      }
      var gameId := QueryId(idParam);
      gameData := FindGame(catalog.value, gameId);
      if gameData.Some? {
        var view := DisplayGameDetails(gameData.value);
        outcome := Show(view);
      } else {
        outcome := Redirect(basePath + "index.html");
      }
    }
  }
}
