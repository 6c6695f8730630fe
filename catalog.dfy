/** The catalog page (`script.js`): search over the full game list, a page
    window of twelve cards with Prev/Next and numbered page buttons, and the
    featured-game carousel with its dots and trimmed media strip. */
module Catalog {
  import opened Wrappers
  import opened Seqs
  import opened Text
  import opened Patterns
  import opened Games

  const GamesPerPage: nat := 12

  /** The characters at which this page's patterns stop a video id: `[^&\n?#]`. */
  const CatalogStops: set<char> := {'&', '\n', '?', '#'}

  // ================================================================ video ids

  /** `getYouTubeVideoId` of this page: an 11-character string with no `/` and
      no `?` is taken to be an id already; otherwise the first pattern that
      matches gives the id; otherwise the address itself is returned. */
  function VideoId(url: string): string {
    if |url| == 11 && '/' !in url && '?' !in url then url
    else match Search(Alternation, url, CatalogStops)
      case Some(token) => token
      case None => Search(WatchThenV, url, CatalogStops).GetOr(url)
  }

  /** The extracted id is empty only for the empty address: a pattern that
      matches always captures at least one character. */
  lemma VideoIdEmptyIff(url: string)
    ensures VideoId(url) == [] <==> url == []
  {
    var a := Search(Alternation, url, CatalogStops);
    var b := Search(WatchThenV, url, CatalogStops);
    assert a.Some? ==> a.value != [];
    assert b.Some? ==> b.value != [];
  }

  /** An address with one of the three prefixes yields the token after it,
      when no `youtu` comes before the prefix. */
  lemma VideoIdFromAddress(pre: string, prefix: string, token: string, rest: string)
    requires prefix == Watch || prefix == Short || prefix == Embed
    requires FreeOf(pre, Youtu)
    requires token != [] && forall k :: 0 <= k < |token| ==> token[k] !in CatalogStops
    requires rest == [] || rest[0] in CatalogStops
    ensures VideoId(pre + prefix + token + rest) == token
  {
    var url := pre + prefix + token + rest;
    var slash := if prefix == Short then 8 else 11;
    assert prefix[slash] == '/' && url[|pre| + slash] == '/';
    AlternationFinds(pre, prefix, token, rest, CatalogStops);
  }

  /** The four address forms in which a catalog names one video. */
  lemma WatchExample()
    ensures VideoId("https://www.youtube.com/watch?v=dQw4w9WgXcQ") == "dQw4w9WgXcQ"
  {
    assert "https://www.youtube.com/watch?v=dQw4w9WgXcQ" == "https://www." + Watch + "dQw4w9WgXcQ" + "";
    FreeOfWithoutFirst("https://www.", Youtu);
    VideoIdFromAddress("https://www.", Watch, "dQw4w9WgXcQ", "");
  }

  lemma ShortExample()
    ensures VideoId("https://youtu.be/dQw4w9WgXcQ") == "dQw4w9WgXcQ"
  {
    assert "https://youtu.be/dQw4w9WgXcQ" == "https://" + Short + "dQw4w9WgXcQ" + "";
    FreeOfWithoutFirst("https://", Youtu);
    VideoIdFromAddress("https://", Short, "dQw4w9WgXcQ", "");
  }

  lemma EmbedExample()
    ensures VideoId("https://www.youtube.com/embed/dQw4w9WgXcQ") == "dQw4w9WgXcQ"
  {
    assert "https://www.youtube.com/embed/dQw4w9WgXcQ" == "https://www." + Embed + "dQw4w9WgXcQ" + "";
    FreeOfWithoutFirst("https://www.", Youtu);
    VideoIdFromAddress("https://www.", Embed, "dQw4w9WgXcQ", "");
  }

  lemma BareExample()
    ensures VideoId("dQw4w9WgXcQ") == "dQw4w9WgXcQ"
  {
    assert |"dQw4w9WgXcQ"| == 11 && '/' !in "dQw4w9WgXcQ" && '?' !in "dQw4w9WgXcQ";
  }

  /** An address with `youtube.com/watch?` whose query does not start with
      `v=` misses the first pattern, when no `youtu` comes before it and none
      in its query; the second pattern then takes the id after the LAST `v=`
      of the line. */
  lemma VideoIdFromLaterV(pre: string, mid: string, token: string, rest: string)
    requires FreeOf(pre, Youtu)
    requires mid != [] && !StartsWith(mid, "v=")
    requires FreeOf(mid + "v=" + token + rest, Youtu)
    requires forall k :: 0 <= k < |mid| ==> mid[k] !in LineTerminators
    requires forall k :: 0 <= k < |token + rest| ==> (token + rest)[k] !in LineTerminators
    requires FreeOf(token + rest, "v=")
    requires token != [] && forall k :: 0 <= k < |token| ==> token[k] !in CatalogStops
    requires rest == [] || rest[0] in CatalogStops
    ensures VideoId(pre + (WatchQuery + mid + "v=" + token + rest)) == token
  {
    var q := mid + "v=" + token + rest;
    assert q == mid + ("v=" + token + rest);
    NoVEqualsAtJoin(mid, "v=" + token + rest);
    var address := WatchQuery + mid + "v=" + token + rest;
    assert address == WatchQuery + q;
    assert address[0] == 'y' && address[0..] == address;
    var url := pre + address;
    assert |url| > 11;
    AlternationMissesOtherQuery(q, CatalogStops);
    WatchThenVTakesLast(mid, token, rest, CatalogStops);
    assert Search(WatchThenV, address, CatalogStops) == Some(token);
    SearchAfterFreeText(Alternation, pre, address, CatalogStops);
    SearchAfterFreeText(WatchThenV, pre, address, CatalogStops);
  }

  /** With two `v=` parameters after another one, the second value is taken. */
  lemma LastVWins()
    ensures VideoId("youtube.com/watch?x&v=a&v=b") == "b"
  {
    var mid := "x&v=a&";
    assert "youtube.com/watch?x&v=a&v=b" == "" + (WatchQuery + mid + "v=" + "b" + "");
    FreeOfWithoutFirst("", Youtu);
    FreeOfWithoutFirst(mid + "v=" + "b" + "", Youtu);
    FreeOfWithoutFirst("b" + "", "v=");
    assert mid[0] == 'x';
    VideoIdFromLaterV("", mid, "b", "");
  }

  /** Any 11-character string without `/` or `?` is taken to be an id already
      and returned unchanged, before any pattern is tried. */
  lemma BareIdUnchanged(url: string)
    requires |url| == 11 && '/' !in url && '?' !in url
    ensures VideoId(url) == url
  {
  }

  /** A short link inside the query of a watch address starts the first
      pattern's match, so its token is taken and the second pattern is never
      tried: `youtube.com/watch?x=youtu.be/a&v=c` gives `a`. The query before
      the short link must not start with `v=` (else the watch prefix matches
      first) and must hold no `youtu`, nor may the text before the address. */
  lemma EarlierShortLinkWins(pre: string, x: string, token: string, rest: string)
    requires FreeOf(pre, Youtu)
    requires FreeOf(x, Youtu) && !StartsWith(x, "v=")
    requires token != [] && forall k :: 0 <= k < |token| ==> token[k] !in CatalogStops
    requires rest == [] || rest[0] in CatalogStops
    ensures VideoId(pre + (WatchQuery + x + Short + token + rest)) == token
  {
    var tail := Short + token + rest;
    var q := x + tail;
    var address := WatchQuery + x + Short + token + rest;
    assert address == WatchQuery + q;
    assert tail[0] == 'y' && tail[0..] == tail;
    assert address[0] == 'y';
    assert |pre + address| > 11;
    NoVEqualsAtJoin(x, tail);
    AlternationHere(Short, token, rest, CatalogStops);
    assert Search(Alternation, tail, CatalogStops) == Some(token);
    SearchAfterFreeText(Alternation, x, tail, CatalogStops);
    AlternationPassesWatchQuery(q, CatalogStops);
    SearchAfterFreeText(Alternation, pre, address, CatalogStops);
  }

  /** Text holding no `youtu`, such as a link to any other site, matches
      neither pattern and comes back as it is. */
  lemma VideoIdFallsBack(url: string)
    requires FreeOf(url, Youtu)
    ensures VideoId(url) == url
  {
    FreeTextNeverMatches(Alternation, url, CatalogStops);
    FreeTextNeverMatches(WatchThenV, url, CatalogStops);
  }

  // ================================================================ search

  /** The test of `filterGames`: the query occurs in the lower-cased name, in
      some lower-cased tag, or in the lower-cased description. */
  predicate Matches(g: Game, query: string) {
    Contains(Lower(g.name), query)
    || (exists j :: 0 <= j < |g.tags| && Contains(Lower(g.tags[j]), query))
    || Contains(Lower(g.description), query)
  }

  function MatchesQuery(query: string): Game -> bool {
    g => Matches(g, query)
  }

  /** The matching test, stated as substring occurrence. */
  lemma MatchesMeaning(g: Game, query: string)
    ensures Matches(g, query) <==>
      (exists i :: 0 <= i <= |Lower(g.name)| && OccursAt(Lower(g.name), query, i))
      || (exists j :: 0 <= j < |g.tags| && Contains(Lower(g.tags[j]), query))
      || (exists i :: 0 <= i <= |Lower(g.description)| && OccursAt(Lower(g.description), query, i))
  {
    ContainsMeansOccurs(Lower(g.name), query);
    ContainsMeansOccurs(Lower(g.description), query);
  }

  /** A tag matches exactly when the query occurs in it, lower-cased. */
  lemma TagMatchMeaning(tag: string, query: string)
    ensures Contains(Lower(tag), query) <==> exists i :: 0 <= i <= |tag| && OccursAt(Lower(tag), query, i)
  {
    ContainsMeansOccurs(Lower(tag), query);
  }

  /** The search query as the input listener stores it is already lower case,
      so matching against lower-cased fields is case-insensitive. */
  lemma QueryIsLowerCase(input: string)
    ensures Lower(Trim(Lower(input))) == Trim(Lower(input))
  {
    var i, j := TrimIsSlice(Lower(input));
    LowerSlice(Lower(input), i, j);
    LowerIdempotent(input);
  }

  /** The empty query occurs in every name, so the shortcut `filteredGames =
      gamesData` of `filterGames` is what the matching loop would give too. */
  lemma EmptyQueryMatchesAll(games: seq<Game>)
    ensures Filter(games, MatchesQuery("")) == games
  {
    forall k | 0 <= k < |games| ensures MatchesQuery("")(games[k]) {
      assert OccursAt(Lower(games[k].name), "", 0);
    }
    FilterAllPass(games, MatchesQuery(""));
  }

  /** The loop of `filterGames` for a non-empty query: every game whose name,
      tags or description contain the query, in catalog order. */
  method SearchCatalog(games: seq<Game>, query: string) returns (found: seq<Game>)
    ensures found == Filter(games, MatchesQuery(query))
  {
    found := [];
    for i := 0 to |games|
      invariant found == Filter(games[..i], MatchesQuery(query))
    {
      var game := games[i];
      var matchFound := false;
      if Contains(Lower(game.name), query) {
        matchFound := true;
      }
      for j := 0 to |game.tags|
        invariant matchFound <==> Contains(Lower(game.name), query)
                                  || exists k :: 0 <= k < j && Contains(Lower(game.tags[k]), query)
      {
        if Contains(Lower(game.tags[j]), query) {
          matchFound := true;
        }
      }
      if Contains(Lower(game.description), query) {
        matchFound := true;
      }
      AppendStep(games, query, i, found, matchFound);
      if matchFound {
        found := found + [game];
      }
    }
    assert games[..|games|] == games;
  }

  /** One turn of the outer loop of `SearchCatalog`: the game is appended exactly when it matches. */
  lemma AppendStep(games: seq<Game>, query: string, i: nat, found: seq<Game>, matchFound: bool)
    requires i < |games|
    requires found == Filter(games[..i], MatchesQuery(query))
    requires matchFound == Matches(games[i], query)
    ensures (if matchFound then found + [games[i]] else found) == Filter(games[..i + 1], MatchesQuery(query))
  {
    FilterStep(games, MatchesQuery(query), i);
  }

  // ================================================================ pages

  /** `Math.ceil(n / gamesPerPage)`: the least number of pages of twelve that
      hold `n` games. */
  function TotalPages(n: nat): (pages: nat)
    ensures GamesPerPage * pages >= n
    ensures pages > 0 ==> GamesPerPage * (pages - 1) < n
  {
    (n + GamesPerPage - 1) / GamesPerPage
  }

  /** `Array.prototype.slice(start, end)`: negative positions count from the
      end, positions beyond the length are clipped, and a start past the end
      gives the empty list. */
  function JsSlice<T>(s: seq<T>, start: int, end: int): (r: seq<T>)
    ensures |r| <= |s|
    ensures 0 <= start <= end <= |s| ==> r == s[start..end]
    ensures start >= |s| || 0 <= end <= start ==> r == []
  {
    var from := if start < 0 then (if |s| + start < 0 then 0 else |s| + start)
                else if start < |s| then start else |s|;
    var to := if end < 0 then (if |s| + end < 0 then 0 else |s| + end)
              else if end < |s| then end else |s|;
    if from < to then s[from..to] else []
  }

  /** The games `displayGameGrid` shows on page `page` of `s`. */
  function PageWindow<T>(s: seq<T>, page: int): seq<T> {
    var start := (page - 1) * GamesPerPage;
    JsSlice(s, start, start + GamesPerPage)
  }

  function Min(a: int, b: int): int {
    if a < b then a else b
  }

  /** From page 1 on, the window is the contiguous slice of twelve starting at
      `(page - 1) * 12`, clipped to the list, so it never holds more than twelve. */
  lemma PageWindowIsSlice<T>(s: seq<T>, page: int)
    requires page >= 1
    ensures var start := (page - 1) * GamesPerPage;
            PageWindow(s, page) == s[Min(start, |s|)..Min(start + GamesPerPage, |s|)]
    ensures |PageWindow(s, page)| <= GamesPerPage
  {
  }

  /** A page from 1 on has games exactly when it is one of the `TotalPages` pages. */
  lemma PageWindowEmptyIff<T>(s: seq<T>, page: int)
    requires page >= 1
    ensures PageWindow(s, page) == [] <==> page > TotalPages(|s|)
  {
    PageWindowIsSlice(s, page);
    var pages := TotalPages(|s|);
    if page <= pages {
      assert (page - 1) * GamesPerPage <= (pages - 1) * GamesPerPage;
    } else {
      assert (page - 1) * GamesPerPage >= pages * GamesPerPage;
    }
  }

  /** Pages 1 to `k`, one after the other. */
  ghost function PagesUpTo<T>(s: seq<T>, k: nat): seq<T>
    decreases k
  {
    if k == 0 then [] else PagesUpTo(s, k - 1) + PageWindow(s, k)
  }

  lemma {:induction false} PagesUpToIsPrefix<T>(s: seq<T>, k: nat)
    ensures PagesUpTo(s, k) == s[..Min(k * GamesPerPage, |s|)]
    decreases k
  {
    if k > 0 {
      PagesUpToIsPrefix(s, k - 1);
      PageWindowIsSlice(s, k);
      var a := Min((k - 1) * GamesPerPage, |s|);
      var b := Min(k * GamesPerPage, |s|);
      assert s[..a] + s[a..b] == s[..b];
    }
  }

  /** Read one after the other, the pages show the whole list, each game once,
      in order. */
  lemma PagesCoverList<T>(s: seq<T>)
    ensures PagesUpTo(s, TotalPages(|s|)) == s
  {
    PagesUpToIsPrefix(s, TotalPages(|s|));
    assert s[..|s|] == s;
  }

  /** Thirteen games make two pages: twelve on the first, one on the second. */
  lemma ThirteenGames<T>(s: seq<T>)
    requires |s| == 13
    ensures TotalPages(|s|) == 2
    ensures |PageWindow(s, 1)| == 12 && |PageWindow(s, 2)| == 1
  {
  }

  datatype Card = Card(id: int, image: string, name: string, price: real)

  /** The card of a game: link target, image, title and the plain price (no
      special case for 0, unlike the details page). */
  function CardOf(g: Game): Card {
    Card(g.id, g.image, g.name, g.price)
  }

  datatype GridView = NoGamesFound | Cards(cards: seq<Card>)

  datatype PageButton = PageButton(number: nat, active: bool)

  datatype ButtonState = ButtonState(prevDisabled: bool, nextDisabled: bool, active: seq<bool>)

  /** The loop of `setupPagination` that creates one button per page, numbered
      from 1, with only the current page's button active. */
  method PageNumbers(total: nat, current: int) returns (buttons: seq<PageButton>)
    ensures |buttons| == total
    ensures forall k :: 0 <= k < total ==> buttons[k].number == k + 1
    ensures forall k :: 0 <= k < total ==> (buttons[k].active <==> k + 1 == current)
  {
    buttons := [];
    for i := 1 to total + 1
      invariant |buttons| == i - 1
      invariant forall k :: 0 <= k < i - 1 ==> buttons[k] == PageButton(k + 1, k + 1 == current)
    {
      buttons := buttons + [PageButton(i, i == current)];
    }
  }

  // ================================================================ featured

  predicate IsFeatured(g: Game) {
    g.featured
  }

  /** `featuredGame.featuredImage || featuredGame.image`. */
  function FeaturedImage(g: Game): (r: string)
    ensures g.featuredImage.Some? && g.featuredImage.value != "" ==> r == g.featuredImage.value
    ensures g.featuredImage.None? || g.featuredImage == Some("") ==> r == g.image
    ensures g.image != "" ==> r != ""
  {
    match g.featuredImage
    case Some(url) => if url != "" then url else g.image
    case None => g.image
  }

  /** `platform.join(', ')`. */
  function Join(items: seq<string>, sep: string): (r: string)
    ensures items != [] ==> |items[0]| <= |r| && r[..|items[0]|] == items[0]
    ensures items != [] ==> |items[|items| - 1]| <= |r| && r[|r| - |items[|items| - 1]|..] == items[|items| - 1]
    decreases |items|
  {
    if items == [] then ""
    else if |items| == 1 then items[0]
    else Join(items[..|items| - 1], sep) + sep + items[|items| - 1]
  }

  /** `join` puts the separator between neighbours only: no items give the
      empty string, one item is itself, and each further item adds the
      separator and that item. */
  lemma JoinSteps(items: seq<string>, x: string, sep: string)
    ensures Join([], sep) == ""
    ensures Join([x], sep) == x
    ensures items != [] ==> Join(items + [x], sep) == Join(items, sep) + sep + x
  {
    if items != [] {
      assert (items + [x])[..|items|] == items;
    }
  }

  datatype StripItem =
    | Video(videoId: string)                 // an embedded player
    | Screenshot(url: string, number: nat)   // an image, alt text "Screenshot <number>"
    | More(remaining: nat)                   // the "+<remaining>" card

  /** How item `i` (0 or 1) of the strip is shown: a video for a `youtube`
      entry, a screenshot for every other type. */
  function StripEntry(m: Media, i: nat): StripItem {
    if m.kind == YouTube then Video(VideoId(m.url)) else Screenshot(m.url, i + 1)
  }

  /** The strip under the featured game: the first two entries, then one
      card counting the rest when there are three or more, and nothing else. */
  ghost predicate IsStripOf(strip: seq<StripItem>, media: seq<Media>) {
    |strip| == (if |media| <= 2 then |media| else 3)
    && (forall k :: 0 <= k < |strip| && k < 2 ==> strip[k] == StripEntry(media[k], k))
    && (|media| >= 3 ==> strip[2] == More(|media| - 2))
  }

  /** The media loop of `updateFeaturedContent`. */
  method MediaStrip(media: seq<Media>) returns (strip: seq<StripItem>)
    ensures IsStripOf(strip, media)
  {
    strip := [];
    if |media| > 0 {
      for i := 0 to |media|
        invariant |strip| == (if i <= 2 then i else 3)
        invariant forall k :: 0 <= k < |strip| && k < 2 ==> strip[k] == StripEntry(media[k], k)
        invariant i >= 3 ==> strip[2] == More(|media| - 2)
      {
        if i < 2 {
          strip := strip + [StripEntry(media[i], i)];
        } else if i == 2 {
          strip := strip + [More(|media| - 2)];
        }
      }
    }
  }

  /** A long media list shows two entries and "+3" for five. */
  lemma StripOfFive(strip: seq<StripItem>, media: seq<Media>)
    requires |media| == 5 && IsStripOf(strip, media)
    ensures |strip| == 3 && strip[2] == More(3)
    ensures strip[0] == StripEntry(media[0], 0) && strip[1] == StripEntry(media[1], 1)
  {
  }

  /** The loop of `loadGames` that collects the featured games, in catalog order. */
  method CollectFeatured(games: seq<Game>) returns (featured: seq<Game>)
    ensures featured == Filter(games, IsFeatured)
  {
    featured := [];
    for i := 0 to |games|
      invariant featured == Filter(games[..i], IsFeatured)
    {
      FilterStep(games, IsFeatured, i);
      if games[i].featured {
        featured := featured + [games[i]];
      }
    }
    assert games[..|games|] == games;
  }

  /** The dots under the featured game: one per featured game, and only the
      one at the current index active. */
  ghost predicate IsDotsOf(dots: seq<bool>, count: nat, current: int) {
    |dots| == count && forall i :: 0 <= i < count ==> (dots[i] <==> i == current)
  }

  /** The dot loop of `updateFeaturedContent`. */
  method CarouselDots(count: nat, current: int) returns (dots: seq<bool>)
    ensures IsDotsOf(dots, count, current)
  {
    dots := [];
    for i := 0 to count
      invariant |dots| == i
      invariant forall k :: 0 <= k < i ==> (dots[k] <==> k == current)
    {
      dots := dots + [i == current];
    }
  }

  datatype FeaturedView = FeaturedView(
    linkId: int,
    imageUrl: string,
    platforms: seq<string>,
    price: real,
    dots: seq<bool>,
    title: string,
    tags: seq<string>,
    description: string,
    publisher: string,
    platformList: string,
    releaseDate: string,
    strip: seq<StripItem>)

  /** What the banner and the details panel show for featured game `g`. */
  ghost predicate Presents(v: FeaturedView, g: Game, count: nat, current: int) {
    v.linkId == g.id && v.imageUrl == FeaturedImage(g) && v.platforms == g.platform
    && v.price == g.price && IsDotsOf(v.dots, count, current)
    && v.title == g.name && v.tags == g.tags && v.description == g.description
    && v.publisher == g.publisher && v.platformList == Join(g.platform, ", ")
    && v.releaseDate == g.releaseDate && IsStripOf(v.strip, g.media)
  }

  // ================================================================ redraws

  /** The grid shows the cards of the page window of `list` at `page`, in
      order, or the "No games found" placeholder exactly when that window is empty. */
  ghost predicate ShowsGrid(grid: GridView, list: seq<Game>, page: int) {
    var w := PageWindow(list, page);
    (grid == NoGamesFound <==> w == [])
    && (grid.Cards? ==> |grid.cards| == |w| && forall k :: 0 <= k < |w| ==> grid.cards[k] == CardOf(w[k]))
  }

  /** Prev is disabled exactly on page 1 and Next exactly on page `total`
      (so never when there are no pages); of the `existing` page buttons only
      the current page's is active. */
  ghost predicate ShowsButtons(b: ButtonState, current: int, total: nat, existing: nat) {
    (b.prevDisabled <==> current == 1)
    && (b.nextDisabled <==> current == total)
    && |b.active| == existing
    && forall k :: 0 <= k < existing ==> (b.active[k] <==> k + 1 == current)
  }

  /** With no pages (an empty result list), page 1 leaves Prev disabled but Next enabled. */
  lemma NextEnabledWithoutPages(b: ButtonState, existing: nat)
    requires ShowsButtons(b, 1, TotalPages(0), existing)
    ensures b.prevDisabled && !b.nextDisabled
  {
  }

  /** The page buttons `setupPagination` lays out: one per page, numbered
      from 1, only the current one active. */
  ghost predicate IsPageRow(buttons: seq<PageButton>, total: nat, current: int) {
    |buttons| == total && forall k :: 0 <= k < total ==> buttons[k] == PageButton(k + 1, k + 1 == current)
  }

  /** The banner is absent exactly when `index` names no featured game, and
      otherwise presents that game with one dot per featured game. */
  ghost predicate ShowsBanner(view: Option<FeaturedView>, featured: seq<Game>, index: int) {
    (view.None? <==> !(0 <= index < |featured|))
    && (view.Some? ==> Presents(view.value, featured[index], |featured|, index))
  }

  /** One `displayGameGrid`: the grid and the button state it leaves. */
  datatype GridRefresh = GridRefresh(grid: GridView, buttons: ButtonState)

  /** What `loadGames` draws once the catalog is in: the banner, the grid and
      the freshly laid out page buttons. */
  datatype Loaded = Loaded(banner: Option<FeaturedView>, refresh: GridRefresh, pages: seq<PageButton>)

  /** What `filterGames` draws: the grid of page 1 and the new page buttons. */
  datatype Filtered = Filtered(refresh: GridRefresh, pages: seq<PageButton>)

  // ================================================================ page state

  /** The module-level state of `script.js`. `pageCount` is the `totalPages`
      of the latest `setupPagination`: the number of page buttons it made and
      the bound its Next listener captured. Only that latest listener is
      modelled. */
  class CatalogPage {
    var gamesData: seq<Game>
    var currentPage: int
    var filteredGames: seq<Game>
    var searchQuery: string
    var featuredGames: seq<Game>
    var currentFeaturedIndex: int
    var pageCount: nat

    /** The list the grid and the pagination read. */
    function ActiveList(): seq<Game>
      reads this
    {
      if |filteredGames| > 0 || searchQuery != "" then filteredGames else gamesData
    }

    /** The buttons were laid out for the current list, and pages count from 1. */
    ghost predicate Consistent()
      reads this
    {
      pageCount == TotalPages(|ActiveList()|) && currentPage >= 1
    }

    /** The current page is one the buttons offer (page 1 when there are none). */
    ghost predicate PageInRange()
      reads this
    {
      currentPage == 1 || currentPage <= pageCount
    }

    /** A grid refresh drawn from the state as it is now. */
    ghost predicate ShowsRefresh(r: GridRefresh)
      reads this
    {
      ShowsGrid(r.grid, ActiveList(), currentPage)
      && ShowsButtons(r.buttons, currentPage, TotalPages(|ActiveList()|), pageCount)
    }

    constructor ()
      ensures gamesData == [] && filteredGames == [] && featuredGames == []
      ensures searchQuery == "" && currentPage == 1 && currentFeaturedIndex == 0 && pageCount == 0
      ensures Consistent() && PageInRange()
    {
      gamesData := [];
      currentPage := 1;
      filteredGames := [];
      searchQuery := "";
      featuredGames := [];
      currentFeaturedIndex := 0;
      pageCount := 0;
    }

    /** `loadGames` after the fetch: `None` is a fetch or parse failure, which
        is only logged. Otherwise the catalog is stored, the featured subset
        collected, then the banner and the grid drawn (the grid still against
        the old page buttons) and the pagination laid out again. */
    method LoadGames(catalog: Option<seq<Game>>) returns (shown: Option<Loaded>)
      requires Consistent()
      modifies this
      ensures catalog.None? ==> unchanged(this) && shown.None?
      ensures catalog.Some? ==> gamesData == catalog.value && featuredGames == Filter(catalog.value, IsFeatured)
      ensures filteredGames == old(filteredGames) && searchQuery == old(searchQuery)
      ensures currentPage == old(currentPage) && currentFeaturedIndex == old(currentFeaturedIndex)
      ensures Consistent()
      ensures old(currentPage) == 1 ==> PageInRange()
      ensures catalog.Some? ==> shown.Some?
      ensures shown.Some? ==> ShowsBanner(shown.value.banner, featuredGames, currentFeaturedIndex)
      ensures shown.Some? ==> ShowsGrid(shown.value.refresh.grid, ActiveList(), currentPage)
      ensures shown.Some? ==> ShowsButtons(shown.value.refresh.buttons, currentPage, pageCount, old(pageCount))
      ensures shown.Some? ==> IsPageRow(shown.value.pages, pageCount, currentPage)
    {
      shown := None;
      if catalog.Some? {
        var games := catalog.value;
        gamesData := games;
        featuredGames := CollectFeatured(games);
        var banner := UpdateFeaturedContent();
        var refresh := DisplayGameGrid();
        var pages := SetupPagination();
        shown := Some(Loaded(banner, refresh, pages));
      }
    }

    /** The input listener of `setupSearch`: lower-case and trim what was typed, then filter. */
    method SearchInput(input: string) returns (shown: Filtered)
      modifies this
      ensures searchQuery == Trim(Lower(input)) && Lower(searchQuery) == searchQuery
      ensures filteredGames == if searchQuery == "" then gamesData
                               else Filter(gamesData, MatchesQuery(searchQuery))
      ensures gamesData == old(gamesData) && featuredGames == old(featuredGames)
      ensures currentFeaturedIndex == old(currentFeaturedIndex)
      ensures currentPage == 1 && ActiveList() == filteredGames
      ensures Consistent() && PageInRange()
      ensures ShowsGrid(shown.refresh.grid, filteredGames, 1)
      ensures ShowsButtons(shown.refresh.buttons, 1, pageCount, old(pageCount))
      ensures IsPageRow(shown.pages, pageCount, 1)
    {
      searchQuery := Trim(Lower(input));
      QueryIsLowerCase(input);
      assert Lower(searchQuery) == searchQuery;
      shown := FilterGames();
      assert searchQuery == Trim(Lower(input));
    }

    /** `filterGames`: the whole catalog for an empty query, otherwise the
        matching games in order; always back to page 1, whose grid is drawn
        before the page buttons are laid out again. */
    method FilterGames() returns (shown: Filtered)
      modifies this
      ensures filteredGames == if searchQuery == "" then gamesData
                               else Filter(gamesData, MatchesQuery(searchQuery))
      ensures gamesData == old(gamesData) && searchQuery == old(searchQuery)
      ensures featuredGames == old(featuredGames) && currentFeaturedIndex == old(currentFeaturedIndex)
      ensures currentPage == 1
      ensures ActiveList() == filteredGames
      ensures Consistent() && PageInRange()
      ensures ShowsGrid(shown.refresh.grid, filteredGames, 1)
      ensures ShowsButtons(shown.refresh.buttons, 1, pageCount, old(pageCount))
      ensures IsPageRow(shown.pages, pageCount, 1)
    {
      if searchQuery == "" {
        filteredGames := gamesData;
      } else {
        filteredGames := SearchCatalog(gamesData, searchQuery);
      }
      currentPage := 1;
      var refresh := DisplayGameGrid();
      var pages := SetupPagination();
      shown := Filtered(refresh, pages);
    }

    /** `setupPagination`: count the pages of the active list and lay out one
        button per page. */
    method SetupPagination() returns (buttons: seq<PageButton>)
      modifies this`pageCount
      ensures pageCount == TotalPages(|ActiveList()|)
      ensures IsPageRow(buttons, pageCount, currentPage)
    {
      pageCount := TotalPages(|ActiveList()|);
      buttons := PageNumbers(pageCount, currentPage);
    }

    /** `displayGameGrid`: the cards of the current page window of the active
        list, or the "No games found" placeholder when the window is empty;
        then the button state. */
    method DisplayGameGrid() returns (r: GridRefresh)
      ensures ShowsRefresh(r)
    {
      var shown := PageWindow(ActiveList(), currentPage);
      var grid := NoGamesFound;
      if |shown| != 0 {
        var cards := [];
        for i := 0 to |shown|
          invariant |cards| == i
          invariant forall k :: 0 <= k < i ==> cards[k] == CardOf(shown[k])
        {
          cards := cards + [CardOf(shown[i])];
        }
        grid := Cards(cards);
      }
      var buttons := UpdatePaginationButtons();
      r := GridRefresh(grid, buttons);
    }

    /** `updatePaginationButtons`, over the `pageCount` buttons on the page. */
    method UpdatePaginationButtons() returns (b: ButtonState)
      ensures ShowsButtons(b, currentPage, TotalPages(|ActiveList()|), pageCount)
    {
      var totalPages := TotalPages(|ActiveList()|);
      var prevDisabled := currentPage == 1;
      var nextDisabled := currentPage == totalPages;
      var active := [];
      for i := 0 to pageCount
        invariant |active| == i
        invariant forall k :: 0 <= k < i ==> (active[k] <==> k + 1 == currentPage)
      {
        active := active + [i + 1 == currentPage];
      }
      b := ButtonState(prevDisabled, nextDisabled, active);
    }

    /** The Prev listener: one page back and redraw, unless on page 1. */
    method Prev() returns (r: Option<GridRefresh>)
      requires Consistent()
      modifies this`currentPage
      ensures currentPage == if old(currentPage) > 1 then old(currentPage) - 1 else old(currentPage)
      ensures r.Some? <==> old(currentPage) > 1
      ensures r.Some? ==> ShowsRefresh(r.value)
      ensures Consistent()
      ensures old(PageInRange()) ==> PageInRange()
    {
      r := None;
      if currentPage > 1 {
        currentPage := currentPage - 1;
        var refresh := DisplayGameGrid();
        r := Some(refresh);
      }
    }

    /** The Next listener: one page on and redraw, unless already on the last page. */
    method Next() returns (r: Option<GridRefresh>)
      requires Consistent()
      modifies this`currentPage
      ensures currentPage == if old(currentPage) < pageCount then old(currentPage) + 1 else old(currentPage)
      ensures r.Some? <==> old(currentPage) < pageCount
      ensures r.Some? ==> ShowsRefresh(r.value)
      ensures Consistent()
      ensures old(PageInRange()) ==> PageInRange()
    {
      r := None;
      if currentPage < pageCount {
        currentPage := currentPage + 1;
        var refresh := DisplayGameGrid();
        r := Some(refresh);
      }
    }

    /** The listener of page button `page`; buttons exist for pages 1 to
        `pageCount`. It redraws the grid and then the button state once more. */
    method GoToPage(page: nat) returns (r: GridRefresh, again: ButtonState)
      requires Consistent()
      requires 1 <= page <= pageCount
      modifies this`currentPage
      ensures currentPage == page
      ensures ShowsRefresh(r) && ShowsButtons(again, page, pageCount, pageCount)
      ensures Consistent() && PageInRange()
    {
      currentPage := page;
      r := DisplayGameGrid();
      again := UpdatePaginationButtons();
    }

    /** The listener of carousel dot `dot`, whose `data-index` attribute is the
        decimal form of its position (read back by `parseInt`, see
        `Text.ParseIntOfDecimal`): select that featured game and redraw. */
    method SelectDot(dot: nat) returns (view: Option<FeaturedView>)
      modifies this`currentFeaturedIndex
      ensures currentFeaturedIndex == dot
      ensures ShowsBanner(view, featuredGames, dot)
    {
      currentFeaturedIndex := dot;
      view := UpdateFeaturedContent();
    }

    /** `updateFeaturedContent`: nothing when the index names no featured
        game; otherwise the banner, the dots and the details panel of that game. */
    method UpdateFeaturedContent() returns (view: Option<FeaturedView>)
      ensures ShowsBanner(view, featuredGames, currentFeaturedIndex)
    {
      if !(0 <= currentFeaturedIndex < |featuredGames|) {
        return None;
      }
      var g := featuredGames[currentFeaturedIndex];
      var platforms := Labels(g.platform);
      var dots := CarouselDots(|featuredGames|, currentFeaturedIndex);
      var tags := Labels(g.tags);
      var strip := MediaStrip(g.media);
      view := Some(FeaturedView(g.id, FeaturedImage(g), platforms, g.price, dots, g.name, tags,
                                g.description, g.publisher, Join(g.platform, ", "), g.releaseDate, strip));
    }
  }
}
