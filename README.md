# Steam-style game catalog: the page logic in Dafny

This project models the browser-side logic of a small game-catalog site. It has two pages.

- **The catalog page** (`script.js`) loads the game list and keeps the featured games.
  - It searches the list by name, tag or description, case-insensitively.
  - It shows the active list twelve cards per page, with Prev/Next and numbered page buttons.
  - It runs a featured-game carousel with one dot per featured game and a media strip trimmed to two entries plus a `+N` card.
- **The details page** (`details.js`) reads the `id` query parameter and finds the first game with that id. If there is none, it sends the browser home. Otherwise it renders the game and its media gallery.

Both pages extract YouTube video ids with their own `getYouTubeVideoId`, and the two functions differ.

Modules, one per file:

| module | file | what it holds |
|---|---|---|
| `Wrappers` | `wrappers.dfy` | `Option` |
| `Seqs` | `seqs.dfy` | order-preserving `Filter`, shared by the three push loops |
| `Text` | `text.dfy` | `toLowerCase`, `trim`, `indexOf`, `parseInt`, decimal output |
| `Patterns` | `patterns.dfy` | the YouTube regular expressions as explicit left-to-right scans |
| `Games` | `games.dfy` | the game record and the label loops |
| `Catalog` | `catalog.dfy` | `script.js`: the class `CatalogPage` holds its module-level state |
| `Details` | `details.dfy` | `details.js`: the class `DetailsPage` holds `gameData` |

How the source is represented:

- State that the source updates in place is a field of a class, and each listener is a method with a `modifies` clause. Each method returns a structured view of what it draws: cards, dots, strip items, page buttons, gallery blocks, or a redirect.
- Regular expressions follow JavaScript `String.match` without the `g` flag.
  - Start positions are tried from left to right.
  - At each position the alternatives are tried in order.
  - A greedy `[^…]+` takes the longest run of allowed characters, at least one.
  - In `watch\?.*v=`, the `.*` gives characters back from the longest run of non-line-terminators, so the last `v=` followed by at least one character that is not `&`, `\n`, `?` or `#` wins (`Catalog.LastVWins`, `Patterns.LastVOfQuery`).
- The inputs that come from outside are parameters:
  - `fetch` plus `response.json()` becomes an `Option<seq<Game>>`, where `None` is a load or parse failure;
  - `window.location.pathname` becomes a string;
  - `URLSearchParams.get('id')` becomes an `Option<string>`, where `None` is `null`.
- A redirect is returned as a value, not performed.

Facts about the code that are easy to miss:

- **Two extractors.** The two `getYouTubeVideoId` functions differ. The catalog falls back to the input string; the details page returns `null`. The details page tries the address pattern before the bare-id test, and it stops the id at `&`, `?` and `/` where the catalog stops at `&`, `\n`, `?` and `#`. Only the catalog has the second pattern, `watch?…v=`. `Details.PagesDifferOnNonId`, `Details.CatalogKeepsSlash` and `Details.DetailsStopsAtSlash` state the differences.
- **Gallery types.** The details gallery always shows an image and skips a video whose id cannot be extracted. It also drops every entry whose `type` is neither `image` nor `youtube` (`Details.Shown`).
- **The Next button with no pages.** The code leaves Next enabled on page 1 when there are no pages, because it tests `currentPage === totalPages`. `Catalog.NextEnabledWithoutPages` states this.

## Model

| member | source | states |
|---|---|---|
| Seqs.Filter | script.js:357-384 | the kept elements all pass the test, and there are never more of them than in the input |
| Seqs.Positions | details.js:154-179 | the kept indices are in range, strictly increasing, pass the test, and include every index that passes |
| Seqs.FilterAtPositions | details.js:154-179 | filtering keeps exactly the elements at the passing indices, in order: an order-preserving subsequence |
| Seqs.FilterMembership | script.js:357-384 | an element is in the result if and only if it is in the input and passes |
| Seqs.FilterAllPass | script.js:352-354 | when every element passes, the result is the input itself |
| Seqs.FilterStep | script.js:380-383 | one more pushed element extends the filtered prefix by that element exactly when it passes |
| Text.LowerIdempotent | script.js:344 | lower-casing twice equals lower-casing once |
| Text.LowerSlice | script.js:344 | lower-casing commutes with slicing |
| Text.Lower | script.js:344 | same length; each letter A-Z becomes its lower-case partner (code point plus 32); every other character is kept; no letter A-Z is left |
| Text.TrimStart | script.js:344 | the result is a suffix; everything dropped is white space; the result does not start with white space |
| Text.TrimEnd | script.js:344 | the result is a prefix; everything dropped is white space; the result does not end with white space |
| Text.Trim | script.js:344 | the result neither starts nor ends with white space; `Text.TrimIsSlice` shows it is one slice of the input |
| Text.TrimIsSlice | script.js:344 | what `trim` keeps is one contiguous slice of its input |
| Text.IndexFrom | script.js:364 | -1 if and only if the query occurs at no index from the start point; otherwise the first index at which it occurs |
| Text.IndexOf | script.js:364 | -1 if and only if the query occurs nowhere; otherwise the first index at which it occurs |
| Text.ContainsMeansOccurs | script.js:364 | `indexOf(q) !== -1` holds exactly when `q` occurs at some index |
| Text.Contains | script.js:364-375 | `indexOf(q) !== -1`; `Text.ContainsMeansOccurs` states that it holds exactly when `q` occurs at some index |
| Text.FreeOfWithoutFirst | script.js:194-195 | a string none of whose characters is the first one of `q` holds no `q` |
| Text.DigitValue | details.js:68 | the value is non-negative exactly for `0`-`9`, and for `a`-`f`/`A`-`F` in radix 16; a decimal digit has its usual value, a hex letter 10 to 15; the value lies below the radix, and -1 marks a non-digit |
| Text.DigitRun | details.js:68 | the digit run is the longest prefix of digits: every character in it is a digit, and the next one is not |
| Text.NatDigits | script.js:434 | the decimal form of a number is non-empty and all digits |
| Text.DecimalString | script.js:434 | `'' + game.id` in a card link: a minus sign for a negative id, then the digits of its magnitude; `Text.ParseIntOfDecimal` states that `parseInt` reads it back as the id |
| Text.ParseIntOfLetter | details.js:68 | `parseInt` of a string starting with a letter that is not a hex digit, such as `"null"`, is `NaN` |
| Text.ParseInt | details.js:68 | `parseInt` without a radix: skip leading white space, an optional sign, a hex prefix, then the digit run; `Text.ParseIntOfDecimal` and `Text.ParseIntOfLetter` state its meaning |
| Text.ParseUnsigned | details.js:68 | the unsigned part of `parseInt`: `NaN` for an empty digit run, else the run's value in radix 10 or 16; `Text.ParseUnsignedOfDigits` reads back a decimal digit string |
| Text.ParseIntOfDecimal | details.js:68 | `parseInt` reads back the decimal form that the catalog writes into a link: the round trip gives the integer |
| Patterns.Run | script.js:194 | a greedy negated class takes a prefix with no stop character, ending at the end of the string or before a stop character |
| Patterns.RunOfToken | script.js:194 | a stop-free token followed by the end or by a stop character is exactly what the class takes |
| Patterns.AfterPrefix | script.js:194 | a capture after a literal prefix is non-empty and stop-free, and exists only when the prefix is there |
| Patterns.LastV | script.js:195 | a capture of `.*v=([^…]+)` is non-empty and stop-free |
| Patterns.LastVBacktracks | script.js:195 | backtracking skips every `.*` length at which no `v=` match starts |
| Patterns.MatchHere | script.js:194-195 | an anchored match starts with `y` and captures a non-empty, stop-free token |
| Patterns.SearchFrom | script.js:199 | a successful search captures a non-empty, stop-free token |
| Patterns.SearchFromNoneIff | script.js:199 | the search fails if and only if the pattern matches at no start position |
| Patterns.SearchFromLeftmost | script.js:199 | a successful search returns the match at the leftmost start position where the pattern matches |
| Patterns.Search | script.js:199-201 | `match[1]` of a successful match is non-empty and stop-free |
| Patterns.SearchSkips | script.js:199 | a stretch of text without `y` can never start a match |
| Patterns.SearchFromSameTail | script.js:199 | two scans that start where the remaining text is the same find the same |
| Patterns.SearchFromSkipsNone | script.js:199 | start positions at which the pattern does not match are passed over |
| Patterns.MatchStartsYoutu | script.js:194-195 | every match of either pattern begins with `youtu` |
| Patterns.FreeTextNeverMatches | script.js:194-201 | text holding no `youtu` matches neither pattern at any position |
| Patterns.NoMatchInFreeText | script.js:199 | in `pre + s`, with no `youtu` in `pre` and `s` starting with `y`, no match starts inside `pre` |
| Patterns.SearchAfterFreeText | script.js:199 | text holding no `youtu` in front of a string starting with `y` changes nothing the pattern finds |
| Patterns.AlternationNeedsDot | script.js:194 | each of the three prefixes has a `.` at index 5 or 7 |
| Patterns.AfterPrefixTakes | script.js:194 | a well-formed token right after a prefix is what that alternative captures |
| Patterns.AlternationHere | script.js:194 | after any of `youtube.com/watch?v=`, `youtu.be/` or `youtube.com/embed/`, the alternation captures the token |
| Patterns.AlternationFinds | script.js:194-201 | a token after one of the three prefixes is found wherever the prefix sits, if no `youtu` comes before it |
| Patterns.NoVHere | script.js:195 | no `v=` starts at a position holding another character |
| Patterns.NoVAfter | script.js:195 | after a `v=` followed by text holding no `v=`, no further `v=` starts |
| Patterns.LastVOfQuery | script.js:195 | backtracking from the end stops at the last `v=` and captures its token |
| Patterns.WatchThenVTakesLast | script.js:195 | `watch?…v=` captures the token after the last `v=` on the line |
| Patterns.WatchQueryOneY | script.js:195 | `youtube.com/watch?` holds no `y` except its first character |
| Patterns.NoVEqualsAtJoin | script.js:194 | text not starting with `v=`, joined to text starting with neither `=` nor (when the first part is empty) `v`, does not start with `v=` |
| Patterns.AlternationPassesWatchQuery | script.js:194 | right after `youtube.com/watch?`, a query not starting with `v=` leaves the first pattern finding exactly what it finds in the query alone |
| Patterns.AlternationMissesOtherQuery | script.js:194 | `youtube.com/watch?` followed by a query that does not start with `v=`, with no `youtu` in that query, defeats the first pattern |
| Games.Labels | script.js:243-245 | the platform and tag loops emit one label per entry, in order, and nothing else |
| Catalog.VideoId | script.js:186-207 | the catalog's `getYouTubeVideoId`; `Catalog.VideoIdEmptyIff`, `Catalog.BareIdUnchanged`, `Catalog.VideoIdFromAddress`, `Catalog.VideoIdFromLaterV` and `Catalog.VideoIdFallsBack` state what it returns |
| Catalog.VideoIdEmptyIff | script.js:186-207 | the catalog's extracted id is empty exactly when the input is |
| Catalog.VideoIdFromAddress | script.js:193-203 | an address with one of the three prefixes, when no `youtu` comes before the prefix, yields the token after it, up to `&`, `\n`, `?`, `#` or the end |
| Catalog.VideoIdFromLaterV | script.js:193-203 | for `pre + (youtube.com/watch? + mid + v= + token + rest)` where `pre` and `mid + v= + token + rest` hold no `youtu`, `mid` is non-empty and does not start with `v=`, nothing after `youtube.com/watch?` is a line terminator, `token + rest` holds no `v=`, the token is non-empty and stop-free, and `rest` is empty or starts with a stop: the first pattern fails and the id is the token after the last `v=` |
| Catalog.LastVWins | script.js:195 | `youtube.com/watch?x&v=a&v=b` yields `b` |
| Catalog.WatchExample | script.js:186-207 | the watch address of the video `dQw4w9WgXcQ` yields `dQw4w9WgXcQ` |
| Catalog.ShortExample | script.js:186-207 | the `youtu.be` address yields `dQw4w9WgXcQ` |
| Catalog.EmbedExample | script.js:186-207 | the embed address yields `dQw4w9WgXcQ` |
| Catalog.BareExample | script.js:188-190 | the id `dQw4w9WgXcQ` is returned unchanged |
| Catalog.BareIdUnchanged | script.js:188-190 | every 11-character string without `/` or `?` is returned unchanged, before any pattern is tried |
| Catalog.EarlierShortLinkWins | script.js:193-203 | for `pre + (youtube.com/watch? + x + youtu.be/ + token + rest)` where `pre` and `x` hold no `youtu`, `x` does not start with `v=`, the token is non-empty and stop-free, and `rest` is empty or starts with a stop: the first pattern takes the short link's token, not a later `v=` value; so `youtube.com/watch?x=youtu.be/a&v=c` gives `a` |
| Catalog.VideoIdFallsBack | script.js:205-206 | a string holding no `youtu`, such as a link to another site, matches neither pattern and is returned as it is |
| Catalog.Matches | script.js:363-378 | the search test on one game; `Catalog.MatchesMeaning` states it as occurrence in the lower-cased name, a tag or the description |
| Catalog.MatchesMeaning | script.js:363-378 | a game matches exactly when the query occurs in its lower-cased name, in some lower-cased tag, or in its lower-cased description |
| Catalog.TagMatchMeaning | script.js:369-373 | a tag matches exactly when the query occurs in it, lower-cased |
| Catalog.QueryIsLowerCase | script.js:344 | the stored query is already lower case, so matching against lower-cased fields is case-insensitive |
| Catalog.EmptyQueryMatchesAll | script.js:352-354 | the empty query matches every game, so the shortcut `filteredGames = gamesData` equals what the loop would give |
| Catalog.SearchCatalog | script.js:357-384 | the nested search loop returns the order-preserving subsequence of matching games |
| Catalog.AppendStep | script.js:380-383 | one turn of the search loop extends the result by the game exactly when it matches |
| Catalog.TotalPages | script.js:466 | `Math.ceil(n / 12)`: the least number of pages of twelve that hold `n` games |
| Catalog.PageWindowIsSlice | script.js:412-414 | the window of page `p` is the slice from `(p-1)*12` to `(p-1)*12+12`, clipped to the list, and has at most 12 games |
| Catalog.PageWindowEmptyIff | script.js:412-417 | a page's window is empty exactly when the page number exceeds the page count |
| Catalog.PagesUpToIsPrefix | script.js:412-414 | pages 1 to `k`, read one after another, form the prefix of `12k` games |
| Catalog.PagesCoverList | script.js:412-414 | read one after another, all the pages show the whole list, each game once and in order |
| Catalog.ThirteenGames | script.js:466 | thirteen games make two pages, of twelve and one |
| Catalog.JsSlice | script.js:414 | `Array.prototype.slice`: never longer than the list; with `0 <= start <= end <= length`, exactly the slice from `start` to `end`; empty when `start` is past the end or `end` does not exceed a non-negative `start` |
| Catalog.PageWindow | script.js:412-414 | the games of one page; `Catalog.PageWindowIsSlice`, `Catalog.PageWindowEmptyIff` and `Catalog.PagesCoverList` state its meaning |
| Catalog.CardOf | script.js:434-438 | one card per game, with its id (in the link), image, name and price; `Catalog.CatalogPage.DisplayGameGrid` states that the grid is the cards of the page window |
| Catalog.PageNumbers | script.js:473-491 | one button per page, numbered from 1, only the current page's active |
| Catalog.NextEnabledWithoutPages | script.js:535-546 | with no pages, page 1 has Prev disabled and Next enabled |
| Catalog.MediaStrip | script.js:300-324 | the first two entries (video or numbered screenshot), then exactly one `+(n-2)` card when there are three or more, and nothing else |
| Catalog.StripOfFive | script.js:317-321 | five media entries give two entries and `+3` |
| Catalog.FeaturedImage | script.js:233 | a non-empty `featuredImage` is preferred; a missing or empty one falls back to `image`; so the banner has a picture whenever the game has one |
| Catalog.Join | script.js:290 | `join(', ')` starts with the first platform and ends with the last |
| Catalog.JoinSteps | script.js:290 | `join` of no items is empty, of one item is that item, and each further item adds the separator and the item |
| Catalog.StripEntry | script.js:305-316 | a `youtube` entry becomes a video with the catalog's extracted id, any other entry screenshot `i+1`; `Catalog.MediaStrip` places these as the first two strip items |
| Catalog.CollectFeatured | script.js:162-167 | the featured games are the in-order subsequence of games with `featured === true` |
| Catalog.CarouselDots | script.js:253-256 | one dot per featured game, and only the current one active |
| Catalog.CatalogPage.constructor | script.js:6-14 | the initial state: empty lists, empty query, page 1, index 0, no page buttons |
| Catalog.CatalogPage.ActiveList | script.js:401-406 | the filtered list when it is non-empty or a query is set, otherwise the whole catalog; `Catalog.CatalogPage.DisplayGameGrid` and `Catalog.CatalogPage.SetupPagination` both draw from it |
| Catalog.CatalogPage.LoadGames | script.js:151-177 | a failed load changes nothing; otherwise it stores the catalog, collects the featured subset, draws the banner and the grid, and lays the page buttons out again |
| Catalog.CatalogPage.SearchInput | script.js:342-346 | the stored query is the lower-cased, trimmed input, and the filtering follows |
| Catalog.CatalogPage.FilterGames | script.js:351-391 | empty query: the whole catalog; otherwise the matching subsequence; page reset to 1; the grid of page 1 and fresh page buttons |
| Catalog.CatalogPage.SetupPagination | script.js:456-491 | the page count of the active list, chosen as at lines 458-463, and one button per page |
| Catalog.CatalogPage.DisplayGameGrid | script.js:399-448 | the cards of the current page window of the active list, or the placeholder exactly when the window is empty |
| Catalog.CatalogPage.UpdatePaginationButtons | script.js:518-557 | Prev disabled iff on page 1; Next disabled iff on the last page; exactly the current page's button active |
| Catalog.CatalogPage.Prev | script.js:495-500 | one page back and a redraw only when past page 1; the page stays within the buttons' range; this is the step of one listener (see "Left out") |
| Catalog.CatalogPage.Next | script.js:504-509 | one page on and a redraw only before the last page; the page stays within the buttons' range; this is the step of one listener (see "Left out") |
| Catalog.CatalogPage.GoToPage | script.js:484-488 | the clicked page becomes current, and the grid and buttons are redrawn |
| Catalog.CatalogPage.SelectDot | script.js:265-269 | the clicked dot's index becomes current and the banner is redrawn |
| Catalog.CatalogPage.UpdateFeaturedContent | script.js:219-330 | nothing when the index names no featured game; otherwise that game's banner, dots, details and media strip |
| Details.VideoIdUsable | details.js:24-41 | an id this page extracts is non-empty and holds no `&`, `?` or `/` |
| Details.VideoIdNoneIff | details.js:24-41 | extraction gives `null` exactly when the address pattern matches nowhere and the string is not an 11-character id |
| Details.VideoId | details.js:24-41 | the details page's `getYouTubeVideoId`; `Details.VideoIdUsable`, `Details.VideoIdNoneIff`, `Details.VideoIdFromAddress` and `Details.PagesAgreeOnBareIds` state what it returns |
| Details.IsBareId | details.js:28 | eleven characters from `[a-zA-Z0-9_-]`; `Details.VideoIdNoneIff` and `Details.PagesAgreeOnBareIds` use it |
| Details.VideoIdFromAddress | details.js:27 | an address with one of the three prefixes, when no `youtu` comes before the prefix, yields the token after it, up to `&`, `?`, `/` or the end |
| Details.DotlessNeverMatches | details.js:27 | a string without `.` never matches the address pattern |
| Details.PagesAgreeOnBareIds | details.js:28 | on an 11-character id, both pages return it unchanged |
| Details.CatalogKeepsSlash | script.js:194 | the catalog keeps a `/` inside the id: `youtu.be/abc/def` gives `abc/def` |
| Details.DetailsStopsAtSlash | details.js:27 | the details page stops at the `/`: `youtu.be/abc/def` gives `abc` |
| Details.PagesDifferOnNonId | details.js:28-40 | `hello world` is returned as it is by the catalog, and gives `null` here |
| Details.WatchExample | details.js:24-41 | the watch address yields `dQw4w9WgXcQ` |
| Details.ShortExample | details.js:24-41 | the `youtu.be` address yields `dQw4w9WgXcQ` |
| Details.EmbedExample | details.js:24-41 | the embed address yields `dQw4w9WgXcQ` |
| Details.BareExample | details.js:28 | the bare id yields itself |
| Details.BasePathMeaning | details.js:53-57 | the base path is `../../` exactly when `/Assets/Components/` occurs in the pathname, and `''` otherwise |
| Details.BasePath | details.js:90-91 | `'../../'` inside the components folder, `''` elsewhere; `Details.BasePathMeaning` states it |
| Details.QueryId | details.js:68 | `parseInt` of the `id` parameter, or of `null` when it is missing; `Details.MissingIdFindsNothing` and `Details.LinkFindsGame` state its meaning |
| Details.FindGame | details.js:71-77 | the lookup yields the first game whose id equals the parsed id, or nothing when no game has it |
| Details.LinkFindsGame | details.js:68-77 | a link built from a game's id brings up that game, given unique ids |
| Details.MissingIdFindsNothing | details.js:68 | without an `id` parameter, `parseInt(null)` is `NaN` and no game is found |
| Details.ShownIff | details.js:157-167 | an entry gets a block exactly when it is an image, or a video whose extraction succeeds |
| Details.Shown | details.js:157-167 | whether an entry gets a block; `Details.ShownIff` states it |
| Details.Block | details.js:157-175 | the block of one kept entry: an image with its alt text, or a player for the extracted id; `Details.GalleryKeepsShown` places the blocks |
| Details.GalleryOf | details.js:149-186 | the gallery: hidden without media, else the blocks of the kept entries; `Details.GalleryKeepsShown`, `Details.GalleryHiddenIff` and `Details.BuildGallery` state its meaning |
| Details.GalleryKeepsShown | details.js:149-181 | block `k` is the block of the `k`-th kept entry, so there are never more blocks than entries |
| Details.GalleryHiddenIff | details.js:149 | the gallery is hidden exactly when there is no media |
| Details.BuildGallery | details.js:154-179 | the gallery loop emits the blocks of the kept entries, in order |
| Details.FreeGames | details.js:119-121 | a game shows "Free to Play" with the `free` class exactly when its price is 0 |
| Details.DisplayGameDetails | details.js:102-187 | title, hero image, description, sidebar title, price, publisher, release date, platforms, tags and gallery, each taken from the game |
| Details.DetailsPage.constructor | details.js:7 | no game is loaded at first |
| Details.DetailsPage.LoadGameData | details.js:49-94 | load failure: home with the base path, `gameData` untouched; otherwise the first game with the id is stored, then shown, or home when there is none |

## Left out

- HTML strings, CSS classes other than `active` and `free`, DOM lookups and `innerHTML` are replaced by structured views. The exact markup is not modelled.
- `fetch`, `response.json()`, `Date.now()` cache busting and `window.location` are values passed in or returned. The `try`/`catch` around them becomes the `None` case of the catalog parameter.
- Login, `localStorage`, `setTimeout`, the modal and QR animations and the username display are not modelled. They do not touch the catalog state.
- `Assets/Components/component-loader.js` is not part of this model: it only fetches and injects the header template.
- `support.php` is not part of this model: it is database I/O around a non-empty-field guard.
- Listener accumulation: each `setupPagination` adds another Prev/Next listener, which keeps the `totalPages` of its own call. The model keeps only the latest listener, whose bound is the field `pageCount`. The range property of `Catalog.CatalogPage.Prev` and `Catalog.CatalogPage.Next` holds for that listener only, not for stale ones. In the program, every accumulated listener runs on one click, so after `n` layouts a single click on Prev or Next can move up to `n` pages; the model's one-page step is that of a single listener.
- Page-button listeners: `Catalog.CatalogPage.GoToPage` takes the clicked page as a parameter and requires it to be one of the buttons laid out, as the buttons are.
- Catalog.CatalogPage.SelectDot: takes the dot's position as a number. `parseInt` of the `data-index` attribute is covered separately by `Text.ParseIntOfDecimal`.
- Non-zero prices: `toFixed(2)` formatting and JavaScript floating-point numbers are left out. A price is a `real`; the details page keeps only the `price == 0` test, and the cards and the banner carry the number as it is.
- Text.Lower: covers the ASCII letters A-Z only. Unicode case mapping is not modelled.
- String length: strings are sequences of Unicode code points rather than UTF-16 code units, so `length === 11` differs for text outside the Basic Multilingual Plane.
- Text.ParseInt: huge numbers read exactly. The model does not round to the nearest double, and it does not give `-0`.
- `featured === true` is modelled as a boolean field. Non-boolean JSON values are not modelled.
- A missing `media` array is the empty sequence, and a missing or empty `featuredImage` is `None` or `Some("")`. Other JSON shapes are not modelled.
- Catalog.CatalogPage.LoadGames: requires the page state to be consistent, which the constructor and every handler ensure. A search typed before the first load leaves `filteredGames` stale, exactly as in the source.
- Catalog.VideoIdFromAddress: proved only when no `youtu` comes before the prefix. An earlier `youtu` can start a different match: `youtu.be/X&youtube.com/watch?v=abc` gives `X`. `Patterns.SearchFromLeftmost` states the general leftmost rule.
- Details.VideoIdFromAddress: proved only when no `youtu` comes before the prefix, for the same reason as in the catalog.
- Catalog.VideoIdFromLaterV: proved only under the conditions its row lists: no `youtu` before `youtube.com/watch?` or anywhere in the query (`youtube.com/watch?x=youtu.be/a&v=c` gives `a` from the first pattern, `Catalog.EarlierShortLinkWins`), a query not starting with `v=`, no line terminator after `youtube.com/watch?`, and no `v=` after the last one. A `v` or `y` inside the id is allowed.
- Catalog.EarlierShortLinkWins: proved only when no `youtu` comes before the address or between `youtube.com/watch?` and the short link, and when the query does not start with `v=`. With `v=` first, the watch prefix matches at once: `youtube.com/watch?v=c&x=youtu.be/a` gives `c` (`Catalog.VideoIdFromAddress`).
- Catalog.CatalogPage.constructor: the page starts with no page buttons (`pageCount == 0`). This assumes the initial HTML holds no `.page-number` elements.
