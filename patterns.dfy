/** The regular expressions with which both pages pull a video id out of a
    YouTube address, written as explicit scans. A JavaScript `String.match`
    without the `g` flag tries the start positions from left to right; at each
    position it tries the alternatives in order, and a greedy character class
    takes as many characters as it can. The two pages stop the captured token
    at different characters, so the stop set is a parameter. */
module Patterns {
  import opened Wrappers
  import opened Text

  const Watch := "youtube.com/watch?v="
  const Short := "youtu.be/"
  const Embed := "youtube.com/embed/"
  const WatchQuery := "youtube.com/watch?"

  /** The text every match of either pattern starts with. */
  const Youtu := "youtu"

  /** The characters `.` does not match (ECMAScript line terminators). */
  const LineTerminators: set<char> := {'\n', '\r', '\U{2028}', '\U{2029}'}

  /** The two patterns of the catalog page; the details page uses the first. */
  datatype Pattern =
    | Alternation  // (?:youtube\.com\/watch\?v=|youtu\.be\/|youtube\.com\/embed\/)([^stops]+)
    | WatchThenV   // youtube\.com\/watch\?.*v=([^stops]+)

  /** The longest prefix of `s` containing no character of `stops`: what a
      greedy negated character class consumes. */
  function Run(s: string, stops: set<char>): (r: string)
    ensures |r| <= |s| && r == s[..|r|]
    ensures forall i :: 0 <= i < |r| ==> r[i] !in stops
    ensures |r| < |s| ==> s[|r|] in stops
    decreases |s|
  {
    if s == [] || s[0] in stops then [] else [s[0]] + Run(s[1..], stops)
  }

  /** A token followed by the end or by a stop character is what the greedy class takes. */
  lemma {:induction false} RunOfToken(token: string, rest: string, stops: set<char>)
    requires forall i :: 0 <= i < |token| ==> token[i] !in stops
    requires rest == [] || rest[0] in stops
    ensures Run(token + rest, stops) == token
    decreases |token|
  {
    if token != [] {
      RunOfToken(token[1..], rest, stops);
      assert (token + rest)[1..] == token[1..] + rest;
    } else {
      assert token + rest == rest;
    }
  }

  /** `prefix` followed by at least one token character, anchored at the start of `s`. */
  function AfterPrefix(s: string, prefix: string, stops: set<char>): (r: Option<string>)
    ensures r.Some? ==> StartsWith(s, prefix) && r.value != []
    ensures r.Some? ==> forall i :: 0 <= i < |r.value| ==> r.value[i] !in stops
  {
    if StartsWith(s, prefix) && Run(s[|prefix|..], stops) != [] then Some(Run(s[|prefix|..], stops))
    else None
  }

  /** `.*v=([^stops]+)` anchored at the start of `t`, where `.*` has already
      been tried with every length greater than `k`: greedy `.*` backtracks
      from the longest run of non-line-terminators down to the empty one. */
  function LastV(t: string, k: nat, stops: set<char>): (r: Option<string>)
    requires k <= |t|
    ensures r.Some? ==> r.value != [] && forall i :: 0 <= i < |r.value| ==> r.value[i] !in stops
    decreases k
  {
    var here := AfterPrefix(t[k..], "v=", stops);
    if here.Some? then here
    else if k == 0 then None
    else LastV(t, k - 1, stops)
  }

  /** Pattern `pat` anchored at the start of `s`: the captured group, if it matches there. */
  function MatchHere(pat: Pattern, s: string, stops: set<char>): (r: Option<string>)
    ensures r.Some? ==> s != [] && s[0] == 'y'
    ensures r.Some? ==> r.value != [] && forall i :: 0 <= i < |r.value| ==> r.value[i] !in stops
  {
    match pat
    case Alternation =>
      var w := AfterPrefix(s, Watch, stops);
      if w.Some? then w
      else
        var b := AfterPrefix(s, Short, stops);
        if b.Some? then b else AfterPrefix(s, Embed, stops)
    case WatchThenV =>
      if StartsWith(s, WatchQuery) then
        var t := s[|WatchQuery|..];
        LastV(t, |Run(t, LineTerminators)|, stops)
      else None
  }

  /** Greedy backtracking: from length `k` down to `j`, the first length
      whose `v=` matches wins, so lengths at which nothing matches are skipped. */
  lemma {:induction false} LastVBacktracks(t: string, j: nat, k: nat, stops: set<char>)
    requires j <= k <= |t|
    requires forall m :: j < m <= k ==> AfterPrefix(t[m..], "v=", stops).None?
    ensures LastV(t, k, stops) == LastV(t, j, stops)
    decreases k - j
  {
    if j < k {
      LastVBacktracks(t, j, k - 1, stops);
    }
  }

  /** `s.match(pat)` from start position `i` on: the capture at the leftmost
      position where the pattern matches, or `None` when it matches nowhere
      (see `SearchFromLeftmost`). */
  function SearchFrom(pat: Pattern, s: string, stops: set<char>, i: nat): (r: Option<string>)
    requires i <= |s|
    ensures r.Some? ==> r.value != [] && forall k :: 0 <= k < |r.value| ==> r.value[k] !in stops
    decreases |s| - i
  {
    var here := MatchHere(pat, s[i..], stops);
    if here.Some? then here
    else if i == |s| then None
    else SearchFrom(pat, s, stops, i + 1)
  }

  /** The scan finds nothing exactly when the pattern matches at no position from `i` on. */
  lemma {:induction false} SearchFromNoneIff(pat: Pattern, s: string, stops: set<char>, i: nat)
    requires i <= |s|
    ensures SearchFrom(pat, s, stops, i).None? <==>
            forall j :: i <= j <= |s| ==> MatchHere(pat, s[j..], stops).None?
    decreases |s| - i
  {
    var here := MatchHere(pat, s[i..], stops);
    if here.None? && i < |s| {
      assert SearchFrom(pat, s, stops, i) == SearchFrom(pat, s, stops, i + 1);
      SearchFromNoneIff(pat, s, stops, i + 1);
      if SearchFrom(pat, s, stops, i).None? {
        forall j | i <= j <= |s| ensures MatchHere(pat, s[j..], stops).None? {
          if j == i {
            assert MatchHere(pat, s[j..], stops) == here;
          }
        }
      }
    }
  }

  /** When the scan succeeds, it returns the match at position `j`, the leftmost
      position from `i` on where the pattern matches. */
  lemma {:induction false} SearchFromLeftmost(pat: Pattern, s: string, stops: set<char>, i: nat) returns (j: nat)
    requires i <= |s|
    requires SearchFrom(pat, s, stops, i).Some?
    ensures i <= j <= |s| && MatchHere(pat, s[j..], stops) == SearchFrom(pat, s, stops, i)
    ensures forall k :: i <= k < j ==> MatchHere(pat, s[k..], stops).None?
    decreases |s| - i
  {
    var here := MatchHere(pat, s[i..], stops);
    if here.Some? {
      j := i;
    } else {
      assert SearchFrom(pat, s, stops, i) == SearchFrom(pat, s, stops, i + 1);
      j := SearchFromLeftmost(pat, s, stops, i + 1);
      forall k | i <= k < j ensures MatchHere(pat, s[k..], stops).None? {
        if k == i {
          assert MatchHere(pat, s[k..], stops) == here;
        }
      }
    }
  }

  /** `s.match(pat)`, reduced to its captured group. */
  function Search(pat: Pattern, s: string, stops: set<char>): (r: Option<string>)
    ensures r.Some? ==> r.value != [] && forall i :: 0 <= i < |r.value| ==> r.value[i] !in stops
  {
    SearchFrom(pat, s, stops, 0)
  }

  /** Every match begins at a `y`, so a stretch of text without one can be skipped. */
  lemma {:induction false} SearchSkips(pat: Pattern, s: string, stops: set<char>, i: nat, j: nat)
    requires i <= j <= |s|
    requires forall k :: i <= k < j ==> s[k] != 'y'
    ensures SearchFrom(pat, s, stops, i) == SearchFrom(pat, s, stops, j)
    decreases j - i
  {
    if i < j {
      assert s[i..][0] == s[i];
      SearchSkips(pat, s, stops, i + 1, j);
    }
  }

  /** Two scans that start where the rest of the text is the same find the same. */
  lemma {:induction false} SearchFromSameTail(pat: Pattern, t: string, a: nat, s: string, i: nat, stops: set<char>)
    requires a <= |t| && i <= |s| && t[a..] == s[i..]
    ensures SearchFrom(pat, t, stops, a) == SearchFrom(pat, s, stops, i)
    decreases |s| - i
  {
    if MatchHere(pat, s[i..], stops).None? && i < |s| {
      assert t[a + 1..] == t[a..][1..] == s[i..][1..] == s[i + 1..];
      SearchFromSameTail(pat, t, a + 1, s, i + 1, stops);
    }
  }

  /** Starting positions at which the pattern does not match are skipped. */
  lemma {:induction false} SearchFromSkipsNone(pat: Pattern, s: string, stops: set<char>, i: nat, j: nat)
    requires i <= j <= |s|
    requires forall k :: i <= k < j ==> MatchHere(pat, s[k..], stops).None?
    ensures SearchFrom(pat, s, stops, i) == SearchFrom(pat, s, stops, j)
    decreases j - i
  {
    if i < j {
      assert MatchHere(pat, s[i..], stops).None?;
      SearchFromSkipsNone(pat, s, stops, i + 1, j);
    }
  }

  lemma StartsWithTransitive(s: string, p: string, q: string)
    requires StartsWith(s, p) && StartsWith(p, q)
    ensures StartsWith(s, q)
  {
    assert s[..|q|] == s[..|p|][..|q|];
  }

  /** Every match of either pattern begins with `youtu`. */
  lemma MatchStartsYoutu(pat: Pattern, s: string, stops: set<char>)
    ensures MatchHere(pat, s, stops).Some? ==> StartsWith(s, Youtu)
  {
    assert StartsWith(Watch, Youtu) && StartsWith(Short, Youtu);
    assert StartsWith(Embed, Youtu) && StartsWith(WatchQuery, Youtu);
    if StartsWith(s, Watch) { StartsWithTransitive(s, Watch, Youtu); }
    if StartsWith(s, Short) { StartsWithTransitive(s, Short, Youtu); }
    if StartsWith(s, Embed) { StartsWithTransitive(s, Embed, Youtu); }
    if StartsWith(s, WatchQuery) { StartsWithTransitive(s, WatchQuery, Youtu); }
  }

  /** Text holding no `youtu` matches neither pattern anywhere. */
  lemma FreeTextNeverMatches(pat: Pattern, s: string, stops: set<char>)
    requires FreeOf(s, Youtu)
    ensures forall j :: 0 <= j <= |s| ==> MatchHere(pat, s[j..], stops).None?
    ensures Search(pat, s, stops).None?
  {
    forall j | 0 <= j <= |s| ensures MatchHere(pat, s[j..], stops).None? {
      MatchStartsYoutu(pat, s[j..], stops);
      assert !OccursAt(s, Youtu, j);
      if j + |Youtu| <= |s| {
        assert s[j..][..|Youtu|] == s[j..j + |Youtu|];
      }
    }
    SearchFromNoneIff(pat, s, stops, 0);
  }

  /** In `pre + s`, where `pre` holds no `youtu` and `s` starts with `y`, no
      match starts inside `pre`: one would need `youtu` there or a second `y`
      in `youtu` where `s` begins. */
  lemma NoMatchInFreeText(pat: Pattern, pre: string, s: string, stops: set<char>, p: nat)
    requires s != [] && s[0] == 'y' && FreeOf(pre, Youtu) && p < |pre|
    ensures MatchHere(pat, (pre + s)[p..], stops).None?
  {
    var u := pre + s;
    MatchStartsYoutu(pat, u[p..], stops);
    if p + |Youtu| <= |pre| {
      assert !OccursAt(pre, Youtu, p);
      assert u[p..][..|Youtu|] == pre[p..p + |Youtu|];
    } else if |Youtu| <= |u[p..]| {
      assert u[p..][|pre| - p] == s[0];
      DiffersAt(u[p..], Youtu, |pre| - p);
    }
  }

  /** Text without `youtu` in front of an `s` that starts with `y` changes
      nothing the pattern finds. */
  lemma SearchAfterFreeText(pat: Pattern, pre: string, s: string, stops: set<char>)
    requires s != [] && s[0] == 'y'
    requires FreeOf(pre, Youtu)
    ensures Search(pat, pre + s, stops) == Search(pat, s, stops)
  {
    forall p | 0 <= p < |pre| ensures MatchHere(pat, (pre + s)[p..], stops).None? {
      NoMatchInFreeText(pat, pre, s, stops, p);
    }
    SearchFromSkipsNone(pat, pre + s, stops, 0, |pre|);
    assert (pre + s)[|pre|..] == s[0..];
    SearchFromSameTail(pat, pre + s, |pre|, s, 0, stops);
  }

  /** A single differing character rules a prefix out. */
  lemma DiffersAt(s: string, prefix: string, k: nat)
    requires k < |s| && k < |prefix| && s[k] != prefix[k]
    ensures !StartsWith(s, prefix)
  {
  }

  /** Each of the three prefixes has a `.` at index 5 or 7. */
  lemma AlternationNeedsDot(s: string, stops: set<char>)
    ensures MatchHere(Alternation, s, stops).Some? ==> |s| > 7 && (s[5] == '.' || s[7] == '.')
  {
    if StartsWith(s, Watch) {
      assert s[..|Watch|][7] == '.';
    }
    if StartsWith(s, Short) {
      assert s[..|Short|][5] == '.';
    }
    if StartsWith(s, Embed) {
      assert s[..|Embed|][7] == '.';
    }
  }

  /** A well-formed token right after `prefix` is what `AfterPrefix` captures. */
  lemma AfterPrefixTakes(prefix: string, token: string, rest: string, stops: set<char>)
    requires forall k :: 0 <= k < |token| ==> token[k] !in stops
    requires token != [] && (rest == [] || rest[0] in stops)
    ensures AfterPrefix(prefix + token + rest, prefix, stops) == Some(token)
  {
    var tail := prefix + token + rest;
    assert tail[..|prefix|] == prefix;
    assert tail[|prefix|..] == token + rest;
    RunOfToken(token, rest, stops);
  }

  /** A well-formed token right after one of the three prefixes is what the
      alternation captures at that position. */
  lemma AlternationHere(prefix: string, token: string, rest: string, stops: set<char>)
    requires prefix == Watch || prefix == Short || prefix == Embed
    requires token != [] && forall k :: 0 <= k < |token| ==> token[k] !in stops
    requires rest == [] || rest[0] in stops
    ensures MatchHere(Alternation, prefix + token + rest, stops) == Some(token)
  {
    var tail := prefix + token + rest;
    AfterPrefixTakes(prefix, token, rest, stops);
    if prefix == Short {
      assert tail[5] == '.' && Watch[5] == 'b';
      DiffersAt(tail, Watch, 5);
    } else if prefix == Embed {
      assert tail[12] == 'e' && Watch[12] == 'w';
      DiffersAt(tail, Watch, 12);
      assert tail[5] == 'b' && Short[5] == '.';
      DiffersAt(tail, Short, 5);
    }
  }

  /** The alternation finds a well-formed token after any one of its three
      prefixes, whatever comes before it, as long as no `youtu` does. */
  lemma AlternationFinds(pre: string, prefix: string, token: string, rest: string, stops: set<char>)
    requires prefix == Watch || prefix == Short || prefix == Embed
    requires FreeOf(pre, Youtu)
    requires token != [] && forall k :: 0 <= k < |token| ==> token[k] !in stops
    requires rest == [] || rest[0] in stops
    ensures Search(Alternation, pre + prefix + token + rest, stops) == Some(token)
  {
    var tail := prefix + token + rest;
    assert pre + prefix + token + rest == pre + tail;
    assert tail[0] == 'y' && tail[0..] == tail;
    AlternationHere(prefix, token, rest, stops);
    SearchAfterFreeText(Alternation, pre, tail, stops);
  }

  /** No `v=` can start at a position holding some other character, or at the end. */
  lemma NoVHere(t: string, m: nat, stops: set<char>)
    requires m <= |t| && (m < |t| ==> t[m] != 'v')
    ensures AfterPrefix(t[m..], "v=", stops).None?
  {
    if m < |t| {
      assert t[m..][0] == t[m];
    }
  }

  /** In `t`, no `v=` starts after position `j` when the two characters `v=`
      at `j` are followed by text holding no further `v=`. */
  lemma NoVAfter(t: string, j: nat, tail: string, stops: set<char>)
    requires j + 2 <= |t| && t[j..] == "v=" + tail
    requires FreeOf(tail, "v=")
    ensures forall m :: j < m <= |t| ==> AfterPrefix(t[m..], "v=", stops).None?
  {
    forall m | j < m <= |t| ensures AfterPrefix(t[m..], "v=", stops).None? {
      if m == j + 1 {
        assert t[m] == ("v=" + tail)[1];
        NoVHere(t, m, stops);
      } else {
        var k := m - j - 2;
        assert t[m..] == t[j..][m - j..] == tail[k..];
        assert !OccursAt(tail, "v=", k);
        if k + 2 <= |tail| {
          assert tail[k..][..2] == tail[k..k + 2];
        }
      }
    }
  }

  /** Backtracking from the end of `mid + "v=" + token + rest` stops at that
      last `v=`. */
  lemma LastVOfQuery(mid: string, token: string, rest: string, stops: set<char>)
    requires token != [] && forall k :: 0 <= k < |token| ==> token[k] !in stops
    requires rest == [] || rest[0] in stops
    requires FreeOf(token + rest, "v=")
    ensures var t := mid + ("v=" + (token + rest)); LastV(t, |t|, stops) == Some(token)
  {
    var tail := token + rest;
    var t := mid + ("v=" + tail);
    var j := |mid|;
    assert t[j..] == "v=" + tail;
    AfterPrefixTakes("v=", token, rest, stops);
    assert "v=" + token + rest == "v=" + tail;
    assert LastV(t, j, stops) == Some(token);
    NoVAfter(t, j, tail, stops);
    LastVBacktracks(t, j, |t|, stops);
  }

  /** The second pattern captures the token after the LAST `v=` of the query
      string: `.*` takes the whole line and gives back only as much as it must. */
  lemma WatchThenVTakesLast(mid: string, token: string, rest: string, stops: set<char>)
    requires forall k :: 0 <= k < |mid| ==> mid[k] !in LineTerminators
    requires forall k :: 0 <= k < |token + rest| ==> (token + rest)[k] !in LineTerminators
    requires token != [] && forall k :: 0 <= k < |token| ==> token[k] !in stops
    requires rest == [] || rest[0] in stops
    requires FreeOf(token + rest, "v=")
    ensures MatchHere(WatchThenV, WatchQuery + mid + "v=" + token + rest, stops) == Some(token)
  {
    var tail := token + rest;
    var t := mid + ("v=" + tail);
    assert WatchQuery + mid + "v=" + token + rest == WatchQuery + t;
    var s := WatchQuery + t;
    assert s[..|WatchQuery|] == WatchQuery;
    assert s[|WatchQuery|..] == t;
    forall k | 0 <= k < |t| ensures t[k] !in LineTerminators {
      if k >= |mid| + 2 {
        assert t[k] == tail[k - |mid| - 2];
      }
    }
    RunOfToken(t, [], LineTerminators);
    assert t + [] == t;
    LastVOfQuery(mid, token, rest, stops);
  }

  /** `youtube.com/watch?` holds a single `y`, its first character. */
  lemma WatchQueryOneY()
    ensures forall k :: 1 <= k < |WatchQuery| ==> WatchQuery[k] != 'y'
  {
  }

  /** Joining text that does not begin with `v=` to text that does not begin
      with `=` (nor with `v`, when the first part is empty) does not begin with `v=`. */
  lemma NoVEqualsAtJoin(x: string, t: string)
    requires !StartsWith(x, "v=")
    requires t != [] && t[0] != '=' && (x == [] ==> t[0] != 'v')
    ensures !StartsWith(x + t, "v=")
  {
    var u := x + t;
    if |x| >= 2 {
      assert u[..2] == x[..2];
    } else if |x| == 1 {
      assert u[1] == t[0];
    } else {
      assert u[0] == t[0];
    }
  }

  /** Right after `youtube.com/watch?`, a query not starting with `v=` gives
      the alternation nothing: it finds what it finds in the query. */
  lemma AlternationPassesWatchQuery(q: string, stops: set<char>)
    requires !StartsWith(q, "v=")
    ensures Search(Alternation, WatchQuery + q, stops) == Search(Alternation, q, stops)
  {
    var url := WatchQuery + q;
    WatchQueryOneY();
    forall j | 0 <= j < |WatchQuery| ensures MatchHere(Alternation, url[j..], stops).None? {
      if j == 0 {
        assert url[j..] == url;
        assert url[5] == 'b' && url[12] == 'w';
        DiffersAt(url, Short, 5);
        DiffersAt(url, Embed, 12);
        if |q| >= 2 {
          assert url[18..20] == q[..2];
          if q[0] != 'v' {
            DiffersAt(url, Watch, 18);
          } else {
            DiffersAt(url, Watch, 19);
          }
        }
      } else {
        assert url[j..][0] == WatchQuery[j];
      }
    }
    SearchFromSkipsNone(Alternation, url, stops, 0, |WatchQuery|);
    assert url[|WatchQuery|..] == q[0..];
    SearchFromSameTail(Alternation, url, |WatchQuery|, q, 0, stops);
  }

  /** After `youtube.com/watch?`, a query that does not start with `v=`
      defeats the alternation, provided no later `youtu` can start another try. */
  lemma AlternationMissesOtherQuery(q: string, stops: set<char>)
    requires !StartsWith(q, "v=")
    requires FreeOf(q, Youtu)
    ensures Search(Alternation, WatchQuery + q, stops) == None
  {
    AlternationPassesWatchQuery(q, stops);
    FreeTextNeverMatches(Alternation, q, stops);
  }
}
