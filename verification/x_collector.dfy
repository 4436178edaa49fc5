/** The X live-search collector (`scrape_x`).

    The browser is replaced by what it is observed to do. Each pass of
    the scroll loop is one `Pass`: the tweet cards visible when the pass
    starts and the page height measured after scrolling (or a driver
    fault somewhere in that pass). The loop is a recursive function over
    these observations with a fuel of 50 passes. */
module XCollector {
  import opened Wrappers
  import opened Text
  import Cookies

  /** `for _ in range(50)`. */
  const MaxScrolls: nat := 50

  const XHome: string := "https://x.com"
  const SearchPrefix: string := "https://x.com/search?q="
  const SearchSuffix: string := "&f=live"

  // ---------------------------------------------------------------------
  // Search URL
  // ---------------------------------------------------------------------

  /** `f"https://x.com/search?q={keyword.replace(' ', '%20')}&f=live"`. */
  function SearchUrl(keyword: string): (url: string)
    ensures ' ' !in url
    ensures SearchPrefix <= url
    ensures |url| == |SearchPrefix| + |keyword| + 2 * CountChar(keyword, ' ') + |SearchSuffix|
    ensures url[|url| - |SearchSuffix|..] == SearchSuffix
    ensures SearchQuery(url) == EncodeSpaces(keyword)
  {
    var q := EncodeSpaces(keyword);
    var url := SearchPrefix + q + SearchSuffix;
    assert url[..|SearchPrefix|] == SearchPrefix;
    assert url[|url| - |SearchSuffix|..] == SearchSuffix;
    assert ' ' !in q;
    assert forall i :: 0 <= i < |url| ==> url[i] != ' ' by {
      forall i | 0 <= i < |url|
        ensures url[i] != ' '
      {
        if i < |SearchPrefix| {
          assert url[i] == SearchPrefix[i];
        } else if i < |SearchPrefix| + |q| {
          assert url[i] == q[i - |SearchPrefix|];
        } else {
          assert url[i] == SearchSuffix[i - |SearchPrefix| - |q|];
        }
      }
    }
    url
  }

  /** The query text between `?q=` and `&f=live`. */
  function SearchQuery(url: string): string
    requires |url| >= |SearchPrefix| + |SearchSuffix|
  {
    url[|SearchPrefix|..|url| - |SearchSuffix|]
  }

  /** The keyword can be read back from the URL: the query part decodes
      to the keyword whenever the keyword holds no `%`. */
  lemma SearchUrlRoundTrip(keyword: string)
    requires '%' !in keyword
    ensures DecodeSpaces(SearchQuery(SearchUrl(keyword))) == keyword
  {
    var q := EncodeSpaces(keyword);
    var url := SearchPrefix + q + SearchSuffix;
    assert SearchQuery(url) == q;
    DecodeEncodeSpaces(keyword);
  }

  // ---------------------------------------------------------------------
  // Cards and tweets
  // ---------------------------------------------------------------------

  /** A `<time>` element; its `datetime` attribute may be absent, in which
      case `get_attribute` yields `None` rather than failing. */
  datatype TimeTag = TimeTag(datetime: Option<string>)

  /** One `article[@data-testid='tweet']` card: each sub-element the
      extraction looks up, `None` when the lookup raised. Texts are raw,
      before `.strip()`. */
  datatype Card = Card(text: Option<string>, user: Option<string>, time: Option<TimeTag>)

  /** The stored `{content, username, date}` dict. */
  datatype Tweet = Tweet(content: string, username: string, date: Option<string>)

  /** One pass of the scroll loop. */
  datatype Pass =
    | Scrolled(cards: seq<Card>, height: int)
    | DriverFault

  /** The `try` block around the three lookups of one card. */
  function ReadCard(c: Card): (r: Option<Tweet>)
    ensures r.Some? <==> c.text.Some? && c.user.Some? && c.time.Some?
    ensures r.Some? ==> Stripped(r.value.content) && Stripped(r.value.username)
    ensures r.Some? ==> exists i :: TrimmedAt(c.text.value, r.value.content, i)
    ensures r.Some? ==> exists i :: TrimmedAt(c.user.value, r.value.username, i)
    ensures r.Some? ==> r.value.date == c.time.value.datetime
  {
    if c.text.Some? && c.user.Some? && c.time.Some? then
      StripTrims(c.text.value);
      StripTrims(c.user.value);
      Some(Tweet(Strip(c.text.value), Strip(c.user.value), c.time.value.datetime))
    else
      None
  }

  /** The values of the `Some` entries, in order. */
  function Somes(os: seq<Option<Tweet>>): (r: seq<Tweet>)
    ensures |r| <= |os|
    ensures (forall i :: 0 <= i < |os| ==> os[i].None?) ==> r == []
    decreases |os|
  {
    if os == [] then []
    else if os[0].Some? then [os[0].value] + Somes(os[1..])
    else Somes(os[1..])
  }

  lemma {:induction false} SomesSound(os: seq<Option<Tweet>>, t: Tweet)
    requires t in Somes(os)
    ensures exists i :: 0 <= i < |os| && os[i] == Some(t)
    decreases |os|
  {
    if os[0] != Some(t) {
      SomesSound(os[1..], t);
      var i :| 0 <= i < |os[1..]| && os[1..][i] == Some(t);
      assert os[i + 1] == os[1..][i];
    }
  }

  lemma {:induction false} SomesComplete(os: seq<Option<Tweet>>, i: nat)
    requires i < |os| && os[i].Some?
    ensures os[i].value in Somes(os)
    decreases i
  {
    if i > 0 {
      assert os[i] == os[1..][i - 1];
      SomesComplete(os[1..], i - 1);
    }
  }

  /** What each card of a pass reads as. */
  function ReadCards(cards: seq<Card>): (os: seq<Option<Tweet>>)
    ensures |os| == |cards|
    ensures forall i :: 0 <= i < |cards| ==> os[i] == ReadCard(cards[i])
  {
    seq(|cards|, i requires 0 <= i < |cards| => ReadCard(cards[i]))
  }

  /** The tweets of one pass's cards, in card order, incomplete cards skipped. */
  function Harvest(cards: seq<Card>): (r: seq<Tweet>)
    ensures |r| <= |cards|
    ensures (forall i :: 0 <= i < |cards| ==> ReadCard(cards[i]).None?) ==> r == []
  {
    Somes(ReadCards(cards))
  }

  lemma {:induction false} SomesAppend(a: seq<Option<Tweet>>, b: seq<Option<Tweet>>)
    ensures Somes(a + b) == Somes(a) + Somes(b)
    decreases |a|
  {
    if a == [] {
      assert a + b == b;
    } else {
      assert (a + b)[0] == a[0];
      assert (a + b)[1..] == a[1..] + b;
      SomesAppend(a[1..], b);
    }
  }

  /** The cards of a pass are read in order: harvesting two runs of cards
      harvests each in turn. */
  lemma HarvestAppend(a: seq<Card>, b: seq<Card>)
    ensures Harvest(a + b) == Harvest(a) + Harvest(b)
  {
    assert ReadCards(a + b) == ReadCards(a) + ReadCards(b);
    SomesAppend(ReadCards(a), ReadCards(b));
  }

  /** One card gives its tweet when it is complete and nothing otherwise. */
  lemma HarvestOne(c: Card)
    ensures Harvest([c]) == if ReadCard(c).Some? then [ReadCard(c).value] else []
  {
    assert ReadCards([c]) == [ReadCard(c)];
    assert ReadCards([c])[1..] == [];
  }

  /** Every harvested tweet comes from a complete card of the pass. */
  lemma HarvestSound(cards: seq<Card>, t: Tweet)
    requires t in Harvest(cards)
    ensures exists i :: 0 <= i < |cards| && ReadCard(cards[i]) == Some(t)
  {
    SomesSound(ReadCards(cards), t);
  }

  /** Every complete card of the pass yields a harvested tweet. */
  lemma HarvestComplete(cards: seq<Card>, i: nat)
    requires i < |cards| && ReadCard(cards[i]).Some?
    ensures ReadCard(cards[i]).value in Harvest(cards)
  {
    SomesComplete(ReadCards(cards), i);
  }

  // ---------------------------------------------------------------------
  // First-seen deduplication
  // ---------------------------------------------------------------------

  ghost predicate NoDup(s: seq<Tweet>) {
    forall i, j :: 0 <= i < j < |s| ==> s[i] != s[j]
  }

  /** The inner `for c in cards` loop: `if tweet not in seen:
      seen.append(tweet)` for each new tweet in turn. */
  function AddNew(seen: seq<Tweet>, ts: seq<Tweet>): (r: seq<Tweet>)
    ensures seen <= r
    decreases |ts|
  {
    if ts == [] then seen
    else AddNew(if ts[0] in seen then seen else seen + [ts[0]], ts[1..])
  }

  /** The collected list never holds two equal tweets. */
  lemma {:induction false} AddNewNoDup(seen: seq<Tweet>, ts: seq<Tweet>)
    requires NoDup(seen)
    ensures NoDup(AddNew(seen, ts))
    decreases |ts|
  {
    if ts != [] {
      var next := if ts[0] in seen then seen else seen + [ts[0]];
      assert NoDup(next);
      AddNewNoDup(next, ts[1..]);
    }
  }

  /** Nothing is lost and nothing invented: the collected list holds
      exactly the tweets seen before and the new ones. */
  lemma {:induction false} AddNewElements(seen: seq<Tweet>, ts: seq<Tweet>, t: Tweet)
    ensures t in AddNew(seen, ts) <==> t in seen || t in ts
    decreases |ts|
  {
    if ts != [] {
      var next := if ts[0] in seen then seen else seen + [ts[0]];
      AddNewElements(next, ts[1..], t);
      assert t in ts <==> t == ts[0] || t in ts[1..] by {
        assert ts == [ts[0]] + ts[1..];
      }
    }
  }

  /** `xs` without any copy of `x`. */
  function Without(xs: seq<Tweet>, x: Tweet): (r: seq<Tweet>)
    ensures |r| <= |xs|
    decreases |xs|
  {
    if xs == [] then []
    else if xs[0] == x then Without(xs[1..], x)
    else [xs[0]] + Without(xs[1..], x)
  }

  /** The reference definition of first-seen order: keep the first
      element, drop its later copies, and continue. */
  function Dedup(xs: seq<Tweet>): seq<Tweet>
    decreases |xs|
  {
    if xs == [] then [] else [xs[0]] + Dedup(Without(xs[1..], xs[0]))
  }

  /** The elements of `xs` not already in `seen`, in order. */
  function Unseen(xs: seq<Tweet>, seen: seq<Tweet>): seq<Tweet>
    decreases |xs|
  {
    if xs == [] then []
    else if xs[0] in seen then Unseen(xs[1..], seen)
    else [xs[0]] + Unseen(xs[1..], seen)
  }

  lemma {:induction false} WithoutUnseen(xs: seq<Tweet>, seen: seq<Tweet>, x: Tweet)
    ensures Without(Unseen(xs, seen), x) == Unseen(xs, seen + [x])
    decreases |xs|
  {
    if xs != [] {
      WithoutUnseen(xs[1..], seen, x);
    }
  }

  lemma {:induction false} UnseenNothing(xs: seq<Tweet>)
    ensures Unseen(xs, []) == xs
    decreases |xs|
  {
    if xs != [] {
      UnseenNothing(xs[1..]);
    }
  }

  /** The source's append-if-absent loop computes the reference order:
      the seen list followed by the first occurrences of the new ones. */
  lemma {:induction false} AddNewIsDedup(seen: seq<Tweet>, ts: seq<Tweet>)
    ensures AddNew(seen, ts) == seen + Dedup(Unseen(ts, seen))
    decreases |ts|
  {
    if ts == [] {
      assert seen + [] == seen;
    } else if ts[0] in seen {
      AddNewIsDedup(seen, ts[1..]);
    } else {
      var x := ts[0];
      var u := Unseen(ts[1..], seen);
      var u' := Unseen(ts[1..], seen + [x]);
      AddNewIsDedup(seen + [x], ts[1..]);
      assert AddNew(seen, ts) == seen + [x] + Dedup(u');
      WithoutUnseen(ts[1..], seen, x);
      assert Without(u, x) == u';
      assert Unseen(ts, seen) == [x] + u;
      assert ([x] + u)[0] == x && ([x] + u)[1..] == u;
      assert Dedup([x] + u) == [x] + Dedup(u');
      assert seen + [x] + Dedup(u') == seen + ([x] + Dedup(u'));
    }
  }

  /** Starting from an empty list, collection is exactly `Dedup`. */
  lemma AddNewFromEmpty(ts: seq<Tweet>)
    ensures AddNew([], ts) == Dedup(ts)
  {
    AddNewIsDedup([], ts);
    UnseenNothing(ts);
  }

  /** Collecting two batches one after the other is collecting their
      concatenation. */
  lemma {:induction false} AddNewAppend(seen: seq<Tweet>, a: seq<Tweet>, b: seq<Tweet>)
    ensures AddNew(AddNew(seen, a), b) == AddNew(seen, a + b)
    decreases |a|
  {
    if a != [] {
      var next := if a[0] in seen then seen else seen + [a[0]];
      assert (a + b)[0] == a[0];
      assert (a + b)[1..] == a[1..] + b;
      AddNewAppend(next, a[1..], b);
    } else {
      assert a + b == b;
    }
  }

  // ---------------------------------------------------------------------
  // The scroll loop
  // ---------------------------------------------------------------------

  /** The loop body run `fuel` more times at most. `last` is the height
      measured before this pass. `None` is a driver fault, which the
      source turns into `return []` after the `except`. */
  function Scroll(seen: seq<Tweet>, last: int, passes: seq<Pass>, fuel: nat): (r: Option<seq<Tweet>>)
    requires |passes| >= fuel
    ensures r.Some? ==> seen <= r.value
    ensures r.Some? && NoDup(seen) ==> NoDup(r.value)
    ensures r.Some? ==> forall t :: t in r.value ==> t in seen || SeenWithin(t, passes, fuel)
    decreases fuel
  {
    if fuel == 0 then Some(seen)
    else match passes[0]
      case DriverFault => None
      case Scrolled(cards, h) =>
        var seen' := AddNew(seen, Harvest(cards));
        assert NoDup(seen) ==> NoDup(seen') by {
          if NoDup(seen) {
            AddNewNoDup(seen, Harvest(cards));
          }
        }
        assert forall t :: t in seen' ==> t in seen || SeenWithin(t, passes, fuel) by {
          forall t | t in seen'
            ensures t in seen || SeenWithin(t, passes, fuel)
          {
            AddNewElements(seen, Harvest(cards), t);
          }
        }
        if h == last then Some(seen')
        else
          var r := Scroll(seen', h, passes[1..], fuel - 1);
          assert r.Some? ==> forall t :: t in r.value ==> t in seen || SeenWithin(t, passes, fuel) by {
            if r.Some? {
              forall t | t in r.value
                ensures t in seen || SeenWithin(t, passes, fuel)
              {
                if t !in seen' {
                  var j :| 0 <= j < fuel - 1 && passes[1..][j].Scrolled? && t in Harvest(passes[1..][j].cards);
                  assert passes[j + 1] == passes[1..][j];
                }
              }
            }
          }
          r
  }

  /** Tweet `t` is produced by a card of one of the first `n` passes. */
  ghost predicate SeenWithin(t: Tweet, passes: seq<Pass>, n: nat)
    requires n <= |passes|
  {
    exists j :: 0 <= j < n && passes[j].Scrolled? && t in Harvest(passes[j].cards)
  }

  /** The height the loop compares pass `j` against: the initial height,
      or the height measured after the previous pass. */
  function HeightBefore(h0: int, passes: seq<Pass>, j: nat): int
    requires j <= |passes|
    requires j == 0 || passes[j - 1].Scrolled?
  {
    if j == 0 then h0 else passes[j - 1].height
  }

  /** The first `k` passes each scrolled and changed the height (a drop
      counts as a change), so the loop went on after each of them. */
  ghost predicate HeightChanged(h0: int, passes: seq<Pass>, k: nat)
    requires k <= |passes|
    decreases k
  {
    k == 0 ||
    (HeightChanged(h0, passes, k - 1) && passes[k - 1].Scrolled?
     && passes[k - 1].height != HeightBefore(h0, passes, k - 1))
  }

  lemma {:induction false} HeightChangedPrefix(h0: int, passes: seq<Pass>, k: nat, j: nat)
    requires j <= k <= |passes|
    requires HeightChanged(h0, passes, k)
    ensures HeightChanged(h0, passes, j)
    decreases k - j
  {
    if j < k {
      HeightChangedPrefix(h0, passes, k - 1, j);
    }
  }

  /** The tweets of the passes `ps`, pass after pass, card after card. */
  function Harvested(ps: seq<Pass>): seq<Tweet>
    decreases |ps|
  {
    if ps == [] then []
    else
      var p := ps[|ps| - 1];
      Harvested(ps[..|ps| - 1]) + (if p.Scrolled? then Harvest(p.cards) else [])
  }

  /** Running `k` passes that each change the height feeds their tweets,
      in order, into the collected list and continuing from the height of
      the last of them. */
  lemma {:induction false} ScrollUnfold(seen: seq<Tweet>, h0: int, passes: seq<Pass>, fuel: nat, k: nat)
    requires |passes| >= fuel && k <= fuel
    requires HeightChanged(h0, passes, k)
    ensures Scroll(seen, h0, passes, fuel)
            == Scroll(AddNew(seen, Harvested(passes[..k])), HeightBefore(h0, passes, k), passes[k..], fuel - k)
    decreases k
  {
    if k == 0 {
      assert passes[..0] == [];
      assert passes[0..] == passes;
    } else {
      ScrollUnfold(seen, h0, passes, fuel, k - 1);
      HeightChangedPrefix(h0, passes, k, k - 1);
      var before := AddNew(seen, Harvested(passes[..k - 1]));
      var p := passes[k - 1];
      assert passes[k - 1..][0] == p;
      assert passes[k - 1..][1..] == passes[k..];
      assert passes[..k][..k - 1] == passes[..k - 1];
      assert Harvested(passes[..k]) == Harvested(passes[..k - 1]) + Harvest(p.cards);
      AddNewAppend(seen, Harvested(passes[..k - 1]), Harvest(p.cards));
    }
  }

  /** Stability: the loop stops at the first pass whose height repeats
      the previous one, and that pass's cards are still collected. */
  lemma StopsOnSteadyHeight(h0: int, passes: seq<Pass>, k: nat)
    requires |passes| >= MaxScrolls && k < MaxScrolls
    requires HeightChanged(h0, passes, k)
    requires passes[k].Scrolled? && passes[k].height == HeightBefore(h0, passes, k)
    ensures Scroll([], h0, passes, MaxScrolls) == Some(Dedup(Harvested(passes[..k + 1])))
  {
    ScrollUnfold([], h0, passes, MaxScrolls, k);
    var early := Harvested(passes[..k]);
    var last := Harvest(passes[k].cards);
    var before := AddNew([], early);
    assert passes[k..][0] == passes[k];
    assert Scroll(before, HeightBefore(h0, passes, k), passes[k..], MaxScrolls - k)
        == Some(AddNew(before, last));
    assert passes[..k + 1][..k] == passes[..k];
    assert Harvested(passes[..k + 1]) == early + last;
    AddNewAppend([], early, last);
    AddNewFromEmpty(early + last);
  }

  /** The pass cap: after 50 passes that each changed the height (up or
      down) the loop ends with everything those 50 passes showed. */
  lemma StopsAtCap(h0: int, passes: seq<Pass>)
    requires |passes| >= MaxScrolls
    requires HeightChanged(h0, passes, MaxScrolls)
    ensures Scroll([], h0, passes, MaxScrolls) == Some(Dedup(Harvested(passes[..MaxScrolls])))
  {
    ScrollUnfold([], h0, passes, MaxScrolls, MaxScrolls);
    AddNewFromEmpty(Harvested(passes[..MaxScrolls]));
  }

  /** A driver fault on any pass the loop reaches discards everything
      collected so far. */
  lemma FaultDiscards(h0: int, passes: seq<Pass>, k: nat)
    requires |passes| >= MaxScrolls && k < MaxScrolls
    requires HeightChanged(h0, passes, k)
    requires passes[k].DriverFault?
    ensures Scroll([], h0, passes, MaxScrolls) == None
  {
    ScrollUnfold([], h0, passes, MaxScrolls, k);
    assert passes[k..][0] == passes[k];
  }

  /** Only the first `fuel` observations are ever consulted: the loop
      never makes more than 50 passes. */
  lemma {:induction false} ScrollReadsOnlyBudget(seen: seq<Tweet>, last: int, passes: seq<Pass>,
                                                 other: seq<Pass>, fuel: nat)
    requires |passes| >= fuel && |other| >= fuel
    requires passes[..fuel] == other[..fuel]
    ensures Scroll(seen, last, passes, fuel) == Scroll(seen, last, other, fuel)
    decreases fuel
  {
    if fuel > 0 {
      assert passes[0] == passes[..fuel][0] == other[..fuel][0] == other[0];
      assert passes[1..][..fuel - 1] == passes[..fuel][1..];
      assert other[1..][..fuel - 1] == other[..fuel][1..];
      match passes[0]
      case DriverFault =>
      case Scrolled(cards, h) =>
        ScrollReadsOnlyBudget(AddNew(seen, Harvest(cards)), h, passes[1..], other[1..], fuel - 1);
    }
  }

  // ---------------------------------------------------------------------
  // scrape_x
  // ---------------------------------------------------------------------

  /** What the browser does during one `scrape_x` call.
      - `launched`: `_init_driver` succeeded.
      - `cookieFile`: the `X_COOKIES_PATH` facts for `_load_cookies`.
      - `homeOk`: `driver.get("https://x.com")` in `_load_cookies`
        succeeded (consulted only when the cookie file exists).
      - `refreshOk`: the `driver.refresh()` after adding cookies succeeded.
      - `searchOk`: the search page loaded, an article appeared within
        the 15-second wait and the first height was read.
      - `startHeight`: that first height.
      - `passes`: what each pass of the scroll loop observes. */
  datatype XSession = XSession(
    launched: bool,
    cookieFile: Cookies.CookieFile,
    homeOk: bool,
    refreshOk: bool,
    searchOk: bool,
    startHeight: int,
    passes: seq<Pass>)

  /** The result of `scrape_x` (or the exception it lets escape), the
      URLs passed to `driver.get` in order, and whether the `finally`
      block quit the driver. */
  datatype XRun = XRun(outcome: Outcome<seq<Tweet>>, visited: seq<string>, quit: bool)

  /** `_load_cookies` returned normally and every page load it made
      succeeded: no cookie file, or the home page loaded and either the
      file held no list or the cookies were added and the page refreshed. */
  predicate CookiesSettled(s: XSession, load: Cookies.CookieLoad) {
    load.NoFile? || (s.homeOk && (load.Invalid? || (load.Applied? && s.refreshOk)))
  }

  /** `scrape_x(keyword, headless)`. */
  function ScrapeX(keyword: string, s: XSession, accept: Cookies.Cookie -> bool): (r: XRun)
    requires |s.passes| >= MaxScrolls
    ensures r.quit <==> s.launched
    ensures !s.launched ==> r == XRun(Returned([]), [], false)
    ensures r.outcome.Raised? <==>
              s.launched && s.homeOk && Cookies.LoadCookies(s.cookieFile, accept).Aborted?
    ensures s.launched && !Cookies.LoadCookies(s.cookieFile, accept).NoFile? && !s.homeOk ==>
              r.outcome == Returned([])
    ensures s.launched && s.homeOk && Cookies.LoadCookies(s.cookieFile, accept).Applied? && !s.refreshOk ==>
              r.outcome == Returned([])
    ensures s.launched && !s.searchOk && !r.outcome.Raised? ==> r.outcome == Returned([])
    ensures s.launched && s.searchOk && CookiesSettled(s, Cookies.LoadCookies(s.cookieFile, accept)) ==>
              r.outcome == Returned(Scroll([], s.startHeight, s.passes, MaxScrolls).GetOr([]))
    ensures r.outcome.Returned? ==> NoDup(r.outcome.value)
    ensures r.outcome.Returned? ==>
              forall t :: t in r.outcome.value ==> SeenWithin(t, s.passes, MaxScrolls)
    ensures SearchUrl(keyword) in r.visited ==> r.visited[|r.visited| - 1] == SearchUrl(keyword)
    ensures s.launched && CookiesSettled(s, Cookies.LoadCookies(s.cookieFile, accept)) ==>
              r.visited == (if Cookies.LoadCookies(s.cookieFile, accept).NoFile? then [] else [XHome])
                           + [SearchUrl(keyword)]
  {
    if !s.launched then XRun(Returned([]), [], false)
    else
      var load := Cookies.LoadCookies(s.cookieFile, accept);
      var home := if load.NoFile? then [] else [XHome];
      if !load.NoFile? && !s.homeOk then XRun(Returned([]), home, true)
      else if load.Aborted? then XRun(Raised, home, true)
      else if load.Applied? && !s.refreshOk then XRun(Returned([]), home, true)
      else
        var visited := home + [SearchUrl(keyword)];
        if !s.searchOk then XRun(Returned([]), visited, true)
        else match Scroll([], s.startHeight, s.passes, MaxScrolls)
          case None => XRun(Returned([]), visited, true)
          case Some(seen) => XRun(Returned(seen), visited, true)
  }

  /** A run whose browser steps all succeed and whose scroll loop settles
      at pass `k` returns the first-seen deduplication of the tweets of
      passes `0..k`. */
  lemma ScrapeXSteadyRun(keyword: string, s: XSession, accept: Cookies.Cookie -> bool, k: nat)
    requires |s.passes| >= MaxScrolls && k < MaxScrolls
    requires s.launched && s.searchOk && CookiesSettled(s, Cookies.LoadCookies(s.cookieFile, accept))
    requires HeightChanged(s.startHeight, s.passes, k)
    requires s.passes[k].Scrolled? && s.passes[k].height == HeightBefore(s.startHeight, s.passes, k)
    ensures ScrapeX(keyword, s, accept).outcome == Returned(Dedup(Harvested(s.passes[..k + 1])))
  {
    StopsOnSteadyHeight(s.startHeight, s.passes, k);
  }

  /** A driver fault during the scroll loop makes `scrape_x` return `[]`,
      whatever was collected before it. */
  lemma ScrapeXFaultReturnsEmpty(keyword: string, s: XSession, accept: Cookies.Cookie -> bool, k: nat)
    requires |s.passes| >= MaxScrolls && k < MaxScrolls
    requires s.launched && s.searchOk && CookiesSettled(s, Cookies.LoadCookies(s.cookieFile, accept))
    requires HeightChanged(s.startHeight, s.passes, k)
    requires s.passes[k].DriverFault?
    ensures ScrapeX(keyword, s, accept).outcome == Returned([])
  {
    FaultDiscards(s.startHeight, s.passes, k);
  }
}
