/** The Facebook collector: the `FB_PAGE_LIST` setting,
    `_scrape_single_fb_page` and `scrape_facebook`.

    The third-party `get_posts` generator is replaced by the finite
    sequence of posts it yields for a page before it ends or raises; an
    exception only ends the sequence early, since the source keeps what
    it already collected. */
module Facebook {
  import opened Wrappers
  import opened Text

  // ---------------------------------------------------------------------
  // FB_PAGE_LIST
  // ---------------------------------------------------------------------

  /** `[p.strip() for p in pieces if p.strip()]`. */
  function CleanPieces(ps: seq<string>): (r: seq<string>)
    ensures |r| <= |ps|
    ensures forall k :: 0 <= k < |r| ==> r[k] != [] && Stripped(r[k])
    decreases |ps|
  {
    if ps == [] then []
    else
      var p := Strip(ps[0]);
      if p != [] then [p] + CleanPieces(ps[1..]) else CleanPieces(ps[1..])
  }

  lemma StripKeepsOut(s: string, c: char)
    requires c !in s
    ensures c !in Strip(s)
  {
    StripTrims(s);
    var i :| TrimmedAt(s, Strip(s), i);
    assert forall k :: 0 <= k < |Strip(s)| ==> Strip(s)[k] == s[i + k];
  }

  lemma {:induction false} CleanPiecesKeepOut(ps: seq<string>, c: char)
    requires forall k :: 0 <= k < |ps| ==> c !in ps[k]
    ensures forall k :: 0 <= k < |CleanPieces(ps)| ==> c !in CleanPieces(ps)[k]
    decreases |ps|
  {
    if ps != [] {
      StripKeepsOut(ps[0], c);
      CleanPiecesKeepOut(ps[1..], c);
    }
  }

  /** The filter keeps order: it distributes over concatenation. */
  lemma {:induction false} CleanPiecesAppend(a: seq<string>, b: seq<string>)
    ensures CleanPieces(a + b) == CleanPieces(a) + CleanPieces(b)
    decreases |a|
  {
    if a == [] {
      assert a + b == b;
    } else {
      assert (a + b)[0] == a[0];
      assert (a + b)[1..] == a[1..] + b;
      CleanPiecesAppend(a[1..], b);
    }
  }

  /** One piece is kept exactly when it is not blank, and is kept stripped. */
  lemma CleanPiecesSingle(p: string)
    ensures CleanPieces([p]) == if Strip(p) == [] then [] else [Strip(p)]
  {
    assert [p][1..] == [];
  }

  /** `FB_PAGE_LIST`, from the environment value (`None` when unset). */
  function PageList(env: Option<string>): (pages: seq<string>)
    ensures forall k :: 0 <= k < |pages| ==> pages[k] != [] && Stripped(pages[k]) && ',' !in pages[k]
    ensures |pages| <= CountChar(env.GetOr(""), ',') + 1
    ensures env.None? || env == Some("") ==> pages == []
  {
    var pieces := Split(env.GetOr(""), ',');
    CleanPiecesSingle("");
    CleanPiecesKeepOut(pieces, ',');
    SplitCount(env.GetOr(""), ',');
    CleanPieces(pieces)
  }

  lemma {:induction false} SplitCount(s: string, sep: char)
    ensures |Split(s, sep)| == CountChar(s, sep) + 1
    decreases |s|
  {
    if s != [] {
      SplitCount(s[1..], sep);
    }
  }

  lemma {:induction false} CleanPiecesIdentity(ps: seq<string>)
    requires forall k :: 0 <= k < |ps| ==> ps[k] != [] && Stripped(ps[k])
    ensures CleanPieces(ps) == ps
    decreases |ps|
  {
    if ps != [] {
      StripStripped(ps[0]);
      CleanPiecesIdentity(ps[1..]);
      assert CleanPieces(ps) == [ps[0]] + ps[1..];
      assert [ps[0]] + ps[1..] == ps;
    }
  }

  /** For any comma-free pieces, the page list of their comma join is
      exactly the cleaned pieces: stripped, blanks dropped, order kept. */
  lemma PageListOfJoin(ps: seq<string>)
    requires |ps| >= 1
    requires forall k :: 0 <= k < |ps| ==> ',' !in ps[k]
    ensures PageList(Some(Join(ps, ','))) == CleanPieces(ps)
  {
    SplitJoin(ps, ',');
  }

  /** Writing a page list back as a comma-separated value and parsing it
      again gives the same list, in the same order. */
  lemma PageListRoundTrip(pages: seq<string>)
    requires forall k :: 0 <= k < |pages| ==> pages[k] != [] && Stripped(pages[k]) && ',' !in pages[k]
    ensures PageList(Some(Join(pages, ','))) == pages
  {
    if pages == [] {
      assert Split("", ',') == [""];
      assert Strip("") == "";
    } else {
      SplitJoin(pages, ',');
      CleanPiecesIdentity(pages);
    }
  }

  /** Whitespace around the names and empty entries do not matter. */
  lemma PageListIgnoresPadding(a: string, name: string, b: string)
    requires AllSpace(a) && AllSpace(b)
    requires name != [] && Stripped(name) && ',' !in name
    ensures PageList(Some(a + name + b + ",")) == [name]
  {
    var s := a + name + b + ",";
    assert s == (a + name + b) + [','] + "";
    assert ',' !in a + name + b by {
      assert forall k :: 0 <= k < |a| ==> a[k] != ',';
      assert forall k :: 0 <= k < |b| ==> b[k] != ',';
    }
    var x := a + name + b;
    SplitJoin([x, ""], ',');
    assert Join([x, ""], ',') == s;
    assert Split(s, ',') == [x, ""];
    StripUnique(a, name, b);
    assert Strip(x) == name;
    assert Strip("") == "";
    assert CleanPieces([""]) == [];
    assert [x, ""][1..] == [""];
    assert CleanPieces([x, ""]) == [name];
  }

  // ---------------------------------------------------------------------
  // One page
  // ---------------------------------------------------------------------

  /** A numeric field of a post: the key is absent, present with `None`,
      or present with a number. */
  datatype Stat = Absent | Null | Num(n: int)

  /** One post as `get_posts` yields it; `None` for a missing or empty
      `text` or `time`. The `time` field stands for the ISO text of the
      post's datetime. */
  datatype RawPost = RawPost(
    text: Option<string>,
    time: Option<string>,
    likes: Stat,
    comments: Stat)

  /** The dict `_scrape_single_fb_page` appends; `None` in `likes` or
      `comments` is Python's `None`. */
  datatype FbPost = FbPost(page: string, text: string, time: Option<string>, likes: Option<int>, comments: Option<int>)

  /** `post.get(key, 0)`: 0 only when the key is absent; a stored `None`
      is passed through. */
  function StatOrZero(s: Stat): (r: Option<int>)
    ensures s.Absent? ==> r == Some(0)
    ensures s.Null? <==> r.None?
    ensures s.Num? ==> r == Some(s.n)
  {
    match s
    case Absent => Some(0)
    case Null => None
    case Num(n) => Some(n)
  }

  /** `post.get("text") or ""`. */
  function PostText(p: RawPost): string {
    p.text.GetOr("")
  }

  /** `keyword.lower() in text.lower()`. */
  predicate Mentions(keyword: string, text: string) {
    Contains(Lower(text), Lower(keyword))
  }

  function ToFbPost(page: string, p: RawPost): FbPost {
    FbPost(page, PostText(p), p.time, StatOrZero(p.likes), StatOrZero(p.comments))
  }

  /** The posts of a feed that mention the keyword, in feed order: the
      reference for what a page may contribute. */
  function Matching(page: string, keyword: string, feed: seq<RawPost>): (r: seq<FbPost>)
    ensures |r| <= |feed|
    ensures forall i :: 0 <= i < |r| ==> r[i].page == page
    decreases |feed|
  {
    if feed == [] then []
    else if Mentions(keyword, PostText(feed[0])) then
      [ToFbPost(page, feed[0])] + Matching(page, keyword, feed[1..])
    else Matching(page, keyword, feed[1..])
  }

  /** How many posts a page may contribute: `max_posts`, but at least one,
      since the cap is checked only after an append. */
  function Cap(maxPosts: int): nat {
    if maxPosts < 1 then 1 else maxPosts
  }

  function Take(xs: seq<FbPost>, n: nat): (r: seq<FbPost>)
  {
    if n < |xs| then xs[..n] else xs
  }

  /** The `for post in get_posts(...)` loop, entered with `count` matches
      already appended. */
  function ScanPage(page: string, keyword: string, maxPosts: int, feed: seq<RawPost>, count: int): (r: seq<FbPost>)
    ensures |r| <= |Matching(page, keyword, feed)|
    ensures count + 1 >= maxPosts ==> |r| <= 1
    decreases |feed|
  {
    if feed == [] then []
    else if !Mentions(keyword, PostText(feed[0])) then
      ScanPage(page, keyword, maxPosts, feed[1..], count)
    else
      [ToFbPost(page, feed[0])]
      + (if count + 1 >= maxPosts then [] else ScanPage(page, keyword, maxPosts, feed[1..], count + 1))
  }

  /** `_scrape_single_fb_page(page, keyword, max_posts, creds)`. */
  function ScrapePage(page: string, keyword: string, maxPosts: int, feed: seq<RawPost>): (r: seq<FbPost>)
    ensures r == Take(Matching(page, keyword, feed), Cap(maxPosts))
    ensures |r| <= Cap(maxPosts)
    ensures forall k :: 0 <= k < |r| ==> r[k].page == page && Mentions(keyword, r[k].text)
  {
    ScanIsCappedMatching(page, keyword, maxPosts, feed, 0);
    MatchingMentions(page, keyword, feed);
    ScanPage(page, keyword, maxPosts, feed, 0)
  }

  lemma {:induction false} MatchingMentions(page: string, keyword: string, feed: seq<RawPost>)
    ensures forall k :: 0 <= k < |Matching(page, keyword, feed)| ==>
              Matching(page, keyword, feed)[k].page == page
              && Mentions(keyword, Matching(page, keyword, feed)[k].text)
    decreases |feed|
  {
    if feed != [] {
      MatchingMentions(page, keyword, feed[1..]);
    }
  }

  /** From `count` matches on, the loop appends the next matches until
      `max(1, max_posts - count)` of them are in. */
  lemma {:induction false} ScanIsCappedMatching(page: string, keyword: string, maxPosts: int,
                                                feed: seq<RawPost>, count: int)
    ensures ScanPage(page, keyword, maxPosts, feed, count)
            == Take(Matching(page, keyword, feed), Cap(maxPosts - count))
    decreases |feed|
  {
    if feed != [] {
      var m := Matching(page, keyword, feed[1..]);
      if !Mentions(keyword, PostText(feed[0])) {
        ScanIsCappedMatching(page, keyword, maxPosts, feed[1..], count);
      } else {
        var post := ToFbPost(page, feed[0]);
        var n := Cap(maxPosts - count);
        assert Matching(page, keyword, feed) == [post] + m;
        if count + 1 >= maxPosts {
          assert n == 1;
          assert Take([post] + m, 1) == [post];
        } else {
          ScanIsCappedMatching(page, keyword, maxPosts, feed[1..], count + 1);
          assert Cap(maxPosts - (count + 1)) == n - 1;
          assert Take([post] + m, n) == [post] + Take(m, n - 1);
        }
      }
    }
  }

  lemma {:induction false} MatchingAppend(page: string, keyword: string, a: seq<RawPost>, b: seq<RawPost>)
    ensures Matching(page, keyword, a + b) == Matching(page, keyword, a) + Matching(page, keyword, b)
    decreases |a|
  {
    if a == [] {
      assert a + b == b;
    } else {
      assert (a + b)[0] == a[0];
      assert (a + b)[1..] == a[1..] + b;
      MatchingAppend(page, keyword, a[1..], b);
    }
  }

  /** One feed entry is kept, tagged with the page, exactly when its text
      (`""` for a missing one) mentions the keyword. */
  lemma MatchingOne(page: string, keyword: string, p: RawPost)
    ensures Matching(page, keyword, [p]) == if Mentions(keyword, PostText(p)) then [ToFbPost(page, p)] else []
  {
    assert [p][1..] == [];
  }

  /** A feed cut short by an exception still yields what was collected
      up to that point: the partial result is a prefix of the full one. */
  lemma PartialFeedKept(page: string, keyword: string, maxPosts: int, feed: seq<RawPost>, more: seq<RawPost>)
    ensures ScrapePage(page, keyword, maxPosts, feed) <= ScrapePage(page, keyword, maxPosts, feed + more)
  {
    MatchingAppend(page, keyword, feed, more);
  }

  /** While fewer than `max_posts` posts match, every matching post is kept. */
  lemma UnderCapKeepsAll(page: string, keyword: string, maxPosts: int, feed: seq<RawPost>)
    requires |Matching(page, keyword, feed)| <= Cap(maxPosts)
    ensures ScrapePage(page, keyword, maxPosts, feed) == Matching(page, keyword, feed)
  {
  }

  // ---------------------------------------------------------------------
  // All pages
  // ---------------------------------------------------------------------

  /** `scrape_facebook(keyword, max_posts)`: `pages` is the list read
      from `FB_PAGE_LIST`, that is `PageList(env)`, visited in order, and
      `feeds[k]` is what `get_posts` yields for `pages[k]`. */
  function ScrapeFacebook(keyword: string, maxPosts: int, pages: seq<string>, feeds: seq<seq<RawPost>>)
    : (r: seq<FbPost>)
    requires |feeds| == |pages|
    ensures |r| <= |pages| * Cap(maxPosts)
    ensures forall k :: 0 <= k < |r| ==> r[k].page in pages && Mentions(keyword, r[k].text)
    decreases |pages|
  {
    if pages == [] then []
    else
      var first := ScrapePage(pages[0], keyword, maxPosts, feeds[0]);
      var rest := ScrapeFacebook(keyword, maxPosts, pages[1..], feeds[1..]);
      assert forall k :: 0 <= k < |rest| ==> rest[k].page in pages by {
        assert forall p :: p in pages[1..] ==> p in pages;
      }
      var r := first + rest;
      assert forall k :: 0 <= k < |r| ==> r[k] == (if k < |first| then first[k] else rest[k - |first|]);
      MulSucc(|pages[1..]|, Cap(maxPosts));
      r
  }

  /** One more factor of `c`: `(n + 1) * c == c + n * c`. */
  lemma MulSucc(n: nat, c: int)
    ensures (n + 1) * c == c + n * c
  {
  }

  /** Page results are concatenated in list order: one more page appends
      exactly that page's posts at the end. */
  lemma {:induction false} ScrapeFacebookAppend(keyword: string, maxPosts: int,
                                                pages: seq<string>, feeds: seq<seq<RawPost>>,
                                                page: string, feed: seq<RawPost>)
    requires |feeds| == |pages|
    ensures ScrapeFacebook(keyword, maxPosts, pages + [page], feeds + [feed])
            == ScrapeFacebook(keyword, maxPosts, pages, feeds) + ScrapePage(page, keyword, maxPosts, feed)
    decreases |pages|
  {
    if pages == [] {
      assert pages + [page] == [page];
      assert feeds + [feed] == [feed];
    } else {
      assert (pages + [page])[1..] == pages[1..] + [page];
      assert (feeds + [feed])[1..] == feeds[1..] + [feed];
      ScrapeFacebookAppend(keyword, maxPosts, pages[1..], feeds[1..], page, feed);
    }
  }
}
