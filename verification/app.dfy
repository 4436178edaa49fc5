/** The request and record rules of the web service: project-window
    configuration (`_parse_date`), phase tagging (`_project_phase`),
    keyword extraction in the `/scrape` endpoint, and the X documents a
    scrape job stores (`_scrape_and_store`, X branch).

    Instants are integers (seconds, UTC). `datetime.fromisoformat` is the
    parameter `parse`, which yields `None` for text it rejects. */
module App {
  import opened Wrappers
  import opened Text
  import opened XCollector
  import opened Sentiment
  import Cookies

  // ---------------------------------------------------------------------
  // Project window and phase
  // ---------------------------------------------------------------------

  datatype Phase = Before | During | After

  /** The configured window: `PROJECT_START` and `PROJECT_END`. */
  datatype Window = Window(start: Option<int>, end: Option<int>)

  /** `fromisoformat(s)` with its exception caught: `parse` stands for the
      library on non-empty text, and the empty string is always rejected. */
  function FromIso(s: string, parse: string -> Option<int>): (r: Option<int>)
    ensures s == "" ==> r.None?
    ensures s != "" ==> r == parse(s)
  {
    if s == "" then None else parse(s)
  }

  /** `_parse_date(key)`: `value` is the environment variable (`None` when
      unset). An unset variable reads as `""`, which `fromisoformat`
      rejects, and any rejected text gives `None`. */
  function ParseDate(value: Option<string>, parse: string -> Option<int>): (r: Option<int>)
    ensures value.None? ==> r.None?
    ensures value == Some("") ==> r.None?
    ensures value.Some? && value.value != "" ==> r == parse(value.value)
  {
    FromIso(value.GetOr(""), parse)
  }

  /** The module-level `PROJECT_START` and `PROJECT_END`, read from
      `PROJECT_START_DATE` and `PROJECT_END_DATE`. */
  function WindowOf(startEnv: Option<string>, endEnv: Option<string>, parse: string -> Option<int>)
    : (w: Window)
    ensures startEnv.None? || startEnv == Some("") ==> w.start.None?
    ensures endEnv.None? || endEnv == Some("") ==> w.end.None?
    ensures startEnv.Some? && startEnv.value != "" ==> w.start == parse(startEnv.value)
    ensures endEnv.Some? && endEnv.value != "" ==> w.end == parse(endEnv.value)
  {
    Window(ParseDate(startEnv, parse), ParseDate(endEnv, parse))
  }

  /** The classification inside `_project_phase` once the timestamp has
      been parsed (`None`: missing or unparseable, the `except` path). */
  function ProjectPhase(ts: Option<int>, w: Window): (p: Phase)
    ensures p == Before <==> ts.Some? && w.start.Some? && ts.value < w.start.value
    ensures p == After <==> ts.Some? && w.end.Some? && ts.value > w.end.value
                            && !(w.start.Some? && ts.value < w.start.value)
    ensures p == During <==> ts.None? ||
                             ((w.start.None? || w.start.value <= ts.value) &&
                              (w.end.None? || ts.value <= w.end.value))
  {
    match ts
    case None => During
    case Some(t) =>
      if w.start.Some? && t < w.start.value then Before
      else if w.end.Some? && t > w.end.value then After
      else During
  }

  function PhaseRank(p: Phase): nat {
    match p
    case Before => 0
    case During => 1
    case After => 2
  }

  /** Later timestamps never get an earlier phase, whatever the window
      (even one whose end precedes its start). */
  lemma PhaseMonotone(t1: int, t2: int, w: Window)
    requires t1 <= t2
    ensures PhaseRank(ProjectPhase(Some(t1), w)) <= PhaseRank(ProjectPhase(Some(t2), w))
  {
    var p1 := ProjectPhase(Some(t1), w);
    var p2 := ProjectPhase(Some(t2), w);
    if p1 == After {
      assert !(w.start.Some? && t2 < w.start.value);
      assert p2 == After;
    } else if p1 == During {
      assert p2 != Before;
    }
  }

  /** With no bounds configured, every timestamp is `'during'`. */
  lemma NoWindowAlwaysDuring(ts: Option<int>)
    ensures ProjectPhase(ts, Window(None, None)) == During
  {
  }

  /** With neither date variable set, every timestamp is `'during'`. */
  lemma UnsetDatesAlwaysDuring(ts: Option<int>, parse: string -> Option<int>)
    ensures ProjectPhase(ts, WindowOf(None, None, parse)) == During
  {
  }

  /** `_project_phase(ts_iso)` for the value `t.get('date', '')` of a
      collected tweet. A missing date is `None`, whose `rstrip` raises
      inside the `try`; otherwise a trailing run of `Z` is removed before
      parsing, and a date that is empty after that is rejected. */
  function PhaseOfDate(date: Option<string>, parse: string -> Option<int>, w: Window): (p: Phase)
    ensures date.None? ==> p == During
    ensures date.Some? && RStripChar(date.value, 'Z') == "" ==> p == During
    ensures date.Some? && RStripChar(date.value, 'Z') != "" ==>
              p == ProjectPhase(parse(RStripChar(date.value, 'Z')), w)
  {
    var ts := match date
      case None => None
      case Some(s) => FromIso(RStripChar(s, 'Z'), parse);
    ProjectPhase(ts, w)
  }

  /** The phase ignores any trailing `Z`s on the date. */
  lemma PhaseIgnoresZulu(s: string, n: nat, parse: string -> Option<int>, w: Window)
    ensures PhaseOfDate(Some(s + seq(n, _ => 'Z')), parse, w)
         == PhaseOfDate(Some(RStripChar(s, 'Z')), parse, w)
  {
    RStripAppended(s, n);
    RStripIdempotent(s);
  }

  lemma {:induction false} RStripAppended(s: string, n: nat)
    ensures RStripChar(s + seq(n, _ => 'Z'), 'Z') == RStripChar(s, 'Z')
    decreases n
  {
    if n > 0 {
      var t := s + seq(n, _ => 'Z');
      assert t[..|t| - 1] == s + seq(n - 1, _ => 'Z');
      RStripAppended(s, n - 1);
    } else {
      assert s + seq(n, _ => 'Z') == s;
    }
  }

  lemma RStripIdempotent(s: string)
    ensures RStripChar(RStripChar(s, 'Z'), 'Z') == RStripChar(s, 'Z')
  {
  }

  // ---------------------------------------------------------------------
  // The /scrape endpoint
  // ---------------------------------------------------------------------

  /** A decoded JSON request body. */
  datatype Json =
    | JNull
    | JBool(b: bool)
    | JInt(i: int)
    | JStr(s: string)
    | JList(items: seq<Json>)
    | JObject(fields: map<string, Json>)

  /** Python truthiness of the decoded value. */
  predicate Truthy(j: Json) {
    match j
    case JNull => false
    case JBool(b) => b
    case JInt(i) => i != 0
    case JStr(s) => s != ""
    case JList(items) => items != []
    case JObject(fields) => fields != map[]
  }

  /** `str(j)`. Lists and objects are printed by Python's `repr`, given
      here as the parameter `repr`. */
  function PyStr(j: Json, repr: Json -> string): (r: string)
    ensures j.JStr? ==> r == j.s
    ensures j.JInt? && j.i >= 0 ==> r == NatToString(j.i) && ParseNat(r) == j.i
  {
    match j
    case JNull => "None"
    case JBool(b) => if b then "True" else "False"
    case JInt(i) =>
      if i >= 0 then ParseNatToString(i); IntToString(i) else IntToString(i)
    case JStr(s) => s
    case _ => repr(j)
  }

  /** `[str(k) for k in items if k]`. */
  function TruthyStrs(items: seq<Json>, repr: Json -> string): (r: seq<string>)
    ensures |r| <= |items|
    ensures |r| == |items| <==> forall i :: 0 <= i < |items| ==> Truthy(items[i])
    decreases |items|
  {
    if items == [] then []
    else
      var rest := TruthyStrs(items[1..], repr);
      assert (forall i :: 0 <= i < |items| ==> Truthy(items[i]))
         <==> Truthy(items[0]) && forall i :: 0 <= i < |items[1..]| ==> Truthy(items[1..][i]) by {
        if Truthy(items[0]) && forall i :: 0 <= i < |items[1..]| ==> Truthy(items[1..][i]) {
          forall i | 0 <= i < |items| ensures Truthy(items[i]) {
            if i > 0 { assert items[1..][i - 1] == items[i]; }
          }
        }
      }
      if Truthy(items[0]) then [PyStr(items[0], repr)] + rest else rest
  }

  /** The filter keeps entries in order: it distributes over concatenation. */
  lemma {:induction false} TruthyStrsAppend(a: seq<Json>, b: seq<Json>, repr: Json -> string)
    ensures TruthyStrs(a + b, repr) == TruthyStrs(a, repr) + TruthyStrs(b, repr)
    decreases |a|
  {
    if a == [] {
      assert a + b == b;
    } else {
      assert (a + b)[0] == a[0];
      assert (a + b)[1..] == a[1..] + b;
      TruthyStrsAppend(a[1..], b, repr);
    }
  }

  /** A falsy entry (`null`, `false`, `0`, `""`, `[]`, `{}`) is dropped and
      a truthy one becomes exactly one keyword. */
  lemma TruthyStrsSingle(x: Json, repr: Json -> string)
    ensures TruthyStrs([x], repr) == (if Truthy(x) then [PyStr(x, repr)] else [])
  {
    assert [x][1..] == [];
  }

  /** What the endpoint extracted from the body: a keyword list, nothing
      usable (the 400 reply), or a `TypeError` from indexing or testing
      membership on a body that is not an object. */
  datatype Extraction = Keywords(kws: seq<string>) | Missing | TypeFault

  /** The keyword rules of `scrape_endpoint`. */
  function Extract(body: Json, repr: Json -> string): (r: Extraction)
    ensures !Truthy(body) ==> r == Missing
    ensures body.JObject? && "keywords" in body.fields && body.fields["keywords"].JList? ==>
              r == Keywords(TruthyStrs(body.fields["keywords"].items, repr))
    ensures body.JObject? && "keyword" in body.fields &&
            !("keywords" in body.fields && body.fields["keywords"].JList?) ==>
              r == Keywords([PyStr(body.fields["keyword"], repr)])
    ensures body.JObject? && "keyword" !in body.fields &&
            !("keywords" in body.fields && body.fields["keywords"].JList?) ==>
              r == Missing
    ensures r.TypeFault? ==> !body.JObject?
    ensures !body.JObject? ==> r.Missing? || r.TypeFault?
    ensures body.JList? ==> (r.TypeFault? <==> JStr("keywords") in body.items || JStr("keyword") in body.items)
    ensures body.JStr? ==> (r.TypeFault? <==> Contains(body.s, "keywords") || Contains(body.s, "keyword"))
    ensures body.JInt? || body.JBool? ==> (r.TypeFault? <==> Truthy(body))
  {
    var data := if Truthy(body) then body else JObject(map[]);
    match data
    case JObject(m) =>
      if "keywords" in m && m["keywords"].JList? then Keywords(TruthyStrs(m["keywords"].items, repr))
      else if "keyword" in m then Keywords([PyStr(m["keyword"], repr)])
      else Missing
    // `in` on a list compares elements; indexing a list by a string raises.
    case JList(items) =>
      if JStr("keywords") in items || JStr("keyword") in items then TypeFault else Missing
    // `in` on a string is a substring test; indexing it by a string raises.
    case JStr(s) =>
      if Contains(s, "keywords") || Contains(s, "keyword") then TypeFault else Missing
    // `in` on a number or boolean raises.
    case _ => TypeFault
  }

  /** A list under `keywords` wins over any `keyword` entry. */
  lemma KeywordsListTakesPrecedence(m: map<string, Json>, other: Json, repr: Json -> string)
    requires "keywords" in m && m["keywords"].JList?
    ensures Extract(JObject(m["keyword" := other]), repr) == Extract(JObject(m), repr)
  {
    assert "keywords" in m["keyword" := other];
  }

  /** A `keywords` entry that is not a list is ignored: the body is read as
      if it were not there. */
  lemma NonListKeywordsIgnored(m: map<string, Json>, repr: Json -> string)
    requires "keywords" in m && !m["keywords"].JList?
    ensures Extract(JObject(m), repr) == Extract(JObject(m - {"keywords"}), repr)
  {
    var m' := m - {"keywords"};
    if "keyword" in m {
      assert "keyword" in m';
      assert m'["keyword"] == m["keyword"];
    } else {
      assert "keyword" !in m';
    }
  }

  const Ok: int := 200
  const BadRequest: int := 400
  const MissingKeywordError: string := "Provide 'keyword' or non-empty list 'keywords'"

  /** The success message, `f"Scraped {len(kws)} keyword(s)"`. */
  function ScrapedMessage(n: nat): (m: string)
    ensures |m| >= 20 && m[..8] == "Scraped " && m[|m| - 11..] == " keyword(s)"
    ensures |m| >= 20 && (forall k :: 8 <= k < |m| - 11 ==> IsDigit(m[k]))
            && ParseNat(m[8..|m| - 11]) == n
    ensures |m| >= 20 && m[8] == '0' ==> n == 0 && m == "Scraped 0 keyword(s)"
  {
    ParseNatToString(n);
    var digits := NatToString(n);
    var m := "Scraped " + digits + " keyword(s)";
    assert m[8..|m| - 11] == digits;
    m
  }

  datatype Reply = Reply(status: int, body: string)

  /** The position of the first job from `i` on (below `n`) that raises,
      or `n` when none does. */
  function FirstRaising(n: nat, jobRaises: nat -> bool, i: nat): (j: nat)
    requires i <= n
    ensures i <= j <= n
    ensures j < n ==> jobRaises(j)
    ensures forall k :: i <= k < j ==> !jobRaises(k)
    decreases n - i
  {
    if i == n then n
    else if jobRaises(i) then i
    else FirstRaising(n, jobRaises, i + 1)
  }

  /** `for kw in kws: _scrape_and_store(kw)`. `jobRaises(k)` says whether
      the `k`-th call (counting from 0) lets an exception escape. Each call
      runs its own browser session, so two calls for the same keyword can
      end differently. Returns the keywords whose job was started, in
      order, and whether one raised. */
  function RunJobs(kws: seq<string>, jobRaises: nat -> bool): (r: (seq<string>, bool))
    ensures r.0 <= kws
    ensures r.1 <==> exists k :: 0 <= k < |kws| && jobRaises(k)
    ensures !r.1 ==> r.0 == kws
    ensures r.1 ==> |r.0| >= 1 && jobRaises(|r.0| - 1)
    ensures forall k :: 0 <= k < |r.0| - 1 ==> !jobRaises(k)
  {
    var j := FirstRaising(|kws|, jobRaises, 0);
    if j < |kws| then (kws[..j + 1], true) else (kws, false)
  }

  /** One call of the endpoint: the reply (or the exception that escaped)
      and the keywords scraped, in order. */
  datatype EndpointRun = EndpointRun(reply: Outcome<Reply>, jobs: seq<string>)

  /** `scrape_endpoint()` for a decoded body. */
  function ScrapeEndpoint(body: Json, repr: Json -> string, jobRaises: nat -> bool): (r: EndpointRun)
    ensures r.reply == Returned(Reply(BadRequest, MissingKeywordError)) <==> Extract(body, repr).Missing?
    ensures Extract(body, repr).Missing? || Extract(body, repr).TypeFault? ==> r.jobs == []
    ensures Extract(body, repr).TypeFault? ==> r.reply.Raised?
    ensures Extract(body, repr).Keywords? ==> r.jobs <= Extract(body, repr).kws
    ensures Extract(body, repr).Keywords? ==>
              (r.jobs, r.reply.Raised?) == RunJobs(Extract(body, repr).kws, jobRaises)
    ensures r.reply.Raised? || r.reply.value.status in {Ok, BadRequest}
    ensures r.reply.Returned? && r.reply.value.status == Ok <==>
              Extract(body, repr).Keywords? && r.jobs == Extract(body, repr).kws &&
              forall k :: 0 <= k < |r.jobs| ==> !jobRaises(k)
    ensures r.reply.Returned? && r.reply.value.status == Ok ==>
              r.reply.value.body == ScrapedMessage(|r.jobs|)
  {
    match Extract(body, repr)
    case Missing => EndpointRun(Returned(Reply(BadRequest, MissingKeywordError)), [])
    case TypeFault => EndpointRun(Raised, [])
    case Keywords(kws) =>
      var (jobs, raised) := RunJobs(kws, jobRaises);
      if raised then EndpointRun(Raised, jobs)
      else EndpointRun(Returned(Reply(Ok, ScrapedMessage(|kws|))), jobs)
  }

  /** An empty keyword list is a success that scrapes nothing. */
  lemma EmptyListScrapesNothing(repr: Json -> string, jobRaises: nat -> bool)
    ensures ScrapeEndpoint(JObject(map["keywords" := JList([])]), repr, jobRaises)
            == EndpointRun(Returned(Reply(Ok, "Scraped 0 keyword(s)")), [])
  {
    var m := map["keywords" := JList([])];
    assert "keywords" in m && m["keywords"].JList?;
    assert Extract(JObject(m), repr) == Keywords([]);
    assert NatToString(0) == "0";
    assert ScrapedMessage(0) == "Scraped 0 keyword(s)";
    assert RunJobs([], jobRaises) == ([], false);
  }

  /** A repeated keyword is scraped twice, and the second run may raise
      although the first succeeded: the endpoint then lets the exception
      escape after both jobs started. */
  lemma RepeatedKeywordRunsTwice(repr: Json -> string)
    ensures var body := JObject(map["keywords" := JList([JStr("a"), JStr("a")])]);
            var r := ScrapeEndpoint(body, repr, k => k == 1);
            r.jobs == ["a", "a"] && r.reply.Raised?
  {
    var items := [JStr("a"), JStr("a")];
    assert TruthyStrs(items, repr) == ["a", "a"] by {
      TruthyStrsAppend([JStr("a")], [JStr("a")], repr);
      TruthyStrsSingle(JStr("a"), repr);
      assert items == [JStr("a")] + [JStr("a")];
    }
    var m := map["keywords" := JList(items)];
    assert "keywords" in m && m["keywords"].JList?;
    assert Extract(JObject(m), repr) == Keywords(["a", "a"]);
    var second: nat -> bool := k => k == 1;
    assert FirstRaising(2, second, 0) == 1 by {
      assert !second(0) && second(1);
    }
  }

  // ---------------------------------------------------------------------
  // Stored X documents
  // ---------------------------------------------------------------------

  /** The document `_save` receives for one tweet: the fields of
      `analyze_sentiment` this model covers, updated with the job's own. */
  datatype XDocument = XDocument(
    platform: string,
    text: string,
    meta: Tweet,
    timestamp: string,
    projectPhase: Phase,
    keyword: string,
    swahiliSentiment: Option<Label>)

  /** The job's fixed inputs: the keyword, the job start time `now`
      (already formatted), the lexicon, the date parser and the window,
      which the application builds once with `WindowOf`. */
  datatype Job = Job(
    keyword: string,
    now: string,
    lexicon: Lexicon,
    parse: string -> Option<int>,
    window: Window)

  /** The document for one tweet whose sentiment analysis returned `a`. */
  function XDocumentOf(job: Job, t: Tweet, a: Analysis): (d: XDocument)
    ensures d.platform == "x" && d.text == t.content && d.meta == t && d.keyword == job.keyword
  {
    XDocument("x", t.content, t, job.now, PhaseOfDate(t.date, job.parse, job.window), job.keyword,
              a.swahiliSentiment)
  }

  /** The X loop of `_scrape_and_store` over the collected tweets. Returns
      the documents saved, in order, and whether `analyze_sentiment`
      raised (on a tweet with blank content), which ends the job. */
  function StoreTweets(job: Job, tweets: seq<Tweet>): (r: (seq<XDocument>, bool))
    ensures |r.0| <= |tweets|
    ensures r.1 <==> exists k :: 0 <= k < |tweets| && AllSpace(tweets[k].content)
    ensures !r.1 ==> |r.0| == |tweets|
    ensures r.1 ==> |r.0| < |tweets| && AllSpace(tweets[|r.0|].content)
    ensures forall k :: 0 <= k < |r.0| ==>
              !AllSpace(tweets[k].content) &&
              r.0[k] == XDocumentOf(job, tweets[k], AnalyzeSentiment(job.lexicon, tweets[k].content).value)
    decreases |tweets|
  {
    if tweets == [] then ([], false)
    else match AnalyzeSentiment(job.lexicon, tweets[0].content)
      case Raised => ([], true)
      case Returned(a) =>
        var rest := StoreTweets(job, tweets[1..]);
        BlankAfterFirst(tweets);
        ([XDocumentOf(job, tweets[0], a)] + rest.0, rest.1)
  }

  /** When the first tweet is not blank, a blank tweet exists exactly when
      one exists among the rest. */
  lemma BlankAfterFirst(tweets: seq<Tweet>)
    requires tweets != [] && !AllSpace(tweets[0].content)
    ensures (exists k :: 0 <= k < |tweets| && AllSpace(tweets[k].content))
        <==> (exists k :: 0 <= k < |tweets[1..]| && AllSpace(tweets[1..][k].content))
  {
    if exists k :: 0 <= k < |tweets| && AllSpace(tweets[k].content) {
      var k :| 0 <= k < |tweets| && AllSpace(tweets[k].content);
      assert tweets[1..][k - 1] == tweets[k];
    }
  }

  /** Every stored document has the fixed fields of an X record: platform
      `"x"`, the tweet's content as text, the tweet itself as `meta`, the
      job's keyword and time, and the phase of the tweet's date. */
  lemma StoredXRecordShape(job: Job, tweets: seq<Tweet>, k: nat)
    requires k < |StoreTweets(job, tweets).0|
    ensures var d := StoreTweets(job, tweets).0[k];
            d.platform == "x" && d.text == tweets[k].content && d.meta == tweets[k] &&
            d.keyword == job.keyword && d.timestamp == job.now &&
            d.projectPhase == PhaseOfDate(tweets[k].date, job.parse, job.window) &&
            (d.swahiliSentiment.Some? <==> IsSwahili(job.lexicon, tweets[k].content)) &&
            (d.swahiliSentiment.Some? ==> d.swahiliSentiment.value == LexiconLabel(job.lexicon, tweets[k].content))
  {
    var a := AnalyzeSentiment(job.lexicon, tweets[k].content);
    assert a.Returned?;
  }

  /** The X part of `_scrape_and_store(keyword)`: collect with `scrape_x`
      (whose session and cookie verdicts are parameters), then store one
      document per tweet. An exception out of `scrape_x` ends the job
      before anything is stored. */
  function ScrapeAndStoreX(job: Job, session: XSession, accept: Cookies.Cookie -> bool): (r: (seq<XDocument>, bool))
    requires |session.passes| >= MaxScrolls
    ensures !session.launched ==> r == ([], false)
    ensures forall i, j :: 0 <= i < j < |r.0| ==> r.0[i].meta != r.0[j].meta
    ensures forall d :: d in r.0 ==> d.platform == "x" && d.keyword == job.keyword
    ensures forall d :: d in r.0 ==> SeenWithin(d.meta, session.passes, MaxScrolls)
    ensures ScrapeX(job.keyword, session, accept).outcome.Raised? ==> r == ([], true)
    ensures ScrapeX(job.keyword, session, accept).outcome.Returned? ==>
              r == StoreTweets(job, ScrapeX(job.keyword, session, accept).outcome.value)
  {
    var run := ScrapeX(job.keyword, session, accept);
    match run.outcome
    case Raised => ([], true)
    case Returned(tweets) =>
      var r := StoreTweets(job, tweets);
      assert forall k :: 0 <= k < |r.0| ==> r.0[k].meta == tweets[k];
      assert forall d :: d in r.0 ==> d.meta in tweets;
      r
  }

  /** A job whose scrape settles at pass `k` and meets no blank tweet
      stores one document per distinct tweet of passes `0..k`, in
      first-seen order, and ends normally. */
  lemma StoresSteadyRun(job: Job, session: XSession, accept: Cookies.Cookie -> bool, k: nat)
    requires |session.passes| >= MaxScrolls && k < MaxScrolls
    requires session.launched && session.searchOk
    requires CookiesSettled(session, Cookies.LoadCookies(session.cookieFile, accept))
    requires HeightChanged(session.startHeight, session.passes, k)
    requires session.passes[k].Scrolled?
    requires session.passes[k].height == HeightBefore(session.startHeight, session.passes, k)
    requires forall t :: t in Dedup(Harvested(session.passes[..k + 1])) ==> !AllSpace(t.content)
    ensures var r := ScrapeAndStoreX(job, session, accept);
            var ts := Dedup(Harvested(session.passes[..k + 1]));
            !r.1 && |r.0| == |ts| && forall i :: 0 <= i < |ts| ==> r.0[i].meta == ts[i]
  {
    ScrapeXSteadyRun(job.keyword, session, accept, k);
    var ts := Dedup(Harvested(session.passes[..k + 1]));
    assert forall i :: 0 <= i < |ts| ==> !AllSpace(ts[i].content) by {
      forall i | 0 <= i < |ts| ensures !AllSpace(ts[i].content) {
        assert ts[i] in ts;
      }
    }
  }
}
