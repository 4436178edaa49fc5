# Social-media sentiment pipeline: a Dafny model of its deterministic core

The service collects posts that mention a keyword from X (a Selenium
scroll-and-collect loop) and from a list of Facebook pages. It tags each
X tweet with a project phase (before, during or after a configured
window), scores it for sentiment, including a lexicon score for Kiswahili
text, and stores one document per X tweet. The Facebook branch of the job
works per comment rather than per post and is described under
"## Left out". This project models the deterministic logic
of that pipeline in Dafny and proves what that logic guarantees. The
browser, the NLP libraries and the database become parameters of the model.

Modules (one file each):

- `Wrappers` (`wrappers.dfy`): `Option` and `Outcome`. `Outcome` is either
  a returned value or an exception that escaped the function.
- `Text` (`text.dfy`): the Python string operations the code relies on.
  These are `str.strip()`, `str.split(',')`, `str.split()`, ASCII
  `str.lower()`, the `in` substring test, `replace(' ', '%20')`,
  `rstrip('Z')` and `str(int)`. Each is pinned down by its contract or by
  a round-trip or uniqueness lemma.
- `Cookies` (`cookies.dfy`): `_load_cookies`. It covers the file checks,
  the JSON-then-pickle fallback and the `sameSite` default. It also covers
  the per-cookie loop, which skips refused cookies.
- `XCollector` (`x_collector.dfy`): `scrape_x`.
  - The search URL.
  - Reading each tweet card.
  - First-seen deduplication.
  - The scroll loop, modelled as a recursive function over the sequence of
    pass observations. The fuel is 50, and the loop stops on the first pass
    that leaves the height unchanged.
  - The failure paths and the driver quit.
- `Facebook` (`facebook.dfy`):
  - Parsing `FB_PAGE_LIST`.
  - `_scrape_single_fb_page`: a case-insensitive match and a cap that is
    checked after the append.
  - `scrape_facebook`: concatenation in page order.
- `Sentiment` (`sentiment.dfy`): `is_swahili`, `swahili_lexicon_score`, and
  the `text` and `swahili_sentiment` fields of `analyze_sentiment`.
- `App` (`app.dfy`):
  - `_parse_date` and `_project_phase`.
  - Keyword extraction and the reply of the `/scrape` endpoint.
  - The X documents that `_scrape_and_store` saves.

Behaviour of the code worth noting:

- The X loop ends on the first pass whose page height equals the height
  read before it. A drop in height counts as a change and does not end
  the loop.
- A driver or timeout failure in `scrape_x` returns `[]`, which discards
  the tweets collected so far. Three places are exempt: a cookie the
  browser refuses in `add_cookie` is skipped, a failed lookup inside one
  card only skips that card, and a timeout of the 5-second height wait is
  handed to `_handle_retry`, which suppresses every error.
- A cookie entry that is not a dict is not skipped. `c.setdefault` raises
  `AttributeError`, which `scrape_x` does not catch (it catches only
  WebDriver and timeout exceptions). The exception therefore escapes
  `scrape_x`, after the driver has quit.
- `is_swahili` divides by the token count. On blank text (empty or only
  whitespace), `analyze_sentiment` therefore raises `ZeroDivisionError`.
  In `_scrape_and_store`, a collected tweet with blank content ends the job
  at that tweet. The tweets before it are already saved and the rest are
  not.

## Model

| member | source | states |
|---|---|---|
| Text.Strip | utils/scraper.py:21 | `str.strip()`: the result has no leading or trailing whitespace and is no longer than the input |
| Text.StripTrims | utils/scraper.py:21 | the stripped text is the input with only whitespace removed at each end |
| Text.StripUnique | utils/scraper.py:21 | whitespace around an already-stripped text is exactly what strip removes |
| Text.Split | utils/scraper.py:21 | `str.split(sep)`: at least one piece, no piece contains the separator, and joining with the separator gives the input back |
| Text.SplitJoin | utils/scraper.py:21 | splitting a join of separator-free pieces gives the pieces back |
| Text.Words | utils/sentiment.py:17 | `str.split()`: the tokens are non-empty and free of whitespace, and together they hold exactly the non-whitespace characters of the input, in order |
| Text.WordsJoin | utils/sentiment.py:17 | splitting space-joined tokens gives the tokens back |
| Text.WordsAfterSpaces | utils/sentiment.py:17 | leading whitespace does not change the tokens |
| Text.WordsAfterWord | utils/sentiment.py:17 | a word followed by whitespace is one token followed by the tokens of the rest |
| Text.Lower | utils/sentiment.py:17 | lower-casing keeps the length and maps each character on its own |
| Text.LowerIdempotent | utils/sentiment.py:17 | lower-casing twice is the same as once |
| Text.Contains | utils/scraper.py:143 | the `in` test holds exactly when the needle occurs at some offset of the haystack |
| Text.EncodeSpaces | utils/scraper.py:84 | `replace(' ', '%20')` leaves no space and adds two characters per space |
| Text.EncodeSpacesAppend | utils/scraper.py:84 | the replacement works piece by piece: encoding a concatenation concatenates the encodings |
| Text.EncodeSpacesChar | utils/scraper.py:84 | a single space becomes `%20` and any other character is kept |
| Text.EncodeSpacesIdentity | utils/scraper.py:84 | a keyword without spaces is left unchanged |
| Text.DecodeEncodeSpaces | utils/scraper.py:84 | for text without `%`, the replacement can be undone exactly |
| Text.RStripChar | app.py:61 | `rstrip('Z')` removes the trailing run of `Z` and nothing else |
| Text.NatToString | app.py:136 | `str(n)` writes only digits, at least one, with no leading zero, and 0 as the single digit `0` |
| Text.ParseNatToString | app.py:136 | reading the decimal notation back gives the number |
| Cookies.WithSameSite | utils/scraper.py:57 | `setdefault('sameSite', 'Strict')` adds the key only when it is absent and keeps every existing attribute |
| Cookies.WithSameSiteIdempotent | utils/scraper.py:57 | applying the default twice is the same as once |
| Cookies.AddAll | utils/scraper.py:56-59 | every cookie added has `sameSite` and was accepted, every accepted dict before the first non-dict entry is added, and the loop raises exactly when a non-dict entry is present |
| Cookies.AddAllAccepted | utils/scraper.py:56-59 | an accepted dict entry is added, with the `sameSite` default, ahead of everything the rest of the list adds |
| Cookies.NonDictStopsLoop | utils/scraper.py:56-59 | at the first non-dict entry the loop raises, keeping exactly the cookies added from the entries before it and ignoring the rest |
| Cookies.LoadCookies | utils/scraper.py:41-60 | nothing happens exactly when the path is unset or missing; the file is invalid exactly when neither reader produced a list; the call raises exactly when the chosen list holds a non-dict entry; otherwise the jar is what the per-cookie loop over the chosen list adds, and every cookie added carries `sameSite` |
| Cookies.PickleIgnoredAfterJsonList | utils/scraper.py:45-52 | once the JSON reader gave a list, the pickle file has no effect |
| Cookies.PickleFallback | utils/scraper.py:49-52 | when JSON gives no list, the pickle file's list is used |
| Cookies.Chosen | utils/scraper.py:45-52 | the JSON list wins when there is one; a list is found exactly when either reader gives one; an unreadable result means JSON failed and pickle gave no list |
| Cookies.RefusedCookieSkipped | utils/scraper.py:58-59 | a refused cookie changes nothing about the cookies around it |
| Cookies.AllDictsAllAdded | utils/scraper.py:56-59 | a list of accepted dicts is added in full, in file order, each with the default applied, and nothing raises |
| XCollector.SearchUrl | utils/scraper.py:84 | the search URL is the search prefix, then the keyword with each space replaced by `%20`, then `&f=live`; it has no space |
| XCollector.SearchUrlRoundTrip | utils/scraper.py:84 | for a keyword without `%`, the keyword can be read back from the URL |
| XCollector.ReadCard | utils/scraper.py:96-102 | a card gives a tweet exactly when text, user and time are all found; content and username are the found text and user with only surrounding whitespace removed, and the date is the `datetime` attribute |
| XCollector.HarvestSound | utils/scraper.py:95-102 | every tweet read from a pass comes from one of its cards |
| XCollector.HarvestComplete | utils/scraper.py:95-102 | every complete card's tweet is read |
| XCollector.HarvestAppend | utils/scraper.py:95-102 | cards are read in page order: harvesting two runs of cards gives the first run's tweets followed by the second's |
| XCollector.HarvestOne | utils/scraper.py:96-102 | one card gives its tweet when all three lookups succeed and nothing otherwise |
| XCollector.Harvest | utils/scraper.py:95-102 | a pass gives no more tweets than cards, and none when no card is complete |
| XCollector.Somes | utils/scraper.py:100-101 | skipping the cards that failed a lookup keeps at most one tweet per card, and none when every card failed |
| XCollector.AddNewNoDup | utils/scraper.py:103-104 | the collected list never holds two equal tweets |
| XCollector.AddNew | utils/scraper.py:102-104 | the tweets already collected stay in place as a prefix; new tweets are only appended |
| XCollector.AddNewElements | utils/scraper.py:103-104 | a tweet is collected exactly when it was seen before or is on the new cards |
| XCollector.AddNewIsDedup | utils/scraper.py:90-104 | collecting equals the previous list followed by the first-seen deduplication of the cards not seen before |
| XCollector.AddNewFromEmpty | utils/scraper.py:90-104 | starting from the empty list gives the first-seen deduplication |
| XCollector.AddNewAppend | utils/scraper.py:93-104 | collecting pass after pass equals collecting their concatenation |
| XCollector.Scroll | utils/scraper.py:93-120 | the loop only appends, preserves no-duplicates and produces only tweets seen within the pass budget |
| XCollector.HeightChangedPrefix | utils/scraper.py:117-120 | if the height changed (up or down) on each of the first k passes, it also changed on each of the first j passes, for every j up to k |
| XCollector.ScrollUnfold | utils/scraper.py:93-120 | after k passes that each changed the height, the loop has collected all of their tweets and goes on from pass k |
| XCollector.StopsOnSteadyHeight | utils/scraper.py:93-120 | the loop stops at the first pass whose height equals the previous one, and that pass's cards are still collected |
| XCollector.StopsAtCap | utils/scraper.py:93 | after 50 passes that each changed the height, the loop stops with the deduplicated tweets of exactly those passes |
| XCollector.FaultDiscards | utils/scraper.py:125-130 | a driver failure during the loop discards everything collected |
| XCollector.ScrollReadsOnlyBudget | utils/scraper.py:93 | observations after the 50th pass have no influence |
| XCollector.ScrapeX | utils/scraper.py:79-130 | the driver is quit exactly when `_init_driver` returned; the call raises exactly when the home page loaded and a non-dict cookie is met; a failed home page, refresh or search returns `[]`; with the cookies settled the pages visited are the home page (when a cookie file exists) and then the search URL, and with the search loaded the result is what the scroll loop collected, or `[]` after a driver fault; returned tweets are duplicate-free and come from the first 50 passes |
| XCollector.ScrapeXSteadyRun | utils/scraper.py:79-123 | with the cookies settled and the search loaded, height changes on the first k passes and none on pass k+1 return exactly the first-seen deduplication of the tweets on those k+1 passes |
| XCollector.ScrapeXFaultReturnsEmpty | utils/scraper.py:125-130 | a driver failure on a pass within the budget, after height changes on every earlier pass, returns `[]` |
| Facebook.CleanPieces | utils/scraper.py:21 | the kept pieces are non-empty and stripped, and there are no more of them than input pieces |
| Facebook.PageList | utils/scraper.py:20-22 | every page name is non-empty, stripped and comma-free, there are at most as many as comma-separated pieces, and an unset or empty variable gives no pages |
| Facebook.SplitCount | utils/scraper.py:21 | a string splits into one more piece than it has separators |
| Facebook.CleanPiecesIdentity | utils/scraper.py:21 | pieces that are already clean are all kept, unchanged and in order |
| Facebook.PageListRoundTrip | utils/scraper.py:20-22 | a comma-joined list of clean names parses back to the same list, in order |
| Facebook.PageListIgnoresPadding | utils/scraper.py:20-22 | whitespace around a name and an empty trailing piece are dropped |
| Facebook.CleanPiecesAppend | utils/scraper.py:21 | cleaning a concatenation of pieces cleans each part in turn |
| Facebook.CleanPiecesSingle | utils/scraper.py:21 | one piece is kept, stripped, exactly when its stripped form is non-empty |
| Facebook.PageListOfJoin | utils/scraper.py:20-22 | for any comma-free pieces, the page list of their comma-join is their cleaned form |
| Facebook.StatOrZero | utils/scraper.py:149-150 | a missing count becomes 0, a stored `None` stays `None` and a stored number is kept |
| Facebook.ScrapePage | utils/scraper.py:138-157 | a page's result is the first `max(1, max_posts)` posts that match, in feed order, each tagged with the page and mentioning the keyword case-insensitively |
| Facebook.Matching | utils/scraper.py:141-151 | keeps exactly the entries that mention the keyword, tagged with the page, in feed order (with MatchingOne and MatchingAppend) |
| Facebook.MatchingOne | utils/scraper.py:142-151 | one entry is kept, as its post tagged with the page, exactly when its text (`""` when missing) mentions the keyword |
| Facebook.ScanPage | utils/scraper.py:141-154 | the counting loop keeps no more posts than match, and at most one when the count is already one short of the cap |
| Facebook.MatchingMentions | utils/scraper.py:142-143 | every matching post mentions the keyword once both are lower-cased, with missing text read as `""` |
| Facebook.ScanIsCappedMatching | utils/scraper.py:141-154 | the counting loop with its break after the append equals taking the first `max(1, max_posts)` matches |
| Facebook.MatchingAppend | utils/scraper.py:141-144 | filtering a longer feed filters each part in turn |
| Facebook.PartialFeedKept | utils/scraper.py:155-157 | when reading the feed fails part-way, the posts already matched are kept |
| Facebook.UnderCapKeepsAll | utils/scraper.py:152-154 | below the cap, every matching post is kept |
| Facebook.ScrapeFacebook | utils/scraper.py:160-175 | every collected post comes from a listed page and mentions the keyword, and there are at most (number of pages) × cap of them; ScrapeFacebookAppend with ScrapePage gives the per-page bound |
| Facebook.ScrapeFacebookAppend | utils/scraper.py:171-173 | per-page results are concatenated in page-list order |
| Sentiment.Hits | utils/sentiment.py:18 | no more lexicon hits than tokens |
| Sentiment.Tokens | utils/sentiment.py:17 | the tokens are non-empty, free of whitespace, and together spell the non-whitespace characters of the lower-cased text |
| Sentiment.Score | utils/sentiment.py:22-23 | text without lexicon words scores 0; a lexicon with no negative weight never scores below 0, and one with no positive weight never above 0 |
| Sentiment.HitsAppend | utils/sentiment.py:18 | the hit count of concatenated tokens is the sum of the counts |
| Sentiment.SingleToken | utils/sentiment.py:18-23 | one token is one hit exactly when it is a lexicon word, and scores its weight or 0 |
| Sentiment.RatioThreshold | utils/sentiment.py:19 | a ratio above 0.3 is the same as `10 * count > 3 * len`, so exactly 30% is not Kiswahili |
| Sentiment.IsSwahili | utils/sentiment.py:16-19 | for text with tokens, the verdict holds exactly when lexicon words make up more than 30% of the lower-cased tokens |
| Sentiment.LexiconLabel | utils/sentiment.py:21-31 | positive exactly when the summed score is above 0, negative exactly when it is below 0, and neutral exactly when it is 0 |
| Sentiment.ScoreAppend | utils/sentiment.py:23 | the score of concatenated tokens is the sum of the scores |
| Sentiment.UnknownWordIgnored | utils/sentiment.py:23 | a token missing from the lexicon contributes 0 |
| Sentiment.NoHitsNoScore | utils/sentiment.py:18-23 | text without lexicon words scores 0 |
| Sentiment.ScoringIgnoresCase | utils/sentiment.py:17-22 | the text and its lower-case form have the same tokens, label and language verdict |
| Sentiment.NoTokensIffBlank | utils/sentiment.py:17-19 | text has no tokens exactly when it is blank, which is where `is_swahili` divides by zero |
| Sentiment.AnalyzeSentiment | utils/sentiment.py:33-49 | raises exactly on blank text; otherwise `text` is the input, `swahili_sentiment` is `None` exactly when the text is not Kiswahili, and otherwise it is the lexicon label |
| App.ParseDate | app.py:47-53 | an unset or empty variable gives `None`; otherwise the parse result, with `None` for invalid text |
| App.WindowOf | app.py:55-56 | each bound is `None` when its variable is unset or empty, and otherwise the parse of the variable |
| App.FromIso | app.py:50-53 | an empty string gives `None`; any other string is handed to the parser |
| App.ProjectPhase | app.py:58-68 | `before` exactly when a start is set and ts < start; `after` exactly when it is not `before`, an end is set and ts > end; `during` exactly when the timestamp is missing or lies within the bounds, both inclusive |
| App.PhaseMonotone | app.py:62-65 | a later timestamp never gets an earlier phase |
| App.NoWindowAlwaysDuring | app.py:62-68 | with no bounds configured, every timestamp is `during` |
| App.UnsetDatesAlwaysDuring | app.py:55-68 | with neither date variable set, every timestamp is `during` |
| App.PhaseOfDate | app.py:58-68 | a tweet without a date, or whose date is only `Z`s, is `during`; otherwise the phase of the parse of its date with the trailing `Z`s removed |
| App.PhaseIgnoresZulu | app.py:61 | extra trailing `Z`s do not change the phase |
| App.TruthyStrs | app.py:128 | no more keywords than list entries, and all entries are kept exactly when every one is truthy |
| App.TruthyStrsAppend | app.py:128 | the filter keeps list order |
| App.TruthyStrsSingle | app.py:128 | a falsy entry is dropped and a truthy one becomes its `str()` |
| App.PyStr | app.py:128-130 | `str()` of a string is the string itself, and of a non-negative integer its decimal digits, which read back to the number |
| App.Extract | app.py:126-132 | a falsy body, or an object with neither a `keywords` list nor `keyword`, gives no keyword; a `keywords` list gives the `str()` of its truthy entries; otherwise `keyword` gives a one-element list; a list body raises exactly when it holds the string `keywords` or `keyword`, a string body exactly when it contains one of them, and any other non-object body never yields keywords |
| App.KeywordsListTakesPrecedence | app.py:127-130 | with a `keywords` list present, `keyword` is ignored |
| App.NonListKeywordsIgnored | app.py:127-130 | a `keywords` value that is not a list is treated as absent |
| App.RunJobs | app.py:134-135 | one job per keyword, in order, stopping after the first job that raises; outcomes are per call, so a repeated keyword can succeed once and raise the next time |
| App.FirstRaising | app.py:134-135 | the first call from a given position on that raises, with every call before it returning normally |
| App.ScrapedMessage | app.py:136 | the message is `Scraped `, then decimal digits with no leading zero (0 written as `0`) that read back to the keyword count, then ` keyword(s)` |
| App.ScrapeEndpoint | app.py:126-136 | 400 with no scrape exactly when no keyword is found; otherwise the jobs started and whether the reply is an exception are exactly those of `RunJobs` on the keywords; the reply is an exception, 200 or 400; 200 exactly when every keyword was scraped, in order, and no call raised, with the message reporting their count |
| App.EmptyListScrapesNothing | app.py:126-136 | an empty `keywords` list gives 200, "Scraped 0 keyword(s)" and no scrape |
| App.RepeatedKeywordRunsTwice | app.py:126-136 | `{"keywords": ["a", "a"]}` starts two jobs for `a`, and when only the second raises the exception escapes after both |
| App.StoreTweets | app.py:85-95 | one document per tweet, in order, up to the first blank tweet; the loop raises exactly when a blank tweet exists |
| App.StoredXRecordShape | app.py:85-95 | each stored document has platform `x`, the tweet content as text, the tweet as `meta`, the job keyword and time, the phase of the tweet's date, and the Kiswahili label exactly when the text is Kiswahili |
| App.XDocumentOf | app.py:85-94 | the document has platform `x`, the tweet content as text, the tweet as `meta` and the job keyword, whatever the sentiment analysis returned |
| App.ScrapeAndStoreX | app.py:79-96 | when `scrape_x` raises, nothing is stored and the job raises; otherwise the stored documents are exactly what the storing loop makes of the returned tweets, no two carry the same tweet, and each is an X record for the job keyword about a tweet seen within 50 passes |
| App.StoresSteadyRun | app.py:79-96 | for a steady scrape without blank tweets, the job stores one document per collected tweet, in order, and does not raise |

## Left out

- Selenium is replaced by observations. This covers `_init_driver`, the
  waits and sleeps, `_handle_retry` and the DOM lookups. Each scroll pass
  becomes a `Pass` (the cards seen and the height after the scroll, or a
  driver failure). Success of the page loads becomes a boolean, and the
  browser's verdict on each cookie becomes the function `accept`.
- File reading and the JSON and pickle readers are represented only by
  their outcome (a list, not a list, or a read failure).
- `datetime.fromisoformat` is the parameter `parse`, and instants are
  integers. Time zones and the ISO format are not modelled.
- TextBlob, VADER and BERT are left out. They are opaque floating-point
  libraries, and only the `text` and `swahili_sentiment` fields of
  `analyze_sentiment` are modelled. An exception from these libraries is
  not modelled.
- The facebook_scraper `get_posts` call is replaced by the feed it yields
  (`RawPost` values). A failure part-way is a shorter feed. A post's time
  is given already in ISO form, or as absent when it is missing or falsy.
  `likes` and `comments` are a number, a stored `None` or an absent key
  (which `get(key, 0)` turns into 0).
- Sentiment.IsSwahili: Python's float division compared with 0.3 is
  modelled as exact division on reals. The two verdicts agree for texts of
  fewer than about 6·10^15 tokens.
- Text.Lower: only ASCII letters are lower-cased. Full Unicode case
  mapping, which `str.lower()` performs, is not modelled.
- The Facebook branch of `_scrape_and_store` (app.py:98-115) is not
  modelled. It iterates over `p['comments']`, which `_scrape_single_fb_page`
  sets to a count, not to a list of comments.
- App.ScrapeAndStoreX: it models the X part of `_scrape_and_store` only.
  The Facebook scrape that follows it belongs to the omitted branch.
- `_save` and MongoDB are left out. The model states which documents are
  passed to `_save`, and database failures are logged and swallowed by the
  source. Also left out are the APScheduler job (`_scheduled`), Flask
  wiring, logging and the environment bootstrap.
- App.Extract: JSON floats are not modelled. `str()` of a list or object
  is the parameter `repr`. A body that `request.get_json(force=True)`
  cannot decode raises inside the handler (app.py:126); that path is not
  modelled.
- App.ScrapeEndpoint: `jobRaises(k)` stands for whether the `k`-th call
  of `_scrape_and_store` raises. It is not connected to the job model,
  because each call's browser session is a parameter of its own.
- XCollector.ScrapeX: `driver.quit()` in the `finally` block
  (utils/scraper.py:127-129) is assumed to succeed. A `WebDriverException`
  raised by it would escape `scrape_x` instead of the `[]` result.
- XCollector.ScrapeX: `launched` stands for `_init_driver` returning a
  driver. When `set_page_load_timeout` raises after Chrome has started
  (utils/scraper.py:35), `driver` is still `None`, so that browser is never
  quit. The model does not represent that orphaned browser.
- XCollector.Scroll: it requires at least 50 observations, one per
  possible pass. Observations past the point where the loop stops have no
  influence (XCollector.ScrollReadsOnlyBudget).
- The text cleaning, topic modelling and qualitative analysis utilities
  are not part of this model. Neither are the interactive cookie-saving
  scripts.
