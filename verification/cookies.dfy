/** Restoring a saved login into the browser session (`_load_cookies`).

    The file system, the JSON and pickle readers and the browser are
    replaced by their outcomes: whether the configured path exists, what
    each reader produced, and which cookies the browser accepts. */
module Cookies {
  import opened Wrappers

  /** A cookie attribute value as the JSON/pickle readers deliver it. */
  datatype CookieValue = Text(s: string) | Number(n: int) | Flag(b: bool)

  /** One cookie: a dict of attributes (`name`, `value`, `domain`,
      `sameSite`, ...). */
  type Cookie = map<string, CookieValue>

  /** One element of the loaded list: a dict, or anything else (a string,
      a number, a nested list) on which `setdefault` is not defined. */
  datatype Entry = Dict(fields: Cookie) | NotDict

  /** What a reader produced from the file. An exception inside the reader
      is swallowed by the source, so `ReadFailed` only leaves the previous
      value in place. */
  datatype Decoded = ReadFailed | NotAList | AList(entries: seq<Entry>)

  /** The environment and file-system facts `_load_cookies` consults.
      `path` is the value of the environment variable, `""` when unset. */
  datatype CookieFile = CookieFile(
    path: string,
    present: bool,
    json: Decoded,
    pickle: Decoded)

  /** What loading did to the session.
      - `NoFile`: nothing (no navigation, no cookies).
      - `Invalid`: navigated to the site, found no list, added nothing.
      - `Applied(jar)`: added `jar` in order and reloaded the page.
      - `Aborted(jar)`: added `jar`, then met a non-dict entry whose
        `setdefault` raised; the exception leaves `_load_cookies`. */
  datatype CookieLoad =
    | NoFile
    | Invalid
    | Applied(jar: seq<Cookie>)
    | Aborted(jar: seq<Cookie>)

  const SameSiteKey: string := "sameSite"
  const SameSiteDefault: CookieValue := Text("Strict")

  /** `c.setdefault('sameSite', 'Strict')`. */
  function WithSameSite(c: Cookie): (r: Cookie)
    ensures r.Keys == c.Keys + {SameSiteKey}
    ensures forall k :: k in c ==> r[k] == c[k]
    ensures SameSiteKey !in c ==> r[SameSiteKey] == SameSiteDefault
  {
    if SameSiteKey in c then c else c[SameSiteKey := SameSiteDefault]
  }

  /** Setting the default twice changes nothing more than setting it once. */
  lemma WithSameSiteIdempotent(c: Cookie)
    ensures WithSameSite(WithSameSite(c)) == WithSameSite(c)
  {
  }

  /** The list the source ends up holding: the JSON reader's, unless that
      is not a list, in which case the pickle reader's (the pickle file is
      only opened then). */
  function Chosen(f: CookieFile): (d: Decoded)
    ensures f.json.AList? ==> d == f.json
    ensures d.AList? <==> f.json.AList? || f.pickle.AList?
    ensures d.ReadFailed? ==> f.json.ReadFailed? && !f.pickle.AList?
  {
    if f.json.AList? then f.json
    else if f.pickle.ReadFailed? then f.json
    else f.pickle
  }

  /** The per-cookie loop: default `sameSite`, try `add_cookie`, swallow a
      refusal. `accept` is the browser's verdict on each cookie.
      Returns the cookies added and whether a non-dict entry raised. */
  function AddAll(entries: seq<Entry>, accept: Cookie -> bool): (r: (seq<Cookie>, bool))
    ensures r.1 <==> NotDict in entries
    ensures |r.0| <= |entries|
    ensures forall c :: c in r.0 ==> SameSiteKey in c && accept(c)
    ensures forall k :: 0 <= k < |entries| && NotDict !in entries[..k] && entries[k].Dict?
                        && accept(WithSameSite(entries[k].fields))
                        ==> WithSameSite(entries[k].fields) in r.0
    decreases |entries|
  {
    if entries == [] then ([], false)
    else match entries[0]
      case NotDict => ([], true)
      case Dict(c) =>
        var rest := AddAll(entries[1..], accept);
        assert forall k :: 1 <= k < |entries| ==> entries[k] == entries[1..][k - 1];
        assert forall k :: 1 <= k < |entries| && NotDict !in entries[..k]
                 ==> NotDict !in entries[1..][..k - 1] by {
          forall k | 1 <= k < |entries| && NotDict !in entries[..k]
            ensures NotDict !in entries[1..][..k - 1]
          {
            assert entries[1..][..k - 1] == entries[1..k];
          }
        }
        assert NotDict in entries <==> NotDict in entries[1..] by {
          assert entries == [entries[0]] + entries[1..];
        }
        var d := WithSameSite(c);
        if accept(d) then ([d] + rest.0, rest.1) else rest
  }

  /** `_load_cookies(envkey, driver, url)`. */
  function LoadCookies(f: CookieFile, accept: Cookie -> bool): (r: CookieLoad)
    ensures (f.path == "" || !f.present) <==> r == NoFile
    ensures r == Invalid <==> f.path != "" && f.present && !f.json.AList? && !f.pickle.AList?
    ensures r.Aborted? <==> f.path != "" && f.present && Chosen(f).AList? && NotDict in Chosen(f).entries
    ensures r.Applied? || r.Aborted? ==> r.jar == AddAll(Chosen(f).entries, accept).0
    ensures r.Applied? || r.Aborted? ==> forall c :: c in r.jar ==> SameSiteKey in c && accept(c)
  {
    if f.path == "" || !f.present then NoFile
    else
      match Chosen(f)
      case AList(entries) =>
        var (jar, raised) := AddAll(entries, accept);
        if raised then Aborted(jar) else Applied(jar)
      case _ => Invalid
  }

  /** The pickle file plays no part once the JSON file held a list. */
  lemma PickleIgnoredAfterJsonList(f: CookieFile, p: Decoded, accept: Cookie -> bool)
    requires f.json.AList?
    ensures LoadCookies(f.(pickle := p), accept) == LoadCookies(f, accept)
  {
  }

  /** When the JSON file holds no list, the pickle file's list is used. */
  lemma PickleFallback(f: CookieFile, accept: Cookie -> bool)
    requires f.path != "" && f.present
    requires !f.json.AList? && f.pickle.AList?
    ensures LoadCookies(f, accept) == LoadCookies(f.(json := f.pickle), accept)
  {
  }

  /** A cookie the browser refuses is skipped: the cookies around it are
      added exactly as if it had not been in the file. */
  lemma {:induction false} RefusedCookieSkipped(before: seq<Entry>, c: Cookie, after: seq<Entry>,
                                                accept: Cookie -> bool)
    requires !accept(WithSameSite(c))
    ensures AddAll(before + [Dict(c)] + after, accept) == AddAll(before + after, accept)
    decreases |before|
  {
    if before == [] {
      assert before + [Dict(c)] + after == [Dict(c)] + after;
      assert ([Dict(c)] + after)[1..] == after;
      assert before + after == after;
    } else {
      assert (before + [Dict(c)] + after)[1..] == before[1..] + [Dict(c)] + after;
      assert (before + after)[1..] == before[1..] + after;
      assert (before + [Dict(c)] + after)[0] == before[0];
      assert (before + after)[0] == before[0];
      RefusedCookieSkipped(before[1..], c, after, accept);
    }
  }

  /** The exception from a non-dict entry leaves the loop: the cookies
      before it are added, none after it. */
  lemma {:induction false} NonDictStopsLoop(before: seq<Entry>, after: seq<Entry>, accept: Cookie -> bool)
    requires NotDict !in before
    ensures AddAll(before + [NotDict] + after, accept) == (AddAll(before, accept).0, true)
    decreases |before|
  {
    if before == [] {
      assert before + [NotDict] + after == [NotDict] + after;
    } else {
      assert (before + [NotDict] + after)[0] == before[0];
      assert (before + [NotDict] + after)[1..] == before[1..] + [NotDict] + after;
      assert NotDict !in before[1..];
      NonDictStopsLoop(before[1..], after, accept);
    }
  }

  /** The file entries for a list of dict cookies. */
  function AsEntries(cs: seq<Cookie>): (es: seq<Entry>)
    ensures |es| == |cs|
    ensures forall k :: 0 <= k < |cs| ==> es[k] == Dict(cs[k])
  {
    seq(|cs|, k requires 0 <= k < |cs| => Dict(cs[k]))
  }

  /** The cookies after `setdefault('sameSite', 'Strict')`. */
  function Defaulted(cs: seq<Cookie>): (ds: seq<Cookie>)
    ensures |ds| == |cs|
    ensures forall k :: 0 <= k < |cs| ==> ds[k] == WithSameSite(cs[k])
  {
    seq(|cs|, k requires 0 <= k < |cs| => WithSameSite(cs[k]))
  }

  /** One step of the loop on a dict entry the browser accepts. */
  lemma AddAllAccepted(c: Cookie, rest: seq<Entry>, accept: Cookie -> bool)
    requires accept(WithSameSite(c))
    ensures AddAll([Dict(c)] + rest, accept)
            == ([WithSameSite(c)] + AddAll(rest, accept).0, AddAll(rest, accept).1)
  {
    assert ([Dict(c)] + rest)[1..] == rest;
  }

  /** With only dict entries, every accepted cookie is added, in file
      order, and nothing raises. */
  lemma {:induction false} AllDictsAllAdded(cs: seq<Cookie>, accept: Cookie -> bool)
    requires forall k :: 0 <= k < |cs| ==> accept(WithSameSite(cs[k]))
    ensures AddAll(AsEntries(cs), accept) == (Defaulted(cs), false)
    decreases |cs|
  {
    if cs != [] {
      var es := AsEntries(cs);
      var tail := cs[1..];
      AllDictsAllAdded(tail, accept);
      assert es == [Dict(cs[0])] + AsEntries(tail);
      AddAllAccepted(cs[0], AsEntries(tail), accept);
      assert Defaulted(cs) == [WithSameSite(cs[0])] + Defaulted(tail);
    }
  }
}
