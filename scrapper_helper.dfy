/** Model of scrapper_helper.py: a per-URL visit counter that saturates one
    above `MAX_VISIT` and a dynamic blacklist of over-visited URLs. */
module ScrapperHelper {

  const MAX_VISIT: int := 4

  /** The two collections `store_url` updates: `url_dict` (URL to visit count)
      and `blacklist`. */
  datatype Visits = Visits(urlDict: map<string, int>, blacklist: set<string>)

  /** The effect of one `store_url(url, blacklist, url_dict)` call. */
  function Store(v: Visits, url: string): (r: Visits)
    ensures r.blacklist >= v.blacklist
    ensures r.blacklist <= v.blacklist + {url}
    ensures r.urlDict.Keys == v.urlDict.Keys + {url}
    ensures forall u :: u in v.urlDict && u != url ==> r.urlDict[u] == v.urlDict[u]
  {
    if url !in v.urlDict then Visits(v.urlDict[url := 1], v.blacklist)
    else if v.urlDict[url] > MAX_VISIT then Visits(v.urlDict, v.blacklist + {url})
    else Visits(v.urlDict[url := v.urlDict[url] + 1], v.blacklist)
  }

  /** A URL seen for the first time gets count 1; the blacklist is untouched. */
  lemma StoreNewUrl(v: Visits, url: string)
    requires url !in v.urlDict
    ensures Store(v, url).urlDict[url] == 1
    ensures Store(v, url).blacklist == v.blacklist
  {
  }

  /** A known URL whose count is at most `MAX_VISIT` is counted once more; the
      blacklist is untouched. */
  lemma StoreBelowLimit(v: Visits, url: string)
    requires url in v.urlDict && v.urlDict[url] <= MAX_VISIT
    ensures Store(v, url).urlDict[url] == v.urlDict[url] + 1
    ensures Store(v, url).blacklist == v.blacklist
  {
  }

  /** A known URL whose count is above `MAX_VISIT` is blacklisted and its count
      stays where it is. */
  lemma StoreOverLimit(v: Visits, url: string)
    requires url in v.urlDict && v.urlDict[url] > MAX_VISIT
    ensures Store(v, url).urlDict == v.urlDict
    ensures Store(v, url).blacklist == v.blacklist + {url}
  {
  }

  /** Every count is at most `MAX_VISIT + 1`. */
  ghost predicate CountsBounded(v: Visits) {
    forall u :: u in v.urlDict ==> v.urlDict[u] <= MAX_VISIT + 1
  }

  lemma StorePreservesBound(v: Visits, url: string)
    requires CountsBounded(v)
    ensures CountsBounded(Store(v, url))
  {
  }

  /** The state after `k` calls with the same URL: the blacklist grows by at
      most that URL, and the URL is a key once there has been a call. */
  function StoreTimes(v: Visits, url: string, k: nat): (r: Visits)
    ensures v.blacklist <= r.blacklist <= v.blacklist + {url}
    ensures r.urlDict.Keys == v.urlDict.Keys + (if k == 0 then {} else {url})
  {
    if k == 0 then v else Store(StoreTimes(v, url, k - 1), url)
  }

  /** From an empty dictionary and blacklist, `k` calls with the same URL leave
      its count at `min(k, MAX_VISIT + 1)`, and the URL is blacklisted exactly
      from the call after the count has saturated, the (MAX_VISIT + 2)-th. */
  lemma {:induction false} RepeatedStore(url: string, k: nat)
    ensures var v := StoreTimes(Visits(map[], {}), url, k);
      && (k == 0 ==> url !in v.urlDict)
      && (k > 0 ==> url in v.urlDict
                    && v.urlDict[url] == (if k <= MAX_VISIT + 1 then k else MAX_VISIT + 1))
      && (url in v.blacklist <==> k >= MAX_VISIT + 2)
  {
    if k > 0 {
      RepeatedStore(url, k - 1);
    }
  }

  /** The state after one call per element of `urls`, in order: every URL
      called becomes a key and no other does, and only URLs that were called
      can join the blacklist. */
  function StoreAll(v: Visits, urls: seq<string>): (r: Visits)
    ensures r.urlDict.Keys == v.urlDict.Keys + set u | u in urls
    ensures r.blacklist <= v.blacklist + set u | u in urls
  {
    if urls == [] then v
    else Store(StoreAll(v, urls[..|urls| - 1]), urls[|urls| - 1])
  }

  /** Once blacklisted, a URL stays blacklisted through any later sequence of
      calls, whatever URLs they are made with. */
  lemma {:induction false} BlacklistPermanent(v: Visits, urls: seq<string>, u: string)
    requires u in v.blacklist
    ensures u in StoreAll(v, urls).blacklist
  {
    if urls != [] {
      BlacklistPermanent(v, urls[..|urls| - 1], u);
    }
  }

  /** No count ever exceeds `MAX_VISIT + 1`, however calls are interleaved. */
  lemma {:induction false} StoreAllPreservesBound(v: Visits, urls: seq<string>)
    requires CountsBounded(v)
    ensures CountsBounded(StoreAll(v, urls))
  {
    if urls != [] {
      StoreAllPreservesBound(v, urls[..|urls| - 1]);
      StorePreservesBound(StoreAll(v, urls[..|urls| - 1]), urls[|urls| - 1]);
    }
  }

  /** The caller-owned dictionary and blacklist that `store_url` updates in
      place. */
  class VisitRegistry {
    var urlDict: map<string, int>
    var blacklist: set<string>

    function State(): (r: Visits)
      reads this
    {
      Visits(urlDict, blacklist)
    }

    constructor (urlDict: map<string, int>, blacklist: set<string>)
      ensures State() == Visits(urlDict, blacklist)
    {
      this.urlDict := urlDict;
      this.blacklist := blacklist;
    }

    /** `store_url(url, blacklist, url_dict)` */
    method StoreUrl(url: string)
      modifies this
      ensures State() == Store(old(State()), url)
    {
      if url !in urlDict {
        urlDict := urlDict[url := 1];
      } else {
        if urlDict[url] > MAX_VISIT {
          blacklist := blacklist + {url};
        } else {
          urlDict := urlDict[url := urlDict[url] + 1];
        }
      }
    }
  }
}
