/** What `get_missing_cities` does with the service's answer: keep the pages
    with a negative id, and find each one's title back in the batch. */
module Lookup {
  import opened Wrappers
  import opened Cities

  /** One entry of the response's `query.pages` map, its key read as an integer. */
  datatype Page = Page(id: int, title: string)

  /** `cities.index(x)`: the first position holding `x`, or `None` where
      Python raises ValueError. */
  function FirstIndex(cities: seq<string>, x: string): (r: Option<nat>)
    ensures r.Some? <==> x in cities
    ensures r.Some? ==> r.value < |cities| && cities[r.value] == x
    ensures r.Some? ==> forall j :: 0 <= j < r.value ==> cities[j] != x
  {
    if cities == [] then None
    else if cities[0] == x then Some(0)
    else match FirstIndex(cities[1..], x)
      case None => None
      case Some(i) => Some(i + 1)
  }

  /** `entry.index` is the first position of `entry.name` in the batch. */
  predicate FirstOccurrence(cities: seq<string>, entry: MissingCityInfo)
  {
    && entry.index < |cities|
    && cities[entry.index] == entry.name
    && forall k :: 0 <= k < entry.index ==> cities[k] != entry.name
  }

  /** The list `get_missing_cities` builds from `pages`, read in order; the
      first negative-id page whose title is not in the batch aborts it. */
  function MissingCities(cities: seq<string>, pages: seq<Page>): (r: Result<seq<MissingCityInfo>, Failure>)
    ensures r.Ok? ==> |r.value| <= |pages|
    ensures r.Ok? ==> forall j :: 0 <= j < |r.value| ==> FirstOccurrence(cities, r.value[j])
    ensures r.Err? ==> r.error.TitleNotInBatch? && r.error.title !in cities
    decreases |pages|
  {
    if pages == [] then Ok([])
    else
      var last := pages[|pages| - 1];
      match MissingCities(cities, pages[..|pages| - 1])
      case Err(e) => Err(e)
      case Ok(found) =>
        if last.id < 0 then
          match FirstIndex(cities, last.title)
          case None => Err(TitleNotInBatch(last.title))
          case Some(i) => Ok(found + [MissingCityInfo(last.title, i)])
        else Ok(found)
  }

  /** The loop of `get_missing_cities` over the pages of one response. */
  method GetMissingCities(cities: seq<string>, pages: seq<Page>) returns (r: Result<seq<MissingCityInfo>, Failure>)
    ensures r == MissingCities(cities, pages)
  {
    var missing: seq<MissingCityInfo> := [];
    var k := 0;
    while k < |pages|
      invariant 0 <= k <= |pages|
      invariant MissingCities(cities, pages[..k]) == Ok(missing)
    {
      assert pages[..k + 1][..k] == pages[..k];
      var page := pages[k];
      if page.id < 0 {
        var index := FirstIndex(cities, page.title);
        if index.None? {
          MissingCitiesAborts(cities, pages, k + 1);
          return Err(TitleNotInBatch(page.title));
        }
        missing := missing + [MissingCityInfo(page.title, index.value)];
      }
      k := k + 1;
    }
    assert pages[..k] == pages;
    r := Ok(missing);
  }

  /** Once a prefix of the pages has failed, the whole lookup fails with the
      same error: later pages are never read. */
  lemma {:induction false} MissingCitiesAborts(cities: seq<string>, pages: seq<Page>, k: nat)
    requires k <= |pages|
    requires MissingCities(cities, pages[..k]).Err?
    ensures MissingCities(cities, pages) == MissingCities(cities, pages[..k])
    decreases |pages| - k
  {
    if k < |pages| {
      assert pages[..k + 1][..k] == pages[..k];
      MissingCitiesAborts(cities, pages, k + 1);
    } else {
      assert pages[..k] == pages;
    }
  }

  /** The titles of the negative-id pages, in response order. */
  function NegativeTitles(pages: seq<Page>): seq<string>
  {
    if pages == [] then []
    else (if pages[0].id < 0 then [pages[0].title] else []) + NegativeTitles(pages[1..])
  }

  /** A page's title is resolvable when its id is not negative or its title
      occurs in the batch. */
  predicate Resolvable(cities: seq<string>, page: Page)
  {
    page.id >= 0 || page.title in cities
  }

  lemma {:induction false} NegativeTitlesSnoc(pages: seq<Page>, p: Page)
    ensures NegativeTitles(pages + [p]) == NegativeTitles(pages) + (if p.id < 0 then [p.title] else [])
  {
    if pages != [] {
      assert (pages + [p])[1..] == pages[1..] + [p];
      NegativeTitlesSnoc(pages[1..], p);
    }
  }

  /** The lookup fails exactly when some negative-id title is missing from
      the batch, and then it names the first such title. */
  lemma {:induction false} MissingCitiesFails(cities: seq<string>, pages: seq<Page>)
    ensures MissingCities(cities, pages).Ok? <==> forall j :: 0 <= j < |pages| ==> Resolvable(cities, pages[j])
    ensures MissingCities(cities, pages).Err? ==>
      (exists j :: 0 <= j < |pages| && !Resolvable(cities, pages[j])
        && MissingCities(cities, pages).error == TitleNotInBatch(pages[j].title)
        && forall i :: 0 <= i < j ==> Resolvable(cities, pages[i]))
    decreases |pages|
  {
    if pages != [] {
      var n := |pages| - 1;
      var init := pages[..n];
      MissingCitiesFails(cities, init);
      assert forall j :: 0 <= j < n ==> init[j] == pages[j];
      if MissingCities(cities, init).Err? {
        var j :| 0 <= j < n && !Resolvable(cities, init[j])
          && MissingCities(cities, init).error == TitleNotInBatch(init[j].title)
          && forall i :: 0 <= i < j ==> Resolvable(cities, init[i]);
        assert !Resolvable(cities, pages[j]);
      }
    }
  }

  /** One entry per negative-id page and none for the others, in response
      order; each names the page's title and its first position in the batch. */
  lemma {:induction false} MissingCitiesEntries(cities: seq<string>, pages: seq<Page>)
    requires MissingCities(cities, pages).Ok?
    ensures |MissingCities(cities, pages).value| == |NegativeTitles(pages)|
    ensures forall j :: 0 <= j < |NegativeTitles(pages)| ==>
      MissingCities(cities, pages).value[j].name == NegativeTitles(pages)[j]
    decreases |pages|
  {
    if pages != [] {
      var n := |pages| - 1;
      var init := pages[..n];
      MissingCitiesEntries(cities, init);
      assert pages == init + [pages[n]];
      NegativeTitlesSnoc(init, pages[n]);
    }
  }
}
