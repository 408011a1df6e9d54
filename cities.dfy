/** The records the tool passes around: one city of the gazetteer, and one
    title reported missing by the encyclopedia, tagged with its batch position. */
module Cities {

  /** One parsed gazetteer row. Latitude and longitude are carried as opaque
      values; the model never computes with them. */
  datatype CityInfo = CityInfo(name: string, lat: real, lng: real, country: string, pop: int)

  /** A city without an article: its title and its position in the batch of
      names that was looked up. */
  datatype MissingCityInfo = MissingCityInfo(name: string, index: nat)

  /** Why a run aborts. */
  datatype Failure =
    | TitleNotInBatch(title: string)  // `list.index` raised ValueError
    | EndOfInput                      // `input()` raised EOFError

  /** The city names of a batch, in batch order. */
  function Names(batch: seq<CityInfo>): (r: seq<string>)
    ensures |r| == |batch|
    ensures forall j :: 0 <= j < |batch| ==> r[j] == batch[j].name
  {
    seq(|batch|, j requires 0 <= j < |batch| => batch[j].name)
  }
}
