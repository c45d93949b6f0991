/** The price catalog the server answers lookups from: a fixed table from
    component names to price strings, with a default answer for every name
    the table does not know. */
module Catalog {

  /** The three components the server knows a price for. */
  const Prices: map<string, string> :=
    map["processor" := "$200", "memory" := "$100", "harddisk" := "$80"]

  /** The answer to every request that names no known component. */
  const UnknownComponent: string := "Unknown component"

  /** Resolves a request to its answer. Total: every string, including the
      empty one and any malformed payload, gets a defined answer. */
  function GetPrice(request: string): (price: string)
    ensures request in Prices ==> price == Prices[request]
    ensures request !in Prices ==> price == UnknownComponent
    ensures price in Prices.Values || price == UnknownComponent
  {
    match request
    case "processor" => "$200"
    case "memory" => "$100"
    case "harddisk" => "$80"
    case _ => UnknownComponent
  }

  /** Sample lookups: the three known components, an unknown name and the empty string. */
  lemma KnownAnswers()
    ensures GetPrice("processor") == "$200"
    ensures GetPrice("memory") == "$100"
    ensures GetPrice("harddisk") == "$80"
    ensures GetPrice("gpu") == UnknownComponent
    ensures GetPrice("") == UnknownComponent
  {
  }
}
