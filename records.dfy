/** The JSON records that pass from the scraper to the aggregation step: one raw
    search response per file, holding doctor rows. A JSON key that is absent is
    `None` here; keys the pipeline never inspects are kept as opaque text. */
module Records {
  import opened Wrappers

  /** One doctor row of a search response; `cpsonumber` is the registration id. */
  datatype Doctor = Doctor(
    cpsonumber: Option<string>,
    phonenumber: Option<string>,
    fax: Option<string>,
    other: map<string, string>)

  /** The JSON object of one search response as saved to a raw file. */
  datatype RawRecord = RawRecord(
    postalCode: Option<string>,
    totalcount: Option<int>,
    results: Option<seq<Doctor>>,
    other: map<string, string>)

  /** Python truthiness of a JSON object: it has at least one key. */
  predicate IsTruthy(r: RawRecord)
  {
    r.postalCode.Some? || r.totalcount.Some? || r.results.Some? || r.other != map[]
  }
}
