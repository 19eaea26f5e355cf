/**
 * The outside world of js/jufo.js, as values: the requests it sends to the
 * JUFO REST API and to the Crossref works API, the parsed answers it reads,
 * and the two caches it keeps on `window`. Each service is a total function
 * from request to answer (a failed transfer or an unparsable body is one of
 * the answers), so a lookup is a deterministic function of the services and
 * the cache state.
 */
module Network {
  import opened JsText
  import opened Records

  /** `etsi.php?issn=…`, `etsi.php?nimi=…`, and the `kanava` detail record (its URL). */
  datatype JufoRequest = IssnSearch(query: string) | NameSearch(name: string) | Detail(url: string)

  /** `query.bibliographic=<query>&rows=<rows>`, and `rows=3&query.container-title=<title>`. */
  datatype CrossrefRequest = Bibliographic(query: string, rows: int) | ContainerTitleQuery(title: string)

  datatype Request = ToJufo(jufo: JufoRequest) | ToCrossref(crossref: CrossrefRequest)

  /** A Crossref field that may be missing, a single value, or an array of values. */
  datatype Values = Absent | One(value: string) | Many(values: seq<string>)

  /** A Crossref work, reduced to the two fields read: `ISSN` and `container-title`. */
  datatype Item = Item(issn: Values, containerTitle: Values)

  /** The `message` of a Crossref answer: without an item array, or with one. */
  datatype Message = NoItems | Items(items: seq<Item>)

  /** A Crossref answer: a body that does not parse (including a failed transfer), or a parsed `message`. */
  datatype Response = Unparsable | Parsed(message: Message)

  /** The two web services. */
  datatype Services = Services(jufo: JufoRequest -> Payload, crossref: CrossrefRequest -> Response)

  /**
   * `window.__jufoCache` (raw ISSN to level or null), `window.__jufoNameCache`
   * (lower-cased trimmed name to level or null), and the requests sent so far.
   */
  datatype State = State(issnCache: map<string, Option<string>>, nameCache: map<string, Option<string>>, trace: seq<Request>)

  /** The state after sending one request to JUFO. */
  function SentJufo(st: State, req: JufoRequest): (st': State)
    ensures st'.issnCache == st.issnCache && st'.nameCache == st.nameCache
    ensures st'.trace == st.trace + [ToJufo(req)]
  {
    st.(trace := st.trace + [ToJufo(req)])
  }

  /** The state after sending one request to Crossref. */
  function SentCrossref(st: State, req: CrossrefRequest): (st': State)
    ensures st'.issnCache == st.issnCache && st'.nameCache == st.nameCache
    ensures st'.trace == st.trace + [ToCrossref(req)]
  {
    st.(trace := st.trace + [ToCrossref(req)])
  }
}
