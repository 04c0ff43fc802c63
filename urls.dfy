/**
 * The parts of Python's `urllib.parse` the system calls. They are taken as given:
 * every operation that needs one receives this record of functions as a parameter.
 */
module Urls {

  /** The six fields `urlparse` returns. */
  datatype Url = Url(scheme: string, netloc: string, path: string, params: string, query: string, fragment: string)

  datatype UrlLib = UrlLib(
    parse: string -> Url,                 // urlparse(url)
    unparse: Url -> string,               // urlunparse(parts)
    join: (string, string) -> string,     // urljoin(base, href)
    unquote: string -> string,            // unquote(s): percent-decoding
    quote: string -> string,              // quote(s): percent-encoding
    parseQuery: string -> seq<(string, string)>)  // parse_qsl(query)
}
