/** The values hostscanner.go receives: inventory rows and the structured scan request. */
module Requests {

  /** One row of the `"Domains"` inventory as selected by the host query: `name, ports`. */
  datatype DomainRow = DomainRow(name: string, ports: string)

  /** An HTTP header as a name and a value. */
  datatype Header = Header(name: string, value: string)

  /**
   * The custom request of a structured scan. The Go `Headers` map is given as the
   * sequence of its entries in the order the range loop visits them.
   */
  datatype HttpRequest = HttpRequest(verb: string, uri: string, headers: seq<Header>, body: string)

  /** An inventory column with the substrings it may contain. */
  datatype Filter = Filter(column: string, values: seq<string>)

  /**
   * A structured scan request. The Go `Filters` map is given as the sequence of its
   * entries in the order the range loop visits them.
   */
  datatype ScanRequest = ScanRequest(filters: seq<Filter>, greps: seq<string>, request: HttpRequest)
}
