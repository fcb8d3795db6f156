/**
 * The values that cross the server's boundary: what fetching a vendor page
 * yields, the records the table extraction produces, and the JSON replies
 * the endpoints send.
 */
module Http {

  datatype Option<+T> = None | Some(value: T)

  /** One table row as a JavaScript object: header text to cell text. */
  type Record = map<string, string>

  /** A status axios resolves with: anything outside 2xx rejects the request. */
  type Status = n: nat | 200 <= n < 300 witness 200

  /**
   * The outcome of `axios.get(link)`. A rejected request (network failure or a
   * status outside 2xx) carries the error's message; an accepted response
   * carries its status, its body text, and the rows of `td` texts that
   * `$('table').find('tr')` yields for that body, already trimmed.
   */
  datatype Page =
    | FetchError(message: string)
    | Fetched(status: Status, body: string, rows: seq<seq<string>>)

  /** Why an endpoint answered with an `{error}` body. */
  datatype Failure =
    | NullTableData              // `tableData.forEach` on the null that extractTableData returns
    | UndefinedDateField         // `.length` of a missing "Due DatePromised Date"
    | FetchFailed(message: string)
    | LinkRequired               // the literal 'Link is required'

  datatype Body =
    | Message(message: string)
    | Error(error: Failure)
    | Records(records: seq<Record>)
    | LinkStatus(linkStatus: string)

  datatype Response = Response(status: nat, body: Body)
}
