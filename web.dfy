/**
  Browser values shared by the service worker and the page script: URLs as plain
  strings, responses as a status code with a body text, and the outcome of a
  `fetch` call, which either resolves to a response or rejects.
 */
module Web {

  datatype Option<+T> = None | Some(value: T)

  type Url = string

  /** A response as seen through `fetch` or the cache: its status and its body text. */
  datatype Response = Response(status: int, body: string) {

    /** `Response.ok`: the status lies in the range 200-299. */
    predicate Ok() {
      200 <= status <= 299
    }
  }

  /** The settled promise of a `fetch`: a response of any status, or a network failure. */
  datatype Fetched = Resolved(response: Response) | Rejected {

    /** The fetch resolved, and to a response with an ok status. */
    predicate Ok() {
      Resolved? && response.Ok()
    }
  }
}
