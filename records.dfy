/** The result record every fetcher produces and the renderers consume. */
module Records {
  /** `{ address, title }`. */
  datatype FetchResult = FetchResult(address: string, title: string)

  /** The sentinel title that stands for every kind of failure. */
  const NoResponse: string := "NO RESPONSE"
}
