/**
 The record a resolution produces and the result sink stores: the DNS result
 together with the page data (`HTTPResult`). The page fetch itself is not part
 of this model; its result is an opaque value with the fields the sink writes.
 */
module Records {
  import opened Dns

  /** Go's `uint` on a 64-bit platform. */
  newtype Uint64 = x: int | 0 <= x < 0x1_0000_0000_0000_0000

  /** `HTTPResult`. */
  datatype HttpResult = HttpResult(
    title: string, location: string, statusCode: Uint64, bodyLength: Uint64, error: string)

  /** The zero value `&HTTPResult{}` attached when titles are not fetched. */
  const ZeroHttp: HttpResult := HttpResult("", "", 0, 0, "")

  /** `SubdomainResult` / `AppResult`. */
  datatype AppResult = AppResult(dns: DnsResult, http: HttpResult)
}
