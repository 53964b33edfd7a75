/** The crawler port: the one operation the collection use case needs,
    "fetch the raw reviews of a product URL", and the failures a fetch can
    raise. The use case sees the crawler as a function of the URL it is given. */
module CrawlerPort {
  import opened Wrappers
  import opened RawValues

  /** Exceptions raised by the browser driver. All but `NonDriverError`
      are `WebDriverException`s. */
  datatype DriverFault =
    | NoSuchElement           // selenium NoSuchElementException
    | ElementNotInteractable  // selenium ElementNotInteractableException
    | Timeout                 // selenium TimeoutException (an unmet wait)
    | OtherDriverError(name: string)
    | NonDriverError(name: string)

  predicate IsWebDriverException(f: DriverFault) {
    !f.NonDriverError?
  }

  /** What a fetch can raise. */
  datatype CrawlError =
    | ElementNotFound        // HTTPException 500 "Element not found"
    | InteractionFailed      // HTTPException 500 "Interaction failed"
    | NoPagesLoaded          // HTTPException 404 "Fail to load HTML from given URL"
    | Raised(fault: DriverFault)  // a driver exception propagated unchanged
    | ReviewCountUnreadable  // the review-count badge is missing or not an integer
    | ReviewContentMissing   // a review item has no content node

  /** The HTTP status of the errors the crawler raises as HTTP exceptions. */
  function HttpStatus(e: CrawlError): Option<int> {
    match e
    case ElementNotFound => Some(500)
    case InteractionFailed => Some(500)
    case NoPagesLoaded => Some(404)
    case _ => None
  }

  /** `ReviewCrawlerPort.fetch_reviews`: the raw result for a URL, or the
      error the fetch raised. */
  type Crawler = string -> Result<RawValue, CrawlError>
}
