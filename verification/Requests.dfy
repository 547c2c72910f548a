/** How requests that change a bucket end. */
module Requests {
  /** One PUT: acknowledged, failed, or failed after taking effect. */
  datatype Answer = Stored | Lost | StoredUnacknowledged
}
