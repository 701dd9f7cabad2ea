/** The notices handlers raise through `toast(msg, type)`; their queue and four-second expiry are not modelled. */
module Toasts {

  /** The `type` argument: "info", "success" or "error". */
  datatype Severity = Info | Success | Error

  datatype Toast = Toast(message: string, severity: Severity)
}
