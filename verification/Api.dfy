/** Calls to the Kubernetes and cloud APIs. */
module Api {
  /** What happens to a call: it works, it has no effect, or it has its effect but the answer is an error. */
  datatype Fault = Done | Lost | Unacknowledged
}
