/** An optional value: a received packet or HTTP request may be absent in a
    given iteration of the firmware loop, and a response is only produced
    when a request was served. */
module Optional {

  datatype Option<+T> = None | Some(value: T)
}
