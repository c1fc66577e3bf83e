/** What the commands answer, and when a key counts as expired. */
module Replies {
  import opened Bytes

  datatype Error = WrongType | NoSuchKey | IndexOutOfRange | ListTooLarge | VersionExhausted | NotInteger

  datatype Reply<+T> = Ok(value: T) | Err(error: Error)

  predicate Expired(ttl: u64, now: u64) {
    ttl > 0 && ttl < now
  }

  /** A ttl is the last millisecond at which the key is there, and zero means it never expires. */
  lemma ExpiredIs(ttl: u64, now: u64)
    ensures !Expired(0, now)
    ensures 0 < ttl && now <= ttl ==> !Expired(ttl, now)
    ensures 0 < ttl && ttl < now ==> Expired(ttl, now)
  {
  }
}
