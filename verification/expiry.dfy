/** The expiry window: which commits and documents are old enough to be
    collected. */
module Expiry {
  import opened Ids
  import opened JavaInt

  /** `getMaxTime`: the current time minus the expiry, both in milliseconds,
      computed in Java `long` arithmetic. The clock and the unit conversion are
      parameters here. */
  function MaxTime(now: int, expiryMillis: int): (maxTime: int)
    requires IsLong(now) && IsLong(expiryMillis)
    ensures IsLong(maxTime)
    ensures IsLong(now - expiryMillis) ==> maxTime == now - expiryMillis
    ensures now - expiryMillis > LongMax ==> maxTime == now - expiryMillis - 0x1_0000_0000_0000_0000
    ensures now - expiryMillis < LongMin ==> maxTime == now - expiryMillis + 0x1_0000_0000_0000_0000
  {
    WrapLong(now - expiryMillis)
  }

  /** The store's filter `{timestamp: {$not: {$gte: maxTime}}}`: an item is
      eligible when it carries no timestamp or one older than `maxTime`. */
  function Eligible(timestamp: Option<int>, maxTime: int): (eligible: bool)
    ensures eligible <==> !(timestamp.Some? && timestamp.value >= maxTime)
  {
    match timestamp
    case None => true
    case Some(t) => t < maxTime
  }
}
