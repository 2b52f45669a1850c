/** What an account operation does to the outside world, recorded in order:
    reads and writes of the session cache and the requests sent to Steam.
    Replies come back to the model as inputs; the requests go out as these
    records, so that "no login request is sent" or "nothing is confirmed"
    can be stated and proved. */
module Effects {
  import opened Wrappers
  import opened Json

  /** The cached session of one account (`cache.session_data` /
      `cache.store_session_data`); each key may be missing. */
  datatype CacheRecord = CacheRecord(
    sessionId: Option<string>,
    steamId64: Option<int>,
    steamLoginSecure: Option<string>)

  /** Query of a mobile-confirmation request: device id ("p"), account ("a"),
      signature ("k"), time ("t") and tag; "m" is always "android". */
  datatype ConfParams = ConfParams(deviceId: string, steamId64: int, key: string, time: int, tag: string)

  /** Form of `tradeoffer/new/send`. The offer message, which embeds the
      current date, is not modelled. */
  datatype OfferPayload = OfferPayload(
    sessionId: string,
    serverId: int,
    partner: Option<int>,
    me: seq<map<string, Json>>,
    them: seq<map<string, Json>>,
    accessToken: string)

  /** Form of `tradeoffer/<id>/accept`. */
  datatype AcceptPayload = AcceptPayload(sessionId: string, tradeId: int, serverId: int, partner: Option<int>)

  datatype Effect =
    | CacheRead(account: string)
    | CacheWrite(account: string, record: CacheRecord)
    | SessionProbe
    | LoginRequest(username: string, password: string, twoFactorCode: string)
    | OfferSend(offer: OfferPayload)
    | OfferAccept(acceptance: AcceptPayload)
    | ConfListFetch(listParams: ConfParams)
    | ConfAllow(allowParams: ConfParams, confId: string, confKey: string)
}
