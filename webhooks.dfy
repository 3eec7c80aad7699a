/**
 * The billing webhook of handlers/webhooks.go: check the API key, decode the
 * event, ignore every event but "user.upgraded", and upgrade the user.
 * `apiKey` is the result of `auth.GetAPIKey` and `decoded` that of decoding the
 * JSON body (None when either fails).
 */
module Webhooks {
  import opened Wrappers
  import opened Http
  import opened Users

  const UpgradeEvent := "user.upgraded"

  /** The decoded request body: `event` and `data.user_id`. */
  datatype WebhookParams = WebhookParams(event: string, userId: int)

  /** Where the checks of the handler lead, before the store is touched. */
  datatype Step = Unauthorized | DecodeFailed | Ignore | Upgrade(userId: int)

  /** Lines 30-53: the API key is checked first, then the body, then the event name. */
  function Decide(apiKey: Option<string>, polkaApi: string, decoded: Option<WebhookParams>): (s: Step)
    ensures s == Unauthorized <==> apiKey != Some(polkaApi)
    ensures s == DecodeFailed <==> apiKey == Some(polkaApi) && decoded.None?
    ensures s == Ignore <==> apiKey == Some(polkaApi) && decoded.Some? && decoded.value.event != UpgradeEvent
    ensures s.Upgrade? <==> apiKey == Some(polkaApi) && decoded.Some? && decoded.value.event == UpgradeEvent
    ensures s.Upgrade? ==> s.userId == decoded.value.userId
  {
    if apiKey.None? then Unauthorized
    else if apiKey.value != polkaApi then Unauthorized
    else if decoded.None? then DecodeFailed
    else if decoded.value.event != UpgradeEvent then Ignore
    else Upgrade(decoded.value.userId)
  }

  /** A missing or wrong key is refused whatever the body holds. */
  lemma KeyCheckedBeforeBody(apiKey: Option<string>, polkaApi: string)
    requires apiKey != Some(polkaApi)
    ensures forall decoded :: Decide(apiKey, polkaApi, decoded) == Unauthorized
  {
  }

  /** `HandleWebhook` against the store `db`. */
  method HandleWebhook(db: DB, apiKey: Option<string>, polkaApi: string, decoded: Option<WebhookParams>)
    returns (status: int)
    modifies db
    ensures Decide(apiKey, polkaApi, decoded) == Unauthorized ==>
      status == StatusUnauthorized && db.users == old(db.users)
    ensures Decide(apiKey, polkaApi, decoded) == DecodeFailed ==>
      status == StatusInternalServerError && db.users == old(db.users)
    ensures Decide(apiKey, polkaApi, decoded) == Ignore ==>
      status == StatusOK && db.users == old(db.users)
    ensures Decide(apiKey, polkaApi, decoded).Upgrade? ==>
      var id := decoded.value.userId;
      && (id !in old(db.users) ==> status == StatusNotFound && db.users == old(db.users))
      && (id in old(db.users) ==>
            status == StatusOK && db.users == old(db.users)[id := old(db.users)[id].(isChirpyRed := true)])
    ensures old(db.Valid()) ==> db.Valid()
  {
    match Decide(apiKey, polkaApi, decoded)
    case Unauthorized =>
      status := StatusUnauthorized;
    case DecodeFailed =>
      status := StatusInternalServerError;
    case Ignore =>
      status := StatusOK;
    case Upgrade(id) =>
      var r := db.UpgradeChirpyRed(id);
      if r.Failure? {
        status := if r.error.Is(NotExist) then StatusNotFound else StatusInternalServerError;
      } else {
        status := StatusOK;
      }
  }

  /** Delivering the same event twice answers the same and changes nothing the second time. */
  method ReplayWebhook(db: DB, apiKey: Option<string>, polkaApi: string, decoded: Option<WebhookParams>)
    returns (first: int, second: int)
    modifies db
    ensures second == first
    ensures Decide(apiKey, polkaApi, decoded).Upgrade? && decoded.value.userId in old(db.users) ==>
      var id := decoded.value.userId;
      db.users == old(db.users)[id := old(db.users)[id].(isChirpyRed := true)]
    ensures !(Decide(apiKey, polkaApi, decoded).Upgrade? && decoded.value.userId in old(db.users)) ==>
      db.users == old(db.users)
  {
    first := HandleWebhook(db, apiKey, polkaApi, decoded);
    ghost var once := db.users;
    second := HandleWebhook(db, apiKey, polkaApi, decoded);
    assert db.users == once;
  }
}
