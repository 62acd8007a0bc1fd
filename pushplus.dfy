/**
 * The notification request: the record sent to the push service, and the
 * copy of it written to the log, whose token is redacted.
 */
module PushPlus {
  import opened Masking

  const TITLE := "GLaDOS签到"
  const TEMPLATE := "json"

  /** The request body; `content` is the JSON text of all account reports. */
  datatype PushData = PushData(token: string, title: string, content: string, template: string)

  /** The record built for a token and the serialized reports. */
  function PushPayload(token: string, content: string): (data: PushData)
    ensures data.token == token && data.content == content
    ensures data.title == TITLE && data.template == TEMPLATE
  {
    PushData(token, TITLE, content, TEMPLATE)
  }

  /** `{ ...data, token: masked }`: the record as logged. */
  function LoggedPushData(data: PushData): (logged: PushData)
    ensures logged.title == data.title && logged.content == data.content && logged.template == data.template
    ensures |logged.token| == |data.token|
    ensures |data.token| <= 8 ==> logged == data
  {
    data.(token := MaskToken(data.token))
  }

  /**
   * What the log shows of a long token: its first and last four characters,
   * every other position starred; the record sent keeps the token whole.
   */
  lemma LoggedTokenRedacted(token: string, content: string)
    requires AllDots(token) && |token| > 8
    ensures PushPayload(token, content).token == token
    ensures LoggedPushData(PushPayload(token, content)).token[..4] == token[..4]
    ensures LoggedPushData(PushPayload(token, content)).token[|token| - 4..] == token[|token| - 4..]
    ensures forall i :: 4 <= i < |token| - 4 ==> LoggedPushData(PushPayload(token, content)).token[i] == '*'
  {
    MaskTokenKeeps(token);
  }
}
