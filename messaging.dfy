/**
 * The messaging platform's outbound API, reduced to what the handlers send:
 * a reply bound to an event's reply token, or a push to a conversation. The
 * API object keeps every request it was given, in order.
 */
module Messaging {

  datatype Send =
    | Reply(replyToken: string, text: string, notificationDisabled: bool)
    | Push(to: string, text: string)

  class MessagingApi {
    var sent: seq<Send>

    constructor ()
      ensures sent == []
    {
      sent := [];
    }

    /** `reply_message_with_http_info` with one text message. */
    method ReplyMessage(replyToken: string, text: string, notificationDisabled: bool)
      modifies this
      ensures sent == old(sent) + [Reply(replyToken, text, notificationDisabled)]
    {
      sent := sent + [Reply(replyToken, text, notificationDisabled)];
    }

    /** `push_message_with_http_info` with one text message. */
    method PushMessage(to: string, text: string)
      modifies this
      ensures sent == old(sent) + [Push(to, text)]
    {
      sent := sent + [Push(to, text)];
    }
  }
}
