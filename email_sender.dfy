/**
 * `IEmailSender`: the messages sent are recorded in a ghost log instead of
 * being delivered.
 */
module EmailService {
  /** `QueryHelpers.AddQueryString(uri, parameters)`, kept as its two parts rather than rendered and encoded. */
  datatype Callback = Callback(uri: string, query: seq<(string, string)>)

  /** `Message(to, subject, content, attachments: null)`. */
  datatype Message = Message(to: seq<string>, subject: string, content: Callback)

  class EmailSender {
    ghost var sent: seq<Message>

    constructor ()
      ensures sent == []
    {
      sent := [];
    }

    /** `SendEmailAsync(message)`. */
    method SendEmailAsync(message: Message)
      modifies this
      ensures sent == old(sent) + [message]
    {
      sent := sent + [message];
    }
  }
}
