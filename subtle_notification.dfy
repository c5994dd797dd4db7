/**
 * The three notices shown above a conversation: which one appears, and with
 * which localisation key, as a function of what the store says about the
 * selected conversation.
 */
module SubtleNotification {
  import opened Wrappers

  /** What the selectors report about the selected conversation. */
  datatype Conversation = Conversation(
    selected: bool,               // a conversation key is selected (a non-empty key)
    isOutgoingRequest: bool,      // we sent a message request that is not yet accepted
    isIncomingRequest: bool,      // we received a message request that is not yet accepted
    hasIncomingMessages: bool,    // the conversation holds messages from the other side
    hasMessages: bool,            // the conversation holds any message
    canWrite: bool,               // we may send in this conversation
    isMe: bool,                   // it is the note-to-self conversation
    blindedMsgReqsDisabled: bool) // the recipient refuses message requests from blinded ids

  /** The localisation keys of the notices. */
  datatype Key =
    | MessageRequestPendingDescription
    | MessageRequestsAcceptDescription
    | NoMessagesInEverythingElse
    | NoMessagesInBlindedDisabledMsgRequests
    | NoMessagesInReadOnly
    | NoMessagesInNoteToSelf

  /** The notice under an outgoing message request that the other side has not answered. */
  function OutgoingRequestExplanation(c: Conversation): (r: Option<Key>)
    ensures r.Some? <==> c.selected && c.isOutgoingRequest && !c.hasIncomingMessages
    ensures r.Some? ==> r.value == MessageRequestPendingDescription
  {
    var showMsgRequestUI := c.selected && c.isOutgoingRequest;
    if !showMsgRequestUI || c.hasIncomingMessages then None
    else Some(MessageRequestPendingDescription)
  }

  /** The notice under an incoming message request that has messages to answer. */
  function IncomingRequestExplanation(c: Conversation): (r: Option<Key>)
    ensures r.Some? <==> c.selected && c.isIncomingRequest && c.hasIncomingMessages
    ensures r.Some? ==> r.value == MessageRequestsAcceptDescription
  {
    var showMsgRequestUI := c.selected && c.isIncomingRequest;
    if !showMsgRequestUI || !c.hasIncomingMessages then None
    else Some(MessageRequestsAcceptDescription)
  }

  /** The notice in a selected conversation that holds no message yet. */
  function NoMessageInConversation(c: Conversation): (r: Option<Key>)
    ensures r.None? <==> !c.selected || c.hasMessages
    ensures r == Some(NoMessagesInBlindedDisabledMsgRequests) <==>
      c.selected && !c.hasMessages && !c.canWrite && c.blindedMsgReqsDisabled
    ensures r == Some(NoMessagesInReadOnly) <==>
      c.selected && !c.hasMessages && !c.canWrite && !c.blindedMsgReqsDisabled
    ensures r == Some(NoMessagesInNoteToSelf) <==>
      c.selected && !c.hasMessages && c.canWrite && c.isMe
    ensures r == Some(NoMessagesInEverythingElse) <==>
      c.selected && !c.hasMessages && c.canWrite && !c.isMe
  {
    if !c.selected || c.hasMessages then None
    else
      var localizedKey :=
        if !c.canWrite then
          (if c.blindedMsgReqsDisabled then NoMessagesInBlindedDisabledMsgRequests
           else NoMessagesInReadOnly)
        else if c.isMe then NoMessagesInNoteToSelf
        else NoMessagesInEverythingElse;
      Some(localizedKey)
  }

  /** The two request notices never show together: one needs incoming messages, the other none. */
  lemma RequestNoticesExclusive(c: Conversation)
    ensures OutgoingRequestExplanation(c).None? || IncomingRequestExplanation(c).None?
  {
  }

  /** In a conversation we cannot write to, being note-to-self does not change the notice. */
  lemma ReadOnlyTakesPrecedence(c: Conversation, isMe: bool)
    requires !c.canWrite
    ensures NoMessageInConversation(c.(isMe := isMe)) == NoMessageInConversation(c)
  {
  }
}
