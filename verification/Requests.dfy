/** The requests of the JSON port as a whole: what they check, what they change in the chat
    tables and in the message log, and the event they send. */
module Requests {
  import opened ByteStrings
  import opened Chats
  import opened Routing
  import opened ChatHandlers
  import opened MessageLog

  /** An event that carries a message. */
  datatype Delivery = Delivery(route: Route, message: Message)

  /** The files a message lists are all in the `hashes` table. */
  predicate FilesExist(hashes: set<string>, listed: Option<seq<string>>) {
    listed.Some? ==> forall i | 0 <= i < |listed.value| :: listed.value[i] in hashes
  }

  class RequestHandler {
    const chats: ChatHandler
    const messages: MessagesDB
    var hashes: set<string>

    constructor (chats: ChatHandler, messages: MessagesDB)
      ensures this.chats == chats && this.messages == messages && hashes == {}
    {
      this.chats, this.messages, hashes := chats, messages, {};
    }

    method CheckFiles(listed: Option<seq<string>>) returns (ok: bool)
      ensures ok <==> FilesExist(hashes, listed)
    {
      if listed.Some? {
        for i := 0 to |listed.value|
          invariant forall k | 0 <= k < i :: listed.value[k] in hashes
        {
          if listed.value[i] !in hashes {
            return false;
          }
        }
      }
      ok := true;
    }

    /** A refused message changes nothing. Otherwise it is appended to the log of the chat
        that was found or made, and its event goes to the other participants, each of whom
        finds that chat under the id in the event. */
    method HandleSendMessage(actor: int, to: int, draft: Draft, now: int, drawn: int) returns (sent: Option<Delivery>)
      requires messages.Valid() && Inv(chats.View()) && Legal(chats.View(), Send(actor, to, drawn))
      modifies chats, messages
      ensures var accepted := FilesExist(hashes, draft.hashes) && SendTarget(old(chats.View()), actor, to) != NoTarget;
              && (!accepted ==>
                    sent == None && chats.View() == old(chats.View()) && messages.partitions == old(messages.partitions))
              && (accepted ==>
                    var target := SendTarget(old(chats.View()), actor, to);
                    var chat := if target.Existing? then target.chat else drawn;
                    && chats.View() == Step(old(chats.View()), Send(actor, to, drawn))
                    && Opened(old(chats.View()), chats.View(), actor, to, drawn)
                    && messages.partitions
                       == old(messages.partitions)[chat := Append(old(messages.Partition(chat)), actor, chat, now, draft)]
                    && (Latest(old(messages.Partition(chat))) != Some(MAX_ID) ==>
                          sent.Some? && sent.value.route.Sent? && sent.value.route.chat == chat &&
                          RightlyRouted(chats.View(), actor, sent.value.route) &&
                          sent.value.message
                          == Message(NextId(old(messages.Partition(chat))), true, actor, sent.value.route.eventChat,
                                     false, now, draft.replyTo, draft.text, draft.hashes)))
    {
      var filesExist := CheckFiles(draft.hashes);
      if !filesExist {
        return None;
      }
      MessageRouteIsRight(chats.View(), actor, to, drawn);
      var route := chats.HandleSendMessage(actor, to, drawn);
      if route == Refused {
        return None;
      }
      var added := messages.AddMessage(draft, actor, route.chat, now);
      if added == None {
        return None;
      }
      sent := Some(Delivery(route, added.value.(chatId := route.eventChat)));
    }

    /** The log changes although the event may meet a missing group. */
    method HandleMarkAsRead(actor: int, key: int, ids: seq<int>) returns (route: Route)
      requires messages.Valid()
      modifies messages
      ensures messages.Valid() && route == RouteOf(chats.View(), MarkAsRead, actor, key)
      ensures match Associated(chats.View(), actor, key)
              case None => messages.partitions == old(messages.partitions)
              case Some(chat) =>
                messages.Partition(chat) == MarkRead(old(messages.Partition(chat)), ids) &&
                forall c | c != chat :: messages.Partition(c) == old(messages.Partition(c))
    {
      var chat := chats.GetAssociatedChatId(actor, key);
      if chat.Some? {
        messages.MarkAsRead(chat.value, ids);
      }
      route := chats.RouteMarkAsRead(actor, key);
    }

    /** A refused edit changes nothing; otherwise only the actor's own message changes, to
        what the edit asks for, and the event carries that message under the id its
        receivers know the chat by. */
    method HandleEditMessage(actor: int, key: int, id: int, edit: Edit) returns (sent: Option<Delivery>)
      requires messages.Valid()
      modifies messages
      ensures messages.Valid()
      ensures sent == None ==> forall c :: messages.Partition(c) == old(messages.Partition(c))
      ensures sent.Some? <==>
              Associated(chats.View(), actor, key).Some? && FilesExist(hashes, edit.hashes) &&
              HasOwn(old(messages.Partition(Associated(chats.View(), actor, key).value)), actor, id)
      ensures sent.Some? ==>
              var chat := Associated(chats.View(), actor, key).value;
              && OwnEdit(old(messages.Partition(chat)), messages.Partition(chat), actor, id, edit,
                         sent.value.message.(chatId := chat))
              && sent.value.message.chatId == if chat < 0 then chat else actor
      ensures sent.Some? ==>
              && sent.value.route == RouteOf(chats.View(), EditMessage, actor, key)
              && (forall c | Associated(chats.View(), actor, key) != Some(c) ::
                    messages.Partition(c) == old(messages.Partition(c)))
    {
      var chat := chats.GetAssociatedChatId(actor, key);
      if chat == None {
        return None;
      }
      var filesExist := CheckFiles(edit.hashes);
      if !filesExist {
        return None;
      }
      var edited := messages.OnEditMessage(actor, chat.value, id, edit);
      if edited == None {
        return None;
      }
      var route := chats.RouteEditMessage(actor, key);
      sent := Some(Delivery(route, if chat.value < 0 then edited.value else edited.value.(chatId := actor)));
    }

    /** All listed messages or none. */
    method HandleDeleteMessages(actor: int, key: int, ids: seq<int>) returns (route: Route)
      requires messages.Valid()
      modifies messages
      ensures messages.Valid()
      ensures var chat := Associated(chats.View(), actor, key);
              var allowed := chat.Some? && forall j | 0 <= j < |ids| ::
                               Deletable(old(messages.Partition(chat.value)), actor, chat.value, ids[j]);
              && route == (if allowed then RouteOf(chats.View(), Kind.DeleteMessages, actor, key) else Refused)
              && (forall c :: messages.Partition(c)
                              == if allowed && c == chat.value then Remove(old(messages.Partition(c)), ids)
                                 else old(messages.Partition(c)))
              && (forall c | c < 0 :: OthersStay(old(messages.Partition(c)), messages.Partition(c), actor))
    {
      var chat := chats.GetAssociatedChatId(actor, key);
      if chat == None {
        return Refused;
      }
      var ok := messages.OnDeleteMessages(actor, chat.value, ids);
      if !ok {
        return Refused;
      }
      route := chats.RouteDeleteMessages(actor, key);
    }

    method HandleDeleteAllMessages(actor: int, key: int) returns (route: Route)
      requires messages.Valid()
      modifies messages
      ensures messages.Valid() && route == RouteOf(chats.View(), Kind.DeleteAllMessages, actor, key)
      ensures var chat := Associated(chats.View(), actor, key);
              forall c :: messages.Partition(c) == if chat == Some(c) then [] else old(messages.Partition(c))
    {
      var chat := chats.GetAssociatedChatId(actor, key);
      if chat.Some? {
        messages.DeleteAllMessages(chat.value);
      }
      route := chats.RouteDeleteAllMessages(actor, key);
    }
  }
}
