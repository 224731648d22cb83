/** `messageController`: direct messages between users. */
module MessageController {
  import opened Json
  import opened Sql
  import opened Store
  import opened Http
  import opened Types
  import MessageModel

  /** `create`: 401; 400 without recipient and content; otherwise the message is stored with
      the caller as sender. */
  method Create(db: Database, user: Option<Claims>, body: Object, now: int) returns (o: Outcome)
    requires db.Valid()
    modifies db.messages
    ensures db.Valid()
    ensures user.None? ==> o == Unauthorized
    ensures user.Some? && !(Truthy(Get(body, "recipient_id")) && Truthy(Get(body, "content"))) ==>
      o == ErrorResponse("Recipient and content are required", 400)
    ensures o.success <==> user.Some? && Truthy(Get(body, "recipient_id")) && Truthy(Get(body, "content"))
    ensures !o.success ==> db.messages.rows == old(db.messages.rows)
    ensures o.success ==> o.data.One? && o == SuccessResponse(o.data, Some("Message sent"), 201)
    ensures o.success ==> db.messages.rows == old(db.messages.rows) + [o.data.row]
    ensures o.success ==>
      o.data.row == old(db.messages.WithNewId(MessageModel.Columns(user.value.userId, Get(body, "recipient_id"), Get(body, "content"), now)))
    ensures o.success ==> Col(o.data.row, "sender_id") == Bind(user.value.userId)
  {
    if user.None? {
      return Unauthorized;
    }
    var recipient, content := Get(body, "recipient_id"), Get(body, "content");
    if !Truthy(recipient) || !Truthy(content) {
      return ErrorResponse("Recipient and content are required", 400);
    }
    var message := MessageModel.Create(db, user.value.userId, recipient, content, now);
    o := SuccessResponse(One(message), Some("Message sent"), 201);
  }

  /** `getConversation`: the messages between the caller and the other user, oldest first;
      the caller is always one side. */
  function GetConversation(messages: seq<Row>, user: Option<Claims>, otherId: Value): (o: Outcome)
    ensures user.None? ==> o == Unauthorized
    ensures user.Some? ==> o.success && o.status == 200 && o.data.Many?
    ensures o.success ==> forall m :: m in o.data.rows <==>
      (m in messages && (MessageModel.Between(m, user.value.userId, otherId) || MessageModel.Between(m, otherId, user.value.userId)))
    ensures o.success ==> forall m :: (multiset(o.data.rows)[m] ==
      if MessageModel.Between(m, user.value.userId, otherId) || MessageModel.Between(m, otherId, user.value.userId)
      then multiset(messages)[m] else 0)
    ensures o.success ==> Sorted(o.data.rows, MessageModel.Oldest)
  {
    if user.None? then Unauthorized
    else SuccessResponse(Many(MessageModel.FindConversation(messages, user.value.userId, otherId)), None, 200)
  }

  /** `getMyMessages`: the messages the caller sent or received, newest first. */
  function GetMyMessages(messages: seq<Row>, user: Option<Claims>): (o: Outcome)
    ensures user.None? ==> o == Unauthorized
    ensures user.Some? ==> o.success && o.status == 200 && o.data.Many?
    ensures o.success ==> forall m :: m in o.data.rows <==>
      (m in messages && (SqlEq(Col(m, "sender_id"), Bind(user.value.userId)) || SqlEq(Col(m, "recipient_id"), Bind(user.value.userId))))
    ensures o.success ==> forall m :: (multiset(o.data.rows)[m] ==
      if SqlEq(Col(m, "sender_id"), Bind(user.value.userId)) || SqlEq(Col(m, "recipient_id"), Bind(user.value.userId))
      then multiset(messages)[m] else 0)
    ensures o.success ==> Sorted(o.data.rows, MessageModel.Newest)
  {
    if user.None? then Unauthorized
    else SuccessResponse(Many(MessageModel.FindUserMessages(messages, user.value.userId)), None, 200)
  }

  /** `markAsRead`: 401; 404 for an unknown message; 403 unless the caller is its recipient
      (its sender never can); then the message is marked read. */
  method MarkAsRead(db: Database, user: Option<Claims>, id: Value) returns (o: Outcome)
    requires db.Valid()
    modifies db.messages
    ensures db.Valid()
    ensures user.None? ==> o == Unauthorized
    ensures user.Some? && MessageModel.FindById(old(db.messages.rows), id).None? ==> o == ErrorResponse("Message not found", 404)
    ensures user.Some? && MessageModel.FindById(old(db.messages.rows), id).Some? ==>
      (o.success <==> Col(MessageModel.FindById(old(db.messages.rows), id).value, "recipient_id") == user.value.userId)
    ensures !o.success && user.Some? && MessageModel.FindById(old(db.messages.rows), id).Some? ==> o == AccessDenied
    ensures !o.success ==> db.messages.rows == old(db.messages.rows)
    ensures o.success ==> db.messages.rows == MessageModel.MarkedRead(old(db.messages.rows), id)
    ensures o.success ==>
      o == SuccessResponse(RowOrNull(MessageModel.FindById(db.messages.rows, id)), Some("Message marked as read"), 200)
  {
    if user.None? {
      return Unauthorized;
    }
    var message := MessageModel.FindById(db.messages.rows, id);
    if message.None? {
      return ErrorResponse("Message not found", 404);
    }
    if Col(message.value, "recipient_id") != user.value.userId {
      return AccessDenied;
    }
    var updated := MessageModel.MarkAsRead(db, id);
    o := SuccessResponse(RowOrNull(updated), Some("Message marked as read"), 200);
  }
}
