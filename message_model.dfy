/** `MessageModel`: the queries on the `messages` table. */
module MessageModel {
  import opened Json
  import opened Sql
  import opened SparseUpdate
  import opened Store

  /** `ORDER BY created_at ASC` */
  const Oldest: seq<OrderKey> := [Asc("created_at")]

  /** `ORDER BY created_at DESC` */
  const Newest: seq<OrderKey> := [Desc("created_at")]

  /** The row `create` inserts: the three given fields and the table's default `is_read = false`. */
  function Columns(senderId: Value, recipientId: Value, content: Value, now: int): (r: Row)
    ensures Col(r, "sender_id") == Bind(senderId) && Col(r, "recipient_id") == Bind(recipientId)
    ensures Col(r, "content") == Bind(content)
    ensures Col(r, "is_read") == Bool(false)
  {
    map["sender_id" := Bind(senderId), "recipient_id" := Bind(recipientId), "content" := Bind(content),
        "is_read" := Bool(false), "created_at" := Num(now)]
  }

  /** `create(senderId, recipientId, content)`: the insert always succeeds. */
  method Create(db: Database, senderId: Value, recipientId: Value, content: Value, now: int) returns (r: Row)
    requires db.Valid()
    modifies db.messages
    ensures db.Valid()
    ensures r == old(db.messages.WithNewId(Columns(senderId, recipientId, content, now)))
    ensures db.messages.rows == old(db.messages.rows) + [r]
  {
    var w := db.messages.Insert(Columns(senderId, recipientId, content, now));
    r := w.value;
  }

  /** `findById(id)`. */
  function FindById(rows: seq<Row>, id: Value): Option<Row>
  {
    FindBy(rows, "id", id)
  }

  /** A message sent from `a` to `b` (both non-null). */
  predicate Between(m: Row, a: Value, b: Value)
  {
    SqlEq(Col(m, "sender_id"), Bind(a)) && SqlEq(Col(m, "recipient_id"), Bind(b))
  }

  /** The WHERE clause of `findConversation(userId1, userId2)`. */
  function ConversationCond(a: Value, b: Value): Cond
  {
    Or(And(ColEq("sender_id", a), ColEq("recipient_id", b)), And(ColEq("sender_id", b), ColEq("recipient_id", a)))
  }

  /** `findConversation(userId1, userId2)`: the messages between the two users, in either
      direction, oldest first. */
  function FindConversation(rows: seq<Row>, a: Value, b: Value): (r: seq<Row>)
    ensures forall m :: m in r <==> m in rows && (Between(m, a, b) || Between(m, b, a))
    ensures forall m :: multiset(r)[m] == if Between(m, a, b) || Between(m, b, a) then multiset(rows)[m] else 0
    ensures Sorted(r, Oldest)
  {
    ConversationMeaning(a, b);
    Select(rows, ConversationCond(a, b), Oldest)
  }

  lemma ConversationMeaning(a: Value, b: Value)
    ensures forall m :: Holds(ConversationCond(a, b), m) <==> Between(m, a, b) || Between(m, b, a)
  {
    forall m
      ensures Holds(ConversationCond(a, b), m) <==> Between(m, a, b) || Between(m, b, a)
    {
      var c := ConversationCond(a, b);
      assert Holds(c, m) <==> Holds(c.left, m) || Holds(c.right, m);
      assert Holds(c.left, m) <==> Holds(c.left.left, m) && Holds(c.left.right, m);
      assert Holds(c.right, m) <==> Holds(c.right.left, m) && Holds(c.right.right, m);
    }
  }

  /** A conversation is the same list whichever side asks for it. */
  lemma ConversationSymmetric(rows: seq<Row>, a: Value, b: Value)
    ensures FindConversation(rows, a, b) == FindConversation(rows, b, a)
  {
    ConversationMeaning(a, b);
    ConversationMeaning(b, a);
    FilterSame(rows, ConversationCond(a, b), ConversationCond(b, a), true);
    assert Where(rows, ConversationCond(a, b)) == Where(rows, ConversationCond(b, a));
  }

  /** `findUserMessages(userId)`: the messages the user sent or received, newest first. */
  function FindUserMessages(rows: seq<Row>, userId: Value): (r: seq<Row>)
    ensures forall m :: m in r <==>
      m in rows && (SqlEq(Col(m, "sender_id"), Bind(userId)) || SqlEq(Col(m, "recipient_id"), Bind(userId)))
    ensures forall m :: (multiset(r)[m] ==
      if SqlEq(Col(m, "sender_id"), Bind(userId)) || SqlEq(Col(m, "recipient_id"), Bind(userId)) then multiset(rows)[m] else 0)
    ensures Sorted(r, Newest)
  {
    var c := Or(ColEq("sender_id", userId), ColEq("recipient_id", userId));
    assert forall m :: Holds(c, m) <==> Holds(c.left, m) || Holds(c.right, m);
    Select(rows, c, Newest)
  }

  /** Every message of a conversation is among each participant's messages. */
  lemma ConversationInUserMessages(rows: seq<Row>, a: Value, b: Value)
    ensures forall m :: m in FindConversation(rows, a, b) ==> m in FindUserMessages(rows, a)
    ensures forall m :: m in FindConversation(rows, a, b) ==> m in FindUserMessages(rows, b)
  {
  }

  /** The table after `UPDATE messages SET is_read = true WHERE id = $1`. */
  function MarkedRead(rows: seq<Row>, id: Value): seq<Row>
  {
    UpdateWhere(rows, ById(id), [("is_read", Bool(true))])
  }

  /** `markAsRead(id)`: sets `is_read` on the message and returns it, or null. */
  method MarkAsRead(db: Database, id: Value) returns (r: Option<Row>)
    requires db.Valid()
    modifies db.messages
    ensures db.Valid()
    ensures db.messages.rows == MarkedRead(old(db.messages.rows), id)
    ensures r == FindById(db.messages.rows, id)
  {
    var st := Statement([Assignment("is_read", 1)], [Bool(true), id], 2);
    var s := [("is_read", Bool(true))];
    RunMatchesPatch(db.messages.rows, st, s, id);
    UpdateConsistent(db.messages.rows, ById(id), s, db.messages.keys);
    var w := db.messages.Execute(st);
    r := w.value;
  }

  /** Marking a message read sets its `is_read` and changes no other column of any row. */
  lemma MarkedReadOnlyIsRead(rows: seq<Row>, id: Value)
    ensures |MarkedRead(rows, id)| == |rows|
    ensures forall i, c :: 0 <= i < |rows| ==>
      Col(MarkedRead(rows, id)[i], c) == if Holds(ById(id), rows[i]) && c == "is_read" then Bool(true) else Col(rows[i], c)
  {
    UpdateOneColumn(rows, ById(id), "is_read", Bool(true));
  }

  /** Marking a message read twice is the same as marking it once. */
  lemma MarkedReadIdempotent(rows: seq<Row>, id: Value)
    ensures MarkedRead(MarkedRead(rows, id), id) == MarkedRead(rows, id)
  {
    var once := MarkedRead(rows, id);
    forall i | 0 <= i < |rows|
      ensures MarkedRead(once, id)[i] == once[i]
    {
      if Holds(ById(id), rows[i]) {
        AssignOne(rows[i], "is_read", Bool(true));
        AssignOne(once[i], "is_read", Bool(true));
      }
    }
  }

  /** Marking an absent message changes nothing and returns null. */
  lemma MarkedReadAbsent(rows: seq<Row>, id: Value)
    requires FindById(rows, id).None?
    ensures MarkedRead(rows, id) == rows
    ensures FindById(MarkedRead(rows, id), id).None?
  {
  }

  /** `delete(id)`: true exactly when a row was removed. */
  method Delete(db: Database, id: Value) returns (removed: bool)
    requires db.Valid()
    modifies db.messages
    ensures db.Valid()
    ensures db.messages.rows == Without(old(db.messages.rows), ById(id))
    ensures removed <==> FindById(old(db.messages.rows), id).Some?
  {
    removed := db.messages.Delete(ById(id));
  }
}
