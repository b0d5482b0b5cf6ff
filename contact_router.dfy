/** backend/app/routers/contact.py: storing a message from the contact form and
    listing the stored messages for the admin. */
module ContactRouter {
  import opened Wrappers
  import opened Schemas
  import opened Listing

  const DefaultSkip: nat := 0
  const DefaultLimit: nat := 50

  /** The `contact_messages` table: its rows in insertion order and the next id. */
  class MessageTable {
    var rows: seq<ContactMessageResponse>
    var nextId: int

    ghost predicate Valid()
      reads this
    {
      nextId >= 1 &&
      (forall i :: 0 <= i < |rows| ==> 1 <= rows[i].id < nextId) &&
      (forall i, j :: 0 <= i < j < |rows| ==> rows[i].id < rows[j].id)
    }

    constructor ()
      ensures Valid() && rows == []
    {
      rows := [];
      nextId := 1;
    }

    /** `create_contact_message`: one new, unread row with the payload, a fresh id and
        the time of arrival. */
    method CreateContactMessage(msg: ContactMessage, now: int) returns (r: ContactMessageResponse)
      requires Valid()
      modifies this
      ensures Valid()
      ensures r.msg == msg && r.createdAt == now && !r.read
      ensures rows == old(rows) + [r]
      ensures forall x :: x in old(rows) ==> x.id != r.id
    {
      r := ContactMessageResponse(nextId, msg, now, false);
      rows := rows + [r];
      nextId := nextId + 1;
    }
  }

  /** `created_at.desc()`. */
  predicate NewerFirst(a: ContactMessageResponse, b: ContactMessageResponse) {
    a.createdAt >= b.createdAt
  }

  lemma NewerFirstIsTotalPreorder()
    ensures TotalPreorder(NewerFirst)
  {
  }

  /** `get_all_messages(skip, limit)`: read and unread messages alike, newest first,
      at most `limit` of them starting at position `skip`. */
  function GetAllMessages(rows: seq<ContactMessageResponse>, skip: nat, limit: nat): (r: seq<ContactMessageResponse>)
    ensures |r| <= limit
    ensures |r| == if skip >= |rows| then 0 else if |rows| - skip < limit then |rows| - skip else limit
    ensures forall x :: x in r ==> x in rows
    ensures SortedBy(r, NewerFirst)
  {
    var ordered := SortBy(rows, NewerFirst);
    NewerFirstIsTotalPreorder();
    SortBySorted(rows, NewerFirst);
    WindowOfSorted(ordered, skip, limit, NewerFirst);
    assert forall x :: x in ordered ==> x in multiset(rows);
    Window(ordered, skip, limit)
  }

  /** The first page holds the newest messages: every message it leaves out is no newer
      than every message it shows. */
  lemma GetAllMessagesFirstPage(rows: seq<ContactMessageResponse>, limit: nat)
    ensures forall x, y :: (x in rows && x !in GetAllMessages(rows, 0, limit) &&
      y in GetAllMessages(rows, 0, limit)) ==> NewerFirst(y, x)
  {
    var ordered := SortBy(rows, NewerFirst);
    NewerFirstIsTotalPreorder();
    SortBySorted(rows, NewerFirst);
    WindowFirstPage(ordered, limit, NewerFirst);
    assert forall x :: x in rows ==> x in multiset(ordered);
  }

  /** Consecutive pages of the same size tile the listing. */
  lemma GetAllMessagesPagesTile(rows: seq<ContactMessageResponse>, skip: nat, limit: nat)
    ensures GetAllMessages(rows, skip, limit) + GetAllMessages(rows, skip + limit, limit) ==
      GetAllMessages(rows, skip, 2 * limit)
  {
    WindowsTile(SortBy(rows, NewerFirst), skip, limit);
  }

  /** A page as long as the table lists every message, read or not, exactly once. */
  lemma GetAllMessagesComplete(rows: seq<ContactMessageResponse>, limit: nat)
    requires |rows| <= limit
    ensures multiset(GetAllMessages(rows, 0, limit)) == multiset(rows)
  {
    WindowAll(SortBy(rows, NewerFirst), limit);
  }

  /** A message just stored is the newest: it heads the default listing when no
      earlier message carries a later time. */
  lemma NewMessageListedFirst(rows: seq<ContactMessageResponse>, m: ContactMessageResponse)
    requires forall x :: x in rows ==> x.createdAt < m.createdAt
    ensures var r := GetAllMessages(rows + [m], 0, DefaultLimit); |r| >= 1 && r[0] == m
  {
    var all := rows + [m];
    var ordered := SortBy(all, NewerFirst);
    NewerFirstIsTotalPreorder();
    SortBySorted(all, NewerFirst);
    assert m in multiset(ordered);
    assert |ordered| >= 1;
    var k :| 0 <= k < |ordered| && ordered[k] == m;
    assert ordered[0] in multiset(all);
    assert NewerFirst(ordered[0], ordered[k]);
  }
}
