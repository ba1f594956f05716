/** The files of a message, from the rows they were stored in back to the list that was submitted. */
module Attachments {
  import opened Wrappers
  import opened Schema
  import Queue

  /** The rows of one message, in table order. */
  function RowsOf(table: seq<AttachmentRow>, id: nat): seq<AttachmentRow> {
    if table == [] then []
    else
      var last := |table| - 1;
      if table[last].message == id then RowsOf(table[..last], id) + [table[last]] else RowsOf(table[..last], id)
  }

  /** Is the message stored with exactly these files, in this order? */
  predicate StoredAs(table: seq<AttachmentRow>, id: nat, files: seq<Attachment>) {
    RowsOf(table, id) == Queue.AttachmentRows(id, files)
  }

  lemma {:induction false} RowsOfConcat(table: seq<AttachmentRow>, more: seq<AttachmentRow>, id: nat)
    ensures RowsOf(table + more, id) == RowsOf(table, id) + RowsOf(more, id)
  {
    if more == [] {
      assert table + more == table;
    } else {
      var last := |more| - 1;
      assert (table + more)[..|table| + last] == table + more[..last];
      RowsOfConcat(table, more[..last], id);
    }
  }

  lemma {:induction false} RowsOfUniform(rows: seq<AttachmentRow>, owner: nat, id: nat)
    requires forall k | 0 <= k < |rows| :: rows[k].message == owner
    ensures RowsOf(rows, id) == if id == owner then rows else []
  {
    if rows != [] {
      RowsOfUniform(rows[..|rows| - 1], owner, id);
    }
  }

  /** Nothing is filed under an id that has not been given out yet. */
  predicate Bounded(table: seq<AttachmentRow>, messages: nat) {
    forall k | 0 <= k < |table| :: table[k].message < messages
  }

  lemma {:induction false} RowsOfUnknown(table: seq<AttachmentRow>, messages: nat, id: nat)
    requires Bounded(table, messages) && messages <= id
    ensures RowsOf(table, id) == []
  {
    if table != [] {
      RowsOfUnknown(table[..|table| - 1], messages, id);
    }
  }

  /** Filing a new message leaves every other message's files alone, and files its own as submitted. */
  lemma FilingIsExact(table: seq<AttachmentRow>, messages: nat, files: seq<Attachment>, id: nat)
    requires Bounded(table, messages) && id <= messages
    ensures var filed := table + Queue.AttachmentRows(messages, files);
            && Bounded(filed, messages + 1)
            && if id == messages then StoredAs(filed, id, files) else RowsOf(filed, id) == RowsOf(table, id)
  {
    var rows := Queue.AttachmentRows(messages, files);
    RowsOfConcat(table, rows, id);
    RowsOfUniform(rows, messages, id);
    if id == messages {
      RowsOfUnknown(table, messages, id);
    }
  }

  /** A purge deletes the files of the messages it is for, all of them, and nobody else's. */
  lemma {:induction false} RemainingIsExact(table: seq<AttachmentRow>, gone: set<nat>, messages: nat, id: nat)
    ensures RowsOf(Queue.Remaining(table, gone), id) == if id in gone then [] else RowsOf(table, id)
    ensures Bounded(table, messages) ==> Bounded(Queue.Remaining(table, gone), messages)
  {
    if table != [] {
      var front, last := table[..|table| - 1], table[|table| - 1];
      RemainingIsExact(front, gone, messages, id);
      var kept := Queue.Remaining(front, gone);
      assert (kept + [last])[..|kept|] == kept;
    }
  }

  // -------------------------------------------------- loading in batches

  /** `order by message_id, position`, then the order of the table. */
  predicate NoLater(a: AttachmentRow, b: AttachmentRow) {
    a.message < b.message || (a.message == b.message && a.position <= b.position)
  }

  predicate InOrder(rows: seq<AttachmentRow>) {
    forall i, j | 0 <= i < j < |rows| :: NoLater(rows[i], rows[j])
  }

  function Insert(rows: seq<AttachmentRow>, row: AttachmentRow): (r: seq<AttachmentRow>)
    ensures |r| == |rows| + 1
  {
    if rows == [] || NoLater(rows[|rows| - 1], row) then rows + [row]
    else Insert(rows[..|rows| - 1], row) + [rows[|rows| - 1]]
  }

  lemma {:induction false} InsertKeepsOrder(rows: seq<AttachmentRow>, row: AttachmentRow)
    requires InOrder(rows)
    ensures InOrder(Insert(rows, row))
    ensures forall x | x in Insert(rows, row) :: x in rows || x == row
  {
    if rows != [] && !NoLater(rows[|rows| - 1], row) {
      var last := |rows| - 1;
      InsertKeepsOrder(rows[..last], row);
      var r := Insert(rows[..last], row);
      forall i | 0 <= i < |r|
        ensures NoLater(r[i], rows[last])
      {
        assert r[i] in r;
      }
    }
  }

  function Ordered(rows: seq<AttachmentRow>): seq<AttachmentRow> {
    if rows == [] then [] else Insert(Ordered(rows[..|rows| - 1]), rows[|rows| - 1])
  }

  lemma {:induction false} OrderedInOrder(rows: seq<AttachmentRow>)
    ensures InOrder(Ordered(rows))
  {
    if rows != [] {
      OrderedInOrder(rows[..|rows| - 1]);
      InsertKeepsOrder(Ordered(rows[..|rows| - 1]), rows[|rows| - 1]);
    }
  }

  lemma {:induction false} RowsOfMembers(rows: seq<AttachmentRow>, id: nat)
    ensures forall x | x in RowsOf(rows, id) :: x in rows && x.message == id
  {
    if rows != [] {
      RowsOfMembers(rows[..|rows| - 1], id);
    }
  }

  /** Taking one message's rows out of a sorted table and sorting them gives the same. */
  lemma {:induction false} RowsOfInsert(rows: seq<AttachmentRow>, row: AttachmentRow, id: nat)
    requires InOrder(rows)
    ensures RowsOf(Insert(rows, row), id) ==
              if row.message == id then Insert(RowsOf(rows, id), row) else RowsOf(rows, id)
  {
    if rows == [] {
      assert [row][..0] == [];
    } else {
      var last := |rows| - 1;
      if NoLater(rows[last], row) {
        assert (rows + [row])[..|rows|] == rows;
        RowsOfMembers(rows, id);
        var mine := RowsOf(rows, id);
        if mine != [] {
          assert mine[|mine| - 1] in mine;
        }
      } else {
        RowsOfInsert(rows[..last], row, id);
        var r := Insert(rows[..last], row);
        assert (r + [rows[last]])[..|r|] == r;
        if rows[last].message == id {
          assert RowsOf(rows, id)[..|RowsOf(rows, id)| - 1] == RowsOf(rows[..last], id);
        } else if row.message == id {
          assert RowsOf(rows, id) == RowsOf(rows[..last], id);
        }
      }
    }
  }

  lemma {:induction false} RowsOfOrdered(rows: seq<AttachmentRow>, id: nat)
    ensures RowsOf(Ordered(rows), id) == Ordered(RowsOf(rows, id))
  {
    if rows != [] {
      var last := |rows| - 1;
      RowsOfOrdered(rows[..last], id);
      OrderedInOrder(rows[..last]);
      RowsOfInsert(Ordered(rows[..last]), rows[last], id);
      if rows[last].message == id {
        assert RowsOf(rows, id)[..|RowsOf(rows, id)| - 1] == RowsOf(rows[..last], id);
      }
    }
  }

  /** `where message_id = any(ids)` */
  function Chosen(table: seq<AttachmentRow>, ids: seq<nat>): seq<AttachmentRow> {
    if table == [] then []
    else
      var last := |table| - 1;
      if table[last].message in ids then Chosen(table[..last], ids) + [table[last]] else Chosen(table[..last], ids)
  }

  lemma {:induction false} RowsOfChosen(table: seq<AttachmentRow>, ids: seq<nat>, id: nat)
    requires id in ids
    ensures RowsOf(Chosen(table, ids), id) == RowsOf(table, id)
  {
    if table != [] {
      var last := |table| - 1;
      RowsOfChosen(table[..last], ids, id);
      if table[last].message in ids {
        var front := Chosen(table[..last], ids);
        assert (front + [table[last]])[..|front|] == front;
      }
    }
  }

  function FilesIn(rows: seq<AttachmentRow>): (files: seq<Attachment>)
    ensures |files| == |rows|
  {
    seq(|rows|, k requires 0 <= k < |rows| => rows[k].file)
  }

  /** What a query for one message alone, ordered by position, gives. */
  function FilesOf(table: seq<AttachmentRow>, id: nat): seq<Attachment> {
    FilesIn(Ordered(RowsOf(table, id)))
  }

  function Found(byMessage: map<nat, seq<Attachment>>, id: nat): seq<Attachment> {
    if id in byMessage then byMessage[id] else []
  }

  /** One query for a whole batch, grouped by message: every message gets what it would have got from a
      query of its own, nothing lost and nothing of another's. */
  method AttachmentsFor(table: seq<AttachmentRow>, ids: seq<nat>) returns (byMessage: map<nat, seq<Attachment>>)
    ensures forall id | id in ids :: Found(byMessage, id) == FilesOf(table, id)
  {
    byMessage := map[];
    if ids == [] {
      return;
    }
    var rows := Ordered(Chosen(table, ids));
    for k := 0 to |rows|
      invariant forall id | id in ids :: Found(byMessage, id) == FilesIn(RowsOf(rows[..k], id))
    {
      var row := rows[k];
      assert rows[..k + 1][..k] == rows[..k];
      byMessage := byMessage[row.message := Found(byMessage, row.message) + [row.file]];
    }
    assert rows[..|rows|] == rows;
    forall id | id in ids
      ensures Found(byMessage, id) == FilesOf(table, id)
    {
      RowsOfOrdered(Chosen(table, ids), id);
      RowsOfChosen(table, ids, id);
    }
  }

  lemma {:induction false} OrderedAlready(rows: seq<AttachmentRow>)
    requires InOrder(rows)
    ensures Ordered(rows) == rows
  {
    if rows != [] {
      var last := |rows| - 1;
      OrderedAlready(rows[..last]);
      assert rows == rows[..last] + [rows[last]];
    }
  }

  lemma NoRowsNoFiles(table: seq<AttachmentRow>, id: nat)
    ensures RowsOf(table, id) == [] ==> FilesOf(table, id) == []
  {
  }

  /** A purge takes bodies and files of exactly the messages that finished more than its days ago and
      were not purged before; every other message keeps its row and its files. */
  lemma PurgeIsExact(db: Tables, now: Time, days: int, i: nat)
    requires i < |db.messages|
    ensures var db', m := Queue.Purge(db, now, days), db.messages[i];
            && |db'.messages| == |db.messages|
            && if m.completedAt.Some? && m.completedAt.value < now - days * 86_400_000_000 && m.bodyPurgedAt.None?
               then && db'.messages[i] == m.(content := m.content.(bodyText := None, bodyHtml := None),
                                             bodyPurgedAt := Some(now))
                    && FilesOf(db'.attachments, i) == []
               else db'.messages[i] == m && FilesOf(db'.attachments, i) == FilesOf(db.attachments, i)
  {
    RemainingIsExact(db.attachments, Queue.PurgeIds(db.messages, now, days), 0, i);
    NoRowsNoFiles(Queue.Purge(db, now, days).attachments, i);
  }

  /** Files stored as submitted come back as submitted: the same files in the same order. */
  lemma StoredComesBack(table: seq<AttachmentRow>, id: nat, files: seq<Attachment>)
    requires StoredAs(table, id, files)
    ensures FilesOf(table, id) == files
  {
    OrderedAlready(Queue.AttachmentRows(id, files));
  }
}
