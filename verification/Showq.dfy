/** Postfix's showq answer: NUL-framed records of name and value, and what the reporter makes of them. */
module Showq {
  import opened Wrappers
  import opened Schema
  import opened Text

  /** How bytes are read as text. Any function may stand here: the real one also repairs malformed
      UTF-8. */
  type Decoder = seq<Byte> -> string

  /** One `name\0value\0` pair. */
  datatype Field = Field(name: seq<Byte>, value: seq<Byte>)

  // ---------------------------------------------------------- one record

  predicate Named(decode: Decoder, f: Field, name: string) {
    decode(f.name) == name
  }

  function ValueOf(decode: Decoder, f: Field): string {
    Trim(decode(f.value))
  }

  /** The value of the last field of that name. */
  function LastOf(decode: Decoder, fields: seq<Field>, name: string): Option<string> {
    if fields == [] then None
    else
      var f := fields[|fields| - 1];
      if Named(decode, f, name) then Some(ValueOf(decode, f)) else LastOf(decode, fields[..|fields| - 1], name)
  }

  /** The value of the first field of that name. */
  function FirstOf(decode: Decoder, fields: seq<Field>, name: string): Option<string> {
    if fields == [] then None
    else
      var first := FirstOf(decode, fields[..|fields| - 1], name);
      var f := fields[|fields| - 1];
      if first.None? && Named(decode, f, name) then Some(ValueOf(decode, f)) else first
  }

  function NonEmpty(text: Option<string>): Option<string> {
    if text == Some("") then None else text
  }

  /** A record that names both a queue id and a queue is an entry; any other is skipped. */
  function EntryOf(decode: Decoder, fields: seq<Field>): Option<QueueEntry> {
    var id, queue := LastOf(decode, fields, "queue_id"), LastOf(decode, fields, "queue_name");
    if id.Some? && queue.Some?
    then Some(QueueEntry(id.value, queue.value, NonEmpty(FirstOf(decode, fields, "reason"))))
    else None
  }

  function EntriesOf(decode: Decoder, records: seq<seq<Field>>): seq<QueueEntry> {
    if records == [] then [] else AsList(EntryOf(decode, records[0])) + EntriesOf(decode, records[1..])
  }

  // ------------------------------------------------------------- framing

  /** The pieces between NULs. */
  function Pieces(bytes: seq<Byte>): (r: seq<seq<Byte>>)
    ensures r != []
  {
    if bytes == [] then [[]]
    else
      var more := Pieces(bytes[1..]);
      if bytes[0] == 0 then [[]] + more else [[bytes[0]] + more[0]] + more[1..]
  }

  /** The complete records among the pieces, the first of them continuing `held`: an empty name ends a
      record, and a record the pieces do not end is dropped. */
  function Cut(held: seq<Field>, pieces: seq<seq<Byte>>): seq<seq<Field>>
    decreases |pieces|
  {
    if pieces == [] then []
    else if pieces[0] == [] then [held] + Cut([], pieces[1..])
    else if |pieces| == 1 then []
    else Cut(held + [Field(pieces[0], pieces[1])], pieces[2..])
  }

  /** The queue one answer describes. */
  function QueueOf(decode: Decoder, bytes: seq<Byte>): seq<QueueEntry> {
    EntriesOf(decode, Cut([], Pieces(bytes)))
  }

  method Parse(decode: Decoder, bytes: seq<Byte>) returns (out: seq<QueueEntry>)
    ensures out == QueueOf(decode, bytes)
  {
    out := [];
    var fields := Pieces(bytes);
    var next := 0;
    var queueId, queueName, reason := None, None, None;
    ghost var held: seq<Field> := [];
    assert fields[0..] == fields;
    while next < |fields|
      invariant 0 <= next <= |fields|
      invariant Held(decode, held, queueId, queueName, reason)
      invariant out + EntriesOf(decode, Cut(held, fields[next..])) == QueueOf(decode, bytes)
    {
      hide *;
      var name := fields[next];
      if name == [] {
        BoundaryReads(decode, out, held, fields, next, queueId, queueName, reason);
        next := next + 1;
        if queueId.Some? && queueName.Some? {
          out := out + [QueueEntry(queueId.value, queueName.value, NonEmpty(reason))];
        }
        queueId, queueName, reason, held := None, None, None, [];
      } else if next + 1 == |fields| {
        LoneNameReads(decode, held, fields, next);
        next := next + 1;
        break;
      } else {
        var field := Field(name, fields[next + 1]);
        FieldReads(held, fields, next);
        HoldsMore(decode, held, field, queueId, queueName, reason);
        next := next + 2;
        held := held + [field];
        var value := ValueOf(decode, field);
        match decode(name) {
          case "queue_id" => queueId := Some(value);
          case "queue_name" => queueName := Some(value);
          case "reason" => if reason.None? { reason := Some(value); }
          case _ =>
        }
      }
    }
  }

  /** What the parser has of an unfinished record. */
  ghost predicate Held(
    decode: Decoder, fields: seq<Field>, id: Option<string>, queue: Option<string>, reason: Option<string>)
  {
    && id == LastOf(decode, fields, "queue_id")
    && queue == LastOf(decode, fields, "queue_name")
    && reason == FirstOf(decode, fields, "reason")
  }

  lemma HoldsMore(
    decode: Decoder, held: seq<Field>, field: Field, id: Option<string>, queue: Option<string>, reason: Option<string>)
    requires Held(decode, held, id, queue, reason)
    ensures var name, value := decode(field.name), Some(ValueOf(decode, field));
            Held(decode, held + [field], if name == "queue_id" then value else id,
                 if name == "queue_name" then value else queue,
                 if name == "reason" && reason.None? then value else reason)
  {
  }

  lemma BoundaryReads(
    decode: Decoder, out: seq<QueueEntry>, held: seq<Field>, pieces: seq<seq<Byte>>, i: nat,
    id: Option<string>, queue: Option<string>, reason: Option<string>)
    requires i < |pieces| && pieces[i] == [] && Held(decode, held, id, queue, reason)
    ensures Held(decode, [], None, None, None)
    ensures var all := out + EntriesOf(decode, Cut(held, pieces[i..]));
            var rest := EntriesOf(decode, Cut([], pieces[i + 1..]));
            all == if id.Some? && queue.Some?
                   then out + [QueueEntry(id.value, queue.value, NonEmpty(reason))] + rest
                   else out + rest
  {
  }

  lemma FieldReads(held: seq<Field>, pieces: seq<seq<Byte>>, i: nat)
    requires i + 1 < |pieces| && pieces[i] != []
    ensures Cut(held, pieces[i..]) == Cut(held + [Field(pieces[i], pieces[i + 1])], pieces[i + 2..])
  {
  }

  lemma LoneNameReads(decode: Decoder, held: seq<Field>, pieces: seq<seq<Byte>>, i: nat)
    requires i + 1 == |pieces| && pieces[i] != []
    ensures EntriesOf(decode, Cut(held, pieces[i..])) == []
    ensures EntriesOf(decode, Cut(held, pieces[i + 1..])) == []
  {
  }

  // ------------------------------------------------- writing and framing

  predicate Framed(f: Field) {
    f.name != [] && 0 !in f.name && 0 !in f.value
  }

  predicate AllFramed(fields: seq<Field>) {
    forall f | f in fields :: Framed(f)
  }

  function FieldBytes(f: Field): seq<Byte> {
    f.name + [0] + f.value + [0]
  }

  function RecordBytes(fields: seq<Field>): seq<Byte> {
    if fields == [] then [] else FieldBytes(fields[0]) + RecordBytes(fields[1..])
  }

  /** A whole answer as showq writes it. */
  function Stream(records: seq<seq<Field>>): seq<Byte> {
    if records == [] then [] else RecordBytes(records[0]) + [0] + Stream(records[1..])
  }

  lemma {:induction false} PiecesAt(head: seq<Byte>, tail: seq<Byte>)
    requires 0 !in head
    ensures Pieces(head + [0] + tail) == [head] + Pieces(tail)
  {
    var b := head + [0] + tail;
    if head == [] {
      assert b[1..] == tail;
    } else {
      PiecesAt(head[1..], tail);
      assert b[1..] == head[1..] + [0] + tail;
      assert [head[0]] + head[1..] == head;
    }
  }

  lemma {:induction false} PiecesWhole(bytes: seq<Byte>)
    requires 0 !in bytes
    ensures Pieces(bytes) == [bytes]
  {
    if bytes != [] {
      PiecesWhole(bytes[1..]);
      assert [bytes[0]] + bytes[1..] == bytes;
    }
  }

  lemma CutField(held: seq<Field>, f: Field, tail: seq<Byte>)
    requires Framed(f)
    ensures Cut(held, Pieces(FieldBytes(f) + tail)) == Cut(held + [f], Pieces(tail))
  {
    var rest := f.value + [0] + tail;
    assert FieldBytes(f) + tail == f.name + [0] + rest;
    PiecesAt(f.name, rest);
    PiecesAt(f.value, tail);
    assert Pieces(FieldBytes(f) + tail)[2..] == Pieces(tail);
  }

  lemma {:induction false} CutFields(held: seq<Field>, fields: seq<Field>, tail: seq<Byte>)
    requires AllFramed(fields)
    ensures Cut(held, Pieces(RecordBytes(fields) + tail)) == Cut(held + fields, Pieces(tail))
    decreases |fields|
  {
    hide Pieces, Cut, Framed;
    if fields == [] {
      assert RecordBytes(fields) + tail == tail && held + fields == held;
    } else {
      var f, more := fields[0], RecordBytes(fields[1..]) + tail;
      assert RecordBytes(fields) + tail == FieldBytes(f) + more;
      CutField(held, f, more);
      CutFields(held + [f], fields[1..], tail);
      assert held + [f] + fields[1..] == held + fields;
    }
  }

  lemma CutBoundary(held: seq<Field>, tail: seq<Byte>)
    ensures Cut(held, Pieces([0] + tail)) == [held] + Cut([], Pieces(tail))
  {
  }

  /** A stream and what follows it are cut into exactly its records and then what follows. */
  lemma {:induction false} CutStream(records: seq<seq<Field>>, tail: seq<Byte>)
    requires forall r | r in records :: AllFramed(r)
    ensures Cut([], Pieces(Stream(records) + tail)) == records + Cut([], Pieces(tail))
  {
    hide Pieces, Cut, AllFramed;
    if records == [] {
      assert Stream(records) + tail == tail;
    } else {
      var more := Stream(records[1..]) + tail;
      assert Stream(records) + tail == RecordBytes(records[0]) + ([0] + more);
      CutFields([], records[0], [0] + more);
      assert [] + records[0] == records[0];
      CutBoundary(records[0], more);
      CutStream(records[1..], tail);
      Associate([records[0]], records[1..], Cut([], Pieces(tail)));
      assert [records[0]] + records[1..] == records;
    }
  }

  lemma Associate<T>(a: seq<T>, b: seq<T>, c: seq<T>)
    ensures a + (b + c) == (a + b) + c
  {
  }

  lemma {:induction false} EntriesOfAppend(decode: Decoder, a: seq<seq<Field>>, b: seq<seq<Field>>)
    ensures EntriesOf(decode, a + b) == EntriesOf(decode, a) + EntriesOf(decode, b)
  {
    hide EntryOf;
    if a == [] {
      assert a + b == b;
    } else {
      EntriesOfAppend(decode, a[1..], b);
      assert (a + b)[1..] == a[1..] + b;
      Associate(AsList(EntryOf(decode, a[0])), EntriesOf(decode, a[1..]), EntriesOf(decode, b));
    }
  }

  // ------------------------------------------- a complete answer is read

  /** The record says exactly this entry: one queue id, one queue, and of its reasons, if it has any,
      the first. Its other fields and their order do not matter. */
  ghost predicate Describes(decode: Decoder, fields: seq<Field>, entry: QueueEntry) {
    && Sole(decode, fields, "queue_id", entry.queueId)
    && Sole(decode, fields, "queue_name", entry.queueName)
    && ReasonIs(decode, fields, entry.reason)
  }

  ghost predicate Sole(decode: Decoder, fields: seq<Field>, name: string, value: string) {
    exists i | 0 <= i < |fields| ::
      && decode(fields[i].name) == name && Trim(decode(fields[i].value)) == value
      && forall j | 0 <= j < |fields| :: decode(fields[j].name) == name ==> j == i
  }

  predicate FirstAt(decode: Decoder, fields: seq<Field>, name: string, i: nat) {
    && i < |fields| && decode(fields[i].name) == name
    && forall j | 0 <= j < i :: decode(fields[j].name) != name
  }

  ghost predicate ReasonIs(decode: Decoder, fields: seq<Field>, reason: Option<string>) {
    if exists i: nat :: FirstAt(decode, fields, "reason", i)
    then exists i: nat :: FirstAt(decode, fields, "reason", i) && reason == Unless(Trim(decode(fields[i].value)))
    else reason == None
  }

  /** A text, unless it is empty. */
  function Unless(text: string): Option<string> {
    if text == "" then None else Some(text)
  }

  lemma {:induction false} LastOfSole(decode: Decoder, fields: seq<Field>, name: string, i: nat)
    requires i < |fields| && Named(decode, fields[i], name)
    requires forall j | i < j < |fields| :: !Named(decode, fields[j], name)
    ensures LastOf(decode, fields, name) == Some(ValueOf(decode, fields[i]))
  {
    if i < |fields| - 1 {
      LastOfSole(decode, fields[..|fields| - 1], name, i);
    }
  }

  lemma {:induction false} LastOfFound(decode: Decoder, fields: seq<Field>, name: string) returns (i: nat)
    requires LastOf(decode, fields, name).Some?
    ensures i < |fields| && Named(decode, fields[i], name)
    ensures LastOf(decode, fields, name) == Some(ValueOf(decode, fields[i]))
  {
    i := |fields| - 1;
    if !Named(decode, fields[i], name) {
      i := LastOfFound(decode, fields[..i], name);
    }
  }

  lemma {:induction false} FirstOfFirst(decode: Decoder, fields: seq<Field>, name: string, i: nat)
    requires FirstAt(decode, fields, name, i)
    ensures FirstOf(decode, fields, name) == Some(ValueOf(decode, fields[i]))
  {
    var last := |fields| - 1;
    if i < last {
      FirstOfFirst(decode, fields[..last], name, i);
    } else {
      FirstOfMisses(decode, fields[..last], name);
    }
  }

  lemma {:induction false} FirstOfMisses(decode: Decoder, fields: seq<Field>, name: string)
    requires forall j | 0 <= j < |fields| :: !Named(decode, fields[j], name)
    ensures FirstOf(decode, fields, name) == None
  {
    if fields != [] {
      FirstOfMisses(decode, fields[..|fields| - 1], name);
    }
  }

  lemma {:induction false} ReasonIsFirst(decode: Decoder, fields: seq<Field>, reason: Option<string>)
    requires ReasonIs(decode, fields, reason)
    ensures reason == NonEmpty(FirstOf(decode, fields, "reason"))
  {
    if i: nat :| FirstAt(decode, fields, "reason", i) && reason == Unless(Trim(decode(fields[i].value))) {
      FirstOfFirst(decode, fields, "reason", i);
    } else {
      NothingFirst(decode, fields, "reason", |fields|);
      FirstOfMisses(decode, fields, "reason");
    }
  }

  /** If nothing is the first of that name, nothing has the name. */
  lemma {:induction false} NothingFirst(decode: Decoder, fields: seq<Field>, name: string, n: nat)
    requires n <= |fields| && forall i: nat :: !FirstAt(decode, fields, name, i)
    ensures forall j | 0 <= j < n :: !Named(decode, fields[j], name)
  {
    if n > 0 {
      NothingFirst(decode, fields, name, n - 1);
      assert !FirstAt(decode, fields, name, n - 1);
    }
  }

  lemma DescribesReads(decode: Decoder, fields: seq<Field>, entry: QueueEntry)
    requires Describes(decode, fields, entry)
    ensures EntryOf(decode, fields) == Some(entry)
  {
    hide LastOf, FirstOf, ReasonIs, Trim;
    var i :| 0 <= i < |fields|
             && decode(fields[i].name) == "queue_id" && Trim(decode(fields[i].value)) == entry.queueId
             && forall j | 0 <= j < |fields| :: decode(fields[j].name) == "queue_id" ==> j == i;
    LastOfSole(decode, fields, "queue_id", i);
    var k :| 0 <= k < |fields|
             && decode(fields[k].name) == "queue_name" && Trim(decode(fields[k].value)) == entry.queueName
             && forall j | 0 <= j < |fields| :: decode(fields[j].name) == "queue_name" ==> j == k;
    LastOfSole(decode, fields, "queue_name", k);
    ReasonIsFirst(decode, fields, entry.reason);
  }

  /** A record whose field `i` alone is called `queue_id` and whose field `k` alone is called `queue_name`
      is read as the entry of their values, trimmed, and of the first value called `reason`, if there is
      one and it is not empty. */
  lemma DescribedIsRead(decode: Decoder, fields: seq<Field>, i: nat, k: nat, reason: Option<nat>)
    requires i < |fields| && forall j | 0 <= j < |fields| :: decode(fields[j].name) == "queue_id" <==> j == i
    requires k < |fields| && forall j | 0 <= j < |fields| :: decode(fields[j].name) == "queue_name" <==> j == k
    requires reason.None? ==> forall j | 0 <= j < |fields| :: decode(fields[j].name) != "reason"
    requires reason.Some? ==>
               && reason.value < |fields| && decode(fields[reason.value].name) == "reason"
               && forall j | 0 <= j < reason.value :: decode(fields[j].name) != "reason"
    ensures EntryOf(decode, fields) ==
              Some(QueueEntry(
                Trim(decode(fields[i].value)), Trim(decode(fields[k].value)),
                if reason.Some? && Trim(decode(fields[reason.value].value)) != ""
                then Some(Trim(decode(fields[reason.value].value))) else None))
  {
    hide LastOf, FirstOf, Trim;
    LastOfSole(decode, fields, "queue_id", i);
    LastOfSole(decode, fields, "queue_name", k);
    if reason.Some? {
      FirstOfFirst(decode, fields, "reason", reason.value);
    } else {
      FirstOfMisses(decode, fields, "reason");
    }
  }

  lemma {:induction false} DescribedAreRead(decode: Decoder, records: seq<seq<Field>>, queue: seq<QueueEntry>)
    requires |records| == |queue|
    requires forall i | 0 <= i < |queue| :: Describes(decode, records[i], queue[i])
    ensures EntriesOf(decode, records) == queue
  {
    hide Describes, EntryOf;
    if queue != [] {
      DescribesReads(decode, records[0], queue[0]);
      DescribedAreRead(decode, records[1..], queue[1..]);
      assert [queue[0]] + queue[1..] == queue;
    }
  }

  lemma StreamIsRead(decode: Decoder, records: seq<seq<Field>>)
    requires forall r | r in records :: AllFramed(r)
    ensures QueueOf(decode, Stream(records)) == EntriesOf(decode, records)
  {
    hide AllFramed, EntryOf, Stream;
    CutStream(records, []);
    assert Stream(records) + [] == Stream(records);
    assert Pieces([])[1..] == [];
    assert Cut([], Pieces([])) == [[]];
    EntriesOfAppend(decode, records, [[]]);
    NothingNamed(decode);
  }

  lemma NothingNamed(decode: Decoder)
    ensures EntriesOf(decode, [[]]) == []
  {
  }

  /** A complete answer, a protocol record and then one record for each queued message, is read as
      exactly those messages. */
  lemma AnswerIsRead(decode: Decoder, protocol: seq<Field>, records: seq<seq<Field>>, queue: seq<QueueEntry>)
    requires AllFramed(protocol) && forall r | r in records :: AllFramed(r)
    requires forall i | 0 <= i < |protocol| :: !Named(decode, protocol[i], "queue_id")
    requires |records| == |queue| && forall i | 0 <= i < |queue| :: Describes(decode, records[i], queue[i])
    ensures QueueOf(decode, Stream([protocol] + records)) == queue
  {
    hide AllFramed, Describes, Stream, Named;
    StreamIsRead(decode, [protocol] + records);
    if LastOf(decode, protocol, "queue_id").Some? {
      var i := LastOfFound(decode, protocol, "queue_id");
    }
    assert EntryOf(decode, protocol) == None;
    DescribedAreRead(decode, records, queue);
    assert ([protocol] + records)[1..] == records;
  }

  // ------------------------------------------------- from entries to bytes

  type Encoder = string -> seq<Byte>

  const NUL: char := 0 as char

  /** The decoder gives back what was encoded, and text without NULs is encoded without NULs. */
  ghost predicate Undoes(decode: Decoder, encode: Encoder) {
    forall t: string :: decode(encode(t)) == t && (t != "" ==> encode(t) != []) && (NUL !in t ==> 0 !in encode(t))
  }

  /** Fields that may stand around the ones that matter: before the queue name, before the id, before the
      reason and at the end. */
  datatype Around = Around(first: seq<Field>, second: seq<Field>, third: seq<Field>, last: seq<Field>)

  predicate Silent(decode: Decoder, fields: seq<Field>, names: set<string>) {
    forall j | 0 <= j < |fields| :: decode(fields[j].name) !in names
  }

  /** None of the three names stands anywhere else, but that more reasons may follow the first. */
  predicate Beside(decode: Decoder, o: Around, e: QueueEntry) {
    && AllFramed(o.first) && AllFramed(o.second) && AllFramed(o.third) && AllFramed(o.last)
    && Silent(decode, o.first, {"queue_name", "queue_id", "reason"})
    && Silent(decode, o.second, {"queue_name", "queue_id", "reason"})
    && Silent(decode, o.third, {"queue_name", "queue_id", "reason"})
    && Silent(decode, o.last, {"queue_name", "queue_id"})
    && (e.reason.None? ==> Silent(decode, o.last, {"reason"}))
  }

  /** An entry's texts are trimmed and without NULs, and a reason is not empty. */
  predicate Writable(e: QueueEntry) {
    && Trim(e.queueId) == e.queueId && Trim(e.queueName) == e.queueName && NUL !in e.queueId && NUL !in e.queueName
    && (e.reason.Some? ==> Trim(e.reason.value) == e.reason.value && e.reason.value != "" && NUL !in e.reason.value)
  }

  function ReasonField(encode: Encoder, e: QueueEntry): seq<Field> {
    if e.reason.Some? then [Field(encode("reason"), encode(e.reason.value))] else []
  }

  function RecordOf(encode: Encoder, e: QueueEntry, o: Around): seq<Field> {
    o.first + [Field(encode("queue_name"), encode(e.queueName))]
    + (o.second + [Field(encode("queue_id"), encode(e.queueId))])
    + (o.third + ReasonField(encode, e) + o.last)
  }

  lemma RecordIsRead(decode: Decoder, encode: Encoder, e: QueueEntry, o: Around)
    requires Undoes(decode, encode) && Writable(e) && Beside(decode, o, e)
    ensures EntryOf(decode, RecordOf(encode, e, o)) == Some(e)
  {
    var fields := RecordOf(encode, e, o);
    var k := |o.first|;
    var i := k + 1 + |o.second|;
    var n := i + 1 + |o.third|;
    assert fields[k] == Field(encode("queue_name"), encode(e.queueName));
    assert fields[i] == Field(encode("queue_id"), encode(e.queueId));
    assert e.reason.Some? ==> fields[n] == Field(encode("reason"), encode(e.reason.value));
    NamesApart();
    hide Trim, EntryOf;
    DescribedIsRead(decode, fields, i, k, if e.reason.Some? then Some(n) else None);
  }

  lemma NamesApart()
    ensures "queue_name" != "queue_id" && "queue_name" != "reason" && "queue_id" != "reason"
  {
    assert |"queue_name"| == 10 && |"queue_id"| == 8 && |"reason"| == 6;
  }

  lemma RecordIsFramed(decode: Decoder, encode: Encoder, e: QueueEntry, o: Around)
    requires Undoes(decode, encode) && Writable(e) && Beside(decode, o, e)
    ensures AllFramed(RecordOf(encode, e, o))
  {
    assert NUL !in "queue_name" && NUL !in "queue_id" && NUL !in "reason";
    assert Framed(Field(encode("queue_name"), encode(e.queueName)));
    assert Framed(Field(encode("queue_id"), encode(e.queueId)));
    assert AllFramed(ReasonField(encode, e));
  }

  function Records(encode: Encoder, queue: seq<QueueEntry>, around: seq<Around>): (r: seq<seq<Field>>)
    requires |around| == |queue|
    ensures |r| == |queue| && forall i | 0 <= i < |queue| :: r[i] == RecordOf(encode, queue[i], around[i])
  {
    seq(|queue|, i requires 0 <= i < |queue| => RecordOf(encode, queue[i], around[i]))
  }

  lemma {:induction false} RecordsAreRead(decode: Decoder, records: seq<seq<Field>>, queue: seq<QueueEntry>)
    requires |records| == |queue| && forall i | 0 <= i < |queue| :: EntryOf(decode, records[i]) == Some(queue[i])
    ensures EntriesOf(decode, records) == queue
  {
    hide EntryOf;
    if queue != [] {
      RecordsAreRead(decode, records[1..], queue[1..]);
      assert [queue[0]] + queue[1..] == queue;
    }
  }

  /** A whole answer, written from a queue: a protocol record, and for each message its queue name, its id
      and its reason, if it has one, as field values with any other fields around them. Reading it gives
      that queue back, entry by entry. */
  lemma WrittenIsRead(
    decode: Decoder, encode: Encoder, protocol: seq<Field>, queue: seq<QueueEntry>, around: seq<Around>)
    requires Undoes(decode, encode) && AllFramed(protocol) && |around| == |queue|
    requires forall j | 0 <= j < |protocol| :: decode(protocol[j].name) != "queue_id"
    requires forall i | 0 <= i < |queue| :: Writable(queue[i]) && Beside(decode, around[i], queue[i])
    ensures QueueOf(decode, Stream([protocol] + Records(encode, queue, around))) == queue
  {
    var records := Records(encode, queue, around);
    hide EntryOf, Stream, AllFramed, Beside, Writable, Undoes, RecordOf;
    forall i | 0 <= i < |queue| ensures EntryOf(decode, records[i]) == Some(queue[i]) && AllFramed(records[i]) {
      RecordIsRead(decode, encode, queue[i], around[i]);
      RecordIsFramed(decode, encode, queue[i], around[i]);
    }
    StreamIsRead(decode, [protocol] + records);
    ProtocolIsSkipped(decode, protocol);
    RecordsAreRead(decode, records, queue);
    assert ([protocol] + records)[1..] == records;
  }

  lemma ProtocolIsSkipped(decode: Decoder, protocol: seq<Field>)
    requires forall j | 0 <= j < |protocol| :: decode(protocol[j].name) != "queue_id"
    ensures EntryOf(decode, protocol) == None
  {
    hide LastOf;
    if LastOf(decode, protocol, "queue_id").Some? {
      var i := LastOfFound(decode, protocol, "queue_id");
    }
  }

  // ------------------------------------------------------ a cut-off answer

  /** A cut inside one record leaves nothing of it, or, at the end of a field, its fields so far. */
  lemma {:induction false} CutWithin(held: seq<Field>, fields: seq<Field>, n: nat)
    requires AllFramed(fields) && n <= |RecordBytes(fields)|
    ensures var c := Cut(held, Pieces(RecordBytes(fields)[..n]));
            c == [] || exists j | 0 <= j <= |fields| :: c == [held + fields[..j]]
    decreases |fields|
  {
    hide Pieces, Cut;
    if n == 0 {
      CutNothing(held);
      assert RecordBytes(fields)[..n] == [];
      assert held == held + fields[..0];
    } else {
      var f := fields[0];
      var size := |FieldBytes(f)|;
      if n < size {
        assert RecordBytes(fields)[..n] == FieldBytes(f)[..n];
        CutField1(held, f, n);
      } else {
        CutWithin(held + [f], fields[1..], n - size);
        var more := RecordBytes(fields[1..])[..n - size];
        assert RecordBytes(fields)[..n] == FieldBytes(f) + more;
        CutField(held, f, more);
        var c := Cut(held, Pieces(RecordBytes(fields)[..n]));
        if c != [] {
          var j :| 0 <= j <= |fields[1..]| && c == [held + [f] + fields[1..][..j]];
          assert held + [f] + fields[1..][..j] == held + fields[..j + 1];
        }
      }
    }
  }

  lemma CutNothing(held: seq<Field>)
    ensures Cut(held, Pieces([])) == [held]
  {
  }

  lemma CutField1(held: seq<Field>, f: Field, n: nat)
    requires Framed(f) && 0 < n < |FieldBytes(f)|
    ensures Cut(held, Pieces(FieldBytes(f)[..n])) == []
  {
    var b := FieldBytes(f)[..n];
    if n <= |f.name| {
      assert b == f.name[..n];
      PiecesWhole(b);
    } else {
      var part := f.value[..n - |f.name| - 1];
      assert b == f.name + [0] + part;
      PiecesAt(f.name, part);
      PiecesWhole(part);
      assert Pieces(b)[2..] == [];
    }
  }

  /** The records in `c` are the first ones of the stream, with the last of them perhaps cut short. */
  ghost predicate CutShort(c: seq<seq<Field>>, records: seq<seq<Field>>) {
    || c <= records
    || (c != [] && var k := |c| - 1; c[..k] <= records && c[k] <= if k < |records| then records[k] else [])
  }

  lemma {:induction false} CutAnywhere(records: seq<seq<Field>>, n: nat)
    requires (forall r | r in records :: AllFramed(r)) && n <= |Stream(records)|
    ensures CutShort(Cut([], Pieces(Stream(records)[..n])), records)
  {
    hide Pieces, Cut, AllFramed;
    var b := Stream(records)[..n];
    var c := Cut([], Pieces(b));
    if records == [] {
      CutNothing([]);
      assert b == [];
    } else {
      var first := RecordBytes(records[0]);
      if n <= |first| {
        assert b == first[..n];
        CutWithin([], records[0], n);
        if c != [] {
          var j :| 0 <= j <= |records[0]| && c == [[] + records[0][..j]];
          assert c[..0] <= records;
        }
      } else {
        var more := Stream(records[1..])[..n - |first| - 1];
        assert b == first + ([0] + more);
        CutFields([], records[0], [0] + more);
        assert [] + records[0] == records[0];
        CutBoundary(records[0], more);
        CutAnywhere(records[1..], n - |first| - 1);
        var d := Cut([], Pieces(more));
        assert c == [records[0]] + d;
        ShortAfter(records, d);
      }
    }
  }

  lemma ShortAfter(records: seq<seq<Field>>, d: seq<seq<Field>>)
    requires records != [] && CutShort(d, records[1..])
    ensures CutShort([records[0]] + d, records)
  {
  }

  /** showq names a message's queue id once. */
  predicate OneId(decode: Decoder, fields: seq<Field>) {
    forall i, j | 0 <= i < |fields| && 0 <= j < |fields| ::
      Named(decode, fields[i], "queue_id") && Named(decode, fields[j], "queue_id") ==> i == j
  }

  lemma PrefixSameId(decode: Decoder, part: seq<Field>, whole: seq<Field>)
    requires part <= whole && OneId(decode, whole) && EntryOf(decode, part).Some?
    ensures EntryOf(decode, whole).Some?
    ensures EntryOf(decode, whole).value.queueId == EntryOf(decode, part).value.queueId
  {
    hide FirstOf, Named;
    var i := LastOfFound(decode, part, "queue_id");
    assert part[i] == whole[i];
    LastOfSole(decode, whole, "queue_id", i);
    var k := LastOfFound(decode, part, "queue_name");
    assert part[k] == whole[k];
    StillNamed(decode, whole, "queue_name", k);
  }

  lemma {:induction false} StillNamed(decode: Decoder, fields: seq<Field>, name: string, i: nat)
    requires i < |fields| && Named(decode, fields[i], name)
    ensures LastOf(decode, fields, name).Some?
  {
    if i < |fields| - 1 {
      StillNamed(decode, fields[..|fields| - 1], name, i);
    }
  }

  /** The entries in `some` are the first ones of `all`; only the last may differ, and not in its id. */
  predicate FirstsOf(some: seq<QueueEntry>, all: seq<QueueEntry>) {
    && |some| <= |all|
    && (forall i | 0 <= i < |some| :: some[i].queueId == all[i].queueId)
    && forall i | 0 <= i < |some| - 1 :: some[i] == all[i]
  }

  lemma WholeReads(decode: Decoder, c: seq<seq<Field>>, records: seq<seq<Field>>)
    requires c <= records
    ensures EntriesOf(decode, c) <= EntriesOf(decode, records)
  {
  }

  /** The unfinished record gives no entry, or one with the id of the record it begins. */
  lemma UnfinishedReads(decode: Decoder, part: seq<Field>, records: seq<seq<Field>>, k: nat)
    requires k <= |records| && forall r | r in records :: OneId(decode, r)
    requires part <= if k < |records| then records[k] else []
    ensures FirstsOf(EntriesOf(decode, [part]), EntriesOf(decode, records[k..]))
  {
    hide EntryOf, OneId;
    OnlyOne(decode, part);
    if EntryOf(decode, part).Some? {
      NothingNamed(decode);
      OnlyOne(decode, []);
      assert k < |records|;
      assert records[k] in records;
      PrefixSameId(decode, part, records[k]);
    }
  }

  lemma FirstsAfter(all: seq<QueueEntry>, some: seq<QueueEntry>, rest: seq<QueueEntry>)
    requires FirstsOf(some, rest)
    ensures FirstsOf(all + some, all + rest)
  {
  }

  lemma ShortReads(decode: Decoder, c: seq<seq<Field>>, records: seq<seq<Field>>)
    requires CutShort(c, records) && forall r | r in records :: OneId(decode, r)
    ensures FirstsOf(EntriesOf(decode, c), EntriesOf(decode, records))
  {
    if c <= records {
      hide OneId, EntriesOf;
      WholeReads(decode, c, records);
    } else {
      var k := |c| - 1;
      hide OneId, EntriesOf, FirstsOf;
      assert c == c[..k] + [c[k]] && records == c[..k] + records[k..];
      EntriesOfAppend(decode, c[..k], [c[k]]);
      EntriesOfAppend(decode, c[..k], records[k..]);
      UnfinishedReads(decode, c[k], records, k);
      FirstsAfter(EntriesOf(decode, c[..k]), EntriesOf(decode, [c[k]]), EntriesOf(decode, records[k..]));
    }
  }

  lemma OnlyOne(decode: Decoder, fields: seq<Field>)
    ensures EntriesOf(decode, [fields]) == AsList(EntryOf(decode, fields))
  {
  }

  /** An answer cut off anywhere is read as the first entries of the whole answer: some are lost, but no
      queue id is made up or changed. */
  lemma TruncationLosesOnly(decode: Decoder, records: seq<seq<Field>>, n: nat)
    requires forall r | r in records :: AllFramed(r) && OneId(decode, r)
    requires n <= |Stream(records)|
    ensures var part, whole := QueueOf(decode, Stream(records)[..n]), QueueOf(decode, Stream(records));
            && |part| <= |whole|
            && (forall i | 0 <= i < |part| :: part[i].queueId == whole[i].queueId)
            && forall i | 0 <= i < |part| - 1 :: part[i] == whole[i]
  {
    hide AllFramed, OneId, Stream, CutShort, EntriesOf;
    StreamIsRead(decode, records);
    CutAnywhere(records, n);
    ShortReads(decode, Cut([], Pieces(Stream(records)[..n])), records);
  }
}
