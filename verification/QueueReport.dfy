/** The relay's queue on its way to the ingest endpoint: printed one JSON object to a line, and read
    back line by line. */
module QueueReport {
  import opened Wrappers
  import opened Schema
  import opened Text
  import opened Json
  import Showq

  // ---------------------------------------------------------- the reporter

  /** One entry as JSON. The printer orders an object's keys alphabetically. */
  function LineValue(e: QueueEntry): Value {
    Obj([
      Member("queue_id", Str(e.queueId)),
      Member("queue_name", Str(e.queueName)),
      Member("recipients", Arr([Obj(ReasonMember(e.reason))]))])
  }

  function ReasonMember(reason: Option<string>): seq<Member> {
    if reason.Some? then [Member("delay_reason", Str(reason.value))] else []
  }

  lemma LineIsTextual(e: QueueEntry)
    ensures Textual(LineValue(e))
  {
    var recipient := Obj(ReasonMember(e.reason));
    assert Textual(recipient);
    assert Textual(Arr([recipient]));
  }

  function Ndjson(entries: seq<QueueEntry>): string {
    if entries == [] then "" else Print(LineValue(entries[0]), "") + "\n" + Ndjson(entries[1..])
  }

  lemma {:induction false} NdjsonAppend(entries: seq<QueueEntry>, e: QueueEntry)
    ensures Ndjson(entries + [e]) == Ndjson(entries) + Print(LineValue(e), "") + "\n"
  {
    hide Print, LineValue;
    if entries == [] {
      assert [e][1..] == [];
    } else {
      NdjsonAppend(entries[1..], e);
      assert (entries + [e])[1..] == entries[1..] + [e];
    }
  }

  method AsNdjson(entries: seq<QueueEntry>) returns (out: string)
    ensures out == Ndjson(entries)
  {
    hide Print, LineValue;
    out := "";
    for i := 0 to |entries|
      invariant out == Ndjson(entries[..i])
    {
      NdjsonAppend(entries[..i], entries[i]);
      assert entries[..i + 1] == entries[..i] + [entries[i]];
      out := out + Print(LineValue(entries[i]), "");
      out := out + "\n";
    }
    assert entries[..|entries|] == entries;
  }

  // ---------------------------------------------------------- the endpoint

  datatype RawEntry = RawEntry(queueId: string, queueName: string, recipients: seq<Option<string>>)

  function AsText(v: Value): Option<string> {
    if v.Str? then Some(v.text) else None
  }

  /** The values given for a field, in order. */
  function Given(members: seq<Member>, key: string): seq<Value> {
    if members == [] then []
    else (if members[0].key == key then [members[0].value] else []) + Given(members[1..], key)
  }

  /** The reason one recipient gives: the outer absence is an error, the inner one is no reason given. */
  function Reason(v: Value): Option<Option<string>> {
    match v
    case Null => Some(None)
    case Str(text) => Some(Some(text))
    case _ => None
  }

  /** A recipient is an object, whose other fields are ignored, or an array of its fields in order. */
  function Recipient(v: Value): Option<Option<string>> {
    var reasons :=
      match v
      case Obj(members) => Given(members, "delay_reason")
      case Arr(elements) => elements
      case _ => [v];
    if !v.Obj? && !v.Arr? then None
    else if |reasons| > 1 then None
    else if reasons == [] then Some(None)
    else Reason(reasons[0])
  }

  function RecipientList(vs: seq<Value>): Option<seq<Option<string>>> {
    if vs == [] then Some([])
    else
      var first, rest := Recipient(vs[0]), RecipientList(vs[1..]);
      if first.Some? && rest.Some? then Some([first.value] + rest.value) else None
  }

  /** At most one list of recipients may be given; none means an empty one. */
  function Recipients(given: seq<Value>): Option<seq<Option<string>>> {
    if given == [] then Some([])
    else if |given| == 1 && given[0].Arr? then RecipientList(given[0].elements)
    else None
  }

  function SoleText(given: seq<Value>): Option<string> {
    if |given| == 1 then AsText(given[0]) else None
  }

  /** An entry from a JSON value: fields may come in any order among others, none may be repeated, and
      an array may stand for the fields in order. */
  function Entry(v: Value): Option<RawEntry> {
    match v
    case Obj(members) =>
      RawFrom(Given(members, "queue_id"), Given(members, "queue_name"), Given(members, "recipients"))
    case Arr(elements) =>
      if 2 <= |elements| <= 3 then RawFrom(elements[..1], elements[1..2], elements[2..]) else None
    case _ => None
  }

  function RawFrom(ids: seq<Value>, names: seq<Value>, lists: seq<Value>): Option<RawEntry> {
    var id, name, recipients := SoleText(ids), SoleText(names), Recipients(lists);
    if id.Some? && name.Some? && recipients.Some?
    then Some(RawEntry(id.value, name.value, recipients.value))
    else None
  }

  function FirstReason(reasons: seq<Option<string>>): Option<string> {
    if reasons == [] then None
    else if reasons[0].Some? then reasons[0]
    else FirstReason(reasons[1..])
  }

  /** A reason is trimmed, and one that is then empty is none. */
  function Tidy(reason: Option<string>): Option<string> {
    if reason.Some? && Trim(reason.value) != "" then Some(Trim(reason.value)) else None
  }

  /** What one line reports; a blank or unreadable line reports nothing. */
  function FromLine(line: string): Option<QueueEntry> {
    if Trim(line) == "" then None
    else
      var v := Json.Parse(line);
      var raw := if v.Some? then Entry(v.value) else None;
      if raw.None? then None
      else Some(QueueEntry(raw.value.queueId, raw.value.queueName, Tidy(FirstReason(raw.value.recipients))))
  }

  function FromLines(lines: seq<string>): seq<QueueEntry> {
    if lines == [] then [] else AsList(FromLine(lines[0])) + FromLines(lines[1..])
  }

  function Ingest(raw: string): seq<QueueEntry> {
    FromLines(Lines(raw))
  }

  // ------------------------------------------------- lines as others write them

  /** A field that is given once is given as it is. */
  lemma {:induction false} GivenOnce(members: seq<Member>, key: string, i: nat)
    requires i < |members| && forall j | 0 <= j < |members| :: members[j].key == key <==> j == i
    ensures Given(members, key) == [members[i].value]
  {
    if i == 0 {
      GivenNever(members[1..], key);
    } else {
      GivenOnce(members[1..], key, i - 1);
    }
  }

  lemma {:induction false} GivenNever(members: seq<Member>, key: string)
    requires forall j | 0 <= j < |members| :: members[j].key != key
    ensures Given(members, key) == []
  {
    if members != [] {
      GivenNever(members[1..], key);
    }
  }

  /** A recipient gives this reason, or none; its other fields do not matter. */
  predicate GivesReason(v: Value, reason: Option<string>) {
    && v.Obj?
    && if reason.None? then forall j | 0 <= j < |v.members| :: v.members[j].key != "delay_reason"
       else exists i :: 0 <= i < |v.members| && v.members[i].value == Str(reason.value)
                        && forall j | 0 <= j < |v.members| :: v.members[j].key == "delay_reason" <==> j == i
  }

  lemma ReasonIsRead(v: Value, reason: Option<string>)
    requires GivesReason(v, reason)
    ensures Recipient(v) == Some(reason)
  {
    if reason.None? {
      GivenNever(v.members, "delay_reason");
    } else {
      var i :| 0 <= i < |v.members| && v.members[i].value == Str(reason.value)
               && forall j | 0 <= j < |v.members| :: v.members[j].key == "delay_reason" <==> j == i;
      GivenOnce(v.members, "delay_reason", i);
    }
  }

  lemma {:induction false} ReasonsAreRead(vs: seq<Value>, reasons: seq<Option<string>>)
    requires |vs| == |reasons| && forall j | 0 <= j < |vs| :: GivesReason(vs[j], reasons[j])
    ensures RecipientList(vs) == Some(reasons)
  {
    hide GivesReason, Recipient;
    if vs != [] {
      ReasonIsRead(vs[0], reasons[0]);
      ReasonsAreRead(vs[1..], reasons[1..]);
      assert [reasons[0]] + reasons[1..] == reasons;
    }
  }

  lemma {:induction false} FirstReasonIs(reasons: seq<Option<string>>, n: nat)
    requires n <= |reasons| && (forall j | 0 <= j < n :: reasons[j].None?) && (n < |reasons| ==> reasons[n].Some?)
    ensures FirstReason(reasons) == if n < |reasons| then reasons[n] else None
  {
    if n > 0 {
      FirstReasonIs(reasons[1..], n - 1);
    }
  }

  lemma ObjectIsRead(members: seq<Member>, i: nat, k: nat, r: nat, reasons: seq<Option<string>>)
    requires i < |members| && members[i].value.Str?
    requires forall j | 0 <= j < |members| :: members[j].key == "queue_id" <==> j == i
    requires k < |members| && members[k].value.Str?
    requires forall j | 0 <= j < |members| :: members[j].key == "queue_name" <==> j == k
    requires r < |members| && members[r].value.Arr? && |members[r].value.elements| == |reasons|
    requires forall j | 0 <= j < |members| :: members[j].key == "recipients" <==> j == r
    requires forall j | 0 <= j < |reasons| :: GivesReason(members[r].value.elements[j], reasons[j])
    ensures Entry(Obj(members)) == Some(RawEntry(members[i].value.text, members[k].value.text, reasons))
  {
    hide GivesReason, RecipientList, Given;
    GivenOnce(members, "queue_id", i);
    GivenOnce(members, "queue_name", k);
    GivenOnce(members, "recipients", r);
    ReasonsAreRead(members[r].value.elements, reasons);
  }

  /** An object without exactly one text under each of the two names, or with more than one list of
      recipients, is no entry; and an array may stand for the fields in order. */
  lemma EntryNeeds(members: seq<Member>, key: string, i: nat, j: nat, id: string, name: string)
    requires key in {"queue_id", "queue_name", "recipients"}
    ensures i < j < |members| && members[i].key == key && members[j].key == key ==> Entry(Obj(members)) == None
    ensures key != "recipients" && (forall k | 0 <= k < |members| :: members[k].key != key) ==>
              Entry(Obj(members)) == None
    ensures key != "recipients" && i < |members| && members[i].key == key && !members[i].value.Str? ==>
              Entry(Obj(members)) == None
    ensures Entry(Arr([Str(id), Str(name)])) == Some(RawEntry(id, name, []))
  {
    if i < j < |members| && members[i].key == key && members[j].key == key {
      GivenTwice(members, key, i, j);
    }
    if forall k | 0 <= k < |members| :: members[k].key != key {
      GivenNever(members, key);
    }
    if i < |members| && members[i].key == key {
      GivenSome(members, key, i);
    }
    var two := [Str(id), Str(name)];
    assert two[..1] == [Str(id)] && two[1..2] == [Str(name)] && two[2..] == [];
  }

  /** A recipient whose reason is repeated or is neither a text nor null makes its line unreadable; null
      is no reason, and an array may give the reason. */
  lemma RecipientNeeds(members: seq<Member>, i: nat, j: nat, text: string, v: Value)
    ensures i < j < |members| && members[i].key == "delay_reason" && members[j].key == "delay_reason" ==>
              Recipient(Obj(members)) == None
    ensures Recipient(Obj([Member("delay_reason", v)])) ==
              if v == Null then Some(None) else if v.Str? then Some(Some(v.text)) else None
    ensures Recipient(Arr([])) == Some(None) && Recipient(Arr([Str(text)])) == Some(Some(text))
    ensures Recipient(Arr([Str(text), v])) == None && (!v.Obj? && !v.Arr? ==> Recipient(v) == None)
    ensures Recipient(v) == None ==> RecipientList([v]) == None
  {
    if i < j < |members| && members[i].key == "delay_reason" && members[j].key == "delay_reason" {
      GivenTwice(members, "delay_reason", i, j);
    }
    GivenOnce([Member("delay_reason", v)], "delay_reason", 0);
  }

  lemma {:induction false} GivenSome(members: seq<Member>, key: string, i: nat)
    requires i < |members| && members[i].key == key
    ensures members[i].value in Given(members, key)
  {
    if i > 0 {
      GivenSome(members[1..], key, i - 1);
    }
  }

  lemma {:induction false} GivenTwice(members: seq<Member>, key: string, i: nat, j: nat)
    requires i < j < |members| && members[i].key == key && members[j].key == key
    ensures |Given(members, key)| > 1
  {
    if i == 0 {
      GivenSome(members[1..], key, j - 1);
    } else {
      GivenTwice(members[1..], key, i - 1, j - 1);
    }
  }

  lemma PrintedObjectEnds(members: seq<Member>, gap: string)
    ensures var line := Print(Obj(members), gap); line != "" && line[0] == '{' && line[|line| - 1] == '}'
  {
    hide Quote, PrintMembers;
  }

  /** A line of the relay's own tool: an object with the three fields anywhere among others, with blanks
      after its commas and colons, and with any number of recipients. It is read as the entry of its id, its
      queue name and the first reason any recipient gives, trimmed, if that is not empty. */
  lemma LineIsReadAs(
    members: seq<Member>, gap: string, i: nat, k: nat, r: nat, reasons: seq<Option<string>>, n: nat)
    requires (forall m | m in members :: Textual(m.value)) && AllBlank(gap)
    requires i < |members| && members[i].value.Str?
    requires forall j | 0 <= j < |members| :: members[j].key == "queue_id" <==> j == i
    requires k < |members| && members[k].value.Str?
    requires forall j | 0 <= j < |members| :: members[j].key == "queue_name" <==> j == k
    requires r < |members| && members[r].value.Arr? && |members[r].value.elements| == |reasons|
    requires forall j | 0 <= j < |members| :: members[j].key == "recipients" <==> j == r
    requires forall j | 0 <= j < |reasons| :: GivesReason(members[r].value.elements[j], reasons[j])
    requires n <= |reasons| && (forall j | 0 <= j < n :: reasons[j].None?) && (n < |reasons| ==> reasons[n].Some?)
    ensures FromLine(Print(Obj(members), gap)) ==
              Some(QueueEntry(
                members[i].value.text, members[k].value.text,
                if n < |reasons| && Trim(reasons[n].value) != "" then Some(Trim(reasons[n].value)) else None))
  {
    var line := Print(Obj(members), gap);
    PrintedObjectEnds(members, gap);
    TrimKeeps(line);
    ParsePrint(Obj(members), gap);
    ObjectIsRead(members, i, k, r, reasons);
    FirstReasonIs(reasons, n);
    hide Print, Json.Parse, Entry, Trim, GivesReason, Textual, AllBlank;
  }

  // ----------------------------------------------------------- round trip

  function Tidied(e: QueueEntry): QueueEntry {
    e.(reason := Tidy(e.reason))
  }

  lemma PrintedReason(reason: Option<string>)
    ensures Recipients([Arr([Obj(ReasonMember(reason))])]) == Some([reason])
    ensures FirstReason([reason]) == reason
  {
    var recipient := Obj(ReasonMember(reason));
    if reason.Some? {
      assert recipient.members[1..] == [];
      assert Given(recipient.members, "delay_reason") == [Str(reason.value)];
    }
    assert Recipient(recipient) == Some(reason);
    SoleRecipient(recipient);
  }

  lemma SoleRecipient(v: Value)
    requires Recipient(v).Some?
    ensures RecipientList([v]) == Some([Recipient(v).value])
  {
    assert [v][1..] == [];
    var rest := RecipientList([v][1..]);
    assert rest == Some([]);
    assert [Recipient(v).value] + rest.value == [Recipient(v).value];
  }

  lemma PrintedEntry(e: QueueEntry)
    ensures Entry(LineValue(e)) == Some(RawEntry(e.queueId, e.queueName, [e.reason]))
    ensures FirstReason([e.reason]) == e.reason
  {
    var id, name, list := "queue_id", "queue_name", "recipients";
    assert |id| == 8 && |name| == 10 && |list| == 10 && name[0] != list[0];
    var m := LineValue(e).members;
    GivenThree(m[0], m[1], m[2], id);
    GivenThree(m[0], m[1], m[2], name);
    GivenThree(m[0], m[1], m[2], list);
    assert m == [m[0], m[1], m[2]];
    PrintedReason(e.reason);
    hide Given, Recipients, FirstReason;
  }

  lemma GivenThree(a: Member, b: Member, c: Member, key: string)
    ensures Given([a, b, c], key) ==
              (if a.key == key then [a.value] else []) + (if b.key == key then [b.value] else [])
              + (if c.key == key then [c.value] else [])
  {
    assert [a, b, c][1..] == [b, c] && [b, c][1..] == [c] && [c][1..] == [];
    assert Given([c], key) == if c.key == key then [c.value] else [];
  }

  lemma LineEnds(e: QueueEntry)
    ensures var line := Print(LineValue(e), "");
            line != [] && line[0] == '{' && line[|line| - 1] == '}' && Printable(line)
  {
    hide Quote, PrintElements;
    LineIsTextual(e);
    PrintIsPrintable(LineValue(e), "");
  }

  lemma LineIsRead(e: QueueEntry)
    ensures FromLine(Print(LineValue(e), "")) == Some(Tidied(e))
  {
    var line := Print(LineValue(e), "");
    LineEnds(e);
    TrimKeeps(line);
    LineIsTextual(e);
    ParsePrint(LineValue(e), "");
    PrintedEntry(e);
    hide Print, LineValue, Json.Parse, Entry, Trim;
  }

  lemma IngestLine(line: string, rest: string)
    requires '\n' !in line
    ensures Ingest(line + "\n" + rest) == AsList(FromLine(DropCarriageReturn(line))) + Ingest(rest)
  {
    LinesAt(line, rest);
    assert Lines(line + "\n" + rest)[1..] == Lines(rest);
  }

  /** A printed report comes back entry by entry with its reasons tidied, whatever else follows it. */
  lemma {:induction false} ReportIsRead(entries: seq<QueueEntry>, rest: string)
    ensures Ingest(Ndjson(entries) + rest)
         == seq(|entries|, i requires 0 <= i < |entries| => Tidied(entries[i])) + Ingest(rest)
  {
    hide Print, LineValue, Ingest, FromLine, Tidied, Json.Parse;
    if entries == [] {
      assert Ndjson(entries) + rest == rest;
    } else {
      var line, more := Print(LineValue(entries[0]), ""), Ndjson(entries[1..]) + rest;
      assert Ndjson(entries) + rest == line + "\n" + more;
      LineEnds(entries[0]);
      IngestLine(line, more);
      LineIsRead(entries[0]);
      ReportIsRead(entries[1..], rest);
    }
  }

  /** A reason the endpoint leaves as it is. */
  predicate Neat(reason: Option<string>) {
    reason.Some? ==> reason.value != "" && Trim(reason.value) == reason.value
  }

  /** The report comes back as it was exactly when every reason in it is trimmed and not empty. */
  lemma RoundTrip(entries: seq<QueueEntry>)
    ensures Ingest(Ndjson(entries)) == entries <==> forall e | e in entries :: Neat(e.reason)
  {
    hide Ingest, Ndjson, Trim;
    ReportIsRead(entries, "");
    assert Ndjson(entries) + "" == Ndjson(entries);
    NothingIngested();
    var back := Ingest(Ndjson(entries));
    assert |back| == |entries| && forall i | 0 <= i < |entries| :: back[i] == Tidied(entries[i]);
    if back == entries {
      forall e | e in entries ensures Neat(e.reason) {
        var i :| 0 <= i < |entries| && entries[i] == e;
        assert Tidied(e) == e;
      }
    }
  }

  lemma NothingIngested()
    ensures Ingest("") == []
  {
  }

  /** Every reason showq's parser gives is one the endpoint leaves as it is. */
  lemma {:induction false} ParsedReasonsAreNeat(decode: Showq.Decoder, records: seq<seq<Showq.Field>>)
    ensures forall e | e in Showq.EntriesOf(decode, records) :: Neat(e.reason)
  {
    hide Trim;
    if records != [] {
      ParsedReasonsAreNeat(decode, records[1..]);
      FirstIsTrimmed(decode, records[0]);
    }
  }

  lemma {:induction false} FirstIsTrimmed(decode: Showq.Decoder, fields: seq<Showq.Field>)
    ensures var reason := Showq.FirstOf(decode, fields, "reason");
            reason.Some? ==> Trim(reason.value) == reason.value
  {
    hide Trim;
    if fields != [] {
      FirstIsTrimmed(decode, fields[..|fields| - 1]);
      var text := decode(fields[|fields| - 1].value);
      TrimmedEnds(text);
      TrimKeeps(Trim(text));
    }
  }

  /** Whatever bytes showq answers with, and however they are decoded, the endpoint ends up with
      exactly the queue the reporter parsed. */
  lemma QueueComesBack(decode: Showq.Decoder, bytes: seq<Byte>)
    ensures Ingest(Ndjson(Showq.QueueOf(decode, bytes))) == Showq.QueueOf(decode, bytes)
  {
    hide Ingest, Ndjson, Neat, Showq.EntriesOf;
    ParsedReasonsAreNeat(decode, Showq.Cut([], Showq.Pieces(bytes)));
    RoundTrip(Showq.QueueOf(decode, bytes));
  }

  /** A complete answer of showq's, written from a queue with any other fields around what matters,
      reaches the endpoint as exactly that queue. */
  lemma AnswerReachesEndpoint(
    decode: Showq.Decoder, encode: Showq.Encoder, protocol: seq<Showq.Field>, queue: seq<QueueEntry>,
    around: seq<Showq.Around>)
    requires Showq.Undoes(decode, encode) && Showq.AllFramed(protocol) && |around| == |queue|
    requires forall j | 0 <= j < |protocol| :: decode(protocol[j].name) != "queue_id"
    requires forall i | 0 <= i < |queue| :: Showq.Writable(queue[i]) && Showq.Beside(decode, around[i], queue[i])
    ensures var bytes := Showq.Stream([protocol] + Showq.Records(encode, queue, around));
            Ingest(Ndjson(Showq.QueueOf(decode, bytes))) == queue
  {
    var bytes := Showq.Stream([protocol] + Showq.Records(encode, queue, around));
    hide Showq.Undoes, Showq.Beside, Showq.Writable, Showq.Stream, Showq.QueueOf, Ingest, Ndjson;
    Showq.WrittenIsRead(decode, encode, protocol, queue, around);
    QueueComesBack(decode, bytes);
  }
}
