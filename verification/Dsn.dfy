/** Delivery status notifications (RFC 3464): what each recipient's block of one says, and whether it
    is bad enough news to stop writing to the address. */
module Dsn {
  import opened Wrappers
  import opened Text

  datatype Classification = Accepted | Transient | Permanent | Unknown

  datatype Report = Report(
    relayQueueId: Option<string>, finalRecipient: Option<string>,
    status: Option<string>, diagnostic: Option<string>, classification: Classification)

  /** The class of an enhanced status code (RFC 3463). */
  function FromStatus(status: string): Classification {
    var digit := Split(Trim(status), '.')[0];
    if digit == "2" then Accepted
    else if digit == "4" then Transient
    else if digit == "5" then Permanent
    else Unknown
  }

  /** The codes, without their class, that blame the recipient's address. */
  const BLAMING: set<string> := {"1.1", "1.2", "1.3", "1.6", "1.10", "2.1"}

  predicate RecipientIsTheProblem(status: string) {
    var parts := SplitOnce(Trim(status), '.');
    parts.Some? && parts.value.1 in BLAMING
  }

  const MISSING_MAILBOX: set<string> :=
    {"no such user", "user unknown", "recipient not found", "mailbox not found", "no mailbox here"}

  /** The receiver's words in lower case, one space apart. */
  function Flat(diagnostic: string): string {
    Join(Words(Lower(diagnostic)), " ")
  }

  predicate NamesAMissingMailbox(diagnostic: string) {
    exists phrase | phrase in MISSING_MAILBOX :: Contains(Flat(diagnostic), phrase)
  }

  predicate ShouldSuppress(r: Report) {
    && r.classification == Permanent
    && (|| (r.status.Some? && RecipientIsTheProblem(r.status.value))
        || (r.diagnostic.Some? && NamesAMissingMailbox(r.diagnostic.value)))
  }

  /** `smtp; 550 ...` and the like, without the type before the first semicolon. */
  function StripTypePrefix(value: string): string {
    match SplitOnce(value, ';')
    case Some(parts) => Trim(parts.1)
    case None => Trim(value)
  }

  // ---------------------------------------------------------- unfolding

  /** A folded line goes on in the next one, which then starts with a space or a tab. */
  predicate Continues(line: string) {
    line != [] && line[0] in {' ', '\t'}
  }

  /** How many of the lines continue the one before them. */
  function Continuations(lines: seq<string>): (n: nat)
    ensures n <= |lines|
    ensures forall i | 0 <= i < n :: Continues(lines[i])
    ensures n < |lines| ==> !Continues(lines[n])
  {
    if lines != [] && Continues(lines[0]) then 1 + Continuations(lines[1..]) else 0
  }

  function Glue(head: string, more: seq<string>): string
    decreases |more|
  {
    if more == [] then head else Glue(head + " " + Trim(more[0]), more[1..])
  }

  /** Each line together with those that continue it. */
  function Unfolded(lines: seq<string>): seq<string> {
    if lines == [] then []
    else
      var n := Continuations(lines[1..]);
      [Glue(lines[0], lines[1..1 + n])] + Unfolded(lines[1 + n..])
  }

  lemma {:induction false} GlueOneMore(head: string, more: seq<string>, line: string)
    ensures Glue(head, more + [line]) == Glue(head, more) + " " + Trim(line)
    decreases |more|
  {
    hide Trim;
    if more == [] {
      assert [line][1..] == [];
    } else {
      GlueOneMore(head + " " + Trim(more[0]), more[1..], line);
      assert (more + [line])[1..] == more[1..] + [line];
    }
  }

  lemma {:induction false} ContinuationsOneMore(lines: seq<string>, line: string)
    ensures Continuations(lines + [line])
         == if Continuations(lines) == |lines| && Continues(line) then |lines| + 1 else Continuations(lines)
  {
    if lines != [] {
      assert (lines + [line])[1..] == lines[1..] + [line];
      if Continues(lines[0]) {
        ContinuationsOneMore(lines[1..], line);
      }
    }
  }

  function Extended(u: seq<string>, line: string): seq<string>
    requires u != []
  {
    u[..|u| - 1] + [u[|u| - 1] + " " + Trim(line)]
  }

  lemma UnfoldedHead(lines: seq<string>, n: nat)
    requires lines != [] && n == Continuations(lines[1..])
    ensures Unfolded(lines) == [Glue(lines[0], lines[1..1 + n])] + Unfolded(lines[1 + n..])
  {
  }

  lemma UnfoldedNothing()
    ensures Unfolded([]) == []
  {
  }

  lemma UnfoldedOne(line: string)
    ensures Unfolded([line]) == [line]
  {
  }

  /** A document that is a single folded line so far. */
  lemma UnfoldedSingle(lines: seq<string>)
    requires lines != [] && Continuations(lines[1..]) == |lines| - 1
    ensures Unfolded(lines) == [Glue(lines[0], lines[1..])]
  {
    hide Unfolded, Glue, Continuations;
    UnfoldedHead(lines, |lines| - 1);
    assert lines[1..1 + (|lines| - 1)] == lines[1..] && lines[1 + (|lines| - 1)..] == [];
    UnfoldedNothing();
  }

  /** One more line extends the last unfolded one or starts the next. */
  lemma {:induction false} UnfoldedOneMore(lines: seq<string>, line: string)
    ensures lines != [] ==> Unfolded(lines) != []
    ensures Unfolded(lines + [line]) ==
              if Continues(line) && lines != [] then Extended(Unfolded(lines), line) else Unfolded(lines) + [line]
    decreases |lines|
  {
    hide Trim, Glue, Unfolded, Continues;
    var all := lines + [line];
    if lines == [] {
      UnfoldedOne(line);
      UnfoldedNothing();
      assert all == [line];
      return;
    }
    var n := Continuations(lines[1..]);
    assert all[1..] == lines[1..] + [line];
    ContinuationsOneMore(lines[1..], line);
    UnfoldedHead(lines, n);
    if n < |lines| - 1 {
      var rest := lines[1 + n..];
      UnfoldedOneMore(rest, line);
      UnfoldedHead(all, n);
      assert all[1..1 + n] == lines[1..1 + n] && all[1 + n..] == rest + [line];
      var g := [Glue(lines[0], lines[1..1 + n])];
      assert Continues(line) ==> g + Extended(Unfolded(rest), line) == Extended(g + Unfolded(rest), line);
      assert g + (Unfolded(rest) + [line]) == g + Unfolded(rest) + [line];
    } else if Continues(line) {
      UnfoldedSingle(lines);
      UnfoldedSingle(all);
      GlueOneMore(lines[0], lines[1..], line);
    } else {
      UnfoldedSingle(lines);
      UnfoldedHead(all, n);
      assert all[1..1 + n] == lines[1..] && all[1 + n..] == [line];
      UnfoldedOne(line);
    }
  }

  method Unfold(raw: string) returns (out: seq<string>)
    ensures out == Unfolded(Lines(raw))
  {
    hide Trim, Glue, Lines, Unfolded;
    out := [];
    assert Unfolded([]) == [] by {
      UnfoldedNothing();
    }
    var lines := Lines(raw);
    for i := 0 to |lines|
      invariant out == Unfolded(lines[..i])
    {
      UnfoldedOneMore(lines[..i], lines[i]);
      assert lines[..i + 1] == lines[..i] + [lines[i]];
      if Continues(lines[i]) && out != [] {
        out := Extended(out, lines[i]);
      } else {
        out := out + [lines[i]];
      }
    }
    assert lines[..|lines|] == lines;
  }

  // -------------------------------------------------------------- fields

  datatype Field = Field(name: string, value: string)

  const QUEUE_ID := "x-postfix-queue-id"
  const FINAL_RECIPIENT := "final-recipient"
  const STATUS := "status"
  const DIAGNOSTIC_CODE := "diagnostic-code"

  /** The field on an unfolded line: none without a colon or with an empty value. */
  function FieldOf(line: string): (f: Option<Field>)
    ensures f.Some? ==> f.value.value != []
  {
    match SplitOnce(line, ':')
    case None => None
    case Some(parts) =>
      var value := Trim(parts.1);
      if value == [] then None else Some(Field(Lower(Trim(parts.0)), value))
  }

  function Fields(lines: seq<string>): seq<Field> {
    if lines == [] then []
    else
      var front := Fields(lines[..|lines| - 1]);
      match FieldOf(lines[|lines| - 1])
      case None => front
      case Some(f) => front + [f]
  }

  // ------------------------------------------------- the two-pass meaning

  /** Where the recipient blocks start. */
  function Starts(fs: seq<Field>): (r: seq<nat>)
    ensures forall k | 0 <= k < |r| :: r[k] < |fs| && fs[r[k]].name == FINAL_RECIPIENT
    ensures forall j, k | 0 <= j < k < |r| :: r[j] < r[k]
  {
    if fs == [] then []
    else
      var last := |fs| - 1;
      var front := Starts(fs[..last]);
      if fs[last].name == FINAL_RECIPIENT then front + [last] else front
  }

  /** Every Final-Recipient field starts a block. */
  lemma {:induction false} StartsAreAll(fs: seq<Field>, i: nat)
    requires i < |fs| && fs[i].name == FINAL_RECIPIENT
    ensures i in Starts(fs)
  {
    var last := |fs| - 1;
    if i < last {
      StartsAreAll(fs[..last], i);
    } else {
      assert Starts(fs)[|Starts(fs)| - 1] == last;
    }
  }

  /** The value of the last field called `name` from `lo` up to `hi`. */
  function LastNamed(fs: seq<Field>, name: string, lo: nat, hi: nat): Option<string>
    requires lo <= hi <= |fs|
  {
    if lo == hi then None
    else if fs[hi - 1].name == name then Some(fs[hi - 1].value)
    else LastNamed(fs, name, lo, hi - 1)
  }

  /** That value stands at a field of the name, and no later field of the range has the name. */
  lemma {:induction false} LastNamedIsLast(fs: seq<Field>, name: string, lo: nat, hi: nat) returns (i: nat)
    requires lo <= hi <= |fs| && LastNamed(fs, name, lo, hi).Some?
    ensures lo <= i < hi && fs[i] == Field(name, LastNamed(fs, name, lo, hi).value)
    ensures forall j | i < j < hi :: fs[j].name != name
    decreases hi
  {
    if fs[hi - 1].name == name {
      i := hi - 1;
    } else {
      i := LastNamedIsLast(fs, name, lo, hi - 1);
    }
  }

  /** Without one there is no field of the name in the range. */
  lemma {:induction false} LastNamedMisses(fs: seq<Field>, name: string, lo: nat, hi: nat)
    requires lo <= hi <= |fs|
    ensures LastNamed(fs, name, lo, hi).None? <==> forall i | lo <= i < hi :: fs[i].name != name
    decreases hi
  {
    if lo < hi && fs[hi - 1].name != name {
      LastNamedMisses(fs, name, lo, hi - 1);
    }
  }

  /** The block that starts at field `start` and ends before field `end`, with the queue id that stood
      before it. */
  function Block(fs: seq<Field>, start: nat, end: nat): Report
    requires start < end <= |fs|
  {
    var status := LastNamed(fs, STATUS, start + 1, end);
    var diagnostic := LastNamed(fs, DIAGNOSTIC_CODE, start + 1, end);
    Report(LastNamed(fs, QUEUE_ID, 0, start),
           Some(StripTypePrefix(fs[start].value)),
           status,
           if diagnostic.Some? then Some(StripTypePrefix(diagnostic.value)) else None,
           if status.Some? then FromStatus(status.value) else Unknown)
  }

  /** A block without an id of its own takes the last one of the whole document. */
  function Backfilled(r: Report, id: Option<string>): Report {
    if r.relayQueueId.None? then r.(relayQueueId := id) else r
  }

  function BlockEnd(fs: seq<Field>, k: nat): (end: nat)
    requires k < |Starts(fs)|
    ensures Starts(fs)[k] < end <= |fs|
  {
    if k + 1 < |Starts(fs)| then Starts(fs)[k + 1] else |fs|
  }

  function ReportAt(fs: seq<Field>, k: nat): Report
    requires k < |Starts(fs)|
  {
    Backfilled(Block(fs, Starts(fs)[k], BlockEnd(fs, k)), LastNamed(fs, QUEUE_ID, 0, |fs|))
  }

  /** One report per Final-Recipient field, each from its own block. */
  function Reports(fs: seq<Field>): (r: seq<Report>)
    ensures |r| == |Starts(fs)|
    ensures forall k | 0 <= k < |r| :: r[k] == ReportAt(fs, k)
  {
    seq(|Starts(fs)|, k requires 0 <= k < |Starts(fs)| => ReportAt(fs, k))
  }

  function Meaning(raw: string): seq<Report> {
    Reports(Fields(Unfolded(Lines(raw))))
  }

  // ----------------------------------------------------- the one pass

  /** What the pass holds after the fields so far: the finished blocks, and the one still open. */
  predicate Holding(fs: seq<Field>, reports: seq<Report>, queueId: Option<string>, current: Option<Report>) {
    var starts := Starts(fs);
    && queueId == LastNamed(fs, QUEUE_ID, 0, |fs|)
    && (starts == [] ==> reports == [] && current.None?)
    && (starts != [] ==>
          && |reports| == |starts| - 1
          && current == Some(Block(fs, starts[|starts| - 1], |fs|))
          && forall k | 0 <= k < |reports| :: reports[k] == Block(fs, starts[k], starts[k + 1]))
  }

  lemma {:induction false} LastNamedStable(fs: seq<Field>, f: Field, name: string, lo: nat, hi: nat)
    requires lo <= hi <= |fs|
    ensures LastNamed(fs + [f], name, lo, hi) == LastNamed(fs, name, lo, hi)
    decreases hi
  {
    if lo < hi {
      LastNamedStable(fs, f, name, lo, hi - 1);
    }
  }

  lemma BlockStable(fs: seq<Field>, f: Field, start: nat, end: nat)
    requires start < end <= |fs|
    ensures Block(fs + [f], start, end) == Block(fs, start, end)
  {
    hide StripTypePrefix, FromStatus, LastNamed;
    LastNamedStable(fs, f, STATUS, start + 1, end);
    LastNamedStable(fs, f, DIAGNOSTIC_CODE, start + 1, end);
    LastNamedStable(fs, f, QUEUE_ID, 0, start);
  }

  /** The open block after one more field that does not start the next. */
  lemma BlockGrows(fs: seq<Field>, f: Field, start: nat)
    requires start < |fs| && f.name != FINAL_RECIPIENT
    ensures var r, r' := Block(fs, start, |fs|), Block(fs + [f], start, |fs| + 1);
            r' == if f.name == STATUS then r.(status := Some(f.value), classification := FromStatus(f.value))
                  else if f.name == DIAGNOSTIC_CODE then r.(diagnostic := Some(StripTypePrefix(f.value)))
                  else r
  {
    hide StripTypePrefix, FromStatus;
    LastNamedStable(fs, f, STATUS, start + 1, |fs|);
    LastNamedStable(fs, f, DIAGNOSTIC_CODE, start + 1, |fs|);
    LastNamedStable(fs, f, QUEUE_ID, 0, start);
  }

  /** A block that has just started has nothing but the recipient and the id before it. */
  lemma NewBlock(fs: seq<Field>, f: Field)
    ensures Block(fs + [f], |fs|, |fs| + 1)
         == Report(LastNamed(fs, QUEUE_ID, 0, |fs|), Some(StripTypePrefix(f.value)), None, None, Unknown)
  {
    LastNamedStable(fs, f, QUEUE_ID, 0, |fs|);
  }

  lemma StartsOneMore(fs: seq<Field>, f: Field)
    ensures Starts(fs + [f]) == if f.name == FINAL_RECIPIENT then Starts(fs) + [|fs|] else Starts(fs)
    ensures LastNamed(fs + [f], QUEUE_ID, 0, |fs| + 1)
         == if f.name == QUEUE_ID then Some(f.value) else LastNamed(fs, QUEUE_ID, 0, |fs|)
  {
    assert (fs + [f])[..|fs|] == fs;
    LastNamedStable(fs, f, QUEUE_ID, 0, |fs|);
  }

  /** What the pass makes of one field. */
  lemma HoldingOneMore(fs: seq<Field>, f: Field, reports: seq<Report>, queueId: Option<string>, current: Option<Report>)
    requires Holding(fs, reports, queueId, current)
    ensures
      if f.name == QUEUE_ID then Holding(fs + [f], reports, Some(f.value), current)
      else if f.name == FINAL_RECIPIENT then
        Holding(fs + [f], reports + (if current.Some? then [current.value] else []), queueId,
                Some(Report(queueId, Some(StripTypePrefix(f.value)), None, None, Unknown)))
      else if f.name == STATUS && current.Some? then
        Holding(fs + [f], reports, queueId,
                Some(current.value.(status := Some(f.value), classification := FromStatus(f.value))))
      else if f.name == DIAGNOSTIC_CODE && current.Some? then
        Holding(fs + [f], reports, queueId, Some(current.value.(diagnostic := Some(StripTypePrefix(f.value)))))
      else Holding(fs + [f], reports, queueId, current)
  {
    hide StripTypePrefix, FromStatus, Starts, LastNamed, Block;
    var starts := Starts(fs);
    StartsOneMore(fs, f);
    forall k | 0 <= k < |reports|
      ensures Block(fs + [f], starts[k], starts[k + 1]) == Block(fs, starts[k], starts[k + 1])
    {
      BlockStable(fs, f, starts[k], starts[k + 1]);
    }
    if f.name == FINAL_RECIPIENT {
      LastNamedStable(fs, f, QUEUE_ID, 0, |fs|);
      NewBlock(fs, f);
      if starts != [] {
        BlockStable(fs, f, starts[|starts| - 1], |fs|);
      }
    } else if starts != [] {
      BlockGrows(fs, f, starts[|starts| - 1]);
    }
  }

  lemma HoldingNothing()
    ensures Holding([], [], None, None)
  {
  }

  /** Reading a notification in one pass, with the queue id filled in afterwards where it came late,
      gives exactly its two-pass meaning. */
  method Parse(raw: string) returns (reports: seq<Report>)
    ensures reports == Meaning(raw)
  {
    hide StripTypePrefix, FromStatus, Trim, Lower, Lines, Unfolded, Block, SplitOnce, Reports, Starts, LastNamed;
    reports := [];
    var queueId: Option<string> := None;
    var current: Option<Report> := None;
    var lines := Unfold(raw);
    HoldingNothing();
    for i := 0 to |lines|
      invariant Holding(Fields(lines[..i]), reports, queueId, current)
    {
      ghost var fs := Fields(lines[..i]);
      assert lines[..i + 1][..i] == lines[..i];
      var parts := SplitOnce(lines[i], ':');
      if parts.None? {
        continue;
      }
      var name := Lower(Trim(parts.value.0));
      var value := Trim(parts.value.1);
      if value == [] {
        continue;
      }
      HoldingOneMore(fs, Field(name, value), reports, queueId, current);
      if name == QUEUE_ID {
        queueId := Some(value);
      } else if name == FINAL_RECIPIENT {
        if current.Some? {
          reports := reports + [current.value];
        }
        current := Some(Report(queueId, Some(StripTypePrefix(value)), None, None, Unknown));
      } else if name == STATUS {
        if current.Some? {
          current := Some(current.value.(status := Some(value), classification := FromStatus(value)));
        }
      } else if name == DIAGNOSTIC_CODE {
        if current.Some? {
          current := Some(current.value.(diagnostic := Some(StripTypePrefix(value))));
        }
      }
    }
    assert lines[..|lines|] == lines;
    if current.Some? {
      reports := reports + [current.value];
    }
    reports := Backfill(Fields(lines), reports, queueId);
  }

  /** The queue id may come after the first block: it is filled in wherever there is none. */
  method Backfill(ghost fs: seq<Field>, before: seq<Report>, queueId: Option<string>) returns (reports: seq<Report>)
    requires queueId == LastNamed(fs, QUEUE_ID, 0, |fs|)
    requires |before| == |Starts(fs)|
    requires forall k | 0 <= k < |before| :: before[k] == Block(fs, Starts(fs)[k], BlockEnd(fs, k))
    ensures reports == Reports(fs)
  {
    hide Block, Starts, LastNamed;
    reports := before;
    if queueId.Some? {
      for k := 0 to |before|
        invariant |reports| == |before|
        invariant forall j | 0 <= j < k :: reports[j] == Backfilled(before[j], queueId)
        invariant forall j | k <= j < |reports| :: reports[j] == before[j]
      {
        if reports[k].relayQueueId.None? {
          reports := reports[k := reports[k].(relayQueueId := queueId)];
        }
      }
    }
  }

  // ------------------------------------------------------------ promises

  /** The classification of a report is always that of its own status, and no report suppresses unless
      its own block carries a status of class 5. */
  lemma OnlyPermanentSuppresses(fs: seq<Field>, k: nat)
    requires k < |Starts(fs)|
    ensures var r := Reports(fs)[k];
            && r.finalRecipient.Some?
            && r.classification == (if r.status.Some? then FromStatus(r.status.value) else Unknown)
            && (ShouldSuppress(r) ==>
                  exists i :: Starts(fs)[k] < i < BlockEnd(fs, k)
                              && fs[i].name == STATUS && FromStatus(fs[i].value) == Permanent)
  {
    hide StripTypePrefix, FromStatus, RecipientIsTheProblem, NamesAMissingMailbox, LastNamed;
    var start, end := Starts(fs)[k], BlockEnd(fs, k);
    var r := Reports(fs)[k];
    assert r == Backfilled(Block(fs, start, end), LastNamed(fs, QUEUE_ID, 0, |fs|));
    if r.status.Some? {
      var i := LastNamedIsLast(fs, STATUS, start + 1, end);
      assert fs[i].name == STATUS && r.classification == FromStatus(fs[i].value);
    }
  }
}
