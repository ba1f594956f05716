/** What a notification comes to, from its text on: which lines are read as what, and which codes and
    which words cost an address. */
module DsnReading {
  import opened Wrappers
  import opened Text
  import opened Dsn
  import opened DsnSpacing

  // ------------------------------------------------------------- the codes

  /** The class of a code: its first part, if that is one of three digits. */
  lemma ClassOf(leading: char, rest: string)
    requires !IsSpace(leading) && leading != '.' && rest != [] && !IsSpace(rest[|rest| - 1])
    ensures FromStatus([leading] + "." + rest) ==
              if leading == '2' then Accepted else if leading == '4' then Transient
              else if leading == '5' then Permanent else Unknown
  {
    hide Trim, Split, IsSpace;
    var status := [leading] + ['.'] + rest;
    assert status == [leading] + "." + rest;
    TrimKeeps(status);
    SplitAt([leading], '.', rest);
    assert Split(Trim(status), '.')[0] == [leading];
    assert [leading] == "2" <==> leading == '2';
    assert [leading] == "4" <==> leading == '4';
    assert [leading] == "5" <==> leading == '5';
  }

  /** Without words from the receiver the code alone decides: an address is given up exactly for a
      permanent failure with one of the six codes that blame it. */
  lemma CodeAlone(r: Report, leading: char, detail: string)
    requires !IsSpace(leading) && leading != '.' && detail != [] && !IsSpace(detail[|detail| - 1])
    requires r.status == Some([leading] + "." + detail) && r.diagnostic.None?
    requires r.classification == FromStatus(r.status.value)
    ensures ShouldSuppress(r) <==> leading == '5' && detail in {"1.1", "1.2", "1.3", "1.6", "1.10", "2.1"}
  {
    ClassOf(leading, detail);
    CodeBlames(leading, detail);
    hide FromStatus, RecipientIsTheProblem;
  }

  lemma CodeBlames(leading: char, detail: string)
    requires !IsSpace(leading) && leading != '.' && detail != [] && !IsSpace(detail[|detail| - 1])
    ensures RecipientIsTheProblem([leading] + "." + detail) <==>
              detail in {"1.1", "1.2", "1.3", "1.6", "1.10", "2.1"}
  {
    var status := [leading] + ['.'] + detail;
    assert status == [leading] + "." + detail;
    TrimKeeps(status);
    SplitOnceAt([leading], '.', detail);
    hide Trim, SplitOnce, IsSpace;
  }

  /** A full mailbox, a message too large for it, a refused sender and the codes without information
      cost no address. */
  lemma SparingCodes(r: Report, code: string)
    requires code in {"5.2.2", "5.2.3", "5.1.7", "5.1.8", "5.1.0", "5.0.0", "5.7.1"}
    requires r.status == Some(code) && r.diagnostic.None? && r.classification == FromStatus(code)
    ensures !ShouldSuppress(r)
  {
    hide ShouldSuppress, FromStatus, IsSpace;
    var detail := SparingDetail(code);
    CodeAlone(r, '5', detail);
  }

  lemma SparingDetail(code: string) returns (detail: string)
    requires code in {"5.2.2", "5.2.3", "5.1.7", "5.1.8", "5.1.0", "5.0.0", "5.7.1"}
    ensures code == "5" + "." + detail && detail != [] && !IsSpace(detail[|detail| - 1])
    ensures detail !in {"1.1", "1.2", "1.3", "1.6", "1.10", "2.1"} && !IsSpace('5')
  {
    detail := code[2..];
  }

  // ------------------------------------------------------------- the words

  /** Words and the whitespace before, between and after them. */
  function Spaced(gaps: seq<string>, words: seq<string>): string
    requires |gaps| == |words| + 1
  {
    if words == [] then gaps[0] else gaps[0] + (words[0] + Spaced(gaps[1..], words[1..]))
  }

  predicate IsWord(w: string) {
    w != "" && forall i | 0 <= i < |w| :: !IsSpace(w[i])
  }

  predicate Separate(gaps: seq<string>, words: seq<string>) {
    && |gaps| == |words| + 1
    && (forall i | 0 <= i < |gaps| :: AllSpace(gaps[i]))
    && (forall i | 0 < i < |words| :: gaps[i] != "")
    && forall i | 0 <= i < |words| :: IsWord(words[i])
  }

  lemma StartsWithGap(gaps: seq<string>, words: seq<string>)
    requires Separate(gaps, words) && (words != [] ==> gaps[0] != "")
    ensures var s := Spaced(gaps, words); s == "" || IsSpace(s[0])
  {
    assert gaps[0] != "" ==> IsSpace(gaps[0][0]);
  }

  /** The words of a text are the ones it was written with, whatever the whitespace. */
  lemma {:induction false} WordsOfSpaced(gaps: seq<string>, words: seq<string>)
    requires Separate(gaps, words)
    ensures Words(Spaced(gaps, words)) == words
    decreases |words|
  {
    if words == [] {
      WordsOfSpace(gaps[0]);
    } else {
      var more := Spaced(gaps[1..], words[1..]);
      assert |words| > 1 ==> gaps[1..][0] != "";
      StartsWithGap(gaps[1..], words[1..]);
      WordsSkip(gaps[0], words[0] + more);
      WordsAppend(words[0], more);
      OneWord(words[0]);
      WordsOfSpaced(gaps[1..], words[1..]);
      hide Words, IsSpace, Spaced;
      assert [words[0]] + words[1..] == words;
    }
  }

  lemma OneMoreWord(gap: string, word: string, gaps: seq<string>, words: seq<string>)
    requires Separate(gaps, words) && AllSpace(gap) && IsWord(word) && (words != [] ==> gaps[0] != "")
    ensures Separate([gap] + gaps, [word] + words)
    ensures Spaced([gap] + gaps, [word] + words) == gap + (word + Spaced(gaps, words))
  {
    hide IsWord, AllSpace;
    assert ([gap] + gaps)[1..] == gaps && ([word] + words)[1..] == words;
  }

  lemma FirstParts(s: string) returns (gap: string, word: string, rest: string)
    requires TrimStart(s) != []
    ensures s == gap + (word + rest) && |rest| < |s| && Words(s) == [word] + Words(rest)
    ensures AllSpace(gap) && IsWord(word) && (rest != "" ==> IsSpace(rest[0]))
    ensures IsSpace(s[0]) ==> gap != ""
  {
    var t := TrimStart(s);
    TrimStartCuts(s);
    FirstWord(s);
    var n := WordLength(t);
    gap, word, rest := s[..|s| - |t|], t[..n], t[n..];
  }

  lemma OnlySpace(s: string)
    requires TrimStart(s) == []
    ensures AllSpace(s) && Words(s) == []
  {
    TrimStartCuts(s);
    assert s[..|s|] == s;
  }

  /** Every text is some words and some whitespace. */
  lemma {:induction false} EveryTextIsSpaced(s: string) returns (gaps: seq<string>)
    ensures Separate(gaps, Words(s)) && Spaced(gaps, Words(s)) == s
    ensures s != "" && IsSpace(s[0]) ==> gaps[0] != ""
    ensures s == "" ==> Words(s) == []
    decreases |s|
  {
    if TrimStart(s) == [] {
      OnlySpace(s);
      gaps := [s];
    } else {
      var gap, word, rest := FirstParts(s);
      hide Words, IsSpace, TrimStart, Spaced, Separate, AllSpace;
      var more := EveryTextIsSpaced(rest);
      Separated(more, Words(rest));
      OneMoreWord(gap, word, more, Words(rest));
      gaps := [gap] + more;
    }
  }

  lemma Separated(gaps: seq<string>, words: seq<string>)
    requires Separate(gaps, words)
    ensures |gaps| == |words| + 1
  {
  }

  function LowerWords(words: seq<string>): (r: seq<string>)
    ensures |r| == |words| && forall i | 0 <= i < |words| :: r[i] == Lower(words[i])
  {
    seq(|words|, i requires 0 <= i < |words| => Lower(words[i]))
  }

  lemma {:induction false} LowerSpaced(gaps: seq<string>, words: seq<string>)
    requires Separate(gaps, words)
    ensures Separate(LowerWords(gaps), LowerWords(words))
    ensures Lower(Spaced(gaps, words)) == Spaced(LowerWords(gaps), LowerWords(words))
    decreases |words|
  {
    forall i | 0 <= i < |gaps| ensures AllSpace(LowerWords(gaps)[i]) {
      assert AllSpace(gaps[i]);
      forall j | 0 <= j < |gaps[i]| ensures IsSpace(Lower(gaps[i])[j]) {
        LowerKeepsSpace(gaps[i][j]);
      }
    }
    forall i | 0 <= i < |words| ensures IsWord(LowerWords(words)[i]) {
      assert IsWord(words[i]);
      forall j | 0 <= j < |words[i]| ensures !IsSpace(Lower(words[i])[j]) {
        LowerKeepsSpace(words[i][j]);
      }
    }
    LowerSpacedText(gaps, words);
  }

  lemma {:induction false} LowerSpacedText(gaps: seq<string>, words: seq<string>)
    requires |gaps| == |words| + 1
    ensures Lower(Spaced(gaps, words)) == Spaced(LowerWords(gaps), LowerWords(words))
    decreases |words|
  {
    if words != [] {
      var more := Spaced(gaps[1..], words[1..]);
      LowerSpacedText(gaps[1..], words[1..]);
      LowerConcat(words[0], more);
      LowerConcat(gaps[0], words[0] + more);
      assert LowerWords(gaps)[1..] == LowerWords(gaps[1..]) && LowerWords(words)[1..] == LowerWords(words[1..]);
    }
  }

  /** Does the text say this phrase somewhere? */
  ghost predicate Says(text: string, phrase: string) {
    exists before, after :: text == before + phrase + after
  }

  lemma ContainsIffSays(text: string, phrase: string)
    ensures Contains(text, phrase) <==> Says(text, phrase)
  {
    if Contains(text, phrase) {
      var i :| 0 <= i <= |text| && PartAt(text, phrase, i);
      assert text == text[..i] + phrase + text[i + |phrase|..];
    }
    if Says(text, phrase) {
      var before, after :| text == before + phrase + after;
      assert PartAt(text, phrase, |before|);
    }
  }

  /** A permanent failure without one of the six codes costs an address exactly if the receiver's words,
      in any case and with any spacing, have one of the five phrases in them. */
  lemma WordsDecide(r: Report, gaps: seq<string>, words: seq<string>)
    requires Separate(gaps, words) && r.diagnostic == Some(Spaced(gaps, words)) && r.classification == Permanent
    requires r.status.Some? ==> !RecipientIsTheProblem(r.status.value)
    ensures var said := Join(LowerWords(words), " ");
            ShouldSuppress(r) <==>
              || Says(said, "no such user") || Says(said, "user unknown") || Says(said, "recipient not found")
              || Says(said, "mailbox not found") || Says(said, "no mailbox here")
  {
    FlatIsSaid(gaps, words);
    hide Separate, RecipientIsTheProblem, Spaced, Flat, Join, LowerWords, Says, Contains;
    PhrasesDecide(Flat(r.diagnostic.value), r.diagnostic.value);
  }

  lemma FlatIsSaid(gaps: seq<string>, words: seq<string>)
    requires Separate(gaps, words)
    ensures Flat(Spaced(gaps, words)) == Join(LowerWords(words), " ")
  {
    LowerSpaced(gaps, words);
    WordsOfSpaced(LowerWords(gaps), LowerWords(words));
    hide Words, Join, Separate, Spaced, Lower;
  }

  lemma PhrasesDecide(said: string, diagnostic: string)
    requires said == Flat(diagnostic)
    ensures NamesAMissingMailbox(diagnostic) <==>
              || Says(said, "no such user") || Says(said, "user unknown") || Says(said, "recipient not found")
              || Says(said, "mailbox not found") || Says(said, "no mailbox here")
  {
    hide Flat, Says, Contains;
    ContainsIffSays(said, "no such user");
    ContainsIffSays(said, "user unknown");
    ContainsIffSays(said, "recipient not found");
    ContainsIffSays(said, "mailbox not found");
    ContainsIffSays(said, "no mailbox here");
  }

  // ---------------------------------------------------- a notification's text

  /** One recipient a notification is about. */
  datatype Recipient = Recipient(address: string, status: Option<string>, diagnostic: Option<string>)

  /** A value that stands on one line as it is. */
  predicate Plain(x: string) {
    x != "" && '\n' !in x && !IsSpace(x[0]) && !IsSpace(x[|x| - 1])
  }

  predicate PlainOption(x: Option<string>) {
    x.Some? ==> Plain(x.value)
  }

  predicate PlainRecipient(r: Recipient) {
    Plain(r.address) && PlainOption(r.status) && PlainOption(r.diagnostic)
  }

  function FieldLine(name: string, value: string): string {
    name + ": " + value
  }

  function Typed(kind: string, value: string): string {
    kind + "; " + value
  }

  function QueueIdLines(id: Option<string>): seq<string> {
    if id.Some? then [FieldLine("X-Postfix-Queue-ID", id.value)] else []
  }

  function StatusLines(r: Recipient): seq<string> {
    if r.status.Some? then [FieldLine("Status", r.status.value)] else []
  }

  function DiagnosticLines(r: Recipient): seq<string> {
    if r.diagnostic.Some? then [FieldLine("Diagnostic-Code", Typed("smtp", r.diagnostic.value))] else []
  }

  function RecipientLines(r: Recipient): seq<string> {
    [FieldLine("Final-Recipient", Typed("rfc822", r.address))] + StatusLines(r) + DiagnosticLines(r)
  }

  function AllRecipientLines(rs: seq<Recipient>): seq<string> {
    if rs == [] then [] else AllRecipientLines(rs[..|rs| - 1]) + RecipientLines(rs[|rs| - 1])
  }

  /** The relay's queue id may stand before the recipients or after them. */
  function NotificationLines(early: Option<string>, rs: seq<Recipient>, late: Option<string>): seq<string> {
    QueueIdLines(early) + AllRecipientLines(rs) + QueueIdLines(late)
  }

  function TextOf(lines: seq<string>): string {
    if lines == [] then "" else lines[0] + "\n" + TextOf(lines[1..])
  }

  function ReportOf(id: Option<string>, r: Recipient): Report {
    Report(id, Some(r.address), r.status, r.diagnostic,
           if r.status.Some? then FromStatus(r.status.value) else Unknown)
  }

  function ReportsOf(id: Option<string>, rs: seq<Recipient>): (reports: seq<Report>)
    ensures |reports| == |rs| && forall k | 0 <= k < |rs| :: reports[k] == ReportOf(id, rs[k])
  {
    seq(|rs|, k requires 0 <= k < |rs| => ReportOf(id, rs[k]))
  }

  // ------------------------------------------------------ lines and fields

  /** A line that is one line, and no continuation of another. */
  predicate Straight(line: string) {
    line != "" && '\n' !in line && line[|line| - 1] != '\r' && !Continues(line)
  }

  lemma {:induction false} LinesOfText(lines: seq<string>)
    requires forall k | 0 <= k < |lines| :: Straight(lines[k])
    ensures Lines(TextOf(lines)) == lines
  {
    if lines == [] {
      LastLine("");
    } else {
      hide Lines;
      LinesAre(lines[0], TextOf(lines[1..]));
      LinesOfText(lines[1..]);
      assert [lines[0]] + lines[1..] == lines;
    }
  }

  lemma {:induction false} UnfoldedStraight(lines: seq<string>)
    requires forall k | 0 <= k < |lines| :: Straight(lines[k])
    ensures Unfolded(lines) == lines
  {
    if lines != [] {
      hide Straight, Continues;
      assert Straight(lines[0]);
      assert Continuations(lines[1..]) == 0 by { NoContinuation(lines[1..]); }
      UnfoldedStraight(lines[1..]);
      assert lines[1..1] == [] && [lines[0]] + lines[1..] == lines;
    }
  }

  lemma NoContinuation(lines: seq<string>)
    requires lines != [] ==> Straight(lines[0])
    ensures Continuations(lines) == 0
  {
  }

  lemma {:induction false} FieldsAppend(a: seq<string>, b: seq<string>)
    ensures Fields(a + b) == Fields(a) + Fields(b)
  {
    hide FieldOf;
    if b == [] {
      assert a + b == a;
    } else {
      FieldsAppend(a, b[..|b| - 1]);
      assert (a + b)[..|a + b| - 1] == a + b[..|b| - 1];
    }
  }

  lemma OneField(line: string, f: Field)
    requires FieldOf(line) == Some(f)
    ensures Fields([line]) == [f]
  {
    assert [line][..0] == [];
  }

  /** A line is read as the field it was written for. */
  lemma ReadsField(name: string, value: string)
    requires Plain(name) && ':' !in name && Plain(value)
    ensures Fields([FieldLine(name, value)]) == [Field(Lower(name), value)]
  {
    hide IsSpace, Lower;
    var line := name + [':'] + (" " + value);
    assert line == FieldLine(name, value);
    SplitOnceAt(name, ':', " " + value);
    TrimKeeps(name);
    OneSpace();
    TrimPadded(" ", value, "");
    assert " " + value + "" == " " + value;
    OneField(line, Field(Lower(name), value));
  }

  lemma OneSpace()
    ensures AllSpace(" ") && AllSpace("")
  {
  }

  lemma QueueIdName()
    ensures var name := "X-Postfix-Queue-ID"; Lower(name) == "x-postfix-queue-id" && ':' !in name && Plain(name)
  {
  }

  lemma RecipientName()
    ensures var name := "Final-Recipient"; Lower(name) == "final-recipient" && ':' !in name && Plain(name)
  {
  }

  lemma StatusName()
    ensures var name := "Status"; Lower(name) == "status" && ':' !in name && Plain(name)
  {
  }

  lemma DiagnosticName()
    ensures var name := "Diagnostic-Code"; Lower(name) == "diagnostic-code" && ':' !in name && Plain(name)
  {
  }

  lemma TypeStripped(kind: string, value: string)
    requires Plain(value) && Plain(kind) && ';' !in kind
    ensures StripTypePrefix(Typed(kind, value)) == value && Plain(Typed(kind, value))
  {
    hide IsSpace;
    var all := kind + [';'] + (" " + value);
    assert all == Typed(kind, value);
    SplitOnceAt(kind, ';', " " + value);
    OneSpace();
    TrimPadded(" ", value, "");
    assert " " + value + "" == " " + value;
  }

  lemma KindsArePlain()
    ensures Plain("rfc822") && ';' !in "rfc822" && Plain("smtp") && ';' !in "smtp"
  {
  }

  // -------------------------------------------- from fields to the reports

  /** What the pass holds at the end, with the late queue id filled in, is the meaning. */
  lemma HeldIsMeaning(fs: seq<Field>, reports: seq<Report>, id: Option<string>, current: Option<Report>)
    requires Holding(fs, reports, id, current)
    ensures var all := reports + AsList(current);
            |Reports(fs)| == |all| && forall k | 0 <= k < |all| :: Reports(fs)[k] == Backfilled(all[k], id)
  {
    hide Block, Starts, LastNamed, Backfilled;
  }

  function QueueIdFields(id: Option<string>): seq<Field> {
    if id.Some? then [Field("x-postfix-queue-id", id.value)] else []
  }

  function AddressField(address: string): Field {
    Field("final-recipient", Typed("rfc822", address))
  }

  function StatusFields(r: Recipient): seq<Field> {
    if r.status.Some? then [Field("status", r.status.value)] else []
  }

  function DiagnosticFields(r: Recipient): seq<Field> {
    if r.diagnostic.Some? then [Field("diagnostic-code", Typed("smtp", r.diagnostic.value))] else []
  }

  function RecipientFields(r: Recipient): seq<Field> {
    [AddressField(r.address)] + StatusFields(r) + DiagnosticFields(r)
  }

  function AllRecipientFields(rs: seq<Recipient>): seq<Field> {
    if rs == [] then [] else AllRecipientFields(rs[..|rs| - 1]) + RecipientFields(rs[|rs| - 1])
  }

  lemma QueueIdIsRead(id: Option<string>)
    requires PlainOption(id)
    ensures Fields(QueueIdLines(id)) == QueueIdFields(id)
  {
    hide Lower, Plain, FieldLine;
    if id.Some? {
      QueueIdName();
      ReadsField("X-Postfix-Queue-ID", id.value);
    }
  }

  lemma AddressIsRead(address: string)
    requires Plain(address)
    ensures Fields([FieldLine("Final-Recipient", Typed("rfc822", address))]) == [AddressField(address)]
  {
    hide Lower, Plain, FieldLine, Typed, Fields;
    RecipientName();
    KindsArePlain();
    TypeStripped("rfc822", address);
    ReadsField("Final-Recipient", Typed("rfc822", address));
  }

  lemma StatusIsRead(r: Recipient)
    requires PlainRecipient(r)
    ensures Fields(StatusLines(r)) == StatusFields(r)
  {
    hide Lower, Plain, FieldLine;
    if r.status.Some? {
      StatusName();
      ReadsField("Status", r.status.value);
    }
  }

  lemma DiagnosticIsRead(r: Recipient)
    requires PlainRecipient(r)
    ensures Fields(DiagnosticLines(r)) == DiagnosticFields(r)
  {
    hide Lower, Plain, FieldLine, Typed;
    if r.diagnostic.Some? {
      DiagnosticName();
      KindsArePlain();
      TypeStripped("smtp", r.diagnostic.value);
      ReadsField("Diagnostic-Code", Typed("smtp", r.diagnostic.value));
    }
  }

  lemma NoFields()
    ensures Fields([]) == []
  {
  }

  lemma RecipientIsRead(r: Recipient)
    requires PlainRecipient(r)
    ensures Fields(RecipientLines(r)) == RecipientFields(r)
  {
    hide Fields, Plain, StatusLines, DiagnosticLines, FieldLine, Typed;
    var first := [FieldLine("Final-Recipient", Typed("rfc822", r.address))];
    AddressIsRead(r.address);
    StatusIsRead(r);
    DiagnosticIsRead(r);
    FieldsAppend(first, StatusLines(r));
    FieldsAppend(first + StatusLines(r), DiagnosticLines(r));
  }

  lemma {:induction false} RecipientsAreRead(rs: seq<Recipient>)
    requires forall k | 0 <= k < |rs| :: PlainRecipient(rs[k])
    ensures Fields(AllRecipientLines(rs)) == AllRecipientFields(rs)
  {
    hide Fields, PlainRecipient, RecipientLines, RecipientFields;
    if rs == [] {
      NoFields();
    } else {
      var n := |rs| - 1;
      RecipientsAreRead(rs[..n]);
      RecipientIsRead(rs[n]);
      FieldsAppend(AllRecipientLines(rs[..n]), RecipientLines(rs[n]));
    }
  }

  lemma HoldsAddress(fs: seq<Field>, reports: seq<Report>, id: Option<string>, current: Option<Report>, address: string)
    requires Holding(fs, reports, id, current) && Plain(address)
    ensures Holding(fs + [AddressField(address)], reports + AsList(current), id,
                    Some(Report(id, Some(address), None, None, Unknown)))
  {
    hide Holding, Plain, Typed, StripTypePrefix;
    KindsArePlain();
    TypeStripped("rfc822", address);
    HoldingOneMore(fs, AddressField(address), reports, id, current);
  }

  lemma HoldsStatus(fs: seq<Field>, held: seq<Report>, id: Option<string>, current: Report, r: Recipient)
    requires Holding(fs, held, id, Some(current)) && current.status.None? && current.classification == Unknown
    ensures Holding(fs + StatusFields(r), held, id,
                    Some(current.(status := r.status,
                                  classification := if r.status.Some? then FromStatus(r.status.value) else Unknown)))
  {
    hide Holding, FromStatus, StripTypePrefix;
    if r.status.Some? {
      HoldingOneMore(fs, Field("status", r.status.value), held, id, Some(current));
    } else {
      assert fs + [] == fs;
    }
  }

  lemma HoldsDiagnostic(fs: seq<Field>, held: seq<Report>, id: Option<string>, current: Report, r: Recipient)
    requires Holding(fs, held, id, Some(current)) && PlainRecipient(r) && current.diagnostic.None?
    ensures Holding(fs + DiagnosticFields(r), held, id, Some(current.(diagnostic := r.diagnostic)))
  {
    hide Holding, Plain, Typed, StripTypePrefix;
    if r.diagnostic.Some? {
      KindsArePlain();
      TypeStripped("smtp", r.diagnostic.value);
      HoldingOneMore(fs, DiagnosticFields(r)[0], held, id, Some(current));
    } else {
      assert fs + [] == fs;
    }
  }

  /** One recipient's fields close the block before them and leave theirs open. */
  lemma HoldsRecipient(fs: seq<Field>, reports: seq<Report>, id: Option<string>, current: Option<Report>, r: Recipient)
    requires Holding(fs, reports, id, current) && PlainRecipient(r)
    ensures Holding(fs + RecipientFields(r), reports + AsList(current), id, Some(ReportOf(id, r)))
  {
    hide Holding, Plain, StatusFields, DiagnosticFields, AddressField, AsList;
    var held := reports + AsList(current);
    HoldsAddress(fs, reports, id, current, r.address);
    var fs1, r1 := fs + [AddressField(r.address)], Report(id, Some(r.address), None, None, Unknown);
    HoldsStatus(fs1, held, id, r1, r);
    HoldsDiagnostic(fs1 + StatusFields(r), held, id, ReportOf(id, r).(diagnostic := None), r);
    assert fs + RecipientFields(r) == fs1 + StatusFields(r) + DiagnosticFields(r);
  }

  lemma {:induction false} HoldsRecipients(fs: seq<Field>, id: Option<string>, rs: seq<Recipient>)
    returns (reports: seq<Report>, current: Option<Report>)
    requires Holding(fs, [], id, None) && forall k | 0 <= k < |rs| :: PlainRecipient(rs[k])
    ensures Holding(fs + AllRecipientFields(rs), reports, id, current)
    ensures reports + AsList(current) == ReportsOf(id, rs)
  {
    hide Holding, PlainRecipient, RecipientFields;
    if rs == [] {
      reports, current := [], None;
      assert fs + [] == fs;
    } else {
      var n := |rs| - 1;
      var before, last := HoldsRecipients(fs, id, rs[..n]);
      HoldsRecipient(fs + AllRecipientFields(rs[..n]), before, id, last, rs[n]);
      reports, current := before + AsList(last), Some(ReportOf(id, rs[n]));
      assert fs + AllRecipientFields(rs) == fs + AllRecipientFields(rs[..n]) + RecipientFields(rs[n]);
      assert ReportsOf(id, rs) == ReportsOf(id, rs[..n]) + [ReportOf(id, rs[n])];
    }
  }

  lemma HoldsQueueId(
    fs: seq<Field>, reports: seq<Report>, was: Option<string>, current: Option<Report>, id: Option<string>)
    requires Holding(fs, reports, was, current)
    ensures Holding(fs + QueueIdFields(id), reports, if id.Some? then id else was, current)
  {
    hide Holding;
    if id.Some? {
      HoldingOneMore(fs, Field("x-postfix-queue-id", id.value), reports, was, current);
    } else {
      assert fs + [] == fs;
    }
  }

  /** The fields as written mean one report for each recipient, under the queue id before them or, if
      there is none, the one after. */
  lemma FieldsMean(early: Option<string>, rs: seq<Recipient>, late: Option<string>)
    requires forall k | 0 <= k < |rs| :: PlainRecipient(rs[k])
    ensures Reports(QueueIdFields(early) + AllRecipientFields(rs) + QueueIdFields(late))
         == ReportsOf(if early.Some? then early else late, rs)
  {
    hide Holding, PlainRecipient, QueueIdFields, AllRecipientFields, Reports;
    HoldingNothing();
    HoldsQueueId([], [], None, None, early);
    var fs := QueueIdFields(early);
    assert [] + fs == fs;
    var reports, current := HoldsRecipients(fs, early, rs);
    HoldsQueueId(fs + AllRecipientFields(rs), reports, early, current, late);
    var all := fs + AllRecipientFields(rs) + QueueIdFields(late);
    HeldIsMeaning(all, reports, if late.Some? then late else early, current);
  }

  // ------------------------------------------------ from the text to them

  lemma StraightLine(name: string, value: string)
    requires Plain(name) && Plain(value)
    ensures Straight(FieldLine(name, value))
  {
  }

  predicate AllStraight(lines: seq<string>) {
    forall k | 0 <= k < |lines| :: Straight(lines[k])
  }

  lemma QueueIdIsStraight(id: Option<string>)
    requires PlainOption(id)
    ensures AllStraight(QueueIdLines(id))
  {
    hide Plain, Straight, FieldLine, Lower;
    if id.Some? {
      QueueIdName();
      StraightLine("X-Postfix-Queue-ID", id.value);
    }
  }

  lemma RecipientIsStraight(r: Recipient)
    requires PlainRecipient(r)
    ensures AllStraight(RecipientLines(r))
  {
    hide Plain, Straight, FieldLine, Typed, Lower, StripTypePrefix;
    KindsArePlain();
    RecipientName();
    TypeStripped("rfc822", r.address);
    StraightLine("Final-Recipient", Typed("rfc822", r.address));
    if r.status.Some? {
      StatusName();
      StraightLine("Status", r.status.value);
    }
    if r.diagnostic.Some? {
      DiagnosticName();
      TypeStripped("smtp", r.diagnostic.value);
      StraightLine("Diagnostic-Code", Typed("smtp", r.diagnostic.value));
    }
  }

  lemma {:induction false} RecipientsAreStraight(rs: seq<Recipient>)
    requires forall k | 0 <= k < |rs| :: PlainRecipient(rs[k])
    ensures AllStraight(AllRecipientLines(rs))
  {
    if rs != [] {
      hide PlainRecipient, RecipientLines, Straight;
      RecipientsAreStraight(rs[..|rs| - 1]);
      RecipientIsStraight(rs[|rs| - 1]);
    }
  }

  /** The text of a notification about some recipients, with the relay's queue id before them, after them
      or in both places, means exactly one report for each of them in order: its own address, status and
      words, the class of its own status, and the queue id before it or else the one after. */
  lemma NotificationIsRead(early: Option<string>, rs: seq<Recipient>, late: Option<string>)
    requires PlainOption(early) && PlainOption(late) && forall k | 0 <= k < |rs| :: PlainRecipient(rs[k])
    ensures var reports := Meaning(TextOf(NotificationLines(early, rs, late)));
            && |reports| == |rs|
            && forall k | 0 <= k < |rs| ::
                 reports[k] == Report(if early.Some? then early else late, Some(rs[k].address), rs[k].status,
                                      rs[k].diagnostic,
                                      if rs[k].status.Some? then FromStatus(rs[k].status.value) else Unknown)
  {
    hide PlainRecipient, PlainOption, QueueIdLines, AllRecipientLines, Straight, Fields, Unfolded, Lines, Reports;
    var lines := NotificationLines(early, rs, late);
    QueueIdIsStraight(early);
    QueueIdIsStraight(late);
    RecipientsAreStraight(rs);
    LinesOfText(lines);
    UnfoldedStraight(lines);
    FieldsAppend(QueueIdLines(early), AllRecipientLines(rs));
    FieldsAppend(QueueIdLines(early) + AllRecipientLines(rs), QueueIdLines(late));
    QueueIdIsRead(early);
    QueueIdIsRead(late);
    RecipientsAreRead(rs);
    FieldsMean(early, rs, late);
  }
}
