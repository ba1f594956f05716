/** How a receiver spaces, folds or capitalises its words does not decide whether an address survives. */
module DsnSpacing {
  import opened Wrappers
  import opened Text
  import opened Dsn

  // --------------------------------------------------------------- words

  lemma {:induction false} TrimStartSkips(w: string, s: string)
    requires AllSpace(w)
    ensures TrimStart(w + s) == TrimStart(s)
    decreases |w|
  {
    hide IsSpace;
    if w == [] {
      assert w + s == s;
    } else {
      assert (w + s)[1..] == w[1..] + s;
      TrimStartSkips(w[1..], s);
    }
  }

  lemma {:induction false} TrimStartStops(a: string, b: string)
    requires TrimStart(a) != []
    ensures TrimStart(a + b) == TrimStart(a) + b
    decreases |a|
  {
    hide IsSpace;
    if IsSpace(a[0]) {
      assert (a + b)[1..] == a[1..] + b;
      TrimStartStops(a[1..], b);
    }
  }

  lemma {:induction false} WordLengthIs(s: string, n: nat)
    requires n <= |s| && (forall i | 0 <= i < n :: !IsSpace(s[i])) && (n < |s| ==> IsSpace(s[n]))
    ensures WordLength(s) == n
  {
  }

  lemma FirstWord(s: string)
    requires TrimStart(s) != []
    ensures var t := TrimStart(s);
            var n := WordLength(t);
            n > 0 && Words(s) == [t[..n]] + Words(t[n..])
  {
  }

  lemma WordsSkip(w: string, s: string)
    requires AllSpace(w)
    ensures Words(w + s) == Words(s)
  {
    TrimStartSkips(w, s);
  }

  lemma WordsOfSpace(w: string)
    requires AllSpace(w)
    ensures Words(w) == []
  {
    TrimStartSkips(w, "");
    assert w + "" == w;
  }

  /** The words of two texts that whitespace separates are the words of the one and of the other. */
  lemma {:induction false} WordsAppend(a: string, b: string)
    requires b == [] || IsSpace(b[0])
    ensures Words(a + b) == Words(a) + Words(b)
    decreases |a|
  {
    hide Words, TrimStart, WordLength, IsSpace;
    var t := TrimStart(a);
    TrimStartCuts(a);
    if t == [] {
      assert a[..|a|] == a;
      WordsSkip(a, b);
      WordsOfSpace(a);
      assert [] + Words(b) == Words(b);
    } else {
      TrimStartStops(a, b);
      var n := WordLength(t);
      WordLengthIs(t + b, n);
      assert (t + b)[..n] == t[..n] && (t + b)[n..] == t[n..] + b;
      WordsAppend(t[n..], b);
      FirstWord(a);
      FirstWord(a + b);
      assert Words(a + b) == [t[..n]] + (Words(t[n..]) + Words(b));
    }
  }

  lemma WordsOfTrimmed(s: string)
    ensures Words(Trim(s)) == Words(s)
  {
    hide Words, TrimStart, TrimEnd, IsSpace;
    var t := TrimStart(s);
    TrimStartCuts(s);
    TrimEndCuts(t);
    var lead := s[..|s| - |t|];
    assert s == lead + t;
    WordsSkip(lead, t);
    var u := TrimEnd(t);
    var rest := t[|u|..];
    assert t == u + rest;
    WordsAppend(u, rest);
    WordsOfSpace(rest);
    assert Words(u) + [] == Words(u);
  }

  // ---------------------------------------------------------- lower case

  lemma LowerKeepsSpace(c: char)
    ensures IsSpace(ToLower(c)) <==> IsSpace(c)
  {
  }

  lemma {:induction false} LowerTrimStart(s: string)
    ensures TrimStart(Lower(s)) == Lower(TrimStart(s))
  {
    if s != [] {
      LowerKeepsSpace(s[0]);
      assert Lower(s)[1..] == Lower(s[1..]);
      LowerTrimStart(s[1..]);
    }
  }

  lemma {:induction false} LowerTrimEnd(s: string)
    ensures TrimEnd(Lower(s)) == Lower(TrimEnd(s))
  {
    if s != [] {
      LowerKeepsSpace(s[|s| - 1]);
      assert Lower(s)[..|s| - 1] == Lower(s[..|s| - 1]);
      LowerTrimEnd(s[..|s| - 1]);
    }
  }

  /** What a text says, whatever its case and spacing. */
  function Spoken(s: string): seq<string> {
    Words(Lower(s))
  }

  lemma SpokenTrimmed(s: string)
    ensures Spoken(Trim(s)) == Spoken(s)
  {
    LowerTrimStart(s);
    LowerTrimEnd(TrimStart(s));
    WordsOfTrimmed(Lower(s));
  }

  lemma SpokenAppend(a: string, b: string)
    requires b == [] || IsSpace(b[0])
    ensures Spoken(a + b) == Spoken(a) + Spoken(b)
  {
    LowerConcat(a, b);
    if b != [] {
      LowerKeepsSpace(b[0]);
    }
    WordsAppend(Lower(a), Lower(b));
  }

  lemma SpokenSkip(w: string, s: string)
    requires AllSpace(w)
    ensures Spoken(w + s) == Spoken(s)
  {
    LowerConcat(w, s);
    forall i | 0 <= i < |w|
      ensures IsSpace(Lower(w)[i])
    {
      LowerKeepsSpace(w[i]);
    }
    WordsSkip(Lower(w), Lower(s));
  }

  lemma TrimmedAway(s: string)
    ensures Trim(s) == [] <==> Spoken(s) == []
  {
    SpokenTrimmed(s);
    var t := Trim(s);
    TrimmedEnds(s);
    if t != [] {
      LowerKeepsSpace(t[0]);
      assert TrimStart(Lower(t)) == Lower(t);
    }
  }

  // ------------------------------------------------------ the type prefix

  /** The words after the first semicolon, if there is one. */
  function AfterSemicolon(words: seq<string>): Option<seq<string>> {
    if words == [] then None
    else
      match SplitOnce(words[0], ';')
      case Some(parts) => Some((if parts.1 == [] then [] else [parts.1]) + words[1..])
      case None => AfterSemicolon(words[1..])
  }

  lemma OneWord(y: string)
    requires forall i | 0 <= i < |y| :: !IsSpace(y[i])
    ensures Words(y) == if y == [] then [] else [y]
  {
    if y != [] {
      WordLengthIs(y, |y|);
      assert y[..|y|] == y && y[|y|..] == [];
    }
  }

  lemma SemicolonStays(p: string, r: string)
    ensures var t := TrimStart(p + ";" + r);
            |p| + 1 + |r| - |t| <= |p| && t != [] && (forall i | 0 <= i < WordLength(t) :: !IsSpace(t[i]))
  {
    var s := p + ";" + r;
    var t := TrimStart(s);
    TrimStartCuts(s);
    var gone := |s| - |t|;
    assert s[|p|] == ';' && !IsSpace(s[|p|]);
    assert !AllSpace(s[..|p| + 1]);
  }

  lemma WordWithSemicolon(p: string, y: string, rest: seq<string>)
    requires ';' !in p
    ensures AfterSemicolon([p + ";" + y] + rest) == Some((if y == [] then [] else [y]) + rest)
  {
    SplitOnceAt(p, ';', y);
    assert ([p + ";" + y] + rest)[1..] == rest;
  }

  lemma WordWithout(word: string, rest: seq<string>)
    requires ';' !in word
    ensures AfterSemicolon([word] + rest) == AfterSemicolon(rest)
  {
  }

  lemma InFirstWord(t: string, j: nat, n: nat, head: string, r: string)
    requires j < n <= |t| && t[j] == ';' && t[..j] == head && ';' !in head && t[j + 1..] == r
    requires (forall i | 0 <= i < n :: !IsSpace(t[i])) && (n < |t| ==> IsSpace(t[n]))
    ensures AfterSemicolon([t[..n]] + Words(t[n..])) == Some(Words(r))
  {
    hide Words, IsSpace, SplitOnce, AfterSemicolon;
    var y := t[j + 1..n];
    assert t[..n] == head + ";" + y;
    WordWithSemicolon(head, y, Words(t[n..]));
    assert r == y + t[n..];
    WordsAppend(y, t[n..]);
    OneWord(y);
  }

  lemma {:induction false} SemicolonSplitsWords(p: string, r: string)
    requires ';' !in p
    ensures AfterSemicolon(Words(p + ";" + r)) == Some(Words(r))
    decreases |p|
  {
    hide Words, TrimStart, WordLength, IsSpace, SplitOnce, AfterSemicolon;
    var s := p + ";" + r;
    SemicolonStays(p, r);
    var t := TrimStart(s);
    TrimStartCuts(s);
    var gone := |s| - |t|;
    var j := |p| - gone;
    var n := WordLength(t);
    FirstWord(s);
    assert t == s[gone..] && t[j] == ';' && t[..j] == p[gone..] && t[j + 1..] == r;
    if j < n {
      InFirstWord(t, j, n, p[gone..], r);
    } else {
      assert t[n..] == t[n..j] + ";" + r;
      assert ';' !in t[..n] && ';' !in t[n..j];
      WordWithout(t[..n], Words(t[n..]));
      SemicolonSplitsWords(t[n..j], r);
    }
  }

  lemma {:induction false} NoSemicolonInWords(s: string)
    requires ';' !in s
    ensures AfterSemicolon(Words(s)).None?
    decreases |s|
  {
    var t := TrimStart(s);
    TrimStartCuts(s);
    if t != [] {
      var n := WordLength(t);
      assert ';' !in t && ';' !in t[..n];
      NoSemicolonInWords(t[n..]);
    }
  }

  lemma LowerHasSemicolon(s: string)
    requires ';' !in s
    ensures ';' !in Lower(s)
  {
  }

  lemma SpokenAfterPrefix(p: string, r: string)
    requires ';' !in p
    ensures AfterSemicolon(Spoken(p + ";" + r)) == Some(Spoken(r))
  {
    LowerHasSemicolon(p);
    assert Lower(";") == ";";
    LowerConcat(p + ";", r);
    LowerConcat(p, ";");
    hide Words, Lower, AfterSemicolon;
    SemicolonSplitsWords(Lower(p), Lower(r));
  }

  /** What is left of a value without its type depends on its words alone. */
  lemma SpokenWithoutPrefix(v: string)
    ensures Spoken(StripTypePrefix(v)) == var rest := AfterSemicolon(Spoken(v));
                                          if rest.Some? then rest.value else Spoken(v)
  {
    hide Spoken, AfterSemicolon, Trim;
    match SplitOnce(v, ';')
    case Some(parts) =>
      SpokenAfterPrefix(parts.0, parts.1);
      SpokenTrimmed(parts.1);
    case None =>
      SpokenWithoutSemicolon(v);
      SpokenTrimmed(v);
  }

  lemma SpokenWithoutSemicolon(v: string)
    requires ';' !in v
    ensures AfterSemicolon(Spoken(v)).None?
  {
    LowerHasSemicolon(v);
    NoSemicolonInWords(Lower(v));
  }

  // -------------------------------------------------------------- fields

  /** Fields that differ at most in the case and spacing of diagnostics. */
  predicate AlikeField(f: Field, g: Field) {
    f.name == g.name && (f.value == g.value || (f.name == DIAGNOSTIC_CODE && Spoken(f.value) == Spoken(g.value)))
  }

  predicate Alike(fs: seq<Field>, gs: seq<Field>) {
    |fs| == |gs| && forall i | 0 <= i < |fs| :: AlikeField(fs[i], gs[i])
  }

  lemma {:induction false} AlikeStarts(fs: seq<Field>, gs: seq<Field>)
    requires Alike(fs, gs)
    ensures Starts(fs) == Starts(gs)
  {
    if fs != [] {
      var last := |fs| - 1;
      assert AlikeField(fs[last], gs[last]);
      AlikeStarts(fs[..last], gs[..last]);
    }
  }

  lemma {:induction false} AlikeLastNamed(fs: seq<Field>, gs: seq<Field>, name: string, lo: nat, hi: nat)
    requires Alike(fs, gs) && lo <= hi <= |fs|
    ensures var v, w := LastNamed(fs, name, lo, hi), LastNamed(gs, name, lo, hi);
            && (name != DIAGNOSTIC_CODE ==> v == w)
            && (v.Some? <==> w.Some?)
            && (v.Some? ==> Spoken(v.value) == Spoken(w.value))
    decreases hi
  {
    if lo < hi {
      assert AlikeField(fs[hi - 1], gs[hi - 1]);
      AlikeLastNamed(fs, gs, name, lo, hi - 1);
    }
  }

  lemma AlikeDiagnostics(v: string, w: string)
    requires Spoken(v) == Spoken(w)
    ensures NamesAMissingMailbox(StripTypePrefix(v)) <==> NamesAMissingMailbox(StripTypePrefix(w))
  {
    SpokenWithoutPrefix(v);
    SpokenWithoutPrefix(w);
    assert Flat(StripTypePrefix(v)) == Flat(StripTypePrefix(w));
  }

  /** Reports that say the same about the address. */
  predicate SameNews(r: Report, q: Report) {
    && r.relayQueueId == q.relayQueueId && r.finalRecipient == q.finalRecipient
    && r.status == q.status && r.classification == q.classification
    && (ShouldSuppress(r) <==> ShouldSuppress(q))
  }

  predicate SameNewsAll(rs: seq<Report>, qs: seq<Report>) {
    |rs| == |qs| && forall k | 0 <= k < |rs| :: SameNews(rs[k], qs[k])
  }

  lemma AlikeReport(fs: seq<Field>, gs: seq<Field>, k: nat)
    requires Alike(fs, gs) && Starts(fs) == Starts(gs) && k < |Starts(fs)|
    ensures SameNews(ReportAt(fs, k), ReportAt(gs, k))
  {
    hide StripTypePrefix, FromStatus, RecipientIsTheProblem, NamesAMissingMailbox, LastNamed, Starts, Spoken;
    var start, end := Starts(fs)[k], BlockEnd(fs, k);
    AlikeLastNamed(fs, gs, STATUS, start + 1, end);
    AlikeLastNamed(fs, gs, DIAGNOSTIC_CODE, start + 1, end);
    AlikeLastNamed(fs, gs, QUEUE_ID, 0, start);
    AlikeLastNamed(fs, gs, QUEUE_ID, 0, |fs|);
    assert AlikeField(fs[start], gs[start]);
    var v, w := LastNamed(fs, DIAGNOSTIC_CODE, start + 1, end), LastNamed(gs, DIAGNOSTIC_CODE, start + 1, end);
    if v.Some? {
      AlikeDiagnostics(v.value, w.value);
    }
  }

  lemma AlikeReports(fs: seq<Field>, gs: seq<Field>)
    requires Alike(fs, gs)
    ensures SameNewsAll(Reports(fs), Reports(gs))
  {
    AlikeStarts(fs, gs);
    forall k | 0 <= k < |Starts(fs)|
      ensures SameNews(Reports(fs)[k], Reports(gs)[k])
    {
      AlikeReport(fs, gs, k);
    }
  }

  // --------------------------------------------------------------- lines

  /** Lines that are equal, or the same diagnostic in other case or spacing. */
  ghost predicate AlikeLine(x: string, y: string) {
    x == y || exists head, v, w ::
      && ':' !in head && Lower(Trim(head)) == DIAGNOSTIC_CODE
      && x == head + ":" + v && y == head + ":" + w && Spoken(v) == Spoken(w)
  }

  lemma AlikeFieldOf(x: string, y: string)
    requires AlikeLine(x, y)
    ensures FieldOf(x).Some? <==> FieldOf(y).Some?
    ensures FieldOf(x).Some? ==> AlikeField(FieldOf(x).value, FieldOf(y).value)
  {
    hide Trim, SplitOnce, Lower, Spoken;
    if x != y {
      var head, v, w :|
        && ':' !in head && Lower(Trim(head)) == DIAGNOSTIC_CODE
        && x == head + ":" + v && y == head + ":" + w && Spoken(v) == Spoken(w);
      SplitOnceAt(head, ':', v);
      SplitOnceAt(head, ':', w);
      TrimmedAway(v);
      TrimmedAway(w);
      SpokenTrimmed(v);
      SpokenTrimmed(w);
    }
  }

  lemma {:induction false} AlikeLines(xs: seq<string>, ys: seq<string>)
    requires |xs| == |ys| && forall i | 0 <= i < |xs| :: AlikeLine(xs[i], ys[i])
    ensures Alike(Fields(xs), Fields(ys))
  {
    hide AlikeLine, AlikeField, FieldOf;
    if xs != [] {
      var last := |xs| - 1;
      AlikeLines(xs[..last], ys[..last]);
      AlikeFieldOf(xs[last], ys[last]);
    }
  }

  lemma {:induction false} UnfoldedConcat(pre: seq<string>, rest: seq<string>)
    requires rest == [] || !Continues(rest[0])
    ensures Unfolded(pre + rest) == Unfolded(pre) + Unfolded(rest)
    decreases |rest|
  {
    hide Unfolded, Continues, Extended;
    if rest == [] {
      assert pre + rest == pre;
      UnfoldedNothing();
    } else {
      var last := |rest| - 1;
      var front := rest[..last];
      assert rest == front + [rest[last]] && pre + rest == (pre + front) + [rest[last]];
      UnfoldedConcat(pre, front);
      UnfoldedOneMore(front, rest[last]);
      UnfoldedOneMore(pre + front, rest[last]);
      if front != [] {
        ExtendedConcat(Unfolded(pre), Unfolded(front), rest[last]);
      } else {
        assert pre + front == pre;
        UnfoldedNothing();
      }
    }
  }

  lemma ExtendedConcat(u: seq<string>, v: seq<string>, line: string)
    requires v != []
    ensures Extended(u + v, line) == u + Extended(v, line)
    ensures u + (v + [line]) == (u + v) + [line]
  {
  }

  /** What continuation lines add to the line they continue. */
  function Suffix(more: seq<string>): (s: string)
    ensures s == [] || IsSpace(s[0])
  {
    if more == [] then "" else " " + Trim(more[0]) + Suffix(more[1..])
  }

  lemma {:induction false} GlueIsSuffix(head: string, more: seq<string>)
    ensures Glue(head, more) == head + Suffix(more)
    decreases |more|
  {
    hide Trim;
    if more == [] {
      assert head + "" == head;
    } else {
      GlueIsSuffix(head + " " + Trim(more[0]), more[1..]);
      assert head + " " + Trim(more[0]) + Suffix(more[1..]) == head + (" " + Trim(more[0]) + Suffix(more[1..]));
    }
  }

  /** One line and what continues it, in the middle of a document. */
  lemma UnfoldedAround(pre: seq<string>, line: string, more: seq<string>, post: seq<string>)
    requires !Continues(line) && (forall i | 0 <= i < |more| :: Continues(more[i]))
    requires post == [] || !Continues(post[0])
    ensures Unfolded(pre + ([line] + more + post)) == Unfolded(pre) + ([line + Suffix(more)] + Unfolded(post))
  {
    hide Continues, Unfolded, Suffix, Glue, Continuations;
    var rest := [line] + more + post;
    assert rest[0] == line;
    UnfoldedConcat(pre, rest);
    assert rest[1..] == more + post;
    ContinuationsAre(more, post);
    UnfoldedHead(rest, |more|);
    assert rest[1..1 + |more|] == more && rest[1 + |more|..] == post;
    GlueIsSuffix(line, more);
  }

  lemma {:induction false} ContinuationsAre(more: seq<string>, post: seq<string>)
    requires (forall i | 0 <= i < |more| :: Continues(more[i])) && (post == [] || !Continues(post[0]))
    ensures Continuations(more + post) == |more|
  {
    if more != [] {
      assert (more + post)[1..] == more[1..] + post;
      ContinuationsAre(more[1..], post);
    } else {
      assert more + post == post;
    }
  }

  /** What a document of these lines says. */
  function NewsIn(lines: seq<string>): seq<Report> {
    Reports(Fields(Unfolded(lines)))
  }

  lemma AlikeByWords(head: string, v: string, w: string)
    requires ':' !in head && Lower(Trim(head)) == DIAGNOSTIC_CODE && Spoken(v) == Spoken(w)
    ensures AlikeLine(head + ":" + v, head + ":" + w)
  {
  }

  lemma AlikeSelf(x: string)
    ensures AlikeLine(x, x)
  {
  }

  lemma AlikeAround(before: seq<string>, x: string, y: string, after: seq<string>)
    requires AlikeLine(x, y)
    ensures Alike(Fields(before + ([x] + after)), Fields(before + ([y] + after)))
  {
    hide AlikeLine, Alike, Fields;
    var xs, ys := before + ([x] + after), before + ([y] + after);
    forall i | 0 <= i < |xs|
      ensures AlikeLine(xs[i], ys[i])
    {
      AlikeSelf(xs[i]);
      assert i != |before| ==> xs[i] == ys[i];
    }
    AlikeLines(xs, ys);
  }

  predicate NamesDiagnostic(head: string) {
    head != [] && ':' !in head && !Continues(head) && Lower(Trim(head)) == DIAGNOSTIC_CODE
  }

  predicate AllContinue(more: seq<string>) {
    forall i | 0 <= i < |more| :: Continues(more[i])
  }

  lemma LineStartsAsHead(head: string, v: string)
    requires head != [] && !Continues(head)
    ensures !Continues(head + ":" + v)
  {
  }

  /** A diagnostic line written in two ways, each possibly folded, in the same place of two documents
      that are otherwise the same: if the words are the same, so is the news. */
  lemma SameWordsSameNews(pre: seq<string>, head: string, v: string, moreV: seq<string>, w: string, moreW: seq<string>,
                          post: seq<string>)
    requires NamesDiagnostic(head) && AllContinue(moreV) && AllContinue(moreW)
    requires post == [] || !Continues(post[0])
    requires Spoken(v + Suffix(moreV)) == Spoken(w + Suffix(moreW))
    ensures SameNewsAll(NewsIn(pre + ([head + ":" + v] + moreV + post)),
                        NewsIn(pre + ([head + ":" + w] + moreW + post)))
  {
    hide Unfolded, Fields, Reports, Spoken, Suffix, Continues, Trim, Lower, AlikeLine, Alike, SameNewsAll;
    var x, y := head + ":" + v, head + ":" + w;
    LineStartsAsHead(head, v);
    LineStartsAsHead(head, w);
    UnfoldedAround(pre, x, moreV, post);
    UnfoldedAround(pre, y, moreW, post);
    var sv, sw := Suffix(moreV), Suffix(moreW);
    assert x + sv == head + ":" + (v + sv);
    assert y + sw == head + ":" + (w + sw);
    AlikeByWords(head, v + sv, w + sw);
    AlikeAround(Unfolded(pre), x + sv, y + sw, Unfolded(post));
    AlikeReports(Fields(Unfolded(pre) + ([x + sv] + Unfolded(post))),
                 Fields(Unfolded(pre) + ([y + sw] + Unfolded(post))));
  }

  /** The words of a folded value are those of the unfolded one. */
  lemma SpokenFolded(a: string, w: string, b: string, indent: string, s: string)
    requires w != [] && AllSpace(w) && AllSpace(indent) && (s == [] || IsSpace(s[0]))
    ensures Spoken(a + w + b + s) == Spoken(a + (" " + Trim(indent + b) + s))
  {
    var t := Trim(indent + b);
    hide Spoken, Trim;
    assert a + w + b + s == a + (w + (b + s));
    SpokenAppend(a, w + (b + s));
    SpokenSkip(w, b + s);
    SpokenAppend(b, s);
    assert " " + t + s == " " + (t + s);
    SpokenAppend(a, " " + (t + s));
    SpokenSkip(" ", t + s);
    SpokenAppend(t, s);
    SpokenTrimmed(indent + b);
    SpokenSkip(indent, b);
  }

  lemma FoldedContinues(indent: string, b: string, more: seq<string>)
    requires Continues(indent) && AllContinue(more)
    ensures AllContinue([indent + b] + more)
  {
  }

  lemma SuffixHead(line: string, more: seq<string>)
    ensures Suffix([line] + more) == " " + Trim(line) + Suffix(more)
  {
  }

  lemma FoldedSameNews(pre: seq<string>, head: string, a: string, w: string, b: string, indent: string,
                       more: seq<string>, post: seq<string>)
    requires NamesDiagnostic(head) && AllContinue(more) && (post == [] || !Continues(post[0]))
    requires w != [] && AllSpace(w) && AllSpace(indent) && Continues(indent)
    ensures SameNewsAll(NewsIn(pre + ([head + ":" + (a + w + b)] + more + post)),
                        NewsIn(pre + ([head + ":" + a] + ([indent + b] + more) + post)))
  {
    hide Spoken, Trim, NewsIn, Suffix, SameNewsAll, NamesDiagnostic, IsSpace, AllContinue, AllSpace, Continues;
    var folded := [indent + b] + more;
    FoldedContinues(indent, b, more);
    SuffixHead(indent + b, more);
    SpokenFolded(a, w, b, indent, Suffix(more));
    SameWordsSameNews(pre, head, a + w + b, more, a, folded, post);
  }

  lemma SpacedSameNews(pre: seq<string>, head: string, v: string, w: string, more: seq<string>, post: seq<string>)
    requires NamesDiagnostic(head) && AllContinue(more) && (post == [] || !Continues(post[0]))
    requires Words(Lower(v)) == Words(Lower(w))
    ensures SameNewsAll(NewsIn(pre + ([head + ":" + v] + more + post)), NewsIn(pre + ([head + ":" + w] + more + post)))
  {
    assert Spoken(v) == Spoken(w);
    hide Spoken, NewsIn, SameNewsAll, NamesDiagnostic, AllContinue, Continues, IsSpace;
    SpokenAppend(v, Suffix(more));
    SpokenAppend(w, Suffix(more));
    SameWordsSameNews(pre, head, v, more, w, more, post);
  }

  /** Folding a diagnostic at any run of whitespace, and going on in a new line that starts with a space or
      a tab, changes neither the recipients nor which of them are suppressed. */
  lemma Refolding(pre: seq<string>, head: string, a: string, w: string, b: string, indent: string,
                  more: seq<string>, post: seq<string>)
    requires NamesDiagnostic(head) && AllContinue(more) && (post == [] || !Continues(post[0]))
    requires w != [] && AllSpace(w) && AllSpace(indent) && indent != "" && (indent[0] == ' ' || indent[0] == '\t')
    ensures var flat := NewsIn(pre + ([head + ":" + (a + w + b)] + more + post));
            var folded := NewsIn(pre + ([head + ":" + a] + ([indent + b] + more) + post));
            && |folded| == |flat|
            && forall k | 0 <= k < |flat| ::
                 && folded[k].finalRecipient == flat[k].finalRecipient
                 && folded[k].relayQueueId == flat[k].relayQueueId && folded[k].status == flat[k].status
                 && (ShouldSuppress(folded[k]) <==> ShouldSuppress(flat[k]))
  {
    assert Continues(indent);
    hide NewsIn, NamesDiagnostic, AllContinue, Continues, AllSpace, ShouldSuppress;
    FoldedSameNews(pre, head, a, w, b, indent, more, post);
  }

  /** Neither does writing it in other case or with other spacing. */
  lemma CaseAndSpacing(pre: seq<string>, head: string, v: string, w: string, more: seq<string>, post: seq<string>)
    requires NamesDiagnostic(head) && AllContinue(more) && (post == [] || !Continues(post[0]))
    requires Words(Lower(v)) == Words(Lower(w))
    ensures var one := NewsIn(pre + ([head + ":" + v] + more + post));
            var other := NewsIn(pre + ([head + ":" + w] + more + post));
            && |other| == |one|
            && forall k | 0 <= k < |one| ::
                 && other[k].finalRecipient == one[k].finalRecipient
                 && other[k].relayQueueId == one[k].relayQueueId && other[k].status == one[k].status
                 && (ShouldSuppress(other[k]) <==> ShouldSuppress(one[k]))
  {
    hide NewsIn, NamesDiagnostic, AllContinue, Continues, Words, ShouldSuppress;
    SpacedSameNews(pre, head, v, w, more, post);
  }
}
