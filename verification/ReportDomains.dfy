/** Where a DMARC record sends its reports, and which of those places must publish their consent
    (section 7.1 of RFC 7489). */
module ReportDomains {
  import opened Wrappers
  import opened Text

  // ------------------------------------------------ organizational domains

  function TrimDots(s: string): (r: string)
    ensures |r| <= |s|
    ensures r == s[..|r|] && forall i | |r| <= i < |s| :: s[i] == '.'
    ensures r != [] ==> r[|r| - 1] != '.'
  {
    if s != [] && s[|s| - 1] == '.' then TrimDots(s[..|s| - 1]) else s
  }

  /** The last two labels, in lower case. */
  function OrganizationalDomain(domain: string): string {
    Lower(Join(LastTwo(Split(TrimDots(domain), '.')), "."))
  }

  function LastTwo(labels: seq<string>): seq<string> {
    if |labels| <= 2 then labels else labels[|labels| - 2..]
  }

  lemma TrimDotsIs(s: string, n: nat)
    requires n <= |s| && (forall i | n <= i < |s| :: s[i] == '.') && (n > 0 ==> s[n - 1] != '.')
    ensures TrimDots(s) == s[..n]
  {
  }

  lemma LowerDot(s: string)
    ensures '.' in s <==> '.' in Lower(s)
    ensures forall i | 0 <= i < |s| :: Lower(s)[i] == '.' <==> s[i] == '.'
  {
  }

  function LowerAll(parts: seq<string>): (r: seq<string>)
    ensures |r| == |parts| && forall i | 0 <= i < |parts| :: r[i] == Lower(parts[i])
  {
    seq(|parts|, i requires 0 <= i < |parts| => Lower(parts[i]))
  }

  lemma {:induction false} SplitLower(s: string)
    ensures Split(Lower(s), '.') == LowerAll(Split(s, '.'))
    decreases |s|
  {
    hide Split, Lower;
    if '.' in s {
      var parts := SplitOnce(s, '.').value;
      var head, more := parts.0, parts.1;
      LowerAround(head, more);
      SplitAt(head, '.', more);
      SplitAt(Lower(head), '.', Lower(more));
      SplitLower(more);
      assert LowerAll([head] + Split(more, '.')) == [Lower(head)] + LowerAll(Split(more, '.'));
    } else {
      LowerDot(s);
      SplitWhole(s, '.');
      SplitWhole(Lower(s), '.');
    }
  }

  lemma LowerAround(head: string, more: string)
    requires '.' !in head
    ensures Lower(head + ['.'] + more) == Lower(head) + ['.'] + Lower(more) && '.' !in Lower(head)
  {
    LowerDot(head);
    LowerConcat(head, ['.'] + more);
    LowerConcat(['.'], more);
    assert head + ['.'] + more == head + (['.'] + more);
    assert Lower(['.']) == ['.'];
  }

  lemma {:induction false} JoinLower(parts: seq<string>, sep: string)
    requires Lower(sep) == sep
    ensures Join(LowerAll(parts), sep) == Lower(Join(parts, sep))
    decreases |parts|
  {
    if |parts| > 1 {
      JoinLower(parts[1..], sep);
      assert LowerAll(parts)[1..] == LowerAll(parts[1..]);
      LowerConcat(parts[0] + sep, Join(parts[1..], sep));
      LowerConcat(parts[0], sep);
    }
  }

  lemma LowerTwice(s: string)
    ensures Lower(Lower(s)) == Lower(s)
  {
  }

  lemma TrimDotsLower(domain: string, dots: string)
    requires forall i | 0 <= i < |dots| :: dots[i] == '.'
    ensures TrimDots(Lower(domain) + dots) == Lower(TrimDots(domain))
  {
    var n := |TrimDots(domain)|;
    LowerDot(domain);
    TrimDotsIs(Lower(domain) + dots, n);
    assert (Lower(domain) + dots)[..n] == Lower(domain[..n]);
  }

  lemma LastTwoLower(labels: seq<string>)
    ensures LastTwo(LowerAll(labels)) == LowerAll(LastTwo(labels))
  {
  }

  /** Neither case nor trailing dots matter. */
  lemma BlindToCaseAndDots(domain: string, dots: string)
    requires forall i | 0 <= i < |dots| :: dots[i] == '.'
    ensures OrganizationalDomain(Lower(domain) + dots) == OrganizationalDomain(domain)
  {
    hide TrimDots, Split, Join, LastTwo;
    var labels := Split(TrimDots(domain), '.');
    TrimDotsLower(domain, dots);
    SplitLower(TrimDots(domain));
    LastTwoLower(labels);
    JoinLower(LastTwo(labels), ".");
    LowerTwice(Join(LastTwo(labels), "."));
  }

  lemma {:induction false} LastLabel(s: string)
    requires s != [] && s[|s| - 1] != '.'
    ensures var labels := Split(s, '.'); var last := labels[|labels| - 1];
            last != [] && last[|last| - 1] == s[|s| - 1]
    decreases |s|
  {
    var i := IndexOf(s, '.');
    if i < |s| {
      LastLabel(s[i + 1..]);
    }
  }

  /** An organizational domain is its own. */
  lemma Idempotent(domain: string)
    ensures OrganizationalDomain(OrganizationalDomain(domain)) == OrganizationalDomain(domain)
  {
    var org := Join(LastTwo(Split(TrimDots(domain), '.')), ".");
    LastTwoStay(TrimDots(domain));
    TrimDotsIs(org, |org|);
    assert org[..|org|] == org;
    hide TrimDots, Split, Join;
    BlindToCaseAndDots(org, []);
    assert Lower(org) + [] == Lower(org);
  }

  lemma LastTwoStay(t: string)
    requires t != [] ==> t[|t| - 1] != '.'
    ensures var org := Join(LastTwo(Split(t, '.')), ".");
            LastTwo(Split(org, '.')) == LastTwo(Split(t, '.')) && (org != [] ==> org[|org| - 1] != '.')
  {
    if t != [] {
      LastLabel(t);
      TwoLabels(LastTwo(Split(t, '.')));
    }
  }

  lemma {:induction false} SplitConcat(rest: string, tail: string)
    ensures Split(rest + "." + tail, '.') == Split(rest, '.') + Split(tail, '.')
    decreases |rest|
  {
    hide Split;
    if '.' in rest {
      var parts := SplitOnce(rest, '.').value;
      var head, more := parts.0, parts.1;
      assert rest + "." + tail == head + ['.'] + (more + "." + tail);
      SplitAt(head, '.', more + "." + tail);
      SplitAt(head, '.', more);
      SplitConcat(more, tail);
      assert [head] + Split(more, '.') + Split(tail, '.') == [head] + (Split(more, '.') + Split(tail, '.'));
    } else {
      assert rest + "." + tail == rest + ['.'] + tail;
      SplitAt(rest, '.', tail);
      SplitWhole(rest, '.');
    }
  }

  /** The organizational domain of a name with two labels or more is its last two, in lower case; that of
      a single label is the label. */
  lemma LastTwoLabels(rest: string, a: string, b: string)
    requires '.' !in a && '.' !in b && b != ""
    ensures OrganizationalDomain(rest + "." + (a + "." + b)) == Lower(a + "." + b)
    ensures OrganizationalDomain(a + "." + b) == Lower(a + "." + b)
    ensures OrganizationalDomain(b) == Lower(b)
  {
    var two := a + "." + b;
    var all := rest + "." + two;
    SplitWhole(b, '.');
    SplitConcat(a, b);
    SplitWhole(a, '.');
    SplitConcat(rest, two);
    TrimDotsIs(b, |b|);
    TrimDotsIs(two, |two|);
    TrimDotsIs(all, |all|);
    hide Split, TrimDots;
    assert b[..|b|] == b && two[..|two|] == two && all[..|all|] == all;
    assert Split(two, '.') == [a, b];
    assert Join([a, b], ".") == two by { assert [a, b][1..] == [b]; }
    assert LastTwo(Split(rest, '.') + [a, b]) == [a, b];
  }

  lemma TwoLabels(kept: seq<string>)
    requires 1 <= |kept| <= 2 && forall k | 0 <= k < |kept| :: '.' !in kept[k]
    requires kept[|kept| - 1] != []
    ensures var org := Join(kept, ".");
            Split(org, '.') == kept && org != [] && org[|org| - 1] != '.'
  {
    if |kept| == 1 {
      SplitWhole(kept[0], '.');
    } else {
      assert Join(kept, ".") == kept[0] + ['.'] + kept[1];
      SplitAt(kept[0], '.', kept[1]);
      SplitWhole(kept[1], '.');
    }
  }

  // --------------------------------------------------- report destinations

  function LastIndexOf(s: string, c: char): (r: Option<nat>)
    ensures r.Some? ==> r.value < |s| && s[r.value] == c && c !in s[r.value + 1..]
    ensures r.None? ==> c !in s
  {
    if s == [] then None
    else if s[|s| - 1] == c then Some(|s| - 1)
    else LastIndexOf(s[..|s| - 1], c)
  }

  /** The normalised host of one destination, if it is a mail address. */
  function HostOf(uri: string): Option<string> {
    var u := Trim(uri);
    if |u| < 7 || Lower(u[..7]) != "mailto:" then None
    else
      var addr := Split(u[7..], '!')[0];
      var at := LastIndexOf(addr, '@');
      if at.None? then None
      else
        var host := Lower(TrimDots(Trim(addr[at.value + 1..])));
        if host == "" then None else Some(host)
  }

  /** The hosts of a tag, in order, repetitions included. */
  function HostsOfTag(tag: string): seq<string> {
    var parts := SplitOnce(tag, '=');
    if parts.None? || Lower(Trim(parts.value.0)) != "rua" then []
    else HostsOfUris(Split(parts.value.1, ','))
  }

  function HostsOfUris(uris: seq<string>): seq<string> {
    if uris == [] then []
    else HostsOfUris(uris[..|uris| - 1]) + AsList(HostOf(uris[|uris| - 1]))
  }

  function HostsOfTags(tags: seq<string>): seq<string> {
    if tags == [] then [] else HostsOfTags(tags[..|tags| - 1]) + HostsOfTag(tags[|tags| - 1])
  }

  function Hosts(record: string): seq<string> {
    HostsOfTags(Split(record, ';'))
  }

  /** Each value once, where it first occurs. */
  function FirstSeen(hosts: seq<string>): seq<string> {
    if hosts == [] then []
    else
      var before, last := FirstSeen(hosts[..|hosts| - 1]), hosts[|hosts| - 1];
      if last in before then before else before + [last]
  }

  method RuaDomains(record: string) returns (out: seq<string>)
    ensures out == FirstSeen(Hosts(record))
    ensures (forall i, j | 0 <= i < j < |out| :: out[i] != out[j]) && forall h :: h in out <==> h in Hosts(record)
  {
    out := [];
    var tags := Split(record, ';');
    for i := 0 to |tags|
      invariant out == FirstSeen(HostsOfTags(tags[..i]))
    {
      hide *;
      var tag := tags[i];
      ghost var seen := HostsOfTags(tags[..i]);
      NextTag(tags, i);
      var parts := SplitOnce(tag, '=');
      if parts.None? || Lower(Trim(parts.value.0)) != "rua" {
        NotReports(tag);
        assert seen + [] == seen;
        continue;
      }
      var uris := Split(parts.value.1, ',');
      ReportsTag(tag);
      NoUris();
      assert uris[..0] == [] && seen + [] == seen;
      for j := 0 to |uris|
        invariant out == FirstSeen(seen + HostsOfUris(uris[..j]))
      {
        NextUri(uris, j, seen);
        var host := HostOf(uris[j]);
        if host.Some? && host.value !in out {
          out := out + [host.value];
        }
      }
      assert uris[..|uris|] == uris;
    }
    assert tags[..|tags|] == tags;
    FirstSeenIs(Hosts(record));
  }

  lemma NextTag(tags: seq<string>, i: nat)
    requires i < |tags|
    ensures HostsOfTags(tags[..i + 1]) == HostsOfTags(tags[..i]) + HostsOfTag(tags[i])
  {
    assert tags[..i + 1][..i] == tags[..i];
  }

  lemma NotReports(tag: string)
    requires var parts := SplitOnce(tag, '='); parts.None? || Lower(Trim(parts.value.0)) != "rua"
    ensures HostsOfTag(tag) == []
  {
  }

  lemma ReportsTag(tag: string)
    requires var parts := SplitOnce(tag, '='); parts.Some? && Lower(Trim(parts.value.0)) == "rua"
    ensures HostsOfTag(tag) == HostsOfUris(Split(SplitOnce(tag, '=').value.1, ','))
  {
  }

  lemma NoUris()
    ensures HostsOfUris([]) == []
  {
  }

  lemma NextUri(uris: seq<string>, j: nat, seen: seq<string>)
    requires j < |uris|
    ensures var before, host := FirstSeen(seen + HostsOfUris(uris[..j])), HostOf(uris[j]);
            FirstSeen(seen + HostsOfUris(uris[..j + 1])) ==
              if host.Some? && host.value !in before then before + [host.value] else before
  {
    var sofar := seen + HostsOfUris(uris[..j]);
    assert uris[..j + 1][..j] == uris[..j];
    var all := seen + HostsOfUris(uris[..j + 1]);
    if HostOf(uris[j]).Some? {
      assert all == sofar + [HostOf(uris[j]).value];
      assert all[..|all| - 1] == sofar;
    } else {
      assert all == sofar;
    }
  }

  /** The same hosts, none twice. */
  lemma {:induction false} FirstSeenIs(hosts: seq<string>)
    ensures var r := FirstSeen(hosts);
            (forall h :: h in r <==> h in hosts) && forall i, j | 0 <= i < j < |r| :: r[i] != r[j]
  {
    FirstSeenDistinct(hosts);
  }

  lemma {:induction false} FirstSeenDistinct(hosts: seq<string>)
    ensures var r := FirstSeen(hosts); (forall h :: h in r <==> h in hosts) && Distinct(r)
  {
    if hosts != [] {
      var before, last := hosts[..|hosts| - 1], hosts[|hosts| - 1];
      FirstSeenDistinct(before);
      assert hosts == before + [last];
    }
  }

  /** And in the order they are first met: what more there is to read only adds at the end. */
  lemma {:induction false} FirstSeenGrows(hosts: seq<string>, k: nat)
    requires k <= |hosts|
    ensures FirstSeen(hosts[..k]) <= FirstSeen(hosts)
    decreases |hosts|
  {
    if k == |hosts| {
      assert hosts[..k] == hosts;
    } else {
      FirstSeenGrows(hosts[..|hosts| - 1], k);
      assert hosts[..|hosts| - 1][..k] == hosts[..k];
    }
  }

  // --------------------------------------------------------------- consent

  /** The name at which `host` says that it takes the publisher's reports. */
  function AuthName(publisher: string, host: string): string {
    publisher + "._report._dmarc." + host
  }

  function External(publisher: string, hosts: seq<string>): seq<string> {
    if hosts == [] then []
    else
      var rest := External(publisher, hosts[1..]);
      if OrganizationalDomain(hosts[0]) != OrganizationalDomain(publisher) then [AuthName(publisher, hosts[0])] + rest
      else rest
  }

  function ReportAuthNames(publisher: string, record: string): seq<string> {
    External(publisher, FirstSeen(Hosts(record)))
  }

  lemma SameHost(publisher: string, a: string, b: string)
    requires AuthName(publisher, a) == AuthName(publisher, b)
    ensures a == b
  {
    var n := |publisher + "._report._dmarc."|;
    assert AuthName(publisher, a)[n..] == a && AuthName(publisher, b)[n..] == b;
  }

  /** The host needs to publish its consent to the publisher's reports. */
  predicate Foreign(publisher: string, host: string) {
    OrganizationalDomain(host) != OrganizationalDomain(publisher)
  }

  ghost predicate NamesForeign(publisher: string, name: string, hosts: seq<string>) {
    exists h :: h in hosts && Foreign(publisher, h) && name == AuthName(publisher, h)
  }

  lemma {:induction false} ExternalIs(publisher: string, hosts: seq<string>)
    ensures forall name :: name in External(publisher, hosts) <==> NamesForeign(publisher, name, hosts)
  {
    if hosts != [] {
      hide OrganizationalDomain, AuthName;
      ExternalIs(publisher, hosts[1..]);
      assert hosts == [hosts[0]] + hosts[1..];
    }
  }

  lemma {:induction false} ExternalUnique(publisher: string, hosts: seq<string>)
    requires Distinct(hosts)
    ensures Distinct(External(publisher, hosts))
  {
    if hosts != [] {
      hide OrganizationalDomain, AuthName;
      var name, rest := AuthName(publisher, hosts[0]), External(publisher, hosts[1..]);
      ExternalUnique(publisher, hosts[1..]);
      ExternalIs(publisher, hosts[1..]);
      if name in rest {
        var h :| h in hosts[1..] && Foreign(publisher, h) && name == AuthName(publisher, h);
        SameHost(publisher, hosts[0], h);
      }
    }
  }

  /** One name for each host outside the publisher's organizational domain that the record names, and
      no other; none is given twice. */
  lemma ReportAuthNamesAre(publisher: string, record: string)
    ensures var names := ReportAuthNames(publisher, record);
            && (forall i, j | 0 <= i < j < |names| :: names[i] != names[j])
            && forall name :: name in names <==>
                 exists h :: h in Hosts(record) && OrganizationalDomain(h) != OrganizationalDomain(publisher)
                             && name == publisher + "._report._dmarc." + h
  {
    hide Hosts, OrganizationalDomain, External;
    var hosts := FirstSeen(Hosts(record));
    FirstSeenDistinct(Hosts(record));
    ExternalIs(publisher, hosts);
    ExternalUnique(publisher, hosts);
  }

  // ------------------------------------------------------- written records

  /** A destination as a record may write it. An address may be in any case, with space around it and
      a size limit after it; a `mailto:` may lack the `@`; and there may be URIs of other kinds. */
  datatype Destination =
    | Address(left: string, scheme: string, user: string, host: string, limit: Option<string>, right: string)
    | NoAddress(left: string, scheme: string, text: string, limit: Option<string>, right: string)
    | Elsewhere(text: string)

  datatype Tag =
    | Reports(key: string, destinations: seq<Destination>)
    | Other(key: string, value: string)
    | Bare(text: string)

  const MAILTO := "mailto:"

  function LimitText(limit: Option<string>): string {
    if limit.Some? then "!" + limit.value else ""
  }

  /** What stands between the space on both sides. */
  function Core(d: Destination): string
    requires !d.Elsewhere?
  {
    match d
    case Address(_, scheme, user, host, limit, _) => scheme + (user + "@" + host + LimitText(limit))
    case NoAddress(_, scheme, text, limit, _) => scheme + (text + LimitText(limit))
  }

  function DestinationText(d: Destination): string {
    match d
    case Elsewhere(text) => text
    case _ => d.left + Core(d) + d.right
  }

  predicate GoodDestination(d: Destination) {
    match d
    case Elsewhere(text) => !(MAILTO <= Lower(Trim(text)))
    case _ =>
      && AllSpace(d.left) && AllSpace(d.right) && Lower(d.scheme) == MAILTO
      && !IsSpace(Core(d)[|Core(d)| - 1])
      && match d
         case Address(_, _, user, host, _, _) => '!' !in user && '!' !in host && '@' !in host
         case NoAddress(_, _, text, _, _) => '!' !in text && '@' !in text
  }

  function DestinationTexts(ds: seq<Destination>): (r: seq<string>)
    ensures |r| == |ds| && forall i | 0 <= i < |r| :: r[i] == DestinationText(ds[i])
  {
    seq(|ds|, i requires 0 <= i < |ds| => DestinationText(ds[i]))
  }

  function TagValue(t: Tag): string
    requires !t.Bare?
  {
    match t
    case Reports(_, destinations) => Join(DestinationTexts(destinations), ",")
    case Other(_, value) => value
  }

  function TagText(t: Tag): string {
    match t
    case Bare(text) => text
    case _ => t.key + "=" + TagValue(t)
  }

  predicate GoodTag(t: Tag) {
    && ';' !in TagText(t)
    && match t
       case Bare(text) => '=' !in text
       case Other(key, _) => '=' !in key && Lower(Trim(key)) != "rua"
       case Reports(key, destinations) =>
         && '=' !in key && Lower(Trim(key)) == "rua"
         && forall d | d in destinations :: GoodDestination(d) && ',' !in DestinationText(d)
  }

  function TagTexts(tags: seq<Tag>): (r: seq<string>)
    ensures |r| == |tags| && forall i | 0 <= i < |r| :: r[i] == TagText(tags[i])
  {
    seq(|tags|, i requires 0 <= i < |tags| => TagText(tags[i]))
  }

  function RecordText(tags: seq<Tag>): string {
    Join(TagTexts(tags), ";")
  }

  /** The hosts as the record's author gave them, in order, normalised; a host of dots is none. */
  function Given(ds: seq<Destination>): seq<string> {
    if ds == [] then [] else Given(ds[..|ds| - 1]) + GivenBy(ds[|ds| - 1])
  }

  function GivenBy(d: Destination): seq<string> {
    if d.Address? then Normalised(d.host) else []
  }

  function Normalised(host: string): seq<string> {
    var h := Lower(TrimDots(Trim(host)));
    if h == "" then [] else [h]
  }

  function AllGiven(tags: seq<Tag>): seq<string> {
    if tags == [] then []
    else
      var last := tags[|tags| - 1];
      AllGiven(tags[..|tags| - 1]) + if last.Reports? then Given(last.destinations) else []
  }

  lemma {:induction false} SplitJoin(parts: seq<string>, c: char)
    requires parts != [] && forall k | 0 <= k < |parts| :: c !in parts[k]
    ensures Split(Join(parts, [c]), c) == parts
    decreases |parts|
  {
    hide Split;
    if |parts| == 1 {
      SplitWhole(parts[0], c);
    } else {
      SplitAt(parts[0], c, Join(parts[1..], [c]));
      SplitJoin(parts[1..], c);
    }
  }

  lemma SchemeFirst(scheme: string)
    requires Lower(scheme) == MAILTO
    ensures |scheme| == 7 && !IsSpace(scheme[0])
  {
  }

  lemma CoreIsTrimmed(d: Destination)
    requires GoodDestination(d) && !d.Elsewhere?
    ensures Trim(DestinationText(d)) == Core(d) && Core(d)[..7] == d.scheme
  {
    hide IsSpace, Trim, Lower;
    SchemeFirst(d.scheme);
    TrimPadded(d.left, Core(d), d.right);
  }

  lemma BeforeLimit(addr: string, limit: Option<string>)
    requires '!' !in addr
    ensures Split(addr + LimitText(limit), '!')[0] == addr
  {
    if limit.Some? {
      assert addr + LimitText(limit) == addr + ['!'] + limit.value;
      SplitAt(addr, '!', limit.value);
    } else {
      assert addr + LimitText(limit) == addr;
      SplitWhole(addr, '!');
    }
  }

  /** A destination is read as its host, if it is an address. */
  lemma DestinationIsRead(d: Destination)
    requires GoodDestination(d)
    ensures AsList(HostOf(DestinationText(d))) == GivenBy(d)
  {
    hide IsSpace, Trim, TrimDots;
    match d
    case Elsewhere(text) => NotMailto(Trim(text));
    case NoAddress(_, scheme, text, limit, _) =>
      CoreIsTrimmed(d);
      SchemeFirst(scheme);
      assert Core(d)[7..] == text + LimitText(limit);
      BeforeLimit(text, limit);
    case Address(_, scheme, user, host, limit, _) =>
      CoreIsTrimmed(d);
      SchemeFirst(scheme);
      assert Core(d)[7..] == user + "@" + host + LimitText(limit);
      BeforeLimit(user + "@" + host, limit);
      LastAt(user, host);
      assert (user + "@" + host)[|user| + 1..] == host;
  }

  lemma NotMailto(u: string)
    ensures MAILTO <= Lower(u) <==> |u| >= 7 && Lower(u[..7]) == MAILTO
  {
  }

  lemma {:induction false} LastAt(user: string, host: string)
    requires '@' !in host
    ensures LastIndexOf(user + "@" + host, '@') == Some(|user|)
  {
    if host != "" {
      LastAt(user, host[..|host| - 1]);
      var s := user + "@" + host;
      assert s[|s| - 1] == host[|host| - 1];
      assert s[..|s| - 1] == user + "@" + host[..|host| - 1];
    }
  }

  lemma {:induction false} DestinationsAreRead(ds: seq<Destination>)
    requires forall d | d in ds :: GoodDestination(d)
    ensures HostsOfUris(DestinationTexts(ds)) == Given(ds)
  {
    if ds != [] {
      hide GoodDestination, HostOf, GivenBy, DestinationText;
      var before, last := ds[..|ds| - 1], ds[|ds| - 1];
      DestinationsAreRead(before);
      DestinationIsRead(last);
      assert DestinationTexts(ds)[..|ds| - 1] == DestinationTexts(before);
    }
  }

  lemma NoDestination()
    ensures HostsOfUris(Split("", ',')) == []
  {
  }

  lemma ReportsAreRead(ds: seq<Destination>)
    requires forall d | d in ds :: GoodDestination(d) && ',' !in DestinationText(d)
    ensures HostsOfUris(Split(Join(DestinationTexts(ds), ","), ',')) == Given(ds)
  {
    hide GoodDestination, Given, DestinationText, Split, HostsOfUris;
    if ds == [] {
      NoDestination();
      assert Given(ds) == [] by { NoneGiven(); }
    } else {
      var texts := DestinationTexts(ds);
      forall k | 0 <= k < |texts| ensures ',' !in texts[k] {
        assert ds[k] in ds;
      }
      SplitJoin(texts, ',');
      DestinationsAreRead(ds);
    }
  }

  lemma NoneGiven()
    ensures Given([]) == []
  {
  }

  lemma TagIsRead(t: Tag)
    requires GoodTag(t)
    ensures HostsOfTag(TagText(t)) == if t.Reports? then Given(t.destinations) else []
  {
    hide Trim, GoodDestination, Given, DestinationText, Join, HostsOfUris, Split;
    if !t.Bare? {
      SplitOnceAt(t.key, '=', TagValue(t));
      if t.Reports? {
        ReportsAreRead(t.destinations);
      }
    }
  }

  lemma LastTagText(tags: seq<Tag>)
    requires tags != []
    ensures var n := |tags| - 1; TagTexts(tags) == TagTexts(tags[..n]) + [TagText(tags[n])]
  {
  }

  lemma HostsOfLast(tags: seq<string>, tag: string)
    ensures HostsOfTags(tags + [tag]) == HostsOfTags(tags) + HostsOfTag(tag)
  {
  }

  lemma {:induction false} TagsAreRead(tags: seq<Tag>)
    requires forall t | t in tags :: GoodTag(t)
    ensures HostsOfTags(TagTexts(tags)) == AllGiven(tags)
  {
    hide GoodTag, HostsOfTag, TagText, Given;
    if tags != [] {
      hide HostsOfTags, TagTexts;
      var before, last := tags[..|tags| - 1], tags[|tags| - 1];
      TagsAreRead(before);
      TagIsRead(last);
      LastTagText(tags);
      HostsOfLast(TagTexts(before), TagText(last));
    }
  }

  /** Of a written record exactly the hosts its `rua` tags give are read, in the order given. */
  lemma RecordIsRead(tags: seq<Tag>)
    requires forall t | t in tags :: GoodTag(t)
    ensures Hosts(RecordText(tags)) == AllGiven(tags)
  {
    if tags == [] {
      assert Split("", ';') == [""] && [""][..0] == [];
      assert HostsOfTag("") == [];
    } else {
      hide TagText, HostsOfTags, AllGiven;
      var texts := TagTexts(tags);
      forall k | 0 <= k < |texts| ensures ';' !in texts[k] {
        assert tags[k] in tags;
      }
      SplitJoin(texts, ';');
      TagsAreRead(tags);
    }
  }

  // ------------------------------------------ every record can be written

  lemma WriteLimit(rest: string) returns (addr: string, limit: Option<string>)
    ensures '!' !in addr && addr + LimitText(limit) == rest
  {
    if '!' in rest {
      var parts := SplitOnce(rest, '!').value;
      addr, limit := parts.0, Some(parts.1);
    } else {
      addr, limit := rest, None;
    }
  }

  lemma AtLast(addr: string) returns (user: string, host: string)
    requires '@' in addr
    ensures addr == user + "@" + host && '@' !in host
    ensures '!' !in addr ==> '!' !in user && '!' !in host
  {
    var at := LastIndexOf(addr, '@').value;
    user, host := addr[..at], addr[at + 1..];
  }

  /** With an `@` in it the text is an address, its host after the last one. */
  lemma WriteMailto(left: string, core: string, scheme: string, addr: string, limit: Option<string>, right: string)
    returns (d: Destination)
    requires AllSpace(left) && AllSpace(right) && Lower(scheme) == MAILTO && '!' !in addr
    requires core == scheme + (addr + LimitText(limit)) && !IsSpace(core[|core| - 1])
    ensures GoodDestination(d) && DestinationText(d) == left + core + right
  {
    hide IsSpace, Lower, AllSpace, LimitText;
    if '@' in addr {
      var user, host := AtLast(addr);
      d := Address(left, scheme, user, host, limit, right);
      assert Core(d) == core;
    } else {
      d := NoAddress(left, scheme, addr, limit, right);
      assert Core(d) == core;
    }
  }

  lemma WriteDestination(uri: string) returns (d: Destination)
    ensures GoodDestination(d) && DestinationText(d) == uri
  {
    var u := Trim(uri);
    NotMailto(u);
    if MAILTO <= Lower(u) {
      hide IsSpace, Trim, Lower, LimitText, GoodDestination, DestinationText, AllSpace;
      var left, right := Padding(uri);
      var addr, limit := WriteLimit(u[7..]);
      assert u == u[..7] + u[7..];
      d := WriteMailto(left, u, u[..7], addr, limit, right);
    } else {
      d := Elsewhere(uri);
    }
  }

  lemma Padding(s: string) returns (left: string, right: string)
    ensures AllSpace(left) && AllSpace(right) && s == left + Trim(s) + right
    ensures Trim(s) != "" ==> !IsSpace(Trim(s)[|Trim(s)| - 1])
  {
    hide IsSpace;
    var t := TrimStart(s);
    TrimStartCuts(s);
    TrimEndCuts(t);
    left, right := s[..|s| - |t|], t[|Trim(s)|..];
  }

  lemma {:induction false} JoinSplit(s: string, c: char)
    ensures Join(Split(s, c), [c]) == s
    decreases |s|
  {
    var i := IndexOf(s, c);
    if i < |s| {
      JoinSplit(s[i + 1..], c);
      var more := Split(s[i + 1..], c);
      assert ([s[..i]] + more)[1..] == more;
      assert s == s[..i] + [c] + s[i + 1..];
    }
  }

  lemma {:induction false} WriteDestinations(uris: seq<string>) returns (ds: seq<Destination>)
    ensures DestinationTexts(ds) == uris && forall d | d in ds :: GoodDestination(d)
  {
    hide GoodDestination, DestinationText;
    if uris == [] {
      return [];
    }
    var d := WriteDestination(uris[0]);
    var more := WriteDestinations(uris[1..]);
    ds := [d] + more;
    forall i | 0 <= i < |ds| ensures DestinationText(ds[i]) == uris[i] {
      assert i > 0 ==> DestinationText(ds[i]) == DestinationTexts(more)[i - 1];
    }
  }

  lemma WriteTag(text: string) returns (t: Tag)
    requires ';' !in text
    ensures GoodTag(t) && TagText(t) == text
  {
    var parts := SplitOnce(text, '=');
    if parts.None? {
      return Bare(text);
    }
    var key, value := parts.value.0, parts.value.1;
    if Lower(Trim(key)) != "rua" {
      return Other(key, value);
    }
    var uris := Split(value, ',');
    hide GoodDestination, DestinationText, Split, Trim, Join;
    var ds := WriteDestinations(uris);
    JoinSplit(value, ',');
    forall d | d in ds ensures ',' !in DestinationText(d) {
      var i :| 0 <= i < |ds| && ds[i] == d;
      assert DestinationTexts(ds)[i] == uris[i];
    }
    t := Reports(key, ds);
  }

  lemma {:induction false} WriteTags(texts: seq<string>) returns (tags: seq<Tag>)
    requires forall k | 0 <= k < |texts| :: ';' !in texts[k]
    ensures TagTexts(tags) == texts && forall t | t in tags :: GoodTag(t)
  {
    hide GoodTag, TagText;
    if texts == [] {
      return [];
    }
    var t := WriteTag(texts[0]);
    var more := WriteTags(texts[1..]);
    tags := [t] + more;
    forall i | 0 <= i < |tags| ensures TagText(tags[i]) == texts[i] {
      assert i > 0 ==> TagText(tags[i]) == TagTexts(more)[i - 1];
    }
  }

  /** Every text is the text of some list of tags, so what is said of written records is said of all. */
  lemma EveryRecordIsWritten(record: string) returns (tags: seq<Tag>)
    ensures (forall t | t in tags :: GoodTag(t)) && RecordText(tags) == record
    ensures Hosts(record) == AllGiven(tags)
  {
    hide GoodTag, TagText, Split, Hosts, AllGiven;
    tags := WriteTags(Split(record, ';'));
    JoinSplit(record, ';');
    RecordIsRead(tags);
  }
}
