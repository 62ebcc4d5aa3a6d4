/** Lexicographic order on strings, the order `sort.Strings` uses. */
module StringOrder {
  import opened Sorting

  predicate StrLeq(a: string, b: string) {
    if a == "" then true
    else if b == "" then false
    else if a[0] != b[0] then a[0] < b[0]
    else StrLeq(a[1..], b[1..])
  }

  lemma {:induction false} StrTotal(a: string, b: string)
    ensures StrLeq(a, b) || StrLeq(b, a)
    ensures StrLeq(a, b) && StrLeq(b, a) ==> a == b
  {
    if a != "" && b != "" && a[0] == b[0] {
      StrTotal(a[1..], b[1..]);
      assert a == [a[0]] + a[1..] && b == [b[0]] + b[1..];
    }
  }

  lemma {:induction false} StrTransitive(a: string, b: string, c: string)
    requires StrLeq(a, b) && StrLeq(b, c)
    ensures StrLeq(a, c)
  {
    if a != "" && a[0] == b[0] == c[0] { StrTransitive(a[1..], b[1..], c[1..]); }
  }

  lemma StrPreorder()
    ensures TotalPreorder(StrLeq)
  {
    forall a, b ensures StrLeq(a, b) || StrLeq(b, a) { StrTotal(a, b); }
    forall a, b, c | StrLeq(a, b) && StrLeq(b, c) ensures StrLeq(a, c) { StrTransitive(a, b, c); }
  }
}

/** Texts made of whole lines. */
module LineText {
  import opened Text

  function Unlines(lines: seq<string>): string {
    if lines == [] then "" else lines[0] + "\n" + Unlines(lines[1..])
  }

  lemma AppendChunk(b: string, chunk: string, rest: string)
    ensures b + (chunk + rest) == (b + chunk) + rest
  {
  }

  lemma {:induction false} UnlinesConcat(a: seq<string>, b: seq<string>)
    ensures Unlines(a + b) == Unlines(a) + Unlines(b)
  {
    if a == [] {
      assert a + b == b;
    } else {
      assert (a + b)[1..] == a[1..] + b;
      UnlinesConcat(a[1..], b);
    }
  }

  /** Reading a text back line by line; the piece after the last line feed is empty. */
  lemma {:induction false} SplitUnlines(lines: seq<string>)
    requires forall i :: 0 <= i < |lines| ==> '\n' !in lines[i]
    ensures Split(Unlines(lines), '\n') == lines + [""]
  {
    if lines != [] {
      SplitConcat(lines[0], Unlines(lines[1..]), '\n');
      SplitNone(lines[0], '\n');
      SplitUnlines(lines[1..]);
    }
  }
}

/** The HAProxy generation as a small compiler: the domain table is printed as two maps and a list of
    backends, and reading them back the way HAProxy does must give the table again. */
module Routing {
  import opened Common
  import opened Sorting
  import opened StringOrder
  import opened Text
  import opened LineText
  import opened Domains

  datatype Domain = Domain(name: string, ip: string, proxyProtocol: bool)

  predicate DomainLeq(a: Domain, b: Domain) { StrLeq(a.name, b.name) }

  /** What the manager hands over: canonical names, each once, with printable addresses. */
  ghost predicate Table(ds: seq<Domain>) {
    && (forall i :: 0 <= i < |ds| ==> Canonical(ds[i].name) && ds[i].ip != "" && NoSpace(ds[i].ip))
    && (forall i, j :: 0 <= i < j < |ds| ==> ds[i].name != ds[j].name)
  }

  // ---- names

  function Sanitized(d: string): string {
    seq(|d|, i requires 0 <= i < |d| => if d[i] == '.' then '_' else d[i])
  }

  method SanitizeDomain(d: string) returns (b: string)
    ensures b == Sanitized(d)
    ensures |b| == |d| && forall i :: 0 <= i < |d| ==> b[i] == if d[i] == '.' then '_' else d[i]
  {
    b := "";
    for i := 0 to |d|
      invariant b == Sanitized(d)[..i]
    {
      if d[i] == '.' {
        b := b + "_";
      } else {
        b := b + [d[i]];
      }
    }
  }

  /** The two listeners: HTTP host routing and TLS passthrough. */
  datatype Front = Http | Tls

  function Prefix(f: Front): string { if f.Http? then "be_h_" else "be_t_" }

  function BackendName(f: Front, d: string): string { Prefix(f) + Sanitized(d) }

  /** Two canonical names never share an identifier, because none contains an underscore. */
  lemma SanitizeInjective(a: string, b: string)
    requires Canonical(a) && Canonical(b) && Sanitized(a) == Sanitized(b)
    ensures a == b
  {
    assert |a| == |Sanitized(a)| == |b|;
    forall i | 0 <= i < |a| ensures a[i] == b[i] {
      assert NameChar(a[i]) && NameChar(b[i]);
      assert Sanitized(a)[i] == Sanitized(b)[i];
    }
  }

  /** Backend names are unique over both listeners, and never the reject backends of the entry file. */
  lemma BackendNameInjective(f: Front, a: string, g: Front, b: string)
    requires Canonical(a) && Canonical(b)
    ensures BackendName(f, a) == BackendName(g, b) ==> f == g && a == b
    ensures BackendName(f, a) != "be_http_reject" && BackendName(f, a) != "be_tls_reject"
  {
    var x, y := BackendName(f, a), BackendName(g, b);
    assert x[3] == (if f.Http? then 'h' else 't') && x[4] == '_';
    assert y[3] == (if g.Http? then 'h' else 't') && y[4] == '_';
    assert "be_http_reject"[4] == 't' && "be_tls_reject"[4] == 'l';
    assert x[5..] == Sanitized(a) && y[5..] == Sanitized(b);
    if Sanitized(a) == Sanitized(b) { SanitizeInjective(a, b); }
  }

  // ---- printing

  predicate IsComment(line: string) { line != "" && line[0] == '#' }

  /** The fixed text a generated file opens with: comment lines and blank lines. Its wording does not
      matter to the reader, so the results below hold for any. */
  ghost predicate Header(h: seq<string>) {
    forall i :: 0 <= i < |h| ==> (h[i] == "" || IsComment(h[i])) && '\n' !in h[i]
  }

  function MapLines(ds: seq<Domain>, backend: string -> string): seq<string> {
    if ds == [] then [] else [ds[0].name + " " + backend(ds[0].name)] + MapLines(ds[1..], backend)
  }

  function ModeName(f: Front): string { if f.Http? then "http" else "tcp" }

  function OptionLines(f: Front): seq<string> { if f.Http? then ["    option forwardfor"] else [] }

  function Address(f: Front, d: Domain): string { d.ip + if f.Http? then ":80" else ":443" }

  /** PROXY protocol is a per-domain choice on the TLS listener and never used on the HTTP one. */
  predicate SendsProxy(f: Front, d: Domain) { f.Tls? && d.proxyProtocol }

  function ProxySuffix(f: Front, d: Domain): string { if SendsProxy(f, d) then " send-proxy-v2" else "" }

  function SectionLines(f: Front, d: Domain): seq<string> {
    ["backend " + BackendName(f, d.name), "    mode " + ModeName(f)] + OptionLines(f)
    + ["    server s  " + Address(f, d) + ProxySuffix(f, d), ""]
  }

  function BackendLines(d: Domain): seq<string> {
    ["# ---- " + d.name + " -> " + d.ip + " ----"] + SectionLines(Http, d) + SectionLines(Tls, d)
  }

  function AllBackendLines(ds: seq<Domain>): seq<string> {
    if ds == [] then [] else BackendLines(ds[0]) + AllBackendLines(ds[1..])
  }

  function MapText(header: seq<string>, ds: seq<Domain>, backend: string -> string): string {
    Unlines(header + MapLines(Sort(ds, DomainLeq), backend))
  }

  function DomainsText(header: seq<string>, ds: seq<Domain>): string {
    Unlines(header + AllBackendLines(Sort(ds, DomainLeq)))
  }

  lemma MapLinesFrom(ds: seq<Domain>, i: nat, backend: string -> string)
    requires i < |ds|
    ensures Unlines(MapLines(ds[i..], backend))
         == ds[i].name + " " + backend(ds[i].name) + "\n" + Unlines(MapLines(ds[i + 1..], backend))
  {
  }

  lemma BackendLinesFrom(ds: seq<Domain>, i: nat)
    requires i < |ds|
    ensures Unlines(AllBackendLines(ds[i..])) == Unlines(BackendLines(ds[i])) + Unlines(AllBackendLines(ds[i + 1..]))
  {
    assert ds[i..][1..] == ds[i + 1..];
    UnlinesConcat(BackendLines(ds[i]), AllBackendLines(ds[i + 1..]));
  }

  method RenderMap(header: seq<string>, domains: seq<Domain>, backend: string -> string) returns (b: string)
    ensures b == MapText(header, domains, backend)
  {
    b := Unlines(header);
    var sorted := Sort(domains, DomainLeq);
    UnlinesConcat(header, MapLines(sorted, backend));
    assert sorted[0..] == sorted;
    for i := 0 to |sorted|
      invariant b + Unlines(MapLines(sorted[i..], backend)) == MapText(header, domains, backend)
    {
      MapLinesFrom(sorted, i, backend);
      var line := sorted[i].name + " " + backend(sorted[i].name) + "\n";
      AppendChunk(b, line, Unlines(MapLines(sorted[i + 1..], backend)));
      b := b + line;
    }
    AppendNothing(b);
  }

  lemma AppendNothing(b: string)
    ensures b + "" == b
  {
  }

  method RenderDomains(header: seq<string>, domains: seq<Domain>) returns (b: string)
    ensures b == DomainsText(header, domains)
  {
    b := Unlines(header);
    var sorted := Sort(domains, DomainLeq);
    UnlinesConcat(header, AllBackendLines(sorted));
    assert sorted[0..] == sorted;
    for i := 0 to |sorted|
      invariant b + Unlines(AllBackendLines(sorted[i..])) == DomainsText(header, domains)
    {
      BackendLinesFrom(sorted, i);
      var chunk := Unlines(BackendLines(sorted[i]));
      AppendChunk(b, chunk, Unlines(AllBackendLines(sorted[i + 1..])));
      b := b + chunk;
    }
    AppendNothing(b);
  }

  // ---- reading, as HAProxy reads a map file and a configuration

  /** The value of the first entry for the key; blank lines and lines opening with '#' are not entries. */
  function MapLookup(lines: seq<string>, key: string): Option<string> {
    if lines == [] then None
    else
      var f := Fields(lines[0]);
      if |f| >= 2 && !IsComment(lines[0]) && f[0] == key then Some(f[1]) else MapLookup(lines[1..], key)
  }

  /** What a section says: its mode, its server, whether that is sent the PROXY header, and whether requests get a
      header with the client's address. */
  datatype Backend = Backend(mode: string, server: string, proxy: bool, forwards: bool)

  datatype Directive = Section(name: string) | Mode(mode: string) | Option(name: string) | Server(addr: string, proxy: bool) | Other

  function Classify(line: string): Directive {
    var f := Fields(line);
    if IsComment(line) || |f| < 2 then Other
    else if f[0] == "backend" then Section(f[1])
    else if f[0] == "mode" then Mode(f[1])
    else if f[0] == "option" then Option(f[1])
    else if f[0] == "server" && |f| >= 3 then Server(f[2], "send-proxy-v2" in f[3..])
    else Other
  }

  function Directives(lines: seq<string>): seq<Directive> {
    seq(|lines|, i requires 0 <= i < |lines| => Classify(lines[i]))
  }

  const UNSET: Backend := Backend("", "", false, false)

  /** What the directives of a section add up to, up to the next section or the end. */
  function ReadSection(ds: seq<Directive>, acc: Backend): Backend {
    if ds == [] then acc
    else match ds[0]
      case Section(_) => acc
      case Mode(m) => ReadSection(ds[1..], acc.(mode := m))
      case Option(o) => ReadSection(ds[1..], acc.(forwards := acc.forwards || o == "forwardfor"))
      case Server(a, p) => ReadSection(ds[1..], acc.(server := a, proxy := p))
      case Other => ReadSection(ds[1..], acc)
  }

  function FindBackend(ds: seq<Directive>, name: string): Option<Backend> {
    if ds == [] then None
    else if ds[0] == Section(name) then Some(ReadSection(ds[1..], UNSET))
    else FindBackend(ds[1..], name)
  }

  /** A request's way: its host in the map, then the named backend in the configuration. */
  function Route(mapText: string, configText: string, host: string): Option<Backend> {
    match MapLookup(Split(mapText, '\n'), host)
    case None => None
    case Some(name) => FindBackend(Directives(Split(configText, '\n')), name)
  }

  // ---- the fields of each printed line

  lemma CanonicalIsWord(n: string)
    requires Canonical(n)
    ensures IsWord(n) && n[0] != '#' && IsWord(Sanitized(n))
  {
  }

  lemma ConcatWord(a: string, b: string)
    requires IsWord(a) && NoSpace(b)
    ensures IsWord(a + b) && IsWord(b + a)
  {
  }

  // ---- the map

  lemma {:induction false} SkipComments(front: seq<string>, rest: seq<string>, key: string)
    requires forall i :: 0 <= i < |front| ==> front[i] == "" || IsComment(front[i])
    ensures MapLookup(front + rest, key) == MapLookup(rest, key)
  {
    if front == [] {
      assert front + rest == rest;
    } else {
      assert (front + rest)[1..] == front[1..] + rest;
      SkipComments(front[1..], rest, key);
    }
  }

  ghost predicate Names(ds: seq<Domain>, host: string) {
    exists i :: 0 <= i < |ds| && ds[i].name == host
  }

  /** A map hit is the backend of exactly that name; anything else misses. */
  lemma {:induction false} MapHit(ds: seq<Domain>, backend: string -> string, host: string)
    requires forall i :: 0 <= i < |ds| ==> Canonical(ds[i].name) && IsWord(backend(ds[i].name))
    ensures MapLookup(MapLines(ds, backend) + [""], host) == if Names(ds, host) then Some(backend(host)) else None
  {
    var lines := MapLines(ds, backend) + [""];
    if ds != [] {
      var d := ds[0];
      CanonicalIsWord(d.name);
      TwoFields(d.name, " ", backend(d.name));
      assert lines[0] == d.name + " " + backend(d.name);
      assert lines[0][0] == d.name[0];
      assert lines[1..] == MapLines(ds[1..], backend) + [""];
      MapHit(ds[1..], backend, host);
      assert Names(ds, host) <==> d.name == host || Names(ds[1..], host) by {
        if Names(ds, host) {
          var i :| 0 <= i < |ds| && ds[i].name == host;
          assert i == 0 || ds[1..][i - 1].name == host;
        }
        if Names(ds[1..], host) {
          var i :| 0 <= i < |ds[1..]| && ds[1..][i].name == host;
          assert ds[i + 1].name == host;
        }
      }
    } else {
      assert lines == [""] && Fields("") == [];
      assert lines[1..] == [];
    }
  }

  // ---- the backends

  ghost predicate Printable(d: Domain) { Canonical(d.name) && IsWord(d.ip) }

  function SectionDirectives(f: Front, d: Domain): seq<Directive> {
    [Mode(ModeName(f))] + OptionDirectives(f) + [Server(Address(f, d), SendsProxy(f, d)), Other]
  }

  function OptionDirectives(f: Front): seq<Directive> { if f.Http? then [Option("forwardfor")] else [] }

  function BackendDirectives(d: Domain): seq<Directive> {
    [Other] + [Section(BackendName(Http, d.name))] + SectionDirectives(Http, d)
    + [Section(BackendName(Tls, d.name))] + SectionDirectives(Tls, d)
  }

  lemma SectionLine(name: string)
    requires IsWord(name)
    ensures Classify("backend " + name) == Section(name)
  {
    TwoFields("backend", " ", name);
    assert "backend" + " " + name == "backend " + name;
  }

  lemma ServerFields(line: string, addr: string, option: string)
    requires IsWord(addr) && (option == "" || IsSpace(option[0]))
    requires line == "    server s  " + addr + option
    ensures Fields(line) == ["server"] + (["s"] + ([addr] + Fields(option)))
  {
    var r2 := "  " + addr + option;
    var r1 := " " + "s" + r2;
    assert line == "    server" + (" s" + r2);
    Indented3(line, r1, r2, "    ", "server", " ", "s", "  ", addr, option);
  }

  lemma FromThird(f: seq<string>, a: string, b: string, c: string, rest: seq<string>)
    requires f == [a] + ([b] + ([c] + rest))
    ensures |f| >= 3 && f[0] == a && f[2] == c && f[3..] == rest
  {
  }

  lemma ServerLine(addr: string, option: string)
    requires IsWord(addr)
    requires option == "" || option == " send-proxy-v2"
    ensures Classify("    server s  " + addr + option) == Server(addr, option != "")
  {
    var line := "    server s  " + addr + option;
    ServerFields(line, addr, option);
    FromThird(Fields(line), "server", "s", addr, Fields(option));
    OptionFields(option);
  }

  lemma OptionFields(option: string)
    requires option == "" || option == " send-proxy-v2"
    ensures "send-proxy-v2" in Fields(option) <==> option != ""
  {
    if option != "" {
      var o := "send-proxy-v2";
      assert option == " " + o + "";
      FieldsStep(" ", o, "");
    }
  }

  lemma NamesAreWords(f: Front, d: Domain)
    requires Printable(d)
    ensures IsWord(BackendName(f, d.name)) && IsWord(Address(f, d)) && IsWord(ModeName(f))
  {
    CanonicalIsWord(d.name);
    ConcatWord(Sanitized(d.name), Prefix(f));
    ConcatWord(d.ip, if f.Http? then ":80" else ":443");
  }

  lemma ModeLine(m: string)
    requires IsWord(m)
    ensures Classify("    mode " + m) == Mode(m)
  {
    Indented("    mode " + m, "    ", "mode", " ", m);
  }

  lemma OptionLine(line: string)
    requires line == "    option forwardfor"
    ensures Classify(line) == Option("forwardfor")
  {
    Indented(line, "    ", "option", " ", "forwardfor");
  }

  lemma DirectivesConcat(a: seq<string>, b: seq<string>)
    ensures Directives(a + b) == Directives(a) + Directives(b)
  {
  }

  lemma OptionRead(f: Front)
    ensures Directives(OptionLines(f)) == OptionDirectives(f)
  {
    if f.Http? { OptionLine(OptionLines(f)[0]); }
  }

  lemma TwoRead(x: string, y: string)
    ensures Directives([x, y]) == [Classify(x), Classify(y)]
  {
  }

  lemma BlankRead(line: string)
    requires line == ""
    ensures Classify(line) == Other
  {
  }

  /** A printed section reads back as its directives. */
  lemma SectionRead(f: Front, d: Domain)
    requires Printable(d)
    ensures Directives(SectionLines(f, d)) == [Section(BackendName(f, d.name))] + SectionDirectives(f, d)
  {
    NamesAreWords(f, d);
    SectionLine(BackendName(f, d.name));
    ModeLine(ModeName(f));
    OptionRead(f);
    ServerLine(Address(f, d), ProxySuffix(f, d));
    var a, b := "backend " + BackendName(f, d.name), "    mode " + ModeName(f);
    var server, blank := "    server s  " + Address(f, d) + ProxySuffix(f, d), "";
    BlankRead(blank);
    TwoRead(a, b);
    TwoRead(server, blank);
    DirectivesConcat([a, b] + OptionLines(f), [server, blank]);
    DirectivesConcat([a, b], OptionLines(f));
  }

  lemma BackendRead(d: Domain)
    requires Printable(d)
    ensures Directives(BackendLines(d)) == BackendDirectives(d)
  {
    var comment := "# ---- " + d.name + " -> " + d.ip + " ----";
    SectionRead(Http, d);
    SectionRead(Tls, d);
    DirectivesConcat([comment] + SectionLines(Http, d), SectionLines(Tls, d));
    DirectivesConcat([comment], SectionLines(Http, d));
    assert IsComment(comment) && Directives([comment]) == [Other];
  }

  function AllDirectives(ds: seq<Domain>): seq<Directive> {
    if ds == [] then [Other] else BackendDirectives(ds[0]) + AllDirectives(ds[1..])
  }

  lemma {:induction false} AllRead(ds: seq<Domain>)
    requires forall i :: 0 <= i < |ds| ==> Printable(ds[i])
    ensures Directives(AllBackendLines(ds) + [""]) == AllDirectives(ds)
  {
    if ds == [] {
      assert AllBackendLines(ds) + [""] == [""];
    } else {
      var rest := AllBackendLines(ds[1..]) + [""];
      assert AllBackendLines(ds) + [""] == BackendLines(ds[0]) + rest;
      DirectivesConcat(BackendLines(ds[0]), rest);
      BackendRead(ds[0]);
      AllRead(ds[1..]);
    }
  }

  lemma {:induction false} SkipOthers(front: seq<Directive>, rest: seq<Directive>, name: string)
    requires forall i :: 0 <= i < |front| ==> front[i] != Section(name)
    ensures FindBackend(front + rest, name) == FindBackend(rest, name)
  {
    if front == [] {
      assert front + rest == rest;
    } else {
      assert (front + rest)[1..] == front[1..] + rest;
      SkipOthers(front[1..], rest, name);
    }
  }

  lemma ReadOne(d: Directive, rest: seq<Directive>, acc: Backend)
    ensures d.Section? ==> ReadSection([d] + rest, acc) == acc
    ensures d.Mode? ==> ReadSection([d] + rest, acc) == ReadSection(rest, acc.(mode := d.mode))
    ensures d.Server? ==> ReadSection([d] + rest, acc) == ReadSection(rest, acc.(server := d.addr, proxy := d.proxy))
    ensures d == Option("forwardfor") ==> ReadSection([d] + rest, acc) == ReadSection(rest, acc.(forwards := true))
  {
  }

  /** The same directives seen from the front. */
  lemma Layout(d: Domain, rest: seq<Directive>)
    ensures BackendDirectives(d) + rest == [Other] + HttpOnward(d, TlsOnward(d, rest))
  {
  }

  function TlsOnward(d: Domain, rest: seq<Directive>): seq<Directive> {
    [Section(BackendName(Tls, d.name))] + (SectionDirectives(Tls, d) + rest)
  }

  function HttpOnward(d: Domain, rest: seq<Directive>): seq<Directive> {
    [Section(BackendName(Http, d.name))] + (SectionDirectives(Http, d) + rest)
  }

  /** What follows a domain's lines does not reach back into its last section. */
  lemma NextSectionCloses(ds: seq<Domain>, acc: Backend)
    ensures ReadSection(AllDirectives(ds), acc) == acc
  {
  }

  lemma ReadServer(acc: Backend, a: string, p: bool, rest: seq<Directive>)
    ensures ReadSection([Server(a, p), Other] + rest, acc) == ReadSection(rest, acc.(server := a, proxy := p))
  {
  }

  lemma Regroup(m: Directive, options: seq<Directive>, tail: seq<Directive>, rest: seq<Directive>)
    ensures [m] + options + tail + rest == [m] + (options + (tail + rest))
  {
  }

  lemma ReadMode(m: string, options: seq<Directive>, rest: seq<Directive>)
    requires options == [] || options == [Option("forwardfor")]
    ensures ReadSection([Mode(m)] + (options + rest), UNSET) == ReadSection(rest, UNSET.(mode := m, forwards := options != []))
  {
    ReadOne(Mode(m), options + rest, UNSET);
    if options == [] {
      assert options + rest == rest;
    } else {
      ReadOne(Option("forwardfor"), rest, UNSET.(mode := m));
    }
  }

  lemma ReadBody(f: Front, d: Domain, rest: seq<Directive>)
    ensures ReadSection(SectionDirectives(f, d) + rest, UNSET) == ReadSection(rest, Served(f, d))
  {
    var m, options := ModeName(f), OptionDirectives(f);
    var tail := [Server(Address(f, d), SendsProxy(f, d)), Other];
    Regroup(Mode(m), options, tail, rest);
    ReadMode(m, options, tail + rest);
    ReadServer(UNSET.(mode := m, forwards := options != []), Address(f, d), SendsProxy(f, d), rest);
  }

  lemma FindHere(name: string, rest: seq<Directive>)
    ensures FindBackend([Section(name)] + rest, name) == Some(ReadSection(rest, UNSET))
  {
  }

  /** What each listener promises a published domain. */
  function Served(f: Front, d: Domain): Backend {
    match f
    case Http => Backend("http", d.ip + ":80", false, true)
    case Tls => Backend("tcp", d.ip + ":443", d.proxyProtocol, false)
  }

  lemma SectionServes(f: Front, d: Domain, front: seq<Directive>, rest: seq<Directive>)
    requires forall i :: 0 <= i < |front| ==> front[i] != Section(BackendName(f, d.name))
    requires ReadSection(rest, Served(f, d)) == Served(f, d)
    ensures FindBackend(front + ([Section(BackendName(f, d.name))] + (SectionDirectives(f, d) + rest)), BackendName(f, d.name))
         == Some(Served(f, d))
  {
    var name := BackendName(f, d.name);
    var body := SectionDirectives(f, d) + rest;
    SkipOthers(front, [Section(name)] + body, name);
    FindHere(name, body);
    ReadBody(f, d, rest);
  }

  lemma OwnSections(f: Front, d: Domain, rest: seq<Directive>)
    requires Canonical(d.name) && ReadSection(rest, Served(Tls, d)) == Served(Tls, d)
    ensures FindBackend(BackendDirectives(d) + rest, BackendName(f, d.name)) == Some(Served(f, d))
  {
    BackendNameInjective(Http, d.name, Tls, d.name);
    var t := TlsOnward(d, rest);
    Layout(d, rest);
    if f.Http? {
      ReadOne(Section(BackendName(Tls, d.name)), SectionDirectives(Tls, d) + rest, Served(Http, d));
      SectionServes(Http, d, [Other], t);
    } else {
      var front := [Other] + ([Section(BackendName(Http, d.name))] + SectionDirectives(Http, d));
      SectionServes(Tls, d, front, rest);
      assert [Other] + HttpOnward(d, t) == front + t;
    }
  }

  /** Every domain's backends are found under their names, whatever else is declared. */
  lemma {:induction false} FindsServed(ds: seq<Domain>, k: nat, f: Front)
    requires k < |ds| && Table(ds)
    ensures FindBackend(AllDirectives(ds), BackendName(f, ds[k].name)) == Some(Served(f, ds[k]))
  {
    var d, rest := ds[0], AllDirectives(ds[1..]);
    if k == 0 {
      NextSectionCloses(ds[1..], Served(Tls, d));
      OwnSections(f, d, rest);
    } else {
      var n := ds[k].name;
      BackendNameInjective(f, n, Http, d.name);
      BackendNameInjective(f, n, Tls, d.name);
      SkipOthers(BackendDirectives(d), rest, BackendName(f, n));
      FindsServed(ds[1..], k - 1, f);
    }
  }

  /** Every domain's two backends are found under their names, whatever else is declared: plain HTTP on port 80 with
      the client's address in a header, and TLS on port 443 with the PROXY header exactly if the domain asks for it. */
  lemma BackendFound(ds: seq<Domain>, k: nat)
    requires k < |ds| && Table(ds)
    ensures FindBackend(AllDirectives(ds), "be_h_" + Sanitized(ds[k].name)) == Some(Backend("http", ds[k].ip + ":80", false, true))
    ensures FindBackend(AllDirectives(ds), "be_t_" + Sanitized(ds[k].name)) ==
      Some(Backend("tcp", ds[k].ip + ":443", ds[k].proxyProtocol, false))
  {
    FindsServed(ds, k, Http);
    FindsServed(ds, k, Tls);
  }

  // ---- the whole way

  function NameFor(f: Front): string -> string { (d: string) => BackendName(f, d) }

  lemma SortedTable(ds: seq<Domain>)
    requires Table(ds)
    ensures Table(Sort(ds, DomainLeq))
  {
    var s := Sort(ds, DomainLeq);
    SameElements(ds, s);
    DistinctPermutation(ds, s);
    forall i, j | 0 <= i < j < |s| ensures s[i].name != s[j].name {
      assert s[i] in ds && s[j] in ds;
    }
    forall i | 0 <= i < |s| ensures Canonical(s[i].name) && s[i].ip != "" && NoSpace(s[i].ip) {
      assert s[i] in ds;
    }
  }

  lemma NoSpaceOneLine(s: string)
    requires NoSpace(s)
    ensures '\n' !in s
  {
  }

  lemma {:induction false} MapLinesOneLine(ds: seq<Domain>, f: Front)
    requires forall i :: 0 <= i < |ds| ==> Canonical(ds[i].name)
    ensures forall i :: 0 <= i < |MapLines(ds, NameFor(f))| ==> '\n' !in MapLines(ds, NameFor(f))[i]
  {
    if ds != [] {
      CanonicalIsWord(ds[0].name);
      ConcatWord(Sanitized(ds[0].name), Prefix(f));
      NoSpaceOneLine(ds[0].name);
      NoSpaceOneLine(BackendName(f, ds[0].name));
      MapLinesOneLine(ds[1..], f);
    }
  }

  lemma SectionOneLine(f: Front, d: Domain)
    requires Printable(d)
    ensures forall i :: 0 <= i < |SectionLines(f, d)| ==> '\n' !in SectionLines(f, d)[i]
  {
    NamesAreWords(f, d);
    NoSpaceOneLine(BackendName(f, d.name));
    NoSpaceOneLine(Address(f, d));
    NoSpaceOneLine(ModeName(f));
  }

  lemma {:induction false} BackendsOneLine(ds: seq<Domain>)
    requires forall i :: 0 <= i < |ds| ==> Printable(ds[i])
    ensures forall i :: 0 <= i < |AllBackendLines(ds)| ==> '\n' !in AllBackendLines(ds)[i]
  {
    if ds != [] {
      NoSpaceOneLine(ds[0].name) by { CanonicalIsWord(ds[0].name); }
      NoSpaceOneLine(ds[0].ip);
      SectionOneLine(Http, ds[0]);
      SectionOneLine(Tls, ds[0]);
      BackendsOneLine(ds[1..]);
    }
  }

  lemma NamesPrintable(s: seq<Domain>, f: Front)
    requires Table(s)
    ensures forall i :: 0 <= i < |s| ==> Canonical(s[i].name) && IsWord(NameFor(f)(s[i].name))
  {
  }

  lemma MapRead(h: seq<string>, ds: seq<Domain>, f: Front, host: string)
    requires Header(h) && Table(ds)
    ensures MapLookup(Split(MapText(h, ds, NameFor(f)), '\n'), host)
         == if Names(Sort(ds, DomainLeq), host) then Some(BackendName(f, host)) else None
  {
    var s := Sort(ds, DomainLeq);
    SortedTable(ds);
    NamesPrintable(s, f);
    MapLinesOneLine(s, f);
    var lines := MapLines(s, NameFor(f));
    SplitUnlines(h + lines);
    assert h + lines + [""] == h + (lines + [""]);
    SkipComments(h, lines + [""], host);
    MapHit(s, NameFor(f), host);
  }

  lemma ConfigRead(h: seq<string>, ds: seq<Domain>, name: string)
    requires Header(h) && Table(ds)
    ensures FindBackend(Directives(Split(DomainsText(h, ds), '\n')), name)
         == FindBackend(AllDirectives(Sort(ds, DomainLeq)), name)
  {
    var s := Sort(ds, DomainLeq);
    SortedTable(ds);
    BackendsOneLine(s);
    var lines := AllBackendLines(s);
    SplitUnlines(h + lines);
    assert h + lines + [""] == h + (lines + [""]);
    DirectivesConcat(h, lines + [""]);
    AllRead(s);
    forall i | 0 <= i < |h| ensures Directives(h)[i] == Other {
      assert h[i] == "" || IsComment(h[i]);
    }
    SkipOthers(Directives(h), AllDirectives(s), name);
  }

  lemma RouteRead(h: seq<string>, g: seq<string>, ds: seq<Domain>, f: Front, host: string)
    requires Header(h) && Header(g) && Table(ds)
    ensures Route(MapText(h, ds, NameFor(f)), DomainsText(g, ds), host) ==
      if Names(Sort(ds, DomainLeq), host) then FindBackend(AllDirectives(Sort(ds, DomainLeq)), BackendName(f, host)) else None
  {
    MapRead(h, ds, f, host);
    ConfigRead(g, ds, BackendName(f, host));
  }

  lemma RoutesServed(h: seq<string>, g: seq<string>, ds: seq<Domain>, f: Front, host: string)
    requires Header(h) && Header(g) && Table(ds)
    ensures forall d :: d in ds && d.name == host ==>
      Route(MapText(h, ds, NameFor(f)), DomainsText(g, ds), host) == Some(Served(f, d))
    ensures (forall d :: d in ds ==> d.name != host) ==>
      Route(MapText(h, ds, NameFor(f)), DomainsText(g, ds), host) == None
  {
    var s := Sort(ds, DomainLeq);
    SameElements(ds, s);
    RouteRead(h, g, ds, f, host);
    forall d | d in ds && d.name == host ensures FindBackend(AllDirectives(s), BackendName(f, host)) == Some(Served(f, d)) {
      FoundIn(ds, s, d, f);
    }
  }

  /** Printing the domain table and reading it back is the table. Over HTTP a published host reaches exactly its own
      container on port 80, with the client's address in a header; over TLS it reaches it on port 443, with the
      PROXY header exactly if the domain asks for it; and any other host reaches nothing. */
  lemma RoutingPreserved(h: seq<string>, g: seq<string>, ds: seq<Domain>, host: string)
    requires Header(h) && Header(g) && Table(ds)
    ensures var http, sni, config := MapText(h, ds, NameFor(Http)), MapText(h, ds, NameFor(Tls)), DomainsText(g, ds);
      && (forall d :: d in ds && d.name == host ==>
        && Route(http, config, host) == Some(Backend("http", d.ip + ":80", false, true))
        && Route(sni, config, host) == Some(Backend("tcp", d.ip + ":443", d.proxyProtocol, false)))
      && ((forall d :: d in ds ==> d.name != host) ==> Route(http, config, host) == None && Route(sni, config, host) == None)
  {
    RoutesServed(h, g, ds, Http, host);
    RoutesServed(h, g, ds, Tls, host);
  }

  lemma FoundIn(ds: seq<Domain>, s: seq<Domain>, d: Domain, f: Front)
    requires Table(ds) && s == Sort(ds, DomainLeq) && d in s
    ensures FindBackend(AllDirectives(s), BackendName(f, d.name)) == Some(Served(f, d))
  {
    SortedTable(ds);
    var k :| 0 <= k < |s| && s[k] == d;
    FindsServed(s, k, f);
  }

  /** The generation depends on the set of domains only, not on the order they were listed in. */
  lemma OrderIrrelevant(h: seq<string>, ds: seq<Domain>, es: seq<Domain>, backend: string -> string)
    requires Table(ds) && multiset(ds) == multiset(es)
    ensures MapText(h, ds, backend) == MapText(h, es, backend) && DomainsText(h, ds) == DomainsText(h, es)
  {
    StrPreorder();
    assert TotalPreorder(DomainLeq) by {
      forall x, y ensures DomainLeq(x, y) || DomainLeq(y, x) { StrTotal(x.name, y.name); }
      forall x, y, z | DomainLeq(x, y) && DomainLeq(y, z) ensures DomainLeq(x, z) {
        StrTransitive(x.name, y.name, z.name);
      }
    }
    SortSorted(ds, DomainLeq);
    SortSorted(es, DomainLeq);
    var s := Sort(ds, DomainLeq);
    SameElements(ds, s);
    forall x, y | x in s && y in s && DomainLeq(x, y) && DomainLeq(y, x) ensures x == y {
      StrTotal(x.name, y.name);
      assert x in ds && y in ds;
    }
    SameElements(s, Sort(es, DomainLeq));
    SortedUnique(s, Sort(es, DomainLeq), DomainLeq);
  }
}
