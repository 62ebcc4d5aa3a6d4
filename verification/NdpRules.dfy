/** The rules file of the neighbour responder: printed from the accounts, read back by the responder. */
module NdpRules {
  import opened Common
  import opened Sorting
  import opened StringOrder
  import opened Text
  import opened LineText
  import opened Address

  /** What an account contributes: the text of its /112 (None when it has no block) and of its whole /64
      ("" when it has none). */
  datatype Account = Account(name: string, block: Option<string>, extra: string)

  // ---- collecting the blocks

  function BlocksOf(a: Account): seq<string> {
    (if a.block.Some? then [a.block.value] else []) + (if a.extra != "" then [a.extra] else [])
  }

  /** The blocks of all accounts but the dropped one, in account order. */
  function Collected(accounts: seq<Account>, drop: string): seq<string> {
    if accounts == [] then []
    else
      var last := accounts[|accounts| - 1];
      Collected(accounts[..|accounts| - 1], drop) + (if last.name == drop then [] else BlocksOf(last))
  }

  /** The blocks handed over separately, separated by commas. */
  function Added(added: string): seq<string> { if added == "" then [] else Split(added, ',') }

  function RuleBlocks(accounts: seq<Account>, added: string, drop: string): seq<string> {
    Compact(Sort(Collected(accounts, drop) + Added(added), StrLeq))
  }

  /** An account other than the dropped one has the block, as its /112 or as its /64. */
  ghost predicate Owned(accounts: seq<Account>, drop: string, b: string) {
    exists i :: 0 <= i < |accounts| && accounts[i].name != drop && Has(accounts[i], b)
  }

  predicate Has(a: Account, b: string) { a.block == Some(b) || (b != "" && a.extra == b) }

  lemma {:induction false} CollectedIsOwned(accounts: seq<Account>, drop: string, b: string)
    ensures b in Collected(accounts, drop) <==> Owned(accounts, drop, b)
  {
    if accounts != [] {
      var n := |accounts| - 1;
      CollectedIsOwned(accounts[..n], drop, b);
      assert b in BlocksOf(accounts[n]) <==> Has(accounts[n], b);
      if i :| 0 <= i < |accounts| && accounts[i].name != drop && Has(accounts[i], b) {
        assert i == n || accounts[..n][i] == accounts[i];
      }
      if i :| 0 <= i < n && accounts[..n][i].name != drop && Has(accounts[..n][i], b) {
        assert accounts[i] == accounts[..n][i];
      }
    }
  }

  /** slices.Compact: one of each run of equal elements. */
  function Compact(s: seq<string>): seq<string> {
    if |s| <= 1 then s
    else if s[0] == s[1] then Compact(s[1..])
    else [s[0]] + Compact(s[1..])
  }

  lemma {:induction false} CompactMembers(s: seq<string>)
    ensures forall x :: x in Compact(s) <==> x in s
    ensures s != [] ==> Compact(s) != [] && Compact(s)[0] == s[0]
  {
    if |s| > 1 {
      CompactMembers(s[1..]);
      assert s == [s[0]] + s[1..];
      assert s[1..][0] == s[1];
    }
  }

  ghost predicate StrictlySorted(s: seq<string>) {
    forall i, j :: 0 <= i < j < |s| ==> StrLeq(s[i], s[j]) && s[i] != s[j]
  }

  lemma StrictCons(x: string, s: seq<string>)
    requires StrictlySorted(s) && forall y :: y in s ==> StrLeq(x, y) && x != y
    ensures StrictlySorted([x] + s)
  {
    var t := [x] + s;
    forall i, j | 0 <= i < j < |t| ensures StrLeq(t[i], t[j]) && t[i] != t[j] {
      assert t[j] == s[j - 1];
      assert i == 0 || t[i] == s[i - 1];
    }
  }

  lemma AboveHead(s: seq<string>, y: string)
    requires SortedBy(s, StrLeq) && |s| > 1 && s[0] != s[1] && y in s[1..]
    ensures StrLeq(s[0], y) && s[0] != y
  {
    var j :| 0 < j < |s| && s[j] == y;
    assert StrLeq(s[0], s[1]) && StrLeq(s[0], s[j]);
    assert j == 1 || StrLeq(s[1], s[j]);
    StrTotal(s[0], s[1]);
    StrTotal(s[1], y);
  }

  lemma SortedTail(s: seq<string>)
    requires SortedBy(s, StrLeq) && s != []
    ensures SortedBy(s[1..], StrLeq)
  {
  }

  lemma {:induction false} CompactStrict(s: seq<string>)
    requires SortedBy(s, StrLeq)
    ensures StrictlySorted(Compact(s))
  {
    if |s| > 1 {
      SortedTail(s);
      CompactStrict(s[1..]);
      if s[0] != s[1] {
        CompactMembers(s[1..]);
        forall y | y in Compact(s[1..]) ensures StrLeq(s[0], y) && s[0] != y { AboveHead(s, y); }
        StrictCons(s[0], Compact(s[1..]));
      }
    }
  }

  // ---- printing

  function RuleLines(block: string, iface: string): seq<string> {
    ["   rule " + block + " {", "      iface " + iface, "   }"]
  }

  function AllRuleLines(blocks: seq<string>, iface: string): seq<string> {
    if blocks == [] then [] else RuleLines(blocks[0], iface) + AllRuleLines(blocks[1..], iface)
  }

  /** The fixed parts of the file: its comment header, the external interface and the bridge. */
  datatype Host = Host(header: seq<string>, ext: string, bridge: string) {
    function Iface(): string { if bridge == "" then "lo" else bridge }
  }

  function ConfText(h: Host, blocks: seq<string>): string {
    if blocks == [] then ""
    else Unlines(h.header + ["proxy " + h.ext + " {"] + AllRuleLines(blocks, h.Iface()) + ["}"])
  }

  /** Owned, or one of the blocks handed over separately. */
  ghost predicate Granted(accounts: seq<Account>, added: string, drop: string, b: string) {
    Owned(accounts, drop, b) || (added != "" && b in Split(added, ','))
  }

  /** The file's rules: in strict order, hence without repetition, exactly the blocks owned or added. */
  lemma RuleBlocksExact(accounts: seq<Account>, added: string, drop: string)
    ensures var blocks := RuleBlocks(accounts, added, drop);
      && StrictlySorted(blocks)
      && forall b :: b in blocks <==> Granted(accounts, added, drop, b)
  {
    var all := Collected(accounts, drop) + Added(added);
    var sorted := Sort(all, StrLeq);
    StrPreorder();
    SortSorted(all, StrLeq);
    CompactStrict(sorted);
    CompactMembers(sorted);
    SameElements(all, sorted);
    forall b ensures b in all <==> Granted(accounts, added, drop, b) {
      CollectedIsOwned(accounts, drop, b);
    }
  }

  datatype ConfError = NoInterface

  lemma TakeOne(accounts: seq<Account>, i: nat, drop: string)
    requires i < |accounts|
    ensures Collected(accounts[..i + 1], drop)
         == Collected(accounts[..i], drop) + (if accounts[i].name == drop then [] else BlocksOf(accounts[i]))
  {
    assert accounts[..i + 1][..i] == accounts[..i];
  }

  method CollectBlocks(accounts: seq<Account>, added: string, drop: string) returns (blocks: seq<string>)
    ensures blocks == Collected(accounts, drop) + Added(added)
  {
    blocks := [];
    for i := 0 to |accounts|
      invariant blocks == Collected(accounts[..i], drop)
    {
      TakeOne(accounts, i, drop);
      var u := accounts[i];
      if u.name == drop { continue; }
      ghost var before := blocks;
      if u.block.Some? { blocks := blocks + [u.block.value]; }
      if u.extra != "" { blocks := blocks + [u.extra]; }
      assert blocks == before + BlocksOf(u);
    }
    assert accounts[..|accounts|] == accounts;
    if added != "" { blocks := blocks + Split(added, ','); }
  }

  method NdppdConf(h: Host, enabled: bool, accounts: seq<Account>, added: string, drop: string)
      returns (r: Result<string, ConfError>)
    ensures !enabled ==> r == Ok("")
    ensures enabled && h.ext == "" ==> r == Err(NoInterface)
    ensures enabled && h.ext != "" ==> r == Ok(ConfText(h, RuleBlocks(accounts, added, drop)))
  {
    if !enabled { return Ok(""); }
    if h.ext == "" { return Err(NoInterface); }
    var collected := CollectBlocks(accounts, added, drop);
    var sorted := Sort(collected, StrLeq);
    CompactMembers(sorted);
    if |collected| == 0 { return Ok(""); }
    var blocks := Compact(sorted);
    var text := PrintRules(h, blocks);
    return Ok(text);
  }

  lemma RulesFrom(blocks: seq<string>, i: nat, iface: string)
    requires i < |blocks|
    ensures Unlines(AllRuleLines(blocks[i..], iface))
         == Unlines(RuleLines(blocks[i], iface)) + Unlines(AllRuleLines(blocks[i + 1..], iface))
  {
    assert blocks[i..][1..] == blocks[i + 1..];
    UnlinesConcat(RuleLines(blocks[i], iface), AllRuleLines(blocks[i + 1..], iface));
  }

  method PrintRules(h: Host, blocks: seq<string>) returns (b: string)
    requires blocks != []
    ensures b == ConfText(h, blocks)
  {
    var open, close := ["proxy " + h.ext + " {"], ["}"];
    b := Unlines(h.header + open);
    ghost var head := b;
    assert blocks[0..] == blocks;
    for i := 0 to |blocks|
      invariant b + Unlines(AllRuleLines(blocks[i..], h.Iface())) == head + Unlines(AllRuleLines(blocks, h.Iface()))
    {
      RulesFrom(blocks, i, h.Iface());
      var chunk := Unlines(RuleLines(blocks[i], h.Iface()));
      AppendChunk(b, chunk, Unlines(AllRuleLines(blocks[i + 1..], h.Iface())));
      b := b + chunk;
    }
    assert b + "" == b;
    UnlinesConcat(h.header + open, AllRuleLines(blocks, h.Iface()));
    UnlinesConcat(h.header + open + AllRuleLines(blocks, h.Iface()), close);
    b := b + Unlines(close);
  }

  // ---- reading

  /** The rule a line states, if any. */
  function RuleOf(line: string): Option<string> {
    var f := Fields(line);
    if |f| < 2 || f[0] != "rule" then None else Some(f[1])
  }

  /** The values f yields over a list, in order. */
  function FilterMap<S, T>(s: seq<S>, f: S -> Option<T>): seq<T> {
    if s == [] then []
    else
      var front, last := FilterMap(s[..|s| - 1], f), f(s[|s| - 1]);
      if last.Some? then front + [last.value] else front
  }

  lemma {:induction false} FilterMapConcat<S, T>(a: seq<S>, b: seq<S>, f: S -> Option<T>)
    ensures FilterMap(a + b, f) == FilterMap(a, f) + FilterMap(b, f)
  {
    if b == [] {
      assert a + b == a;
    } else {
      var n := |b| - 1;
      assert (a + b)[..|a + b| - 1] == a + b[..n];
      FilterMapConcat(a, b[..n], f);
    }
  }

  lemma FilterMapStep<S, T>(s: seq<S>, n: nat, f: S -> Option<T>)
    requires n < |s|
    ensures FilterMap(s[..n + 1], f)
         == if f(s[n]).Some? then FilterMap(s[..n], f) + [f(s[n]).value] else FilterMap(s[..n], f)
  {
    assert s[..n + 1][..n] == s[..n] && s[..n + 1][n] == s[n];
  }

  /** A line's network: its rule text as net.ParseCIDR reads it (`parse`), IPv4 excluded. */
  function NetOf(parse: string -> Option<Net>): string -> Option<Net> {
    (line: string) => match RuleOf(line) case None => None case Some(text) => parse(text)
  }

  lemma {:induction false} NetsAreParsed(lines: seq<string>, parse: string -> Option<Net>)
    ensures FilterMap(lines, NetOf(parse)) == FilterMap(FilterMap(lines, RuleOf), parse)
  {
    if lines != [] {
      var front, last := lines[..|lines| - 1], lines[|lines| - 1];
      NetsAreParsed(front, parse);
      if RuleOf(last).Some? {
        FilterMapConcat(FilterMap(front, RuleOf), [RuleOf(last).value], parse);
        assert [RuleOf(last).value][..0] == [];
      }
    }
  }

  /** The responder's rule list; no rule at all is reported as an error, on which it forgets its rules. */
  method LoadRules(text: string, parse: string -> Option<Net>) returns (r: Option<seq<Net>>)
    ensures r == (if FilterMap(Split(text, '\n'), NetOf(parse)) == [] then None
                  else Some(FilterMap(Split(text, '\n'), NetOf(parse))))
  {
    var lines := Split(text, '\n');
    var rules: seq<Net> := [];
    for i := 0 to |lines|
      invariant rules == FilterMap(lines[..i], NetOf(parse))
    {
      FilterMapStep(lines, i, NetOf(parse));
      var f := Fields(lines[i]);
      if |f| < 2 || f[0] != "rule" {
        assert RuleOf(lines[i]) == None;
        assert NetOf(parse)(lines[i]) == None;
        continue;
      }
      assert RuleOf(lines[i]) == Some(f[1]);
      var network := parse(f[1]);
      assert NetOf(parse)(lines[i]) == network;
      if network.None? { continue; }
      rules := rules + [network.value];
    }
    assert lines[..|lines|] == lines;
    if |rules| == 0 { return None; }
    return Some(rules);
  }

  predicate Matches(t: Ip, rules: seq<Net>)
    requires forall i :: 0 <= i < |rules| ==> rules[i].ones <= 128
  {
    exists i :: 0 <= i < |rules| && Contains(rules[i], t)
  }

  // ---- the round trip

  /** However a line goes on, the word after "rule" is the rule. */
  lemma RuleLine(line: string, indent: string, block: string, rest: string)
    requires AllSpace(indent) && IsWord(block) && (rest == "" || IsSpace(rest[0]))
    requires line == indent + "rule" + (" " + block + rest)
    ensures RuleOf(line) == Some(block)
  {
    FieldsStep(indent, "rule", " " + block + rest);
    FieldsStep(" ", block, rest);
  }

  lemma OtherLine(line: string, indent: string, word: string, rest: string)
    requires AllSpace(indent) && IsWord(word) && word != "rule" && (rest == "" || IsSpace(rest[0]))
    requires line == indent + word + rest
    ensures RuleOf(line) == None
  {
    FieldsStep(indent, word, rest);
  }

  lemma {:induction false} NoRules(lines: seq<string>)
    requires forall i :: 0 <= i < |lines| ==> RuleOf(lines[i]) == None
    ensures FilterMap(lines, RuleOf) == []
  {
    if lines != [] { NoRules(lines[..|lines| - 1]); }
  }

  lemma ThreeLines(a: string, b: string, c: string, block: string)
    requires RuleOf(a) == Some(block) && RuleOf(b) == None && RuleOf(c) == None
    ensures FilterMap([a, b, c], RuleOf) == [block]
  {
    assert [a, b, c][..2] == [a, b] && [a, b][..1] == [a] && [a][..0] == [];
    assert FilterMap([a], RuleOf) == [block];
    assert FilterMap([a, b], RuleOf) == [block];
  }

  lemma InnerLines(iface: string)
    requires IsWord(iface)
    ensures RuleOf("      iface " + iface) == None && RuleOf("   }") == None
  {
    OtherLine("      iface " + iface, "      ", "iface", " " + iface);
    OtherLine("   }", "   ", "}", "");
  }

  lemma {:induction false} RulesRead(blocks: seq<string>, iface: string)
    requires IsWord(iface) && forall i :: 0 <= i < |blocks| ==> IsWord(blocks[i])
    ensures FilterMap(AllRuleLines(blocks, iface), RuleOf) == blocks
  {
    if blocks != [] {
      InnerLines(iface);
      RuleLine("   rule " + blocks[0] + " {", "   ", blocks[0], " {");
      var ls := RuleLines(blocks[0], iface);
      ThreeLines(ls[0], ls[1], ls[2], blocks[0]);
      RulesRead(blocks[1..], iface);
      FilterMapConcat(ls, AllRuleLines(blocks[1..], iface), RuleOf);
    }
  }

  /** What the host side may contain: a header of comment lines or blank lines, and interface names that
      are single words. */
  ghost predicate GoodHost(h: Host) {
    && (forall i :: 0 <= i < |h.header| ==> RuleOf(h.header[i]) == None && '\n' !in h.header[i])
    && IsWord(h.ext) && IsWord(h.Iface())
  }

  lemma WordOneLine(s: string)
    requires IsWord(s)
    ensures '\n' !in s
  {
  }

  lemma {:induction false} RulesOneLine(blocks: seq<string>, iface: string)
    requires IsWord(iface) && forall i :: 0 <= i < |blocks| ==> IsWord(blocks[i])
    ensures forall i :: 0 <= i < |AllRuleLines(blocks, iface)| ==> '\n' !in AllRuleLines(blocks, iface)[i]
  {
    if blocks != [] {
      WordOneLine(iface);
      WordOneLine(blocks[0]);
      RulesOneLine(blocks[1..], iface);
    }
  }

  lemma FramingLines(ext: string)
    requires IsWord(ext)
    ensures RuleOf("proxy " + ext + " {") == None && RuleOf("}") == None && RuleOf("") == None
    ensures '\n' !in "proxy " + ext + " {"
  {
  }

  /** Reading the printed file gives its blocks back, in order. */
  lemma ConfReads(h: Host, blocks: seq<string>)
    requires GoodHost(h) && blocks != [] && forall i :: 0 <= i < |blocks| ==> IsWord(blocks[i])
    ensures FilterMap(Split(ConfText(h, blocks), '\n'), RuleOf) == blocks
  {
    var open, close := "proxy " + h.ext + " {", "}";
    var rules := AllRuleLines(blocks, h.Iface());
    var front := h.header + [open];
    FramingLines(h.ext);
    RulesOneLine(blocks, h.Iface());
    SplitUnlines(front + rules + [close]);
    assert front + rules + [close] + [""] == front + (rules + [close, ""]);
    NoRules(front);
    NoRules([close, ""]);
    RulesRead(blocks, h.Iface());
    FilterMapConcat(rules, [close, ""], RuleOf);
    FilterMapConcat(front, rules + [close, ""], RuleOf);
  }

  // ---- the whole structure

  /** A file of one proxy section: its interface, and its rules with the interface each leads to. */
  datatype Conf = Conf(ext: string, rules: seq<(string, string)>)

  predicate Skipped(line: string) { line == "" || line[0] == '#' }

  predicate Opens(f: seq<string>, keyword: string) { |f| == 3 && f[0] == keyword && f[2] == "{" }

  /** Comments and blank lines, then the section, which has to be closed at the end. */
  function ReadConf(lines: seq<string>): Option<Conf> {
    if lines == [] then None
    else
      var f := Fields(lines[0]);
      if Skipped(lines[0]) then ReadConf(lines[1..])
      else if Opens(f, "proxy") then
        match ReadSection(lines[1..])
        case None => None
        case Some(rules) => Some(Conf(f[1], rules))
      else None
  }

  function ReadSection(lines: seq<string>): Option<seq<(string, string)>> {
    if lines == [] then None
    else
      var f := Fields(lines[0]);
      if f == ["}"] then (if lines[1..] == [""] then Some([]) else None)
      else if Opens(f, "rule") && |lines| >= 3 && Leads(Fields(lines[1])) && Fields(lines[2]) == ["}"] then
        match ReadSection(lines[3..])
        case None => None
        case Some(rules) => Some([(f[1], Fields(lines[1])[1])] + rules)
      else None
  }

  predicate Leads(f: seq<string>) { |f| == 2 && f[0] == "iface" }

  lemma OpenFields(line: string, indent: string, keyword: string, word: string)
    requires AllSpace(indent) && IsWord(keyword) && IsWord(word)
    requires line == indent + keyword + (" " + word + " {")
    ensures Fields(line) == [keyword, word, "{"]
  {
    FieldsStep(indent, keyword, " " + word + " {");
    FieldsStep(" ", word, " {");
    assert " " + "{" + "" == " {";
    FieldsStep(" ", "{", "");
  }

  lemma CloseFields(line: string, indent: string)
    requires AllSpace(indent) && line == indent + "}" + ""
    ensures Fields(line) == ["}"]
  {
    FieldsStep(indent, "}", "");
  }

  lemma ReadRuleLines(ls: seq<string>, rest: seq<string>, block: string, iface: string)
    requires |ls| == 3 && Fields(ls[0]) == ["rule", block, "{"] && Fields(ls[1]) == ["iface", iface] && Fields(ls[2]) == ["}"]
    requires ReadSection(rest).Some?
    ensures ReadSection(ls + rest) == Some([(block, iface)] + ReadSection(rest).value)
  {
    var lines := ls + rest;
    assert lines[3..] == rest && lines[0] == ls[0] && lines[1] == ls[1] && lines[2] == ls[2];
    assert |["}"]| == 1 && |["rule", block, "{"]| == 3;
  }

  function Pairs(blocks: seq<string>, iface: string): seq<(string, string)> {
    seq(|blocks|, i requires 0 <= i < |blocks| => (blocks[i], iface))
  }

  lemma RuleFields(block: string, iface: string)
    requires IsWord(block) && IsWord(iface)
    ensures var ls := RuleLines(block, iface);
      |ls| == 3 && Fields(ls[0]) == ["rule", block, "{"] && Fields(ls[1]) == ["iface", iface] && Fields(ls[2]) == ["}"]
  {
    OpenFields("   rule " + block + " {", "   ", "rule", block);
    Indented("      iface " + iface, "      ", "iface", " ", iface);
    CloseFields("   }", "   ");
  }

  lemma SectionEnds(lines: seq<string>)
    requires lines == ["}", ""]
    ensures ReadSection(lines) == Some([])
  {
    CloseFields(lines[0], "");
  }

  lemma {:induction false} SectionReads(blocks: seq<string>, iface: string)
    requires IsWord(iface) && forall i :: 0 <= i < |blocks| ==> IsWord(blocks[i])
    ensures ReadSection(AllRuleLines(blocks, iface) + ["}", ""]) == Some(Pairs(blocks, iface))
  {
    if blocks == [] {
      SectionEnds(AllRuleLines(blocks, iface) + ["}", ""]);
    } else {
      var first, rest := RuleLines(blocks[0], iface), AllRuleLines(blocks[1..], iface) + ["}", ""];
      RuleFields(blocks[0], iface);
      SectionReads(blocks[1..], iface);
      ReadRuleLines(first, rest, blocks[0], iface);
      assert AllRuleLines(blocks, iface) + ["}", ""] == first + rest;
      assert Pairs(blocks, iface) == [(blocks[0], iface)] + Pairs(blocks[1..], iface);
    }
  }

  lemma {:induction false} SkipHeader(header: seq<string>, rest: seq<string>)
    requires forall i :: 0 <= i < |header| ==> Skipped(header[i])
    ensures ReadConf(header + rest) == ReadConf(rest)
  {
    if header == [] {
      assert header + rest == rest;
    } else {
      assert (header + rest)[1..] == header[1..] + rest;
      SkipHeader(header[1..], rest);
    }
  }

  /** The printed file has one section for the external interface, and in it one rule for each block, all leading to
      the bridge, or to the loopback interface if there is none. */
  lemma ConfStructure(h: Host, blocks: seq<string>)
    requires GoodHost(h) && blocks != [] && forall i :: 0 <= i < |blocks| ==> IsWord(blocks[i])
    requires forall i :: 0 <= i < |h.header| ==> Skipped(h.header[i])
    ensures ReadConf(Split(ConfText(h, blocks), '\n')) == Some(Conf(h.ext, Pairs(blocks, if h.bridge == "" then "lo" else h.bridge)))
  {
    var open := "proxy " + h.ext + " {";
    var rules := AllRuleLines(blocks, h.Iface());
    FramingLines(h.ext);
    RulesOneLine(blocks, h.Iface());
    SplitUnlines(h.header + [open] + rules + ["}"]);
    var inner := rules + ["}", ""];
    assert h.header + [open] + rules + ["}"] + [""] == h.header + ([open] + inner);
    SkipHeader(h.header, [open] + inner);
    OpenFields(open, "", "proxy", h.ext);
    SectionReads(blocks, h.Iface());
    OpensConf([open] + inner, h.ext);
  }

  lemma OpensConf(lines: seq<string>, ext: string)
    requires lines != [] && !Skipped(lines[0]) && Fields(lines[0]) == ["proxy", ext, "{"] && ReadSection(lines[1..]).Some?
    ensures ReadConf(lines) == Some(Conf(ext, ReadSection(lines[1..]).value))
  {
  }

  /** What the responder serves once it has read the file; an empty text stands for no file. */
  function Served(text: string, parse: string -> Option<Net>): seq<Net> {
    if text == "" then [] else FilterMap(Split(text, '\n'), NetOf(parse))
  }

  lemma {:induction false} AllParsed(texts: seq<string>, parse: string -> Option<Net>)
    requires forall i :: 0 <= i < |texts| ==> parse(texts[i]).Some?
    ensures |FilterMap(texts, parse)| == |texts|
    ensures forall i :: 0 <= i < |texts| ==> FilterMap(texts, parse)[i] == parse(texts[i]).value
  {
    if texts != [] {
      var n := |texts| - 1;
      AllParsed(texts[..n], parse);
      forall i | 0 <= i < |texts| ensures FilterMap(texts, parse)[i] == parse(texts[i]).value {
        assert i < n ==> texts[..n][i] == texts[i];
      }
    }
  }

  /** Every block text is a single word that reads back as a network. */
  ghost predicate Readable(texts: seq<string>, parse: string -> Option<Net>) {
    forall i :: 0 <= i < |texts| ==> IsWord(texts[i]) && parse(texts[i]).Some? && parse(texts[i]).value.ones <= 128
  }

  predicate Covers(n: Option<Net>, t: Ip) { n.Some? && n.value.ones <= 128 && Contains(n.value, t) }

  /** The round trip: with the file printed for these accounts, the responder answers for an address
      exactly when it lies in a block of an account other than the dropped one, or in an added block. */
  lemma RulesRoundTrip(h: Host, accounts: seq<Account>, added: string, drop: string, parse: string -> Option<Net>, t: Ip)
    requires GoodHost(h) && Readable(RuleBlocks(accounts, added, drop), parse)
    ensures var rules := Served(ConfText(h, RuleBlocks(accounts, added, drop)), parse);
      && (forall i :: 0 <= i < |rules| ==> rules[i].ones <= 128)
      && (Matches(t, rules) <==> exists b :: Granted(accounts, added, drop, b) && Covers(parse(b), t))
  {
    var blocks := RuleBlocks(accounts, added, drop);
    var text := ConfText(h, blocks);
    var rules := Served(text, parse);
    RuleBlocksExact(accounts, added, drop);
    ServesBlocks(h, blocks, parse);
    if i :| 0 <= i < |rules| && Contains(rules[i], t) {
      assert blocks[i] in blocks && Covers(parse(blocks[i]), t);
    }
    if b :| Granted(accounts, added, drop, b) && Covers(parse(b), t) {
      assert b in blocks;
      var i :| 0 <= i < |blocks| && blocks[i] == b;
      assert Contains(rules[i], t);
    }
  }

  lemma ServesBlocks(h: Host, blocks: seq<string>, parse: string -> Option<Net>)
    requires GoodHost(h) && Readable(blocks, parse)
    ensures var rules := Served(ConfText(h, blocks), parse);
      |rules| == |blocks| && forall i :: 0 <= i < |blocks| ==> rules[i] == parse(blocks[i]).value
  {
    if blocks != [] {
      ConfReads(h, blocks);
      NetsAreParsed(Split(ConfText(h, blocks), '\n'), parse);
      AllParsed(blocks, parse);
      assert ConfText(h, blocks) != "" by { if ConfText(h, blocks) == "" { NoRules([""]); FramingLines(h.ext); } }
    }
  }
}
