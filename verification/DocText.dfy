/** The three regular expressions and the ReplaceAll calls over the text of an
    OpenAPI document, character by character as Go's regexp works, and the same
    rewrites line by line. The two agree on every text, final newline or not. */
module DocText {
  import opened Common

  const COMPONENTS := "components:"
  const OPENAPI := "openapi:"
  const SERVERS := "servers:"
  const URL := "url:"
  const URL_ITEM := "    - url: "

  const SCHEME_NAME := "bearerAuth"

  function Indent(k: nat, s: string): string {
    seq(k, i => ' ') + s
  }

  const SCHEME_LINES: seq<string> := [
    Indent(4, "securitySchemes:"),
    Indent(8, SCHEME_NAME + ":"),
    Indent(12, "type: http"),
    Indent(12, "scheme: bearer"),
    Indent(12, "bearerFormat: JWT")]

  const SECURITY_LINES: seq<string> := ["security:", Indent(4, "- " + SCHEME_NAME + ": []")]

  /** What one ReplaceAllFunc call does: add a block after each match of
      componentsLine, after each match of openapiLine, or replace each match of
      serversBlock by a list naming one origin. */
  datatype Edit = AddScheme | AddSecurity | SetServers(origin: string)

  // ---- Text ----

  /** The length of the first line with its newline; 0 when there is no newline. */
  function LineLen(rest: string): (n: nat)
    ensures n <= |rest|
    ensures n > 0 ==> rest[n - 1] == '\n' && OneLine(rest[..n - 1])
    ensures n == 0 ==> OneLine(rest)
  {
    if rest == "" then 0
    else if rest[0] == '\n' then 1
    else
      var n := LineLen(rest[1..]);
      if n == 0 then 0 else assert rest[..n] == [rest[0]] + rest[1..][..n - 1]; n + 1
  }

  /** The run matched by [ \t]*. */
  function Blanks(rest: string): (n: nat)
    ensures n <= |rest|
  {
    if rest != "" && (rest[0] == ' ' || rest[0] == '\t') then 1 + Blanks(rest[1..]) else 0
  }

  /** Matches [ \t]+url: at the start. */
  predicate IsUrl(s: string) {
    var b := Blanks(s);
    0 < b && URL <= s[b..]
  }

  /** Matches [ \t]+-[ \t]+url: at the start. */
  predicate IsItem(s: string) {
    var a := Blanks(s);
    0 < a < |s| && s[a] == '-' && IsUrl(s[a + 1..])
  }

  /** The length of (?:[ \t]+-[ \t]+url:[^\n]*\n)* at the start, as long as possible. */
  function ItemsLen(rest: string): (n: nat)
    ensures n <= |rest|
    ensures n > 0 ==> rest[n - 1] == '\n'
  {
    var k := LineLen(rest);
    if k > 0 && IsItem(rest) then k + ItemsLen(rest[k..]) else 0
  }

  /** The length of the match at the start of a line; 0 for no match. */
  function Match(e: Edit, rest: string): (n: nat)
    ensures n <= |rest|
    ensures n > 0 ==> rest[n - 1] == '\n'
  {
    match e
    case AddScheme => if COMPONENTS + "\n" <= rest then |COMPONENTS| + 1 else 0
    case AddSecurity => if OPENAPI <= rest then LineLen(rest) else 0
    case SetServers(_) =>
      if SERVERS + "\n" <= rest && ItemsLen(rest[|SERVERS| + 1..]) > 0
      then |SERVERS| + 1 + ItemsLen(rest[|SERVERS| + 1..])
      else 0
  }

  function Replacement(e: Edit, matched: string): string {
    match e
    case AddScheme => matched + Unlines(SCHEME_LINES)
    case AddSecurity => matched + Unlines(SECURITY_LINES)
    case SetServers(origin) => SERVERS + "\n" + URL_ITEM + origin + "\n"
  }

  /** ReplaceAllFunc on the rest of a text: take a match where a line begins and
      there is one, else copy a character. */
  function ReplaceAll(m: string -> nat, repl: string -> string, rest: string, atLineStart: bool): string
    decreases |rest|
  {
    if rest == "" then ""
    else if atLineStart && 0 < m(rest) <= |rest| then
      repl(rest[..m(rest)]) + ReplaceAll(m, repl, rest[m(rest)..], true)
    else
      [rest[0]] + ReplaceAll(m, repl, rest[1..], rest[0] == '\n')
  }

  function Matcher(e: Edit): string -> nat {
    (rest: string) => Match(e, rest)
  }

  function Replacer(e: Edit): string -> string {
    (matched: string) => Replacement(e, matched)
  }

  function Rewrite(e: Edit, text: string): string {
    ReplaceAll(Matcher(e), Replacer(e), text, true)
  }

  // ---- Lines ----

  function Unlines(lines: seq<string>): string {
    if lines == [] then "" else lines[0] + "\n" + Unlines(lines[1..])
  }

  predicate AllOneLine(lines: seq<string>) {
    forall i :: 0 <= i < |lines| ==> OneLine(lines[i])
  }

  /** A text as its complete lines and what follows the last newline. */
  datatype Doc = Doc(lines: seq<string>, tail: string)

  predicate IsDoc(d: Doc) {
    AllOneLine(d.lines) && OneLine(d.tail)
  }

  function Text(d: Doc): string {
    Unlines(d.lines) + d.tail
  }

  function Cons(line: string, d: Doc): Doc {
    Doc([line] + d.lines, d.tail)
  }

  lemma TextCons(line: string, d: Doc)
    ensures Text(Cons(line, d)) == line + "\n" + Text(d)
    ensures OneLine(line) && IsDoc(d) ==> IsDoc(Cons(line, d))
  {
    assert ([line] + d.lines)[1..] == d.lines;
    Assoc(line + "\n", Unlines(d.lines), d.tail);
  }

  function Parse(text: string): Doc
    decreases |text|
  {
    var n := LineLen(text);
    if n == 0 then Doc([], text) else Cons(text[..n - 1], Parse(text[n..]))
  }

  /** How many leading lines are list items. */
  function ItemCount(lines: seq<string>): (n: nat)
    ensures n <= |lines|
    ensures forall i :: 0 <= i < n ==> IsItem(lines[i])
    ensures n < |lines| ==> !IsItem(lines[n])
  {
    if lines != [] && IsItem(lines[0]) then 1 + ItemCount(lines[1..]) else 0
  }

  /** How many leading lines an edit matches. */
  function LinesMatched(e: Edit, lines: seq<string>): (n: nat)
    ensures n <= |lines|
  {
    if lines == [] then 0
    else
      match e
      case AddScheme => if lines[0] == COMPONENTS then 1 else 0
      case AddSecurity => if OPENAPI <= lines[0] then 1 else 0
      case SetServers(_) =>
        if lines[0] == SERVERS && ItemCount(lines[1..]) > 0 then 1 + ItemCount(lines[1..]) else 0
  }

  function NewLines(e: Edit, matched: seq<string>): seq<string> {
    match e
    case AddScheme => matched + SCHEME_LINES
    case AddSecurity => matched + SECURITY_LINES
    case SetServers(origin) => [SERVERS, URL_ITEM + origin]
  }

  function EditLines(e: Edit, lines: seq<string>): seq<string>
    decreases |lines|
  {
    if lines == [] then []
    else
      var n := LinesMatched(e, lines);
      if n > 0 then NewLines(e, lines[..n]) + EditLines(e, lines[n..])
      else [lines[0]] + EditLines(e, lines[1..])
  }

  // ---- They agree ----

  lemma {:induction false} UnlinesAppend(xs: seq<string>, ys: seq<string>)
    ensures Unlines(xs + ys) == Unlines(xs) + Unlines(ys)
  {
    if xs == [] {
      assert xs + ys == ys;
    } else {
      UnlinesAppend(xs[1..], ys);
      assert (xs + ys)[1..] == xs[1..] + ys;
    }
  }

  lemma {:induction false} FirstLine(line: string, more: string)
    requires OneLine(line)
    ensures LineLen(line + "\n" + more) == |line| + 1
  {
    var rest := line + "\n" + more;
    if line != "" {
      FirstLine(line[1..], more);
      assert rest[1..] == line[1..] + "\n" + more;
    }
  }

  lemma RejoinLine(text: string, n: nat)
    requires 0 < n <= |text| && text[n - 1] == '\n'
    ensures text[..n - 1] + "\n" + text[n..] == text
  {
  }

  /** Every text is the text of its lines. */
  lemma {:induction false} ParseThenText(text: string)
    ensures IsDoc(Parse(text)) && Text(Parse(text)) == text
    decreases |text|
  {
    var n := LineLen(text);
    if n > 0 {
      ParseThenText(text[n..]);
      TextCons(text[..n - 1], Parse(text[n..]));
      RejoinLine(text, n);
    }
  }

  lemma ParseCons(line: string, more: string)
    requires OneLine(line)
    ensures Parse(line + "\n" + more) == Cons(line, Parse(more))
  {
    var text := line + "\n" + more;
    FirstLine(line, more);
    assert text[..|line|] == line && text[|line| + 1..] == more;
  }

  /** And only of them: splitting into lines is one to one. */
  lemma {:induction false} ParseUnique(d: Doc)
    requires IsDoc(d)
    ensures Parse(Text(d)) == d
    decreases |d.lines|
  {
    if d.lines == [] {
      assert Text(d) == d.tail;
    } else {
      var rest := Doc(d.lines[1..], d.tail);
      ParseUnique(rest);
      assert Cons(d.lines[0], rest) == d;
      TextCons(d.lines[0], rest);
      ParseCons(d.lines[0], Text(rest));
    }
  }

  /** Whether a line is an item does not depend on what follows its newline. */
  lemma {:induction false} BlanksStop(line: string, more: string)
    ensures Blanks(line + "\n" + more) == Blanks(line)
  {
    if line != "" {
      BlanksStop(line[1..], more);
      assert (line + "\n" + more)[1..] == line[1..] + "\n" + more;
    }
  }

  lemma UrlStops(line: string, more: string)
    requires OneLine(line)
    ensures IsUrl(line + "\n" + more) == IsUrl(line)
  {
    var b := Blanks(line);
    BlanksStop(line, more);
    assert (line + "\n" + more)[b..] == line[b..] + "\n" + more;
    PrefixStops(URL, line[b..], more);
  }

  lemma ItemStops(line: string, more: string)
    requires OneLine(line)
    ensures IsItem(line + "\n" + more) == IsItem(line)
  {
    var a := Blanks(line);
    BlanksStop(line, more);
    if a < |line| {
      assert (line + "\n" + more)[a + 1..] == line[a + 1..] + "\n" + more;
      UrlStops(line[a + 1..], more);
    }
  }

  lemma PrefixStops(p: string, line: string, more: string)
    requires OneLine(p)
    ensures p <= line + "\n" + more <==> p <= line
  {
    var rest := line + "\n" + more;
    if |p| <= |line| {
      assert rest[..|p|] == line[..|p|];
    } else {
      assert rest[|line|] == '\n' && p[|line|] != '\n';
    }
  }

  /** A one-line pattern that ends in a newline matches exactly the whole line. */
  lemma WholeLine(p: string, line: string, more: string)
    requires OneLine(p) && OneLine(line)
    ensures p + "\n" <= line + "\n" + more <==> line == p
  {
    var rest := line + "\n" + more;
    FirstLine(line, more);
    if p + "\n" <= rest {
      var after := rest[|p| + 1..];
      assert rest == p + "\n" + after;
      FirstLine(p, after);
      assert p == rest[..|p|] && line == rest[..|line|];
    }
    if line == p {
      assert rest[..|p| + 1] == p + "\n";
    }
  }

  /** The text that d.lines[0] begins. */
  lemma SplitFirst(d: Doc)
    requires IsDoc(d) && d.lines != []
    ensures var rest := Doc(d.lines[1..], d.tail);
      IsDoc(rest) && Text(d) == d.lines[0] + "\n" + Text(rest) &&
      LineLen(Text(d)) == |d.lines[0]| + 1 == |Unlines(d.lines[..1])|
  {
    var line, rest := d.lines[0], Doc(d.lines[1..], d.tail);
    assert Cons(line, rest) == d;
    TextCons(line, rest);
    FirstLine(line, Text(rest));
    assert d.lines[..1] == [line];
    assert Unlines([line]) == line + "\n" + Unlines([]);
  }

  /** One line at a time: an item is matched whole, anything else ends the run. */
  lemma ItemsStep(line: string, more: string)
    requires OneLine(line)
    ensures ItemsLen(line + "\n" + more) == if IsItem(line) then |line| + 1 + ItemsLen(more) else 0
  {
    FirstLine(line, more);
    ItemStops(line, more);
    assert (line + "\n" + more)[|line| + 1..] == more;
  }

  lemma UnlinesFirst(lines: seq<string>, n: nat)
    requires n < |lines|
    ensures Unlines(lines[..n + 1]) == lines[0] + "\n" + Unlines(lines[1..][..n])
  {
    assert lines[..n + 1][1..] == lines[1..][..n];
  }

  lemma {:induction false} ItemsAgree(d: Doc)
    requires IsDoc(d)
    ensures ItemsLen(Text(d)) == |Unlines(d.lines[..ItemCount(d.lines)])|
    decreases |d.lines|
  {
    if d.lines != [] {
      var line, rest := d.lines[0], Doc(d.lines[1..], d.tail);
      SplitFirst(d);
      ItemsStep(line, Text(rest));
      if IsItem(line) {
        ItemsAgree(rest);
        UnlinesFirst(d.lines, ItemCount(rest.lines));
      }
    }
  }

  lemma ServersAgree(d: Doc, origin: string)
    requires IsDoc(d) && d.lines != []
    ensures Match(SetServers(origin), Text(d))
         == |Unlines(d.lines[..LinesMatched(SetServers(origin), d.lines)])|
  {
    var line, rest := d.lines[0], Doc(d.lines[1..], d.tail);
    var k := ItemCount(rest.lines);
    SplitFirst(d);
    WholeLine(SERVERS, line, Text(rest));
    if line == SERVERS {
      ItemsAgree(rest);
      assert Text(d)[|SERVERS| + 1..] == Text(rest);
      UnlinesFirst(d.lines, k);
    }
  }

  /** What a pattern matches in the text is what it matches in the lines; an
      unfinished last line is never part of a match. */
  lemma MatchAgrees(e: Edit, d: Doc)
    requires IsDoc(d)
    ensures Match(e, Text(d)) == |Unlines(d.lines[..LinesMatched(e, d.lines)])|
  {
    if d.lines == [] {
      NoMatchInTail(e, d.tail);
      assert Text(d) == d.tail;
    } else {
      var rest := Doc(d.lines[1..], d.tail);
      SplitFirst(d);
      match e
      case AddScheme => WholeLine(COMPONENTS, d.lines[0], Text(rest));
      case AddSecurity => PrefixStops(OPENAPI, d.lines[0], Text(rest));
      case SetServers(origin) => ServersAgree(d, origin);
    }
  }

  lemma NoMatchInTail(e: Edit, tail: string)
    requires OneLine(tail)
    ensures Match(e, tail) == 0
  {
  }

  lemma PeelChar(part: string, more: string)
    requires part != ""
    ensures [part[0]] + (part[1..] + "\n" + more) == part + "\n" + more
  {
    assert part == [part[0]] + part[1..];
  }

  /** Inside a line nothing matches. */
  lemma {:induction false} SkipLine(m: string -> nat, repl: string -> string, part: string, more: string)
    requires OneLine(part)
    ensures ReplaceAll(m, repl, part + "\n" + more, false) == part + "\n" + ReplaceAll(m, repl, more, true)
  {
    var rest := part + "\n" + more;
    if part == "" {
      assert rest[1..] == more;
    } else {
      SkipLine(m, repl, part[1..], more);
      assert rest[1..] == part[1..] + "\n" + more;
      PeelChar(part, ReplaceAll(m, repl, more, true));
    }
  }

  /** A line where no match begins is copied. */
  lemma CopyLine(m: string -> nat, repl: string -> string, line: string, more: string)
    requires OneLine(line) && m(line + "\n" + more) == 0
    ensures ReplaceAll(m, repl, line + "\n" + more, true) == line + "\n" + ReplaceAll(m, repl, more, true)
  {
    var rest := line + "\n" + more;
    if line == "" {
      assert rest[1..] == more;
    } else {
      assert rest[1..] == line[1..] + "\n" + more;
      SkipLine(m, repl, line[1..], more);
      PeelChar(line, ReplaceAll(m, repl, more, true));
    }
  }

  /** A match is replaced. */
  lemma ReplaceBlock(m: string -> nat, repl: string -> string, block: string, more: string)
    requires block != "" && m(block + more) == |block|
    ensures ReplaceAll(m, repl, block + more, true) == repl(block) + ReplaceAll(m, repl, more, true)
  {
    assert (block + more)[..|block|] == block && (block + more)[|block|..] == more;
  }

  lemma {:induction false} SkipTail(m: string -> nat, repl: string -> string, tail: string, atLineStart: bool)
    requires OneLine(tail) && m(tail) == 0
    ensures ReplaceAll(m, repl, tail, atLineStart) == tail
  {
    if tail != "" {
      SkipPart(m, repl, tail[1..]);
    }
  }

  lemma {:induction false} SkipPart(m: string -> nat, repl: string -> string, part: string)
    requires OneLine(part)
    ensures ReplaceAll(m, repl, part, false) == part
  {
    if part != "" {
      SkipPart(m, repl, part[1..]);
    }
  }

  lemma ReplacementAgrees(e: Edit, matched: seq<string>)
    ensures Replacement(e, Unlines(matched)) == Unlines(NewLines(e, matched))
  {
    match e
    case AddScheme => UnlinesAppend(matched, SCHEME_LINES);
    case AddSecurity => UnlinesAppend(matched, SECURITY_LINES);
    case SetServers(origin) =>
      var item := URL_ITEM + origin;
      assert [SERVERS, item][1..] == [item] && [item][1..] == [];
      assert Unlines([item]) == item + "\n" + Unlines([]);
      assert Unlines([SERVERS, item]) == SERVERS + "\n" + Unlines([item]);
  }

  lemma TextAppend(xs: seq<string>, d: Doc)
    ensures Text(Doc(xs + d.lines, d.tail)) == Unlines(xs) + Text(d)
  {
    UnlinesAppend(xs, d.lines);
    Assoc(Unlines(xs), Unlines(d.lines), d.tail);
  }

  /** The rewrite of a text is the rewrite of its lines; the unfinished last line stays. */
  lemma {:induction false} RewriteAgrees(e: Edit, d: Doc)
    requires IsDoc(d)
    ensures Rewrite(e, Text(d)) == Text(Doc(EditLines(e, d.lines), d.tail))
    decreases |d.lines|
  {
    MatchAgrees(e, d);
    if d.lines == [] {
      assert Text(d) == d.tail;
      SkipTail(Matcher(e), Replacer(e), d.tail, true);
    } else if LinesMatched(e, d.lines) == 0 {
      var rest := Doc(d.lines[1..], d.tail);
      SplitFirst(d);
      CopyLine(Matcher(e), Replacer(e), d.lines[0], Text(rest));
      RewriteAgrees(e, rest);
      TextCons(d.lines[0], Doc(EditLines(e, rest.lines), d.tail));
    } else {
      RewriteMatch(e, d);
    }
  }

  lemma {:induction false} RewriteMatch(e: Edit, d: Doc)
    requires IsDoc(d) && LinesMatched(e, d.lines) > 0
    ensures Rewrite(e, Text(d)) == Text(Doc(EditLines(e, d.lines), d.tail))
    decreases |d.lines|, 0
  {
    var n := LinesMatched(e, d.lines);
    var block, rest := d.lines[..n], Doc(d.lines[n..], d.tail);
    assert block + rest.lines == d.lines;
    TextAppend(block, rest);
    MatchAgrees(e, d);
    ReplaceBlock(Matcher(e), Replacer(e), Unlines(block), Text(rest));
    ReplacementAgrees(e, block);
    RewriteAgrees(e, rest);
    TextAppend(NewLines(e, block), Doc(EditLines(e, rest.lines), d.tail));
  }
}
