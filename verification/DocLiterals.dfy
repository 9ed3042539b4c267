/** The two operations on the documents they are meant for, in literal lines: what
    is added, what is replaced, and what counts as an item of a servers list. */
module DocLiterals {
  import opened Common
  import opened DocText
  import opened DocRewrites
  import opened DocTheorems

  // ---- The constants ----

  lemma Indented(k: nat, blanks: string, s: string)
    requires |blanks| == k && forall i :: 0 <= i < k ==> blanks[i] == ' '
    ensures Indent(k, s) == blanks + s
  {
  }

  lemma NameLines()
    ensures Indent(4, "securitySchemes:") == "    securitySchemes:"
    ensures Indent(8, SCHEME_NAME + ":") == "        bearerAuth:"
  {
    Indented(4, "    ", "securitySchemes:");
    Indented(8, "        ", "bearerAuth:");
  }

  lemma TypeLine()
    ensures Indent(12, "type: http") == "            type: http"
  {
    Indented(12, "            ", "type: http");
  }

  lemma BearerLine()
    ensures Indent(12, "scheme: bearer") == "            scheme: bearer"
  {
    Indented(12, "            ", "scheme: bearer");
  }

  lemma FormatLine()
    ensures Indent(12, "bearerFormat: JWT") == "            bearerFormat: JWT"
  {
    Indented(12, "            ", "bearerFormat: JWT");
  }

  lemma SchemeLines()
    ensures SCHEME_LINES == ["    securitySchemes:", "        bearerAuth:", "            type: http",
                             "            scheme: bearer", "            bearerFormat: JWT"]
  {
    NameLines();
    TypeLine();
    BearerLine();
    FormatLine();
  }

  lemma SecurityLines()
    ensures SECURITY_LINES == ["security:", "    - bearerAuth: []"]
  {
    assert Indent(4, "- " + SCHEME_NAME + ": []") == "    - bearerAuth: []";
  }

  // ---- Items ----

  /** Blanks and tabs, at least one. */
  predicate Spaces(s: string) {
    s != "" && forall c :: c in s ==> c == ' ' || c == '\t'
  }

  lemma {:induction false} SpacesCounted(s: string, more: string)
    requires (forall c :: c in s ==> c == ' ' || c == '\t') && (more == "" || (more[0] != ' ' && more[0] != '\t'))
    ensures Blanks(s + more) == |s|
  {
    if s == "" {
      assert s + more == more;
    } else {
      assert s[0] in s && (s + more)[1..] == s[1..] + more;
      forall c | c in s[1..]
        ensures c in s
      {
      }
      SpacesCounted(s[1..], more);
    }
  }

  lemma {:induction false} BlanksAreSpaces(s: string)
    ensures forall c :: c in s[..Blanks(s)] ==> c == ' ' || c == '\t'
  {
    if s != "" && (s[0] == ' ' || s[0] == '\t') {
      BlanksAreSpaces(s[1..]);
      assert s[..Blanks(s)] == [s[0]] + s[1..][..Blanks(s[1..])];
    }
  }

  lemma UrlShape(s: string, b: string, host: string)
    requires Spaces(b) && s == b + ("url:" + host)
    ensures IsUrl(s)
  {
    SpacesCounted(b, "url:" + host);
    assert s[|b|..] == "url:" + host;
  }

  lemma ShapeOfUrl(s: string) returns (b: string, host: string)
    requires IsUrl(s)
    ensures Spaces(b) && s == b + ("url:" + host)
  {
    var k := Blanks(s);
    BlanksAreSpaces(s);
    b, host := s[..k], s[k..][|URL|..];
    assert s[k..] == URL + host;
  }

  /** An item of a servers list, whatever its indentation and host. */
  predicate ItemOf(line: string, a: string, b: string, host: string) {
    Spaces(a) && Spaces(b) && line == a + ("-" + (b + ("url:" + host)))
  }

  lemma ItemIff(line: string)
    ensures IsItem(line) <==> exists a, b, host :: ItemOf(line, a, b, host)
  {
    if IsItem(line) {
      var k := Blanks(line);
      BlanksAreSpaces(line);
      var b, host := ShapeOfUrl(line[k + 1..]);
      assert line == line[..k] + ("-" + line[k + 1..]);
      assert ItemOf(line, line[..k], b, host);
    }
    if a, b, host :| ItemOf(line, a, b, host) {
      SpacesCounted(a, "-" + (b + ("url:" + host)));
      assert line[|a| + 1..] == b + ("url:" + host);
      UrlShape(line[|a| + 1..], b, host);
    }
  }

  // ---- Lines that are left alone ----

  predicate NoAnchors(e: Edit, lines: seq<string>)
    requires Injects(e)
  {
    forall i :: 0 <= i < |lines| ==> !IsAnchor(e, lines[i])
  }

  lemma {:induction false} NoAnchorUntouched(e: Edit, lines: seq<string>)
    requires Injects(e) && NoAnchors(e, lines)
    ensures EditLines(e, lines) == lines
  {
    if lines != [] {
      InjectStep(e, lines);
      NoAnchorUntouched(e, lines[1..]);
      assert lines == [lines[0]] + lines[1..];
    }
  }

  /** A single line to inject after. */
  lemma OneAnchor(e: Edit, xs: seq<string>, x: string, ys: seq<string>)
    requires Injects(e) && NoAnchors(e, xs) && IsAnchor(e, x) && NoAnchors(e, ys)
    ensures EditLines(e, xs + ([x] + ys)) == xs + ([x] + (Block(e) + ys))
  {
    InjectAppend(e, xs, [x] + ys);
    InjectStep(e, [x] + ys);
    assert ([x] + ys)[1..] == ys;
    NoAnchorUntouched(e, xs);
    NoAnchorUntouched(e, ys);
    Assoc([x], Block(e), ys);
  }

  lemma PeelLine<T>(xs: seq<T>, ys: seq<T>)
    requires xs != []
    ensures xs + ys == [xs[0]] + (xs[1..] + ys)
  {
  }

  lemma {:induction false} NoListKept(origin: string, xs: seq<string>, ys: seq<string>)
    requires SERVERS !in xs
    ensures EditLines(SetServers(origin), xs + ys) == xs + EditLines(SetServers(origin), ys)
  {
    if xs == [] {
      assert xs + ys == ys;
    } else {
      PeelLine(xs, ys);
      PeelLine(xs, EditLines(SetServers(origin), ys));
      LineKept(origin, xs[0], xs[1..] + ys);
      NoListKept(origin, xs[1..], ys);
    }
  }

  /** No line that a key is looked for in; the unfinished one included. */
  predicate NoKeys(d: Doc) {
    IsDoc(d) && !("openapi:" <= d.tail) &&
    forall line :: line in d.lines ==> line != "components:" && !("openapi:" <= line)
  }

  lemma NoKeysNoAnchors(d: Doc)
    requires NoKeys(d)
    ensures NoAnchors(AddScheme, d.lines) && NoAnchors(AddSecurity, d.lines)
  {
    forall i | 0 <= i < |d.lines|
      ensures !IsAnchor(AddScheme, d.lines[i]) && !IsAnchor(AddSecurity, d.lines[i])
    {
      assert d.lines[i] in d.lines;
    }
  }

  lemma NoAnchorsJoin(e: Edit, xs: seq<string>, ys: seq<string>)
    requires Injects(e) && NoAnchors(e, xs) && NoAnchors(e, ys)
    ensures NoAnchors(e, xs + ys)
  {
  }

  // ---- Injection ----

  lemma TextOfHalves(head: seq<string>, d: Doc)
    requires AllOneLine(head) && IsDoc(d)
    ensures IsDoc(Doc(head + d.lines, d.tail)) && Text(Doc(head + d.lines, d.tail)) == Unlines(head) + Text(d)
  {
    UnlinesAppend(head, d.lines);
    Assoc(Unlines(head), Unlines(d.lines), d.tail);
  }

  lemma VersionIsAnchor(version: string)
    ensures IsAnchor(AddSecurity, "openapi:" + version) && !IsAnchor(AddScheme, "openapi:" + version)
    ensures OneLine(version) ==> OneLine("openapi:" + version)
  {
    var line := "openapi:" + version;
    assert line[..|OPENAPI|] == OPENAPI;
    assert line[0] == 'o' && COMPONENTS[0] == 'c';
  }

  lemma SchemeHasNoAnchors()
    ensures NoAnchors(AddSecurity, SCHEME_LINES) && AllOneLine(SCHEME_LINES) && AllOneLine(SECURITY_LINES)
  {
    BlockIsInert(AddScheme);
    BlockIsInert(AddSecurity);
  }

  /** A document with an openapi line, some lines, and a components key: the
      requirement goes after the one and the scheme after the other; nothing else
      changes. */
  lemma SecuredDocument(version: string, between: seq<string>, rest: Doc)
    requires OneLine(version) && NoKeys(Doc(between, "")) && NoKeys(rest)
    ensures WithSecurityScheme(
              Unlines(["openapi:" + version] + (between + ["components:"])) + Text(rest))
         == Unlines(["openapi:" + version] + (["security:", "    - bearerAuth: []"] + (between + (["components:"] +
              ["    securitySchemes:", "        bearerAuth:", "            type: http",
               "            scheme: bearer", "            bearerFormat: JWT"])))) + Text(rest)
  {
    SchemeLines();
    SecurityLines();
    VersionIsAnchor(version);
    SecuredBlocks("openapi:" + version, between, rest);
  }

  /** From the lines of a text that starts with `head` to the text. */
  lemma SecuredHalves(head: seq<string>, now: seq<string>, rest: Doc)
    requires AllOneLine(head) && AllOneLine(now) && IsDoc(rest)
    requires Secured(Doc(head + rest.lines, rest.tail)) == Doc(now + rest.lines, rest.tail)
    ensures WithSecurityScheme(Unlines(head) + Text(rest)) == Unlines(now) + Text(rest)
  {
    TextOfHalves(head, rest);
    SecuredText(Doc(head + rest.lines, rest.tail));
    TextOfHalves(now, rest);
  }

  lemma OneLinesJoin(xs: seq<string>, ys: seq<string>)
    requires AllOneLine(xs) && AllOneLine(ys)
    ensures AllOneLine(xs + ys)
  {
  }

  lemma SecuredBlocks(first: string, between: seq<string>, rest: Doc)
    requires OneLine(first) && IsAnchor(AddSecurity, first) && !IsAnchor(AddScheme, first)
    requires NoKeys(Doc(between, "")) && NoKeys(rest)
    ensures WithSecurityScheme(Unlines([first] + (between + [COMPONENTS])) + Text(rest))
         == Unlines([first] + (SECURITY_LINES + (between + ([COMPONENTS] + SCHEME_LINES)))) + Text(rest)
  {
    SchemeHasNoAnchors();
    SecuredLines(first, between, rest);
    OneLinesJoin(between, [COMPONENTS]);
    OneLinesJoin([first], between + [COMPONENTS]);
    OneLinesJoin([COMPONENTS], SCHEME_LINES);
    OneLinesJoin(between, [COMPONENTS] + SCHEME_LINES);
    OneLinesJoin(SECURITY_LINES, between + ([COMPONENTS] + SCHEME_LINES));
    OneLinesJoin([first], SECURITY_LINES + (between + ([COMPONENTS] + SCHEME_LINES)));
    SecuredHalves([first] + (between + [COMPONENTS]),
                  [first] + (SECURITY_LINES + (between + ([COMPONENTS] + SCHEME_LINES))), rest);
  }

  /** Two blocks put in: after the first element, and after the last of the head. */
  lemma TwoBlocks<T>(f: seq<T>, s: seq<T>, b: seq<T>, k: seq<T>, h: seq<T>, r: seq<T>)
    ensures f + (b + k) + r == (f + b) + (k + r)
    ensures (f + b) + (k + (h + r)) == f + (b + (k + (h + r)))
    ensures f + (s + (b + (k + (h + r)))) == f + (s + (b + (k + h))) + r
  {
  }

  lemma SecuredLines(first: string, between: seq<string>, rest: Doc)
    requires IsAnchor(AddSecurity, first) && !IsAnchor(AddScheme, first)
    requires NoKeys(Doc(between, "")) && NoKeys(rest)
    ensures Secured(Doc([first] + (between + [COMPONENTS]) + rest.lines, rest.tail))
         == Doc([first] + (SECURITY_LINES + (between + ([COMPONENTS] + SCHEME_LINES))) + rest.lines, rest.tail)
  {
    NoKeysNoAnchors(Doc(between, ""));
    NoKeysNoAnchors(rest);
    NoAnchorsJoin(AddScheme, [first], between);
    TwoBlocks([first], SECURITY_LINES, between, [COMPONENTS], SCHEME_LINES, rest.lines);
    OneAnchor(AddScheme, [first] + between, COMPONENTS, rest.lines);
    var lines := [first] + (between + [COMPONENTS]) + rest.lines;
    assert lines[1 + |between|] == COMPONENTS;
    SecurityAfter(first, between + ([COMPONENTS] + (SCHEME_LINES + rest.lines))) by {
      SchemeHasNoAnchors();
      ComponentsIsNoOpenapi();
      NoAnchorsJoin(AddSecurity, SCHEME_LINES, rest.lines);
      NoAnchorsJoin(AddSecurity, [COMPONENTS], SCHEME_LINES + rest.lines);
      NoAnchorsJoin(AddSecurity, between, [COMPONENTS] + (SCHEME_LINES + rest.lines));
    }
  }

  lemma SecurityAfter(first: string, more: seq<string>)
    requires IsAnchor(AddSecurity, first) && NoAnchors(AddSecurity, more)
    ensures EditLines(AddSecurity, [first] + more) == [first] + (SECURITY_LINES + more)
  {
    OneAnchor(AddSecurity, [], first, more);
    assert [] + ([first] + more) == [first] + more;
    assert [] + ([first] + (SECURITY_LINES + more)) == [first] + (SECURITY_LINES + more);
  }

  lemma NoVersionBeforeKey(s: string)
    ensures "openapi:" <= s + COMPONENTS <==> "openapi:" <= s
  {
    if |s| < 8 {
      assert (s + COMPONENTS)[|s|] == 'c';
    } else {
      assert (s + COMPONENTS)[..8] == s[..8];
    }
  }

  /** A document without a components key gets one at its end, run together with an
      unfinished last line. */
  lemma CompletedDocument(version: string, rest: Doc)
    requires OneLine(version) && NoKeys(rest)
    ensures WithSecurityScheme(Unlines(["openapi:" + version]) + Text(rest))
         == Unlines(["openapi:" + version] + ["security:", "    - bearerAuth: []"]) + Text(rest) + "components:" + "\n"
            + Unlines(["    securitySchemes:", "        bearerAuth:", "            type: http",
                       "            scheme: bearer", "            bearerFormat: JWT"])
  {
    SchemeLines();
    SecurityLines();
    VersionIsAnchor(version);
    CompletedBlocks("openapi:" + version, rest);
  }

  lemma CompletedBlocks(first: string, rest: Doc)
    requires OneLine(first) && IsAnchor(AddSecurity, first) && !IsAnchor(AddScheme, first) && NoKeys(rest)
    ensures WithSecurityScheme(Unlines([first]) + Text(rest))
         == Unlines([first] + SECURITY_LINES) + Text(rest) + COMPONENTS + "\n" + Unlines(SCHEME_LINES)
  {
    SchemeHasNoAnchors();
    TextOfHalves([first], rest);
    SecuredText(Doc([first] + rest.lines, rest.tail));
    CompletedLines(first, rest);
    TextOfHalves([first] + SECURITY_LINES, rest);
    AppendedText(Doc([first] + SECURITY_LINES + rest.lines, rest.tail));
  }

  lemma CompletedLines(first: string, rest: Doc)
    requires IsAnchor(AddSecurity, first) && !IsAnchor(AddScheme, first) && NoKeys(rest)
    ensures Secured(Doc([first] + rest.lines, rest.tail))
         == Doc([first] + SECURITY_LINES + rest.lines + [rest.tail + COMPONENTS] + SCHEME_LINES, "")
  {
    var key := rest.tail + COMPONENTS;
    NoKeysNoAnchors(rest);
    SecurityAfter(first, rest.lines + [key] + SCHEME_LINES) by {
      SchemeHasNoAnchors();
      NoVersionBeforeKey(rest.tail);
      NoAnchorsJoin(AddSecurity, rest.lines, [key]);
      NoAnchorsJoin(AddSecurity, rest.lines + [key], SCHEME_LINES);
    }
    OneBlock([first], SECURITY_LINES, rest.lines, [key], SCHEME_LINES);
  }

  lemma OneBlock<T>(f: seq<T>, s: seq<T>, r: seq<T>, k: seq<T>, h: seq<T>)
    ensures f + r + k + h == f + (r + k + h)
    ensures f + (s + (r + k + h)) == f + s + r + k + h
  {
  }

  // ---- Serving ----

  /** A document with one servers list: the list names the origin afterwards, however
      many items it had and however they were written; nothing else changes. */
  lemma ServedDocument(before: seq<string>, items: seq<string>, rest: Doc, origin: string)
    requires AllOneLine(before) && AllOneLine(items) && IsDoc(rest)
    requires "servers:" !in before && "servers:" !in rest.lines
    requires items != [] && forall i :: 0 <= i < |items| ==> exists a, b, host :: ItemOf(items[i], a, b, host)
    requires rest.lines != [] ==> !(exists a, b, host :: ItemOf(rest.lines[0], a, b, host))
    ensures Served(Unlines(before + (["servers:"] + items)) + Text(rest), origin)
         == Unlines(before + ["servers:", "    - url: " + origin]) + Text(rest)
  {
    forall i | 0 <= i < |items|
      ensures IsItem(items[i])
    {
      ItemIff(items[i]);
    }
    if rest.lines != [] {
      ItemIff(rest.lines[0]);
    }
    var head := before + ([SERVERS] + items);
    TextOfHalves(head, rest);
    ServedText(Doc(head + rest.lines, rest.tail), origin);
    Assoc(before, [SERVERS] + items, rest.lines);
    NoListKept(origin, before, [SERVERS] + items + rest.lines);
    ListReplaced(origin, items, rest.lines);
    NoListKept(origin, rest.lines, []);
    assert rest.lines + [] == rest.lines;
    UnlinesAppend(before + [SERVERS, URL_ITEM + origin], rest.lines);
    Assoc(before, [SERVERS, URL_ITEM + origin], rest.lines);
    Assoc(Unlines(before + [SERVERS, URL_ITEM + origin]), Unlines(rest.lines), rest.tail);
  }
}
