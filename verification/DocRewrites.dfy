/** withSecurityScheme and the servers rewrite of handleSpec: what they keep,
    when they can be undone, and when their order does not matter. Stated for
    every text; proved line by line. */
module DocRewrites {
  import opened Common
  import opened DocText

  // ---- The operations ----

  function SchemeBlock(): string {
    Unlines(SCHEME_LINES)
  }

  function WithSecurityScheme(text: string): string {
    var out := Rewrite(AddScheme, text);
    var completed := if out == text then out + COMPONENTS + "\n" + SchemeBlock() else out;
    Rewrite(AddSecurity, completed)
  }

  /** The body handleSpec answers with, for the origin of the request. */
  function Served(text: string, origin: string): string {
    Rewrite(SetServers(origin), text)
  }

  // ---- The same on lines ----

  predicate HasComponents(lines: seq<string>) {
    COMPONENTS in lines
  }

  function Completed(d: Doc): Doc {
    if HasComponents(d.lines) then Doc(EditLines(AddScheme, d.lines), d.tail)
    else Doc(d.lines + [d.tail + COMPONENTS] + SCHEME_LINES, "")
  }

  function Secured(d: Doc): Doc {
    Doc(EditLines(AddSecurity, Completed(d).lines), Completed(d).tail)
  }

  function Pointed(d: Doc, origin: string): Doc {
    Doc(EditLines(SetServers(origin), d.lines), d.tail)
  }

  // ---- Injecting edits: one anchor line, one block after it ----

  predicate Injects(e: Edit) {
    e.AddScheme? || e.AddSecurity?
  }

  predicate IsAnchor(e: Edit, line: string) {
    if e.AddScheme? then line == COMPONENTS else OPENAPI <= line
  }

  function Block(e: Edit): seq<string>
    requires Injects(e)
  {
    if e.AddScheme? then SCHEME_LINES else SECURITY_LINES
  }

  predicate IsBlank(c: char) {
    c == ' ' || c == '\t'
  }

  lemma {:induction false} BlankRun(s: string, k: nat)
    requires k < |s| && !IsBlank(s[k]) && forall i :: 0 <= i < k ==> IsBlank(s[i])
    ensures Blanks(s) == k
  {
    if k > 0 {
      BlankRun(s[1..], k - 1);
    }
  }

  /** A line no edit looks at. */
  predicate Inert(line: string) {
    OneLine(line) && !IsItem(line) && line != SERVERS && line != COMPONENTS && !(OPENAPI <= line)
  }

  predicate AllInert(lines: seq<string>) {
    forall i :: 0 <= i < |lines| ==> Inert(lines[i])
  }

  lemma IndentKeeps(k: nat, s: string)
    requires OneLine(s) && s != "" && !IsBlank(s[0])
    ensures OneLine(Indent(k, s)) && Blanks(Indent(k, s)) == k
    ensures |Indent(k, s)| == k + |s| && Indent(k, s)[k..] == s
    ensures k > 0 ==> Indent(k, s)[0] == ' '
  {
    BlankRun(Indent(k, s), k);
  }

  /** An indented line is inert if what it indents is no item. */
  lemma IndentIsInert(k: nat, s: string)
    requires k > 0 && OneLine(s) && s != "" && !IsBlank(s[0])
    requires s[0] != '-' || !(URL <= s[1 + Blanks(s[1..])..])
    ensures Inert(Indent(k, s))
  {
    IndentKeeps(k, s);
    var line := Indent(k, s);
    assert line[k] == s[0] && line[k + 1..] == s[1..];
    assert line[k + 1 + Blanks(s[1..])..] == s[1 + Blanks(s[1..])..];
    assert SERVERS[0] != ' ' && COMPONENTS[0] != ' ' && OPENAPI[0] != ' ';
  }

  lemma SchemeLineIsInert(i: nat)
    requires i < |SCHEME_LINES|
    ensures Inert(SCHEME_LINES[i])
  {
    if i == 0 {
      IndentIsInert(4, "securitySchemes:");
    } else if i == 1 {
      IndentIsInert(8, SCHEME_NAME + ":");
    } else if i == 2 {
      IndentIsInert(12, "type: http");
    } else if i == 3 {
      IndentIsInert(12, "scheme: bearer");
    } else {
      IndentIsInert(12, "bearerFormat: JWT");
    }
  }

  lemma SchemeIsInert()
    ensures AllInert(SCHEME_LINES)
  {
    forall i | 0 <= i < |SCHEME_LINES|
      ensures Inert(SCHEME_LINES[i])
    {
      SchemeLineIsInert(i);
    }
  }

  lemma SecurityIsInert()
    ensures AllInert(SECURITY_LINES)
  {
    var key, item := "security:", "- " + SCHEME_NAME + ": []";
    BlankRun(key, 0);
    assert key[2] == 'c' && SERVERS[2] == 'r';
    assert Inert(key);
    BlankRun(item[1..], 1);
    assert item[2..][0] == 'b' && URL[0] == 'u';
    IndentIsInert(4, item);
  }

  lemma BlockIsInert(e: Edit)
    requires Injects(e)
    ensures AllInert(Block(e))
  {
    SchemeIsInert();
    SecurityIsInert();
  }

  /** An injecting edit, line by line. */
  function InjectLine(e: Edit, line: string): seq<string>
    requires Injects(e)
  {
    [line] + (if IsAnchor(e, line) then Block(e) else [])
  }

  lemma InjectStep(e: Edit, lines: seq<string>)
    requires Injects(e) && lines != []
    ensures EditLines(e, lines) == InjectLine(e, lines[0]) + EditLines(e, lines[1..])
  {
    assert lines[..1] == [lines[0]];
    assert [lines[0]] + [] == [lines[0]];
  }

  lemma {:induction false} InjectAppend(e: Edit, xs: seq<string>, ys: seq<string>)
    requires Injects(e)
    ensures EditLines(e, xs + ys) == EditLines(e, xs) + EditLines(e, ys)
  {
    if xs == [] {
      assert xs + ys == ys;
    } else {
      InjectStep(e, xs);
      InjectStep(e, xs + ys);
      assert (xs + ys)[1..] == xs[1..] + ys;
      InjectAppend(e, xs[1..], ys);
      Assoc(InjectLine(e, xs[0]), EditLines(e, xs[1..]), EditLines(e, ys));
    }
  }

  lemma {:induction false} InertUntouched(e: Edit, lines: seq<string>)
    requires AllInert(lines)
    ensures EditLines(e, lines) == lines
  {
    if lines != [] {
      InertUntouched(e, lines[1..]);
    }
  }

  /** Edits keep the first line. */
  lemma FirstKept(e: Edit, lines: seq<string>)
    requires lines != []
    ensures EditLines(e, lines) != [] && EditLines(e, lines)[0] == lines[0]
  {
  }

  // ---- Undoing an injection ----

  function Uninject(e: Edit, lines: seq<string>): seq<string>
    requires Injects(e)
    decreases |lines|
  {
    if lines == [] then []
    else
      var skip := if IsAnchor(e, lines[0]) && |lines| > |Block(e)| then 1 + |Block(e)| else 1;
      [lines[0]] + Uninject(e, lines[skip..])
  }

  lemma {:induction false} UninjectInject(e: Edit, lines: seq<string>)
    requires Injects(e)
    ensures Uninject(e, EditLines(e, lines)) == lines
  {
    if lines != [] {
      InjectStep(e, lines);
      var head, rest := InjectLine(e, lines[0]), EditLines(e, lines[1..]);
      assert (head + rest)[|head|..] == rest;
      UninjectInject(e, lines[1..]);
    }
  }

  /** Every anchor is immediately followed by the block. */
  predicate Followed(e: Edit, lines: seq<string>)
    requires Injects(e)
  {
    forall i :: 0 <= i < |lines| && IsAnchor(e, lines[i]) ==> Block(e) <= lines[i + 1..]
  }

  lemma FollowedCons(e: Edit, line: string, lines: seq<string>)
    requires Injects(e) && Followed(e, lines) && (IsAnchor(e, line) ==> Block(e) <= lines)
    ensures Followed(e, [line] + lines)
  {
    var all := [line] + lines;
    forall i | 0 <= i < |all| && IsAnchor(e, all[i])
      ensures Block(e) <= all[i + 1..]
    {
      assert all[i + 1..] == lines[i..];
    }
  }

  lemma {:induction false} FollowedInert(e: Edit, inert: seq<string>, lines: seq<string>)
    requires Injects(e) && Followed(e, lines) && AllInert(inert)
    ensures Followed(e, inert + lines)
  {
    if inert == [] {
      assert inert + lines == lines;
    } else {
      FollowedInert(e, inert[1..], lines);
      FollowedCons(e, inert[0], inert[1..] + lines);
      assert inert + lines == [inert[0]] + (inert[1..] + lines);
    }
  }

  lemma AnchorFollowed(e: Edit, line: string, block: seq<string>, rest: seq<string>)
    requires Injects(e) && block == Block(e) && AllInert(block) && Followed(e, rest)
    ensures Followed(e, [line] + block + rest)
  {
    FollowedInert(e, block, rest);
    FollowedCons(e, line, block + rest);
    assert [line] + block + rest == [line] + (block + rest);
  }

  lemma {:induction false} InjectFollows(e: Edit, lines: seq<string>)
    requires Injects(e)
    ensures Followed(e, EditLines(e, lines))
  {
    if lines != [] {
      var rest := EditLines(e, lines[1..]);
      InjectStep(e, lines);
      InjectFollows(e, lines[1..]);
      BlockIsInert(e);
      if IsAnchor(e, lines[0]) {
        AnchorFollowed(e, lines[0], Block(e), rest);
      } else {
        FollowedCons(e, lines[0], rest);
        assert InjectLine(e, lines[0]) + rest == [lines[0]] + rest;
      }
    }
  }

  lemma FollowedTail(e: Edit, lines: seq<string>)
    requires Injects(e) && lines != [] && Followed(e, lines)
    ensures Followed(e, lines[1..])
    ensures IsAnchor(e, lines[0]) ==> Block(e) <= lines[1..]
  {
    var rest := lines[1..];
    forall i | 0 <= i < |rest| && IsAnchor(e, rest[i])
      ensures Block(e) <= rest[i + 1..]
    {
      assert rest[i] == lines[i + 1] && rest[i + 1..] == lines[i + 2..];
    }
  }

  lemma InertPrefixStays(e: Edit, inert: seq<string>, lines: seq<string>)
    requires Injects(e) && AllInert(inert) && inert <= lines
    ensures inert <= EditLines(e, lines)
  {
    assert lines == inert + lines[|inert|..];
    InjectAppend(e, inert, lines[|inert|..]);
    InertUntouched(e, inert);
  }

  lemma ComponentsIsNoOpenapi()
    ensures !(OPENAPI <= COMPONENTS)
  {
    assert COMPONENTS[0] == 'c' && OPENAPI[0] == 'o';
  }

  lemma InertAfter(e: Edit, line: string, inert: seq<string>, lines: seq<string>)
    requires Injects(e) && !IsAnchor(e, line) && AllInert(inert) && Followed(e, lines)
    ensures Followed(e, [line] + inert + lines)
  {
    FollowedInert(e, inert, lines);
    FollowedCons(e, line, inert + lines);
    Assoc([line], inert, lines);
  }

  /** Adding the security block elsewhere leaves the scheme blocks attached. */
  lemma {:induction false} SecurityKeepsScheme(lines: seq<string>)
    requires Followed(AddScheme, lines)
    ensures Followed(AddScheme, EditLines(AddSecurity, lines))
  {
    if lines != [] {
      var line, edited := lines[0], EditLines(AddSecurity, lines[1..]);
      FollowedTail(AddScheme, lines);
      InjectStep(AddSecurity, lines);
      SecurityKeepsScheme(lines[1..]);
      ComponentsIsNoOpenapi();
      if IsAnchor(AddSecurity, line) {
        BlockIsInert(AddSecurity);
        InertAfter(AddScheme, line, Block(AddSecurity), edited);
      } else {
        if line == COMPONENTS {
          BlockIsInert(AddScheme);
          InertPrefixStays(AddSecurity, Block(AddScheme), lines[1..]);
        }
        FollowedCons(AddScheme, line, edited);
        assert InjectLine(AddSecurity, line) == [line];
      }
    }
  }

  lemma {:induction false} AnchorsStay(e: Edit, lines: seq<string>)
    requires Injects(e)
    ensures HasComponents(EditLines(e, lines)) <==> HasComponents(lines)
  {
    if lines != [] {
      InjectStep(e, lines);
      AnchorsStay(e, lines[1..]);
      BlockIsInert(e);
      assert lines == [lines[0]] + lines[1..];
    }
  }

  // ---- The servers list ----

  /** The lines end inside a servers list: a header and nothing but items after it. */
  predicate EndsInList(lines: seq<string>) {
    lines != [] &&
    var init, last := lines[..|lines| - 1], lines[|lines| - 1];
    last == SERVERS || (IsItem(last) && EndsInList(init))
  }

  lemma ItemStarts(line: string)
    requires IsItem(line)
    ensures line != SERVERS && line != COMPONENTS && !(OPENAPI <= line)
  {
    assert IsBlank(line[0]);
    assert SERVERS[0] == 's' && COMPONENTS[0] == 'c' && OPENAPI[0] == 'o';
  }

  lemma NewItemIsItem(origin: string)
    ensures IsItem(URL_ITEM + origin)
  {
    var line := URL_ITEM + origin;
    BlankRun(line, 4);
    BlankRun(line[5..], 1);
    assert line[6..][..4] == URL;
  }

  lemma {:induction false} CountExactly(lines: seq<string>, k: nat)
    requires k <= |lines| && (forall i :: 0 <= i < k ==> IsItem(lines[i])) && (k < |lines| ==> !IsItem(lines[k]))
    ensures ItemCount(lines) == k
  {
    if k > 0 {
      CountExactly(lines[1..], k - 1);
    }
  }

  /** A whole list, and what follows it. */
  lemma ListReplaced(origin: string, items: seq<string>, rest: seq<string>)
    requires WholeList(items, rest)
    ensures EditLines(SetServers(origin), [SERVERS] + items + rest)
         == [SERVERS, URL_ITEM + origin] + EditLines(SetServers(origin), rest)
  {
    var all := [SERVERS] + items + rest;
    assert all[1..] == items + rest;
    CountExactly(items + rest, |items|);
    assert all[1 + |items|..] == rest;
  }

  /** A line that begins no list. */
  lemma LineKept(origin: string, line: string, rest: seq<string>)
    requires line == SERVERS ==> NoItemFirst(rest)
    ensures EditLines(SetServers(origin), [line] + rest) == [line] + EditLines(SetServers(origin), rest)
  {
    assert ([line] + rest)[1..] == rest;
    if line == SERVERS {
      CountExactly(rest, 0);
    }
  }

  /** How the scan begins: with a whole list, or with a line that begins none. */
  lemma ScanCases(lines: seq<string>) returns (n: nat)
    requires lines != []
    ensures forall o :: LinesMatched(SetServers(o), lines) == n
    ensures n == 0 ==> lines == [lines[0]] + lines[1..] && (lines[0] == SERVERS ==> NoItemFirst(lines[1..]))
    ensures n > 0 ==> 2 <= n <= |lines| && WholeList(lines[1..n], lines[n..])
    ensures n > 0 ==> lines == [SERVERS] + lines[1..n] + lines[n..]
  {
    n := LinesMatched(SetServers(""), lines);
    if n > 0 {
      assert forall i :: 1 <= i < n ==> lines[i] == lines[1..][i - 1];
    }
  }

  /** A non-empty stretch of items, and what may follow it. */
  predicate WholeList(items: seq<string>, rest: seq<string>) {
    items != [] && (forall i :: 0 <= i < |items| ==> IsItem(items[i])) && NoItemFirst(rest)
  }

  predicate NoItemFirst(rest: seq<string>) {
    rest == [] || !IsItem(rest[0])
  }

  lemma NoItemFirstKept(e: Edit, rest: seq<string>)
    ensures NoItemFirst(EditLines(e, rest)) == NoItemFirst(rest)
  {
    if rest != [] {
      FirstKept(e, rest);
    }
  }

  lemma OneItemList(origin: string, rest: seq<string>)
    requires NoItemFirst(rest)
    ensures WholeList([URL_ITEM + origin], rest)
    ensures [SERVERS, URL_ITEM + origin] + rest == [SERVERS] + [URL_ITEM + origin] + rest
  {
    NewItemIsItem(origin);
  }

  predicate PointsOnce(o1: string, o2: string, lines: seq<string>) {
    EditLines(SetServers(o2), EditLines(SetServers(o1), lines)) == EditLines(SetServers(o2), lines)
  }

  lemma PointTwiceList(o1: string, o2: string, items: seq<string>, rest: seq<string>)
    requires WholeList(items, rest) && PointsOnce(o1, o2, rest)
    ensures PointsOnce(o1, o2, [SERVERS] + items + rest)
  {
    var once := EditLines(SetServers(o1), rest);
    NoItemFirstKept(SetServers(o1), rest);
    OneItemList(o1, once);
    ListReplaced(o1, items, rest);
    ListReplaced(o2, items, rest);
    ListReplaced(o2, [URL_ITEM + o1], once);
  }

  lemma PointTwiceLine(o1: string, o2: string, line: string, rest: seq<string>)
    requires (line == SERVERS ==> NoItemFirst(rest)) && PointsOnce(o1, o2, rest)
    ensures PointsOnce(o1, o2, [line] + rest)
  {
    NoItemFirstKept(SetServers(o1), rest);
    LineKept(o1, line, rest);
    LineKept(o2, line, rest);
    LineKept(o2, line, EditLines(SetServers(o1), rest));
  }

  /** Pointing the lists twice is pointing them once, at the second origin. */
  lemma {:induction false} PointTwice(o1: string, o2: string, lines: seq<string>)
    ensures PointsOnce(o1, o2, lines)
    decreases |lines|
  {
    if lines != [] {
      var n := ScanCases(lines);
      if n > 0 {
        PointTwice(o1, o2, lines[n..]);
        PointTwiceList(o1, o2, lines[1..n], lines[n..]);
      } else {
        PointTwice(o1, o2, lines[1..]);
        PointTwiceLine(o1, o2, lines[0], lines[1..]);
      }
    }
  }

  /** The lines outside the lists, and the lists. */
  function Outside(lines: seq<string>): seq<string>
    decreases |lines|
  {
    if lines == [] then []
    else
      var n := LinesMatched(SetServers(""), lines);
      if n > 0 then Outside(lines[n..]) else [lines[0]] + Outside(lines[1..])
  }

  function Lists(lines: seq<string>): seq<seq<string>>
    decreases |lines|
  {
    if lines == [] then []
    else
      var n := LinesMatched(SetServers(""), lines);
      if n > 0 then [lines[..n]] + Lists(lines[n..]) else Lists(lines[1..])
  }

  lemma OutsideList(items: seq<string>, rest: seq<string>)
    requires WholeList(items, rest)
    ensures Outside([SERVERS] + items + rest) == Outside(rest)
    ensures Lists([SERVERS] + items + rest) == [[SERVERS] + items] + Lists(rest)
  {
    var all := [SERVERS] + items + rest;
    assert all[1..] == items + rest;
    CountExactly(items + rest, |items|);
    assert all[1 + |items|..] == rest && all[..1 + |items|] == [SERVERS] + items;
  }

  lemma OutsideLine(line: string, rest: seq<string>)
    requires line == SERVERS ==> NoItemFirst(rest)
    ensures Outside([line] + rest) == [line] + Outside(rest) && Lists([line] + rest) == Lists(rest)
  {
    assert ([line] + rest)[1..] == rest;
    if line == SERVERS {
      CountExactly(rest, 0);
    }
  }

  predicate OnlyLists(origin: string, lines: seq<string>) {
    var edited := EditLines(SetServers(origin), lines);
    Outside(edited) == Outside(lines) && |Lists(edited)| == |Lists(lines)| &&
    forall i :: 0 <= i < |Lists(edited)| ==> Lists(edited)[i] == [SERVERS, URL_ITEM + origin]
  }

  lemma OnlyListsList(origin: string, items: seq<string>, rest: seq<string>)
    requires WholeList(items, rest) && OnlyLists(origin, rest)
    ensures OnlyLists(origin, [SERVERS] + items + rest)
  {
    var edited := EditLines(SetServers(origin), rest);
    NoItemFirstKept(SetServers(origin), rest);
    OneItemList(origin, edited);
    ListReplaced(origin, items, rest);
    OutsideList(items, rest);
    OutsideList([URL_ITEM + origin], edited);
    assert [SERVERS] + [URL_ITEM + origin] == [SERVERS, URL_ITEM + origin];
  }

  lemma OnlyListsLine(origin: string, line: string, rest: seq<string>)
    requires (line == SERVERS ==> NoItemFirst(rest)) && OnlyLists(origin, rest)
    ensures OnlyLists(origin, [line] + rest)
  {
    NoItemFirstKept(SetServers(origin), rest);
    LineKept(origin, line, rest);
    OutsideLine(line, rest);
    OutsideLine(line, EditLines(SetServers(origin), rest));
  }

  /** The rewrite touches the lists only: every other line stays, in order, and
      each list becomes the one-item list of the origin. */
  lemma {:induction false} OnlyListsChange(origin: string, lines: seq<string>)
    ensures OnlyLists(origin, lines)
    decreases |lines|
  {
    if lines != [] {
      var n := ScanCases(lines);
      if n > 0 {
        OnlyListsChange(origin, lines[n..]);
        OnlyListsList(origin, lines[1..n], lines[n..]);
      } else {
        OnlyListsChange(origin, lines[1..]);
        OnlyListsLine(origin, lines[0], lines[1..]);
      }
    }
  }

  // ---- Injection and servers rewrite ----

  predicate Commutes(e: Edit, origin: string, lines: seq<string>) {
    EditLines(SetServers(origin), EditLines(e, lines)) == EditLines(e, EditLines(SetServers(origin), lines))
  }

  /** Injection passes over a list. */
  lemma {:induction false} InjectNoAnchor(e: Edit, lines: seq<string>)
    requires Injects(e) && forall i :: 0 <= i < |lines| ==> !IsAnchor(e, lines[i])
    ensures EditLines(e, lines) == lines
  {
    if lines != [] {
      InjectStep(e, lines);
      InjectNoAnchor(e, lines[1..]);
    }
  }

  lemma InjectPastList(e: Edit, items: seq<string>, rest: seq<string>)
    requires Injects(e) && WholeList(items, rest)
    ensures EditLines(e, [SERVERS] + items + rest) == [SERVERS] + items + EditLines(e, rest)
  {
    var list := [SERVERS] + items;
    forall i | 0 <= i < |list|
      ensures !IsAnchor(e, list[i])
    {
      if i > 0 {
        ItemStarts(list[i]);
      } else {
        assert SERVERS[0] == 's' && COMPONENTS[0] == 'c' && OPENAPI[0] == 'o';
      }
    }
    InjectNoAnchor(e, list);
    InjectAppend(e, list, rest);
  }

  lemma CommuteList(e: Edit, origin: string, items: seq<string>, rest: seq<string>)
    requires Injects(e) && WholeList(items, rest) && Commutes(e, origin, rest)
    ensures Commutes(e, origin, [SERVERS] + items + rest)
  {
    var pointed := EditLines(SetServers(origin), rest);
    NoItemFirstKept(e, rest);
    NoItemFirstKept(SetServers(origin), rest);
    InjectPastList(e, items, rest);
    ListReplaced(origin, items, rest);
    ListReplaced(origin, items, EditLines(e, rest));
    OneItemList(origin, pointed);
    InjectPastList(e, [URL_ITEM + origin], pointed);
  }

  /** The servers rewrite passes over inert lines. */
  lemma {:induction false} InertKept(origin: string, inert: seq<string>, rest: seq<string>)
    requires AllInert(inert)
    ensures EditLines(SetServers(origin), inert + rest) == inert + EditLines(SetServers(origin), rest)
  {
    if inert == [] {
      assert inert + rest == rest;
    } else {
      var tail := inert[1..];
      assert inert == [inert[0]] + tail;
      InertKept(origin, tail, rest);
      LineKept(origin, inert[0], tail + rest);
      Assoc([inert[0]], tail, rest);
      Assoc([inert[0]], tail, EditLines(SetServers(origin), rest));
    }
  }

  /** So does the servers rewrite over a line and the block injected after it. */
  lemma BlockKept(origin: string, line: string, block: seq<string>, rest: seq<string>)
    requires AllInert(block) && (line == SERVERS ==> block == [] && NoItemFirst(rest))
    ensures EditLines(SetServers(origin), [line] + block + rest) == [line] + block + EditLines(SetServers(origin), rest)
  {
    InertKept(origin, block, rest);
    Assoc([line], block, rest);
    if block == [] {
      assert block + rest == rest;
    }
    LineKept(origin, line, block + rest);
    Assoc([line], block, EditLines(SetServers(origin), rest));
  }

  lemma CommuteLine(e: Edit, origin: string, line: string, rest: seq<string>)
    requires Injects(e) && (line == SERVERS ==> NoItemFirst(rest)) && Commutes(e, origin, rest)
    ensures Commutes(e, origin, [line] + rest)
  {
    var pointed := EditLines(SetServers(origin), rest);
    var block := if IsAnchor(e, line) then Block(e) else [];
    BlockIsInert(e);
    AnchorIsNoHeader(e, line);
    LineKept(origin, line, rest);
    InjectStep(e, [line] + rest);
    InjectStep(e, [line] + pointed);
    NoItemFirstKept(e, rest);
    BlockKept(origin, line, block, EditLines(e, rest));
  }

  lemma AnchorIsNoHeader(e: Edit, line: string)
    requires Injects(e)
    ensures IsAnchor(e, line) ==> line != SERVERS
  {
    assert SERVERS[0] == 's' && COMPONENTS[0] == 'c' && OPENAPI[0] == 'o';
  }

  /** Either injection commutes with the servers rewrite. */
  lemma {:induction false} InjectionCommutes(e: Edit, origin: string, lines: seq<string>)
    requires Injects(e)
    ensures Commutes(e, origin, lines)
    decreases |lines|
  {
    if lines != [] {
      var n := ScanCases(lines);
      if n > 0 {
        InjectionCommutes(e, origin, lines[n..]);
        CommuteList(e, origin, lines[1..n], lines[n..]);
      } else {
        InjectionCommutes(e, origin, lines[1..]);
        CommuteLine(e, origin, lines[0], lines[1..]);
      }
    }
  }
}
