/** What withSecurityScheme and handleSpec guarantee, for every document text:
    when their order does not matter, what is kept, what can be undone. */
module DocTheorems {
  import opened Common
  import opened DocText
  import opened DocRewrites

  // ---- Texts and lines ----

  lemma {:induction false} InjectionStaysLines(e: Edit, lines: seq<string>)
    requires AllOneLine(lines) && Injects(e)
    ensures AllOneLine(EditLines(e, lines))
  {
    if lines != [] {
      InjectStep(e, lines);
      BlockIsInert(e);
      InjectionStaysLines(e, lines[1..]);
    }
  }

  lemma {:induction false} ServersStayLines(origin: string, lines: seq<string>)
    requires AllOneLine(lines) && OneLine(origin)
    ensures AllOneLine(EditLines(SetServers(origin), lines))
    decreases |lines|
  {
    if lines != [] {
      var n := LinesMatched(SetServers(origin), lines);
      assert OneLine(URL_ITEM);
      ServersStayLines(origin, lines[if n > 0 then n else 1..]);
    }
  }

  lemma EditsStayLines(e: Edit, lines: seq<string>)
    requires AllOneLine(lines) && (e.SetServers? ==> OneLine(e.origin))
    ensures AllOneLine(EditLines(e, lines))
  {
    if e.SetServers? {
      ServersStayLines(e.origin, lines);
    } else {
      InjectionStaysLines(e, lines);
    }
  }

  lemma SameText(d1: Doc, d2: Doc)
    requires IsDoc(d1) && IsDoc(d2)
    ensures Text(d1) == Text(d2) <==> d1 == d2
  {
    ParseUnique(d1);
    ParseUnique(d2);
  }

  lemma {:induction false} SchemeChangesIff(lines: seq<string>)
    ensures |EditLines(AddScheme, lines)| >= |lines|
    ensures EditLines(AddScheme, lines) == lines <==> !HasComponents(lines)
    ensures HasComponents(lines) ==> |EditLines(AddScheme, lines)| > |lines|
  {
    if lines != [] {
      InjectStep(AddScheme, lines);
      SchemeChangesIff(lines[1..]);
      assert lines == [lines[0]] + lines[1..];
    }
  }

  lemma CompletedIsDoc(d: Doc)
    requires IsDoc(d)
    ensures IsDoc(Completed(d)) && IsDoc(Secured(d))
  {
    EditsStayLines(AddScheme, d.lines);
    BlockIsInert(AddScheme);
    EditsStayLines(AddSecurity, Completed(d).lines);
  }

  /** The appended key and block, as text and as lines: an unfinished last line
      is run together with the key. */
  lemma AppendedText(d: Doc)
    ensures Text(Doc(d.lines + [d.tail + COMPONENTS] + SCHEME_LINES, "")) == Text(d) + COMPONENTS + "\n" + SchemeBlock()
  {
    var key := d.tail + COMPONENTS;
    UnlinesAppend(d.lines + [key], SCHEME_LINES);
    UnlinesAppend(d.lines, [key]);
    assert Unlines([key]) == key + "\n" + Unlines([]);
    Regroup(Unlines(d.lines), d.tail, COMPONENTS, SchemeBlock());
  }

  lemma Regroup(a: string, t: string, k: string, b: string)
    ensures a + (t + k + "\n" + "") + b + "" == a + t + k + "\n" + b
  {
  }

  /** withSecurityScheme on the text is Secured on its lines. */
  lemma SecuredText(d: Doc)
    requires IsDoc(d)
    ensures WithSecurityScheme(Text(d)) == Text(Secured(d))
  {
    var edited := Doc(EditLines(AddScheme, d.lines), d.tail);
    EditsStayLines(AddScheme, d.lines);
    RewriteAgrees(AddScheme, d);
    SameText(edited, d);
    SchemeChangesIff(d.lines);
    AppendedText(d);
    CompletedIsDoc(d);
    RewriteAgrees(AddSecurity, Completed(d));
  }

  lemma ServedText(d: Doc, origin: string)
    requires IsDoc(d)
    ensures Served(Text(d), origin) == Text(Pointed(d, origin))
    ensures OneLine(origin) ==> IsDoc(Pointed(d, origin))
  {
    RewriteAgrees(SetServers(origin), d);
    if OneLine(origin) {
      EditsStayLines(SetServers(origin), d.lines);
    }
  }

  // ---- Overwriting ----

  /** Serving for o1 and then for o2 is serving for o2, on every text. An origin
      comes from request headers, which cannot hold a newline. */
  lemma ServeTwice(text: string, o1: string, o2: string)
    requires OneLine(o1)
    ensures Served(Served(text, o1), o2) == Served(text, o2)
  {
    var d := Parse(text);
    ParseThenText(text);
    ServedText(d, o1);
    ServedText(Pointed(d, o1), o2);
    ServedText(d, o2);
    PointTwice(o1, o2, d.lines);
  }

  /** Every line outside a servers list stays, in order, as does an unfinished
      last line; each list names the origin and nothing else. */
  lemma ServeKeepsRest(text: string, origin: string)
    requires OneLine(origin)
    ensures var was, now := Parse(text), Parse(Served(text, origin));
      Outside(now.lines) == Outside(was.lines) && now.tail == was.tail &&
      |Lists(now.lines)| == |Lists(was.lines)| &&
      forall i :: 0 <= i < |Lists(now.lines)| ==> Lists(now.lines)[i] == [SERVERS, URL_ITEM + origin]
  {
    var d := Parse(text);
    ParseThenText(text);
    ServedText(d, origin);
    ParseUnique(Pointed(d, origin));
    OnlyListsChange(origin, d.lines);
  }

  // ---- Attaching and undoing ----

  predicate NewlineTerminated(text: string) {
    text == "" || text[|text| - 1] == '\n'
  }

  lemma {:induction false} TailEmptyIff(d: Doc)
    requires IsDoc(d)
    ensures NewlineTerminated(Text(d)) <==> d.tail == ""
  {
    if d.tail == "" && d.lines != [] {
      var last := d.lines[|d.lines| - 1];
      var init := d.lines[..|d.lines| - 1];
      assert d.lines == init + [last];
      UnlinesAppend(init, [last]);
      assert Unlines([last]) == last + "\n" + Unlines([]);
    }
    if d.tail != "" {
      assert Text(d)[|Text(d)| - 1] == d.tail[|d.tail| - 1];
    }
  }

  predicate HasComponentsKey(text: string) {
    HasComponents(Parse(text).lines)
  }

  /** Afterwards every components line is followed at once by the scheme block and
      every openapi line by the security block; there is a components line, and so
      an attached scheme, exactly if there was one or the text ended its last line. */
  lemma SchemeAttached(text: string)
    ensures var now := Parse(WithSecurityScheme(text)).lines;
      Followed(AddScheme, now) && Followed(AddSecurity, now) &&
      (HasComponents(now) <==> HasComponentsKey(text) || NewlineTerminated(text))
  {
    var d := Parse(text);
    ParseThenText(text);
    SecuredText(d);
    CompletedIsDoc(d);
    ParseUnique(Secured(d));
    TailEmptyIff(d);
    InjectFollows(AddSecurity, Completed(d).lines);
    CompletedFollows(d);
    SecurityKeepsScheme(Completed(d).lines);
    AnchorsStay(AddSecurity, Completed(d).lines);
  }

  lemma CompletedFollows(d: Doc)
    ensures Followed(AddScheme, Completed(d).lines)
    ensures HasComponents(Completed(d).lines) <==> HasComponents(d.lines) || d.tail == ""
  {
    var key := d.tail + COMPONENTS;
    BlockIsInert(AddScheme);
    if HasComponents(d.lines) {
      InjectFollows(AddScheme, d.lines);
      AnchorsStay(AddScheme, d.lines);
    } else {
      assert Followed(AddScheme, []);
      AnchorFollowed(AddScheme, key, SCHEME_LINES, []);
      NoAnchorFollowed(d.lines, [key] + SCHEME_LINES + []);
      assert d.lines + ([key] + SCHEME_LINES + []) == Completed(d).lines;
      assert key == COMPONENTS <==> d.tail == "" by {
        assert |key| == |d.tail| + |COMPONENTS|;
      }
      assert Completed(d).lines[|d.lines|] == key;
    }
  }

  lemma {:induction false} NoAnchorFollowed(lines: seq<string>, rest: seq<string>)
    requires !HasComponents(lines) && Followed(AddScheme, rest)
    ensures Followed(AddScheme, lines + rest)
  {
    if lines == [] {
      assert lines + rest == rest;
    } else {
      assert lines == [lines[0]] + lines[1..];
      NoAnchorFollowed(lines[1..], rest);
      FollowedCons(AddScheme, lines[0], lines[1..] + rest);
      Assoc([lines[0]], lines[1..], rest);
    }
  }

  /** Takes the inserted blocks out again, and an appended key that was run
      together with an unfinished last line. */
  function Recover(d: Doc): Doc {
    var lines := Uninject(AddSecurity, d.lines);
    var k := |lines| - |SCHEME_LINES| - 1;
    if HasComponents(lines) then Doc(Uninject(AddScheme, lines), d.tail)
    else if k >= 0 && |lines[k]| >= |COMPONENTS| then Doc(lines[..k], lines[k][..|lines[k]| - |COMPONENTS|])
    else Doc(lines, d.tail)
  }

  /** The document with a components key, if one had to be appended on a line of its own. */
  function WithKey(d: Doc): Doc {
    if !HasComponents(d.lines) && d.tail == "" then Doc(d.lines + [COMPONENTS], "") else d
  }

  lemma RecoverSecured(d: Doc)
    ensures Recover(Secured(d)) == WithKey(d)
  {
    var lines := Completed(d).lines;
    UninjectInject(AddSecurity, lines);
    CompletedFollows(d);
    if HasComponents(d.lines) {
      UninjectInject(AddScheme, d.lines);
    } else if d.tail == "" {
      KeyAppended(d);
      UninjectInject(AddScheme, d.lines + [COMPONENTS]);
    } else {
      var k := |d.lines|;
      assert lines[k] == d.tail + COMPONENTS && lines[..k] == d.lines;
      assert lines[k][..|d.tail|] == d.tail;
    }
  }

  /** Appending the key and its block is injecting after the appended key. */
  lemma KeyAppended(d: Doc)
    requires !HasComponents(d.lines) && d.tail == ""
    ensures Completed(d) == Doc(EditLines(AddScheme, d.lines + [COMPONENTS]), "")
    ensures Secured(WithKey(d)) == Secured(d)
  {
    var key := [COMPONENTS];
    assert d.tail + COMPONENTS == COMPONENTS;
    InjectAppend(AddScheme, d.lines, key);
    SchemeChangesIff(d.lines);
    InjectStep(AddScheme, key);
    assert EditLines(AddScheme, key) == key + SCHEME_LINES;
    Assoc(d.lines, key, SCHEME_LINES);
    assert COMPONENTS in d.lines + key;
  }

  /** Lossless: from the result the original can be read back, but for one thing,
      whether an otherwise finished document already ended in an empty components key. */
  lemma SecurityLossless(text: string)
    ensures Text(Recover(Parse(WithSecurityScheme(text))))
         == if HasComponentsKey(text) || !NewlineTerminated(text) then text else text + COMPONENTS + "\n"
  {
    var d := Parse(text);
    ParseThenText(text);
    SecuredText(d);
    CompletedIsDoc(d);
    ParseUnique(Secured(d));
    RecoverSecured(d);
    TailEmptyIff(d);
    WithKeyText(d);
  }

  lemma WithKeyText(d: Doc)
    ensures Text(WithKey(d)) == if HasComponents(d.lines) || d.tail != "" then Text(d) else Text(d) + COMPONENTS + "\n"
  {
    if !HasComponents(d.lines) && d.tail == "" {
      UnlinesAppend(d.lines, [COMPONENTS]);
      assert Unlines([COMPONENTS]) == COMPONENTS + "\n" + Unlines([]);
      Regroup(Unlines(d.lines), "", COMPONENTS, "");
    }
  }

  /** That one thing is really lost: two documents get the same result exactly
      when they agree up to such a key. */
  lemma SameResultIff(text1: string, text2: string)
    ensures WithSecurityScheme(text1) == WithSecurityScheme(text2)
            <==> WithKey(Parse(text1)) == WithKey(Parse(text2))
  {
    var d1, d2 := Parse(text1), Parse(text2);
    ParseThenText(text1);
    ParseThenText(text2);
    SecuredText(d1);
    SecuredText(d2);
    CompletedIsDoc(d1);
    CompletedIsDoc(d2);
    SameText(Secured(d1), Secured(d2));
    RecoverSecured(d1);
    RecoverSecured(d2);
    SecuredWithKey(d1);
    SecuredWithKey(d2);
  }

  lemma SecuredWithKey(d: Doc)
    ensures Secured(WithKey(d)) == Secured(d)
  {
    if !HasComponents(d.lines) && d.tail == "" {
      KeyAppended(d);
    }
  }

  // ---- Order of the two rewrites ----

  lemma {:induction false} EndsInListSuffix(ws: seq<string>, zs: seq<string>)
    requires EndsInList(zs)
    ensures EndsInList(ws + zs)
    decreases |zs|
  {
    var both, init, last := ws + zs, zs[..|zs| - 1], zs[|zs| - 1];
    assert both[..|both| - 1] == ws + init && both[|both| - 1] == last;
    if last != SERVERS {
      EndsInListSuffix(ws, init);
    }
  }

  lemma {:induction false} ListEndsInList(items: seq<string>)
    requires forall i :: 0 <= i < |items| ==> IsItem(items[i])
    ensures EndsInList([SERVERS] + items)
    decreases |items|
  {
    var list := [SERVERS] + items;
    if items != [] {
      assert list[..|list| - 1] == [SERVERS] + items[..|items| - 1];
      ListEndsInList(items[..|items| - 1]);
    }
  }

  /** The servers rewrite works on two halves separately unless a list runs across. */
  lemma {:induction false} PointHalves(origin: string, xs: seq<string>, ys: seq<string>)
    requires EndsInList(xs) ==> NoItemFirst(ys)
    ensures EditLines(SetServers(origin), xs + ys)
         == EditLines(SetServers(origin), xs) + EditLines(SetServers(origin), ys)
    decreases |xs|
  {
    if xs == [] {
      assert xs + ys == ys;
    } else {
      var n := ScanCases(xs);
      var head := if n > 0 then xs[..n] else [xs[0]];
      var rest := xs[|head|..];
      assert xs == head + rest && xs + ys == head + (rest + ys);
      if EndsInList(rest) {
        EndsInListSuffix(head, rest);
      }
      PointHalves(origin, rest, ys);
      if rest == [] {
        assert head == xs;
        ListEndsInList(head[1..]) by {
          assert n > 0 ==> head[1..] == xs[1..n];
        }
        assert xs[0] == SERVERS ==> xs == [SERVERS] + head[1..];
      }
      PointHead(origin, n, head, rest, ys);
    }
  }

  lemma PointHead(origin: string, n: nat, head: seq<string>, rest: seq<string>, ys: seq<string>)
    requires if n > 0 then head != [] && head[0] == SERVERS && WholeList(head[1..], rest)
             else |head| == 1 && (head[0] == SERVERS ==> NoItemFirst(rest))
    requires rest == [] && head[0] == SERVERS ==> NoItemFirst(ys)
    requires EditLines(SetServers(origin), rest + ys)
          == EditLines(SetServers(origin), rest) + EditLines(SetServers(origin), ys)
    ensures EditLines(SetServers(origin), head + (rest + ys))
         == EditLines(SetServers(origin), head + rest) + EditLines(SetServers(origin), ys)
  {
    var front := if n > 0 then [SERVERS, URL_ITEM + origin] else head;
    assert rest == [] ==> rest + ys == ys;
    assert NoItemFirst(rest) && (rest == [] ==> NoItemFirst(ys)) ==> NoItemFirst(rest + ys);
    if n > 0 {
      assert head == [SERVERS] + head[1..];
      ListReplaced(origin, head[1..], rest);
      ListReplaced(origin, head[1..], rest + ys);
    } else {
      assert head == [head[0]];
      LineKept(origin, head[0], rest);
      LineKept(origin, head[0], rest + ys);
    }
    Assoc(front, EditLines(SetServers(origin), rest), EditLines(SetServers(origin), ys));
  }

  lemma {:induction false} PointKeepsComponents(origin: string, lines: seq<string>)
    ensures HasComponents(EditLines(SetServers(origin), lines)) <==> HasComponents(lines)
    decreases |lines|
  {
    if lines != [] {
      var n := ScanCases(lines);
      if n > 0 {
        PointKeepsComponents(origin, lines[n..]);
        ListReplaced(origin, lines[1..n], lines[n..]);
        NewItemIsItem(origin);
        ItemStarts(URL_ITEM + origin);
        forall i | 1 <= i < n
          ensures lines[i] != COMPONENTS
        {
          ItemStarts(lines[1..n][i - 1]);
        }
        assert SERVERS[0] == 's' && COMPONENTS[0] == 'c';
      } else {
        PointKeepsComponents(origin, lines[1..]);
        LineKept(origin, lines[0], lines[1..]);
      }
    }
  }

  lemma {:induction false} BlanksBeforeKey(s: string)
    ensures Blanks(s + COMPONENTS) == Blanks(s)
  {
    if s == "" {
      assert s + COMPONENTS == COMPONENTS;
    } else {
      assert (s + COMPONENTS)[1..] == s[1..] + COMPONENTS;
      BlanksBeforeKey(s[1..]);
    }
  }

  lemma UrlBeforeKey(s: string)
    ensures URL <= s + COMPONENTS <==> URL <= s
  {
    if |s| < |URL| {
      assert (s + COMPONENTS)[|s|] == 'c';
    } else {
      assert (s + COMPONENTS)[..|URL|] == s[..|URL|];
    }
  }

  lemma UrlItemBeforeKey(s: string)
    ensures IsUrl(s + COMPONENTS) <==> IsUrl(s)
  {
    var b := Blanks(s);
    BlanksBeforeKey(s);
    assert (s + COMPONENTS)[b..] == s[b..] + COMPONENTS;
    UrlBeforeKey(s[b..]);
  }

  /** Running the key together with a line neither makes nor unmakes an item. */
  lemma ItemBeforeKey(s: string)
    ensures IsItem(s + COMPONENTS) <==> IsItem(s)
  {
    var a := Blanks(s);
    BlanksBeforeKey(s);
    if a < |s| {
      assert (s + COMPONENTS)[a + 1..] == s[a + 1..] + COMPONENTS;
      UrlItemBeforeKey(s[a + 1..]);
    }
  }

  /** The lines have no components key and end inside a servers list, in an item
      that lacks its newline: the one shape in which an appended key is swallowed. */
  predicate SwallowsKey(d: Doc) {
    !HasComponents(d.lines) && EndsInList(d.lines) && IsItem(d.tail)
  }

  /** Such a document: a header, and one item without a newline. */
  lemma SwallowExample(origin: string)
    ensures SwallowsKey(Doc([SERVERS], URL_ITEM + origin))
  {
    NewItemIsItem(origin);
    assert SERVERS[0] == 's' && COMPONENTS[0] == 'c';
  }

  lemma KeyIsNoHeader(tail: string)
    ensures tail + COMPONENTS != SERVERS
  {
    assert |tail + COMPONENTS| > |SERVERS|;
  }

  /** The appended lines are left alone by the servers rewrite. */
  lemma KeyKept(origin: string, key: string)
    requires key != SERVERS
    ensures EditLines(SetServers(origin), [key] + SCHEME_LINES) == [key] + SCHEME_LINES
  {
    BlockIsInert(AddScheme);
    BlockKept(origin, key, SCHEME_LINES, []);
    assert [key] + SCHEME_LINES + [] == [key] + SCHEME_LINES;
  }

  lemma CompletionCommutes(d: Doc, origin: string)
    requires !SwallowsKey(d)
    ensures Pointed(Completed(d), origin) == Completed(Pointed(d, origin))
  {
    var key := d.tail + COMPONENTS;
    PointKeepsComponents(origin, d.lines);
    if HasComponents(d.lines) {
      InjectionCommutes(AddScheme, origin, d.lines);
    } else {
      ItemBeforeKey(d.tail);
      KeyIsNoHeader(d.tail);
      KeyKept(origin, key);
      PointHalves(origin, d.lines, [key] + SCHEME_LINES);
      Assoc(d.lines, [key], SCHEME_LINES);
      Assoc(EditLines(SetServers(origin), d.lines), [key], SCHEME_LINES);
    }
  }

  lemma SecuredCommutes(d: Doc, origin: string)
    requires !SwallowsKey(d)
    ensures Pointed(Secured(d), origin) == Secured(Pointed(d, origin))
  {
    CompletionCommutes(d, origin);
    InjectionCommutes(AddSecurity, origin, Completed(d).lines);
  }

  lemma {:induction false} SplitAtList(lines: seq<string>) returns (before: seq<string>, items: seq<string>)
    requires EndsInList(lines)
    ensures lines == before + ([SERVERS] + items) && forall i :: 0 <= i < |items| ==> IsItem(items[i])
    decreases |lines|
  {
    var init, last := lines[..|lines| - 1], lines[|lines| - 1];
    assert lines == init + [last];
    if last == SERVERS {
      before, items := init, [];
      assert [SERVERS] + items == [last];
    } else {
      before, items := SplitAtList(init);
      Assoc(before, [SERVERS] + items, [last]);
      Assoc([SERVERS], items, [last]);
      items := items + [last];
    }
  }

  /** Lines that end in an item of a list end in the new item afterwards. */
  lemma LastItemReplaced(origin: string, lines: seq<string>)
    requires EndsInList(lines) && IsItem(lines[|lines| - 1])
    ensures var now := EditLines(SetServers(origin), lines); now != [] && now[|now| - 1] == URL_ITEM + origin
  {
    var before, items := SplitAtList(lines);
    ItemStarts(lines[|lines| - 1]);
    assert items != [] by {
      assert items == [] ==> [SERVERS] + items == [SERVERS];
    }
    HeaderIsNoItem();
    PointHalves(origin, before, [SERVERS] + items);
    ListReplaced(origin, items, []);
    assert [SERVERS] + items + [] == [SERVERS] + items;
  }

  lemma HeaderIsNoItem()
    ensures !IsItem(SERVERS)
  {
    BlankRun(SERVERS, 0);
  }

  /** A swallowed key: it goes with its line on one side and stays on the other. */
  lemma KeyGoesOrStays(d: Doc)
    requires SwallowsKey(d)
    ensures EditLines(SetServers(""), d.lines + [d.tail + COMPONENTS]) + SCHEME_LINES
         != EditLines(SetServers(""), d.lines) + [d.tail + COMPONENTS] + SCHEME_LINES
  {
    var e, key := SetServers(""), d.tail + COMPONENTS;
    var withKey := d.lines + [key];
    ItemBeforeKey(d.tail);
    assert withKey[..|withKey| - 1] == d.lines && withKey[|withKey| - 1] == key;
    LastItemReplaced("", withKey);
    assert key[|key| - 1] == ':' && (URL_ITEM + "")[|URL_ITEM| - 1] == ' ';
    LastBefore(EditLines(e, withKey), EditLines(e, d.lines) + [key], SCHEME_LINES);
  }

  lemma CompletionDiffers(d: Doc)
    requires SwallowsKey(d)
    ensures Pointed(Completed(d), "").lines != Completed(Pointed(d, "")).lines
  {
    var e, withKey := SetServers(""), d.lines + [d.tail + COMPONENTS];
    KeyGoesOrStays(d);
    BlockIsInert(AddScheme);
    PointHalves("", withKey, SCHEME_LINES);
    InertUntouched(e, SCHEME_LINES);
    PointKeepsComponents("", d.lines);
  }

  /** So the two orders differ already for the empty origin. */
  lemma SwallowedDiffers(d: Doc)
    requires SwallowsKey(d)
    ensures Pointed(Secured(d), "") != Secured(Pointed(d, ""))
  {
    CompletionDiffers(d);
    InjectionCommutes(AddSecurity, "", Completed(d).lines);
    UninjectInject(AddSecurity, Pointed(Completed(d), "").lines);
    UninjectInject(AddSecurity, Completed(Pointed(d, "")).lines);
  }

  lemma LastBefore(xs: seq<string>, ys: seq<string>, common: seq<string>)
    requires xs != [] && ys != [] && xs[|xs| - 1] != ys[|ys| - 1]
    ensures xs + common != ys + common
  {
    if |xs| == |ys| {
      assert (xs + common)[|xs| - 1] != (ys + common)[|ys| - 1];
    } else {
      assert |xs + common| != |ys + common|;
    }
  }

  /** The order does not matter, for whatever origin, exactly when the text does
      not end, unfinished, inside its servers list with no components key to come
      before. In particular it never matters on newline-terminated texts. */
  lemma CommuteIff(text: string)
    ensures (forall origin :: OneLine(origin) ==>
               Served(WithSecurityScheme(text), origin) == WithSecurityScheme(Served(text, origin)))
            <==> !SwallowsKey(Parse(text))
    ensures NewlineTerminated(text) ==> !SwallowsKey(Parse(text))
  {
    var d := Parse(text);
    ParseThenText(text);
    TailEmptyIff(d);
    if SwallowsKey(d) {
      OrdersAgreeIff(text, "");
      SwallowedDiffers(d);
    } else {
      forall origin | OneLine(origin)
        ensures Served(WithSecurityScheme(text), origin) == WithSecurityScheme(Served(text, origin))
      {
        OrdersAgreeIff(text, origin);
        SecuredCommutes(d, origin);
      }
    }
  }

  lemma OrdersAgreeIff(text: string, origin: string)
    requires OneLine(origin)
    ensures var d := Parse(text);
      Served(WithSecurityScheme(text), origin) == WithSecurityScheme(Served(text, origin))
      <==> Pointed(Secured(d), origin) == Secured(Pointed(d, origin))
  {
    var d := Parse(text);
    ParseThenText(text);
    SecuredText(d);
    CompletedIsDoc(d);
    ServedText(d, origin);
    ServedText(Secured(d), origin);
    SecuredText(Pointed(d, origin));
    CompletedIsDoc(Pointed(d, origin));
    SameText(Pointed(Secured(d), origin), Secured(Pointed(d, origin)));
  }
}
