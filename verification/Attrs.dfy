/** The attribute trees of the colour handler and its two walks over them: one
    flattens early, one renders late. Both are compared with a reference that
    lists the leaves of a tree with their full paths. */
module Attrs {
  import opened Common

  /** A slog.Value: a string, the nil value of the zero Attr, any other scalar
      with its text, a group, or a LogValuer around another value. */
  datatype Value =
    | Text(text: string)
    | Nil
    | Scalar(shown: string)
    | Group(attrs: seq<Attr>)
    | Valuer(inner: Value)

  datatype Attr = Attr(key: string, value: Value)

  /** Strips LogValuers. */
  function Resolve(v: Value): (r: Value)
    ensures !r.Valuer? && (r == v || r < v)
  {
    if v.Valuer? then Resolve(v.inner) else v
  }

  /** Equal to the zero slog.Attr. */
  predicate IsZero(a: Attr) {
    a == Attr("", Nil)
  }

  function JoinGroup(prefix: string, name: string): string {
    if prefix == "" then name
    else if name == "" then prefix
    else prefix + "." + name
  }

  /** What is left to print once LogValuers are resolved and groups expanded. */
  type Plain = v: Value | !v.Group? && !v.Valuer? witness Nil

  function Shown(v: Plain): string
  {
    match v
    case Text(s) => s
    case Nil => "<nil>"
    case Scalar(s) => s
  }

  predicate NeedsQuotes(s: string) {
    exists i :: 0 <= i < |s| && (s[i] == ' ' || s[i] == '\t' || s[i] == '"')
  }

  /** " key=value", or nothing for an empty string. */
  function Field(quote: string -> string, key: string, v: Plain): string
  {
    if v == Text("") then ""
    else " " + key + "=" + (if NeedsQuotes(Shown(v)) then quote(Shown(v)) else Shown(v))
  }

  // ---- The two walks ----

  /** What appendColorAttr appends. */
  function Flatten(a: Attr, group: string): seq<Attr>
    decreases a, 1
  {
    var v := Resolve(a.value);
    if IsZero(Attr(a.key, v)) then []
    else if v.Group? then FlattenAll(v.attrs, JoinGroup(group, a.key))
    else [Attr(JoinGroup(group, a.key), v)]
  }

  function FlattenAll(attrs: seq<Attr>, group: string): seq<Attr>
    decreases attrs, 0
  {
    if attrs == [] then []
    else FlattenAll(attrs[..|attrs| - 1], group) + Flatten(attrs[|attrs| - 1], group)
  }

  /** What writeColorAttr writes. */
  function Render(quote: string -> string, group: string, a: Attr): string
    decreases a, 1
  {
    var v := Resolve(a.value);
    if IsZero(Attr(a.key, v)) then ""
    else if v.Group? then RenderAll(quote, JoinGroup(group, a.key), v.attrs)
    else Field(quote, JoinGroup(group, a.key), v)
  }

  function RenderAll(quote: string -> string, group: string, attrs: seq<Attr>): string
    decreases attrs, 0
  {
    if attrs == [] then ""
    else RenderAll(quote, group, attrs[..|attrs| - 1]) + Render(quote, group, attrs[|attrs| - 1])
  }

  // ---- The reference ----

  /** A scalar with every key on the way to it, its own last. */
  datatype Leaf = Leaf(path: seq<string>, value: Plain)

  /** The leaves of an attribute in order, below `path`. */
  function Leaves(a: Attr, path: seq<string>): seq<Leaf>
    decreases a, 1
  {
    var v := Resolve(a.value);
    if a.key == "" && v == Nil then []
    else if v.Group? then LeavesAll(v.attrs, path + [a.key])
    else [Leaf(path + [a.key], v)]
  }

  function LeavesAll(attrs: seq<Attr>, path: seq<string>): seq<Leaf>
    decreases attrs, 0
  {
    if attrs == [] then []
    else Leaves(attrs[0], path) + LeavesAll(attrs[1..], path)
  }

  function NonEmpty(path: seq<string>): seq<string> {
    if path == [] then []
    else (if path[0] == "" then [] else [path[0]]) + NonEmpty(path[1..])
  }

  function Intercalate(parts: seq<string>): string {
    if parts == [] then ""
    else if |parts| == 1 then parts[0]
    else parts[0] + "." + Intercalate(parts[1..])
  }

  /** The dotted key: the non-empty names of a path, with single dots between them. */
  function Dotted(path: seq<string>): string {
    Intercalate(NonEmpty(path))
  }

  function Concat<T>(f: T -> string, xs: seq<T>): string {
    if xs == [] then "" else f(xs[0]) + Concat(f, xs[1..])
  }

  function LineOf(quote: string -> string): Leaf -> string {
    (leaf: Leaf) => Field(quote, Dotted(leaf.path), leaf.value)
  }

  /** The text of a list of leaves. */
  function Lines(quote: string -> string, leaves: seq<Leaf>): string {
    Concat(LineOf(quote), leaves)
  }

  // ---- joinGroup ----

  /** joinGroup is a monoid on strings with the empty string as unit. */
  lemma JoinGroupMonoid(a: string, b: string, c: string)
    ensures JoinGroup(JoinGroup(a, b), c) == JoinGroup(a, JoinGroup(b, c))
    ensures JoinGroup("", a) == a == JoinGroup(a, "")
  {
    if a != "" && b != "" && c != "" {
      assert a + "." + b + "." + c == a + "." + (b + "." + c);
    }
  }

  lemma {:induction false} NonEmptySnoc(path: seq<string>, name: string)
    ensures NonEmpty(path + [name]) == NonEmpty(path) + (if name == "" then [] else [name])
    ensures forall i :: 0 <= i < |NonEmpty(path)| ==> NonEmpty(path)[i] != ""
  {
    if path == [] {
      assert [name][1..] == [];
    } else {
      NonEmptySnoc(path[1..], name);
      assert (path + [name])[1..] == path[1..] + [name];
    }
  }

  lemma {:induction false} IntercalateSnoc(parts: seq<string>, name: string)
    requires name != "" && forall i :: 0 <= i < |parts| ==> parts[i] != ""
    ensures Intercalate(parts + [name]) == JoinGroup(Intercalate(parts), name)
    ensures parts != [] ==> Intercalate(parts) != ""
  {
    if |parts| == 0 {
      assert parts + [name] == [name];
    } else {
      IntercalateSnoc(parts[1..], name);
      assert (parts + [name])[1..] == parts[1..] + [name];
    }
  }

  /** Folding joinGroup over a path gives its dotted key. */
  lemma JoinGroupIsDotted(path: seq<string>, name: string)
    ensures Dotted(path + [name]) == JoinGroup(Dotted(path), name)
  {
    NonEmptySnoc(path, name);
    if name == "" {
      assert NonEmpty(path) + [] == NonEmpty(path);
    } else {
      IntercalateSnoc(NonEmpty(path), name);
    }
  }

  // ---- What one attribute prints ----

  lemma QuotesIff(s: string)
    ensures NeedsQuotes(s) <==> ' ' in s || '\t' in s || '"' in s
  {
  }

  /** A string under a group: its dotted name, an equals sign and its text, quoted
      if it holds a blank, a tab or a quote; nothing at all when it is empty. */
  lemma TextPrints(quote: string -> string, group: string, key: string, s: string)
    ensures var name := if group == "" then key else if key == "" then group else group + "." + key;
      Render(quote, group, Attr(key, Text(s)))
      == if s == "" then ""
         else " " + name + "=" + (if ' ' in s || '\t' in s || '"' in s then quote(s) else s)
  {
    QuotesIff(s);
  }

  /** Any other scalar, also one that shows nothing; the nil value unless the whole
      attribute is the zero one. */
  lemma ScalarPrints(quote: string -> string, group: string, key: string, s: string)
    ensures var name := if group == "" then key else if key == "" then group else group + "." + key;
      Render(quote, group, Attr(key, Scalar(s)))
      == " " + name + "=" + (if ' ' in s || '\t' in s || '"' in s then quote(s) else s) &&
      Render(quote, group, Attr(key, Nil)) == if key == "" then "" else " " + name + "=<nil>"
  {
    QuotesIff(s);
    var nothing := "<nil>";
    QuotesIff(nothing);
    assert nothing == ['<', 'n', 'i', 'l', '>'];
  }

  /** A LogValuer counts as the value it stands for, in both walks. */
  lemma ValuerTransparent(quote: string -> string, group: string, key: string, v: Value)
    ensures Render(quote, group, Attr(key, Valuer(v))) == Render(quote, group, Attr(key, v))
    ensures Flatten(Attr(key, Valuer(v)), group) == Flatten(Attr(key, v), group)
  {
  }

  /** A group prints its members one after the other, under its name. */
  lemma GroupPrints(quote: string -> string, group: string, key: string, attrs: seq<Attr>, a: Attr)
    ensures var name := if group == "" then key else if key == "" then group else group + "." + key;
      Render(quote, group, Attr(key, Group([]))) == "" &&
      Render(quote, group, Attr(key, Group(attrs + [a])))
      == Render(quote, group, Attr(key, Group(attrs))) + Render(quote, name, a)
  {
    assert (attrs + [a])[..|attrs|] == attrs;
  }

  // ---- Early flattening agrees with late rendering ----

  lemma {:induction false} RenderAllAppend(quote: string -> string, group: string, xs: seq<Attr>, ys: seq<Attr>)
    ensures RenderAll(quote, group, xs + ys) == RenderAll(quote, group, xs) + RenderAll(quote, group, ys)
    decreases |ys|
  {
    if ys == [] {
      assert xs + ys == xs;
    } else {
      var init := ys[..|ys| - 1];
      RenderAllAppend(quote, group, xs, init);
      var both := xs + ys;
      assert both[..|both| - 1] == xs + init && both[|both| - 1] == ys[|ys| - 1];
      Assoc(RenderAll(quote, group, xs), RenderAll(quote, group, init), Render(quote, group, ys[|ys| - 1]));
    }
  }

  /** Rendering the flattened list without a group writes the same text as
      rendering the tree under the group. */
  lemma {:induction false} FlattenThenRender(quote: string -> string, group: string, a: Attr)
    ensures RenderAll(quote, "", Flatten(a, group)) == Render(quote, group, a)
    decreases a, 1
  {
    var v := Resolve(a.value);
    if IsZero(Attr(a.key, v)) {
    } else if v.Group? {
      FlattenAllThenRender(quote, JoinGroup(group, a.key), v.attrs);
    } else {
      var flat := Attr(JoinGroup(group, a.key), v);
      assert [flat][..0] == [];
      assert RenderAll(quote, "", [flat]) == Render(quote, "", flat);
    }
  }

  lemma {:induction false} FlattenAllThenRender(quote: string -> string, group: string, attrs: seq<Attr>)
    ensures RenderAll(quote, "", FlattenAll(attrs, group)) == RenderAll(quote, group, attrs)
    decreases attrs, 0
  {
    if attrs != [] {
      var init, last := attrs[..|attrs| - 1], attrs[|attrs| - 1];
      FlattenAllThenRender(quote, group, init);
      FlattenThenRender(quote, group, last);
      RenderAllAppend(quote, "", FlattenAll(init, group), Flatten(last, group));
    }
  }

  /** A flattened list has no groups, no LogValuers and no zero attributes left. */
  lemma {:induction false} FlattenIsFlat(a: Attr, group: string)
    ensures forall i :: 0 <= i < |Flatten(a, group)| ==> IsFlat(Flatten(a, group)[i])
    decreases a, 1
  {
    var v := Resolve(a.value);
    if !IsZero(Attr(a.key, v)) && v.Group? {
      FlattenAllIsFlat(v.attrs, JoinGroup(group, a.key));
    }
  }

  lemma {:induction false} FlattenAllIsFlat(attrs: seq<Attr>, group: string)
    ensures forall i :: 0 <= i < |FlattenAll(attrs, group)| ==> IsFlat(FlattenAll(attrs, group)[i])
    decreases attrs, 0
  {
    if attrs != [] {
      FlattenAllIsFlat(attrs[..|attrs| - 1], group);
      FlattenIsFlat(attrs[|attrs| - 1], group);
    }
  }

  predicate IsFlat(a: Attr) {
    !a.value.Group? && !a.value.Valuer? && !IsZero(a)
  }

  // ---- Rendering agrees with the reference ----

  lemma {:induction false} ConcatAppend<T>(f: T -> string, xs: seq<T>, ys: seq<T>)
    ensures Concat(f, xs + ys) == Concat(f, xs) + Concat(f, ys)
  {
    if xs == [] {
      assert xs + ys == ys;
    } else {
      ConcatAppend(f, xs[1..], ys);
      assert (xs + ys)[1..] == xs[1..] + ys;
    }
  }

  lemma {:induction false} RenderIsReference(quote: string -> string, path: seq<string>, a: Attr)
    ensures Render(quote, Dotted(path), a) == Lines(quote, Leaves(a, path))
    decreases a, 1
  {
    var v := Resolve(a.value);
    JoinGroupIsDotted(path, a.key);
    if v.Group? {
      RenderAllIsReference(quote, path + [a.key], v.attrs);
    } else if !IsZero(Attr(a.key, v)) {
      var leaf := Leaf(path + [a.key], v);
      assert Lines(quote, [leaf]) == LineOf(quote)(leaf) + Concat(LineOf(quote), [leaf][1..]);
    }
  }

  lemma {:induction false} RenderAllIsReference(quote: string -> string, path: seq<string>, attrs: seq<Attr>)
    ensures RenderAll(quote, Dotted(path), attrs) == Lines(quote, LeavesAll(attrs, path))
    decreases attrs, 0
  {
    if attrs != [] {
      assert attrs == [attrs[0]] + attrs[1..];
      RenderAllAppend(quote, Dotted(path), [attrs[0]], attrs[1..]);
      assert [attrs[0]][..0] == [];
      assert RenderAll(quote, Dotted(path), [attrs[0]]) == Render(quote, Dotted(path), attrs[0]);
      RenderIsReference(quote, path, attrs[0]);
      RenderAllIsReference(quote, path, attrs[1..]);
      ConcatAppend(LineOf(quote), Leaves(attrs[0], path), LeavesAll(attrs[1..], path));
    }
  }

  // ---- Single lines ----

  /** A leaf that puts no newline on the line: an empty string, which is not
      printed, or newline-free names with a value that is newline-free or quoted. */
  predicate FitsLine(leaf: Leaf) {
    leaf.value == Text("") ||
    ((forall i :: 0 <= i < |leaf.path| ==> OneLine(leaf.path[i])) &&
     (NeedsQuotes(Shown(leaf.value)) || OneLine(Shown(leaf.value))))
  }

  lemma {:induction false} DottedOneLineIff(path: seq<string>)
    ensures OneLine(Dotted(path)) <==> forall i :: 0 <= i < |path| ==> OneLine(path[i])
  {
    if path != [] {
      var init, last := path[..|path| - 1], path[|path| - 1];
      assert path == init + [last];
      DottedOneLineIff(init);
      JoinGroupIsDotted(init, last);
    }
  }

  lemma LineOfOneLineIff(quote: string -> string, leaf: Leaf)
    requires forall s :: OneLine(quote(s))
    ensures OneLine(LineOf(quote)(leaf)) <==> FitsLine(leaf)
  {
    DottedOneLineIff(leaf.path);
    var key, val := Dotted(leaf.path), Shown(leaf.value);
    var printed := if NeedsQuotes(val) then quote(val) else val;
    assert OneLine(" " + key + "=" + printed) <==> OneLine(key) && OneLine(printed);
  }

  /** The handler promises single-line records. With a quoting function that
      escapes newlines, the attribute text is one line exactly when every leaf
      fits: a newline alone does not make a value quoted. */
  lemma {:induction false} SingleLineIff(quote: string -> string, leaves: seq<Leaf>)
    requires forall s :: OneLine(quote(s))
    ensures OneLine(Lines(quote, leaves)) <==> forall i :: 0 <= i < |leaves| ==> FitsLine(leaves[i])
  {
    if leaves != [] {
      LineOfOneLineIff(quote, leaves[0]);
      SingleLineIff(quote, leaves[1..]);
      assert leaves == [leaves[0]] + leaves[1..];
    }
  }

  /** A value with a newline and nothing else to quote breaks the line. */
  lemma NewlineEscapes(quote: string -> string)
    requires forall s :: OneLine(quote(s))
    ensures !OneLine(Render(quote, "", Attr("k", Text("a\nb"))))
  {
    var a := Attr("k", Text("a\nb"));
    RenderIsReference(quote, [], a);
    assert Leaves(a, []) == [Leaf([] + ["k"], Text("a\nb"))];
    SingleLineIff(quote, Leaves(a, []));
    assert "a\nb"[1] == '\n';
  }
}
