/** The colour handler: what sequences of WithAttrs, WithGroup and Handle mean,
    and the handler objects themselves with their slices on the heap. */
module ColorHandlers {
  import opened Attrs
  import opened Common

  datatype Op = WithAttrs(attrs: seq<Attr>) | WithGroup(name: string)

  // ---- What a handler is, as a value ----

  /** The flattened attributes and the group prefix. */
  datatype View = View(attrs: seq<Attr>, group: string)

  const EMPTY := View([], "")

  function Apply(h: View, op: Op): View {
    match op
    case WithAttrs(attrs) => View(h.attrs + FlattenAll(attrs, h.group), h.group)
    case WithGroup(name) => View(h.attrs, JoinGroup(h.group, name))
  }

  function ApplyAll(h: View, ops: seq<Op>): View
    decreases |ops|
  {
    if ops == [] then h else ApplyAll(Apply(h, ops[0]), ops[1..])
  }

  /** The attribute part of the line Handle writes. */
  function Body(quote: string -> string, h: View, record: seq<Attr>): string {
    RenderAll(quote, "", h.attrs) + RenderAll(quote, h.group, record)
  }

  /** The reference: walk the operations, keeping the names of the groups opened
      so far. Attributes belong under exactly those, a record under all. */
  function Reference(ops: seq<Op>, record: seq<Attr>, open: seq<string>): seq<Leaf> {
    if ops == [] then LeavesAll(record, open)
    else
      match ops[0]
      case WithAttrs(attrs) => LeavesAll(attrs, open) + Reference(ops[1..], record, open)
      case WithGroup(name) => Reference(ops[1..], record, open + [name])
  }

  /** What storing attributes adds to the line. */
  lemma StoredAttrs(quote: string -> string, h: View, attrs: seq<Attr>, open: seq<string>)
    requires h.group == Dotted(open)
    ensures RenderAll(quote, "", Apply(h, WithAttrs(attrs)).attrs)
         == RenderAll(quote, "", h.attrs) + Lines(quote, LeavesAll(attrs, open))
  {
    RenderAllAppend(quote, "", h.attrs, FlattenAll(attrs, h.group));
    FlattenAllThenRender(quote, h.group, attrs);
    RenderAllIsReference(quote, open, attrs);
  }

  lemma LinesOfStored(quote: string -> string, ops: seq<Op>, record: seq<Attr>, open: seq<string>)
    requires ops != [] && ops[0].WithAttrs?
    ensures Lines(quote, Reference(ops, record, open))
         == Lines(quote, LeavesAll(ops[0].attrs, open)) + Lines(quote, Reference(ops[1..], record, open))
  {
    ConcatAppend(LineOf(quote), LeavesAll(ops[0].attrs, open), Reference(ops[1..], record, open));
  }

  /** Whole-handler semantics, from any handler whose prefix is the open groups. */
  lemma {:induction false} HandlerFollowsReference(
      quote: string -> string, h: View, ops: seq<Op>, record: seq<Attr>, open: seq<string>)
    requires h.group == Dotted(open)
    ensures Body(quote, ApplyAll(h, ops), record)
         == RenderAll(quote, "", h.attrs) + Lines(quote, Reference(ops, record, open))
    decreases |ops|
  {
    if ops == [] {
      RenderAllIsReference(quote, open, record);
    } else {
      var rest := ops[1..];
      match ops[0]
      case WithAttrs(attrs) =>
        HandlerFollowsReference(quote, Apply(h, ops[0]), rest, record, open);
        StoredAttrs(quote, h, attrs, open);
        LinesOfStored(quote, ops, record, open);
        Assoc(RenderAll(quote, "", h.attrs), Lines(quote, LeavesAll(attrs, open)),
              Lines(quote, Reference(rest, record, open)));
      case WithGroup(name) =>
        JoinGroupIsDotted(open, name);
        HandlerFollowsReference(quote, Apply(h, ops[0]), rest, record, open + [name]);
    }
  }

  /** Every attribute, stored or of the record, is printed once, in the order
      added, under exactly the groups that were open when it was added. */
  lemma HandlerMeaning(quote: string -> string, ops: seq<Op>, record: seq<Attr>)
    ensures Body(quote, ApplyAll(EMPTY, ops), record) == Lines(quote, Reference(ops, record, []))
  {
    HandlerFollowsReference(quote, EMPTY, ops, record, []);
    assert RenderAll(quote, "", EMPTY.attrs) == "";
  }

  /** Exactly one newline, at the end. */
  predicate SingleLine(written: string) {
    written != "" && written[|written| - 1] == '\n' && OneLine(written[..|written| - 1])
  }

  /** A record is written as a single line exactly when its head (with the message)
      has no newline and every leaf of its reference fits on a line. */
  lemma SingleLineRecordIff(quote: string -> string, ops: seq<Op>, head: string, record: seq<Attr>)
    requires forall s :: OneLine(quote(s))
    ensures var leaves := Reference(ops, record, []);
      SingleLine(head + Body(quote, ApplyAll(EMPTY, ops), record) + "\n")
      <==> OneLine(head) && forall i :: 0 <= i < |leaves| ==> FitsLine(leaves[i])
  {
    HandlerMeaning(quote, ops, record);
    SingleLineIff(quote, Reference(ops, record, []));
    LineEnds(head, Body(quote, ApplyAll(EMPTY, ops), record));
  }

  lemma LineEnds(head: string, body: string)
    ensures SingleLine(head + body + "\n") <==> OneLine(head) && OneLine(body)
  {
    assert (head + body + "\n")[..|head + body|] == head + body;
  }

  /** As slog asks: opening a group before logging attributes prints the same as
      logging them inside a group attribute. */
  lemma GroupAsAttr(quote: string -> string, h: View, name: string, record: seq<Attr>)
    ensures Body(quote, Apply(h, WithGroup(name)), record) == Body(quote, h, [Attr(name, Group(record))])
  {
    var a := Attr(name, Group(record));
    assert [a][..0] == [];
    assert RenderAll(quote, h.group, [a]) == RenderAll(quote, h.group, []) + Render(quote, h.group, a);
  }

  /** And storing attributes one call at a time or all at once is the same. */
  lemma {:induction false} FlattenAllAppend(xs: seq<Attr>, ys: seq<Attr>, group: string)
    ensures FlattenAll(xs + ys, group) == FlattenAll(xs, group) + FlattenAll(ys, group)
    decreases |ys|
  {
    if ys == [] {
      assert xs + ys == xs;
    } else {
      var init, last := ys[..|ys| - 1], ys[|ys| - 1];
      FlattenAllAppend(xs, init, group);
      assert xs + ys == xs + init + [last];
      FlattenAllSnoc(xs + init, last, group);
      Assoc(FlattenAll(xs, group), FlattenAll(init, group), Flatten(last, group));
    }
  }

  lemma FlattenAllSnoc(init: seq<Attr>, last: Attr, group: string)
    ensures FlattenAll(init + [last], group) == FlattenAll(init, group) + Flatten(last, group)
  {
    assert (init + [last])[..|init|] == init;
  }

  lemma RenderAllSnoc(quote: string -> string, group: string, init: seq<Attr>, last: Attr)
    ensures RenderAll(quote, group, init + [last]) == RenderAll(quote, group, init) + Render(quote, group, last)
  {
    assert (init + [last])[..|init|] == init;
  }

  /** Attributes stored just before a record print as the first ones of the record. */
  lemma StoredAsRecord(quote: string -> string, h: View, xs: seq<Attr>, ys: seq<Attr>)
    ensures Body(quote, Apply(h, WithAttrs(xs)), ys) == Body(quote, h, xs + ys)
    ensures Body(quote, EMPTY, ys) == RenderAll(quote, "", ys)
  {
    RenderAllAppend(quote, "", h.attrs, FlattenAll(xs, h.group));
    FlattenAllThenRender(quote, h.group, xs);
    RenderAllAppend(quote, h.group, xs, ys);
    Assoc(RenderAll(quote, "", h.attrs), RenderAll(quote, h.group, xs), RenderAll(quote, h.group, ys));
  }

  lemma SplitWithAttrs(h: View, xs: seq<Attr>, ys: seq<Attr>)
    ensures Apply(h, WithAttrs(xs + ys)) == Apply(Apply(h, WithAttrs(xs)), WithAttrs(ys))
  {
    FlattenAllAppend(xs, ys, h.group);
  }

  // ---- Slices and builders ----

  /** A Go slice: a stretch from the start of a backing array that others may share. */
  datatype Slice = Slice(backing: array<Attr>, len: nat) {
    ghost predicate Valid() {
      len <= backing.Length
    }

    ghost function Items(): seq<Attr>
      requires Valid()
      reads backing
    {
      backing[..len]
    }
  }

  /** Go's append: in place while the capacity lasts, else into a larger copy. */
  method Append(dst: Slice, a: Attr) returns (r: Slice)
    requires dst.Valid()
    modifies dst.backing
    ensures r.Valid() && (r.backing == dst.backing || fresh(r.backing))
    ensures r.Items() == old(dst.Items()) + [a]
  {
    if dst.len < dst.backing.Length {
      dst.backing[dst.len] := a;
      r := Slice(dst.backing, dst.len + 1);
    } else {
      var larger := new Attr[2 * dst.len + 1];
      forall i | 0 <= i < dst.len {
        larger[i] := dst.backing[i];
      }
      larger[dst.len] := a;
      r := Slice(larger, dst.len + 1);
    }
  }

  method AppendColorAttr(dst: Slice, a: Attr, group: string) returns (r: Slice)
    requires dst.Valid()
    modifies dst.backing
    ensures r.Valid() && (r.backing == dst.backing || fresh(r.backing))
    ensures r.Items() == old(dst.Items()) + Flatten(a, group)
    decreases a, 1
  {
    var v := Resolve(a.value);
    if IsZero(Attr(a.key, v)) {
      return dst;
    }
    if v.Group? {
      r := AppendColorAttrs(dst, v.attrs, JoinGroup(group, a.key));
    } else {
      r := Append(dst, Attr(JoinGroup(group, a.key), v));
    }
  }

  /** The loop over the members of a group and over the arguments of WithAttrs. */
  method AppendColorAttrs(dst: Slice, attrs: seq<Attr>, group: string) returns (r: Slice)
    requires dst.Valid()
    modifies dst.backing
    ensures r.Valid() && (r.backing == dst.backing || fresh(r.backing))
    ensures r.Items() == old(dst.Items()) + FlattenAll(attrs, group)
    decreases attrs, 0
  {
    r := dst;
    for i := 0 to |attrs|
      invariant r.Valid() && (r.backing == dst.backing || fresh(r.backing))
      invariant r.Items() == old(dst.Items()) + FlattenAll(attrs[..i], group)
    {
      r := AppendColorAttr(r, attrs[i], group);
      TakeNext(attrs, i);
      FlattenAllSnoc(attrs[..i], attrs[i], group);
      Assoc(old(dst.Items()), FlattenAll(attrs[..i], group), Flatten(attrs[i], group));
    }
    assert attrs[..|attrs|] == attrs;
  }

  /** A strings.Builder. */
  class Builder {
    var text: string

    constructor ()
      ensures text == ""
    {
      text := "";
    }

    method WriteString(s: string)
      modifies this
      ensures text == old(text) + s
    {
      text := text + s;
    }
  }

  method WriteColorAttr(b: Builder, quote: string -> string, group: string, a: Attr)
    modifies b
    ensures b.text == old(b.text) + Render(quote, group, a)
    decreases a, 1
  {
    var v := Resolve(a.value);
    if IsZero(Attr(a.key, v)) {
      return;
    }
    if v.Group? {
      WriteColorAttrs(b, quote, JoinGroup(group, a.key), v.attrs);
      return;
    }
    if v.Text? && v.text == "" {
      return;
    }
    b.WriteString(" ");
    b.WriteString(JoinGroup(group, a.key));
    b.WriteString("=");
    var val := Shown(v);
    if NeedsQuotes(val) {
      val := quote(val);
    }
    b.WriteString(val);
  }

  method WriteColorAttrs(b: Builder, quote: string -> string, group: string, attrs: seq<Attr>)
    modifies b
    ensures b.text == old(b.text) + RenderAll(quote, group, attrs)
    decreases attrs, 0
  {
    for i := 0 to |attrs|
      invariant b.text == old(b.text) + RenderAll(quote, group, attrs[..i])
    {
      WriteColorAttr(b, quote, group, attrs[i]);
      TakeNext(attrs, i);
      RenderAllSnoc(quote, group, attrs[..i], attrs[i]);
      Assoc(old(b.text), RenderAll(quote, group, attrs[..i]), Render(quote, group, attrs[i]));
    }
    assert attrs[..|attrs|] == attrs;
  }

  /** The destination: one entry per Write call. */
  class Writer {
    var writes: seq<string>

    constructor ()
      ensures writes == []
    {
      writes := [];
    }
  }

  // ---- The handler object ----

  class ColorHandler {
    const w: Writer
    const quote: string -> string
    var attrs: Slice
    var group: string

    ghost predicate Valid()
      reads this
    {
      attrs.Valid()
    }

    ghost function Shows(): View
      requires Valid()
      reads this, attrs.backing
    {
      View(attrs.Items(), group)
    }

    constructor (w: Writer, quote: string -> string)
      ensures Valid() && Shows() == EMPTY && this.w == w && this.quote == quote
    {
      this.w, this.quote := w, quote;
      var none := new Attr[0];
      attrs, group := Slice(none, 0), "";
    }

    /** The struct copy `nh := *h`: the slice is copied, its backing array is not. */
    constructor Copy(h: ColorHandler)
      requires h.Valid()
      ensures Valid() && w == h.w && quote == h.quote && attrs == h.attrs && group == h.group
    {
      w, quote, attrs, group := h.w, h.quote, h.attrs, h.group;
    }

    /** Writes to nothing that existed before: whatever the parent, its other
        children or anybody else shows stays as it is. */
    method WithAttrs(added: seq<Attr>) returns (nh: ColorHandler)
      requires Valid()
      ensures nh.Valid() && nh.w == w && nh.quote == quote
      ensures nh.Shows() == Apply(Shows(), Op.WithAttrs(added))
      ensures if added == [] then nh == this else fresh(nh) && fresh(nh.attrs.backing)
      ensures forall h: ColorHandler :: old(allocated(h)) && old(h.Valid()) ==> h.Valid() && h.Shows() == old(h.Shows())
    {
      if |added| == 0 {
        return this;
      }
      nh := new ColorHandler.Copy(this);
      var own := new Attr[attrs.len + |added|];
      forall i | 0 <= i < attrs.len {
        own[i] := attrs.backing[i];
      }
      nh.attrs := Slice(own, attrs.len);
      assert nh.attrs.Items() == attrs.Items();
      var all := AppendColorAttrs(nh.attrs, added, group);
      nh.attrs := all;
    }

    /** Shares the parent's backing array, and writes to nothing. */
    method WithGroup(name: string) returns (nh: ColorHandler)
      requires Valid()
      ensures nh.Valid() && nh.w == w && nh.quote == quote
      ensures nh.Shows() == Apply(Shows(), Op.WithGroup(name))
      ensures if name == "" then nh == this else fresh(nh) && nh.attrs == attrs
      ensures forall h: ColorHandler :: old(allocated(h)) && old(h.Valid()) ==> h.Valid() && h.Shows() == old(h.Shows())
    {
      if name == "" {
        return this;
      }
      nh := new ColorHandler.Copy(this);
      nh.group := JoinGroup(group, name);
    }

    /** Adds one line, in one write: the rendered time, level, source and message
        in `head`, the attributes, a newline. */
    method Handle(head: string, record: seq<Attr>)
      requires Valid()
      modifies w
      ensures w.writes == old(w.writes) + [head + Body(quote, Shows(), record) + "\n"]
      ensures Valid() && Shows() == old(Shows())
    {
      ghost var body := Body(quote, Shows(), record);
      var b := new Builder();
      b.WriteString(head);
      WriteColorAttrs(b, quote, "", attrs.backing[..attrs.len]);
      WriteColorAttrs(b, quote, group, record);
      assert b.text == head + body;
      b.WriteString("\n");
      assert b.text == head + body + "\n";
      w.writes := w.writes + [b.text];
    }
  }

  /** Deriving a handler through any chain of calls: it shows what the reference
      says, and no handler that existed before shows anything else than it did. */
  method Derive(h: ColorHandler, ops: seq<Op>) returns (nh: ColorHandler)
    requires h.Valid()
    ensures nh.Valid() && nh.w == h.w && nh.quote == h.quote
    ensures nh.Shows() == ApplyAll(h.Shows(), ops)
    ensures forall g: ColorHandler :: old(allocated(g)) && old(g.Valid()) ==> g.Valid() && g.Shows() == old(g.Shows())
  {
    nh := h;
    for i := 0 to |ops|
      invariant nh.Valid() && nh.w == h.w && nh.quote == h.quote
      invariant ApplyAll(nh.Shows(), ops[i..]) == ApplyAll(h.Shows(), ops)
    {
      assert ops[i..][1..] == ops[i + 1..];
      match ops[i]
      case WithAttrs(attrs) =>
        nh := nh.WithAttrs(attrs);
      case WithGroup(name) =>
        nh := nh.WithGroup(name);
    }
  }

  /** A fresh handler, any chain of derivations, one record: the line written is
      the head followed by the reference text, and when it is a single line. */
  method LogThrough(w: Writer, quote: string -> string, ops: seq<Op>, head: string, record: seq<Attr>)
    modifies w
    ensures w.writes == old(w.writes) + [head + Lines(quote, Reference(ops, record, [])) + "\n"]
    ensures var leaves := Reference(ops, record, []);
      (forall s :: OneLine(quote(s))) ==>
        (SingleLine(w.writes[|old(w.writes)|]) <==>
         OneLine(head) && forall i :: 0 <= i < |leaves| ==> FitsLine(leaves[i]))
  {
    var h := new ColorHandler(w, quote);
    var derived := Derive(h, ops);
    HandlerMeaning(quote, ops, record);
    derived.Handle(head, record);
    if forall s :: OneLine(quote(s)) {
      SingleLineRecordIff(quote, ops, head, record);
    }
  }
}
