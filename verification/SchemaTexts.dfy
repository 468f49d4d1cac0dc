/** The schema texts that are accepted, put together from their pieces, and the rows they describe. */
module SchemaTexts {
  import opened Basics
  import opened DecimalText
  import opened Schema

  /** One entry: i:name; or f:name; or s:length:name; with blanks, a plus sign and zeros allowed before the length. */
  datatype Item =
    | Plain(letter: char, name: string)
    | Sized(blanks: string, plus: bool, digits: string, name: string)
  {
    function Front(): string {
      if Plain? then [letter] + ":" else "s:" + blanks + (if plus then "+" else "") + digits + ":"
    }

    function Text(): string {
      Front() + name + ";"
    }

    predicate Fits() {
      && 1 <= |name| <= 63 && ';' !in name && '\0' !in name
      && if Plain? then letter == 'i' || letter == 'f'
         else (forall k :: 0 <= k < |blanks| ==> blanks[k] == ' ')
              && digits != "" && (forall k :: 0 <= k < |digits| ==> '0' <= digits[k] <= '9')
              && 1 <= DecVal(digits) <= 65536
    }

    function ItsKind(): Kind {
      if Sized? then TextColumn else if letter == 'i' then IntColumn else FloatColumn
    }

    /** Numbers take 8 bytes, a text its length and a terminator. */
    function Bytes(): nat {
      if Sized? then DecVal(digits) + 1 else 8
    }
  }

  function Joined(items: seq<Item>): string {
    if items == [] then "" else items[0].Text() + Joined(items[1..])
  }

  predicate Distinct(items: seq<Item>) {
    forall j, k :: 0 <= j < k < |items| ==> items[j].name != items[k].name
  }

  /** One to 32 entries with different names. */
  predicate Good(items: seq<Item>) {
    1 <= |items| <= 32 && Distinct(items) && forall k :: 0 <= k < |items| ==> items[k].Fits()
  }

  /** The columns from a given end on: numbers at the next multiple of 8, texts right away. */
  function Placed(items: seq<Item>, end: nat): seq<Column> {
    if items == [] then []
    else
      var off := if items[0].Sized? then end else (end + 7) / 8 * 8;
      [Column(items[0].ItsKind(), items[0].Bytes(), off, items[0].name)] + Placed(items[1..], off + items[0].Bytes())
  }

  function EndAfter(items: seq<Item>, end: nat): nat {
    if items == [] then end
    else EndAfter(items[1..], (if items[0].Sized? then end else (end + 7) / 8 * 8) + items[0].Bytes())
  }

  // ---- what is so spelled is read ----

  lemma LengthRead(blanks: string, plus: bool, digits: string, t: string)
    requires Sized(blanks, plus, digits, "x").Fits()
    ensures var h := blanks + (if plus then "+" else "") + digits + ":";
            Number(h + t) == Some((DecVal(digits), |h|))
  {
    hide DecVal, SignEnd, Run;
    var sign := if plus then "+" else "";
    var s := blanks + sign + digits + ":" + t;
    var p := |blanks + sign|;
    SignRead(blanks, sign, digits + ":" + t);
    assert s == blanks + sign + (digits + ":" + t) && s[p..] == digits + ":" + t;
    DigitsRead(digits, t);
    assert s[p..p + |digits|] == digits && s[p + |digits|] == ':';
  }

  lemma SignRead(blanks: string, sign: string, t: string)
    requires (forall k :: 0 <= k < |blanks| ==> blanks[k] == ' ') && (sign == "" || sign == "+")
    requires t != "" && '0' <= t[0] <= '9'
    ensures SignEnd(blanks + sign + t) == |blanks + sign|
  {
    var s := blanks + sign + t;
    assert s[|blanks|] == if sign == "+" then '+' else t[0];
    RunIs(s, IsBlank, |blanks|);
  }

  lemma DigitsRead(digits: string, t: string)
    requires forall k :: 0 <= k < |digits| ==> '0' <= digits[k] <= '9'
    ensures Run(digits + ":" + t, IsDigit) == |digits|
  {
    var s := digits + ":" + t;
    assert s[|digits|] == ':';
    forall k | 0 <= k < |digits| ensures IsDigit(s[k]) {
      assert s[k] == digits[k];
    }
    RunIs(s, IsDigit, |digits|);
  }

  lemma FrontRead(it: Item, t: string)
    requires it.Fits()
    ensures Head(it.Front() + t) == Some((it.ItsKind(), it.Bytes(), |it.Front()|))
  {
    hide DecVal, Number;
    var f := it.Front();
    var s := f + t;
    assert s[0] == f[0] && s[1] == f[1];
    if it.Sized? {
      var h := it.blanks + (if it.plus then "+" else "") + it.digits + ":";
      LengthRead(it.blanks, it.plus, it.digits, t);
      assert f == "s:" + h;
      assert s[2..] == h + t;
    }
  }

  lemma ItemRead(it: Item, t: string)
    requires it.Fits()
    ensures ReadEntry(it.Text() + t) == Some(Entry(it.ItsKind(), it.Bytes(), it.name, |it.Text()|))
  {
    hide Head, DecVal, Item.Front;
    var f := it.Front();
    var rest := it.name + ";" + t;
    assert it.Text() + t == f + rest;
    FrontRead(it, rest);
    assert (f + rest)[|f|..] == rest;
    forall j | 0 <= j < |it.name| ensures InName(rest[j]) {
      assert rest[j] == it.name[j] && it.name[j] in it.name;
    }
    assert rest[|it.name|] == ';';
    RunIs(rest, InName, |it.name|);
    assert rest[..|it.name|] == it.name;
  }

  predicate Fresh(cols: seq<Column>, items: seq<Item>) {
    forall j, k :: 0 <= j < |cols| && 0 <= k < |items| ==> cols[j].name != items[k].name
  }

  /** The first entry becomes the next column. */
  lemma FirstRead(items: seq<Item>, cols: seq<Column>, end: nat) returns (c: Column)
    requires items != [] && items[0].Fits() && |cols| < 32 && !HasName(cols, items[0].name)
    ensures c.name == items[0].name
    ensures ReadAll(Joined(items), cols, end) == ReadAll(Joined(items[1..]), cols + [c], c.off + c.size)
    ensures Placed(items, end) == [c] + Placed(items[1..], c.off + c.size)
    ensures EndAfter(items, end) == EndAfter(items[1..], c.off + c.size)
  {
    hide ReadAll, ReadEntry, Item.Text, Item.Fits, HasName, Placed, EndAfter, Joined;
    var it, rest := items[0], Joined(items[1..]);
    c := FirstColumn(items, end);
    ItemRead(it, rest);
    JoinFront(it, items[1..]);
    assert [it] + items[1..] == items;
    ReadAllStep(it.Text() + rest, cols, end, c, |it.Text()|);
    assert (it.Text() + rest)[|it.Text()|..] == rest;
  }

  lemma FirstColumn(items: seq<Item>, end: nat) returns (c: Column)
    requires items != [] && items[0].Fits()
    ensures c.name == items[0].name && c.kind == items[0].ItsKind() && c.size == items[0].Bytes()
    ensures c.off == Start(c.kind, end) && Placed(items, end) == [c] + Placed(items[1..], c.off + c.size)
    ensures EndAfter(items, end) == EndAfter(items[1..], c.off + c.size)
  {
    var it := items[0];
    c := Column(it.ItsKind(), it.Bytes(), if it.Sized? then end else (end + 7) / 8 * 8, it.name);
  }

  lemma {:induction false} ItemsRead(items: seq<Item>, cols: seq<Column>, end: nat)
    requires |cols| + |items| <= 32 && Distinct(items) && Fresh(cols, items)
    requires forall k :: 0 <= k < |items| ==> items[k].Fits()
    ensures ReadAll(Joined(items), cols, end) == Some(Layout(cols + Placed(items, end), EndAfter(items, end)))
    decreases |items|
  {
    hide ReadAll, Item.Fits, Fresh, Distinct, HasName, Placed, EndAfter, Joined;
    if items == [] {
      NoItems(cols, end);
    } else {
      FreshFirst(items, cols);
      var c := FirstRead(items, cols, end);
      FreshRest(items, cols, c);
      ItemsRead(items[1..], cols + [c], c.off + c.size);
      assert cols + [c] + Placed(items[1..], c.off + c.size) == cols + ([c] + Placed(items[1..], c.off + c.size));
    }
  }

  lemma NoItems(cols: seq<Column>, end: nat)
    ensures Joined([]) == [] && ReadAll([], cols, end) == Some(Layout(cols + Placed([], end), EndAfter([], end)))
    ensures Distinct([]) && Fresh(cols, [])
  {
    assert cols + [] == cols;
  }

  lemma FreshFirst(items: seq<Item>, cols: seq<Column>)
    requires items != [] && Fresh(cols, items)
    ensures !HasName(cols, items[0].name)
  {
  }

  lemma FreshRest(items: seq<Item>, cols: seq<Column>, c: Column)
    requires items != [] && Distinct(items) && Fresh(cols, items) && c.name == items[0].name
    ensures Distinct(items[1..]) && Fresh(cols + [c], items[1..]) && !HasName(cols, c.name)
  {
  }

  /** Every text so spelled is accepted, and this is the row it describes. */
  lemma SpelledIsAccepted(items: seq<Item>)
    requires Good(items)
    ensures Schema.Parse(Joined(items)) == Some(Layout(Placed(items, 0), EndAfter(items, 0)))
  {
    NotEmpty(items);
    ItemsRead(items, [], 0);
    hide ReadAll, Joined, Placed, EndAfter;
    assert [] + Placed(items, 0) == Placed(items, 0);
  }

  lemma NotEmpty(items: seq<Item>)
    requires items != []
    ensures Joined(items) != []
  {
    assert |items[0].Text()| > 0;
    hide Item.Text;
  }

  // ---- what is read is so spelled ----

  lemma ItemOf(s: string) returns (it: Item)
    requires '\0' !in s && ReadEntry(s).Some?
    ensures var e := ReadEntry(s).value; it.Fits() && s[..e.used] == it.Text() && it.name == e.name
  {
    var e := ReadEntry(s).value;
    EntryName(s);
    var m := FrontSpelling(s);
    hide ReadEntry, DecVal, Item.Fits, Item.Front, TextLengthSpelled;
    it := FrontOf(s, m, e.kind, e.size, e.name);
  }

  /** What stands before the name of an accepted entry. */
  lemma FrontSpelling(s: string) returns (m: nat)
    requires ReadEntry(s).Some?
    ensures var e := ReadEntry(s).value;
            && e.used == m + |e.name| + 1 && s[..e.used] == s[..m] + e.name + ";" && FrontSpelled(s, m, e.kind, e.size)
  {
    hide Number, DecVal, TextLengthSpelled;
    var e := ReadEntry(s).value;
    m := Head(s).value.2;
    assert s[m..][..|e.name|] == e.name && s[m..][|e.name|] == ';';
    assert s[..e.used] == s[..m] + e.name + ";";
    if e.kind == TextColumn {
      var p := LengthSpelling(s, m, e.size);
      assert s[..2] == "s:";
    } else {
      assert s[..m] == if e.kind == IntColumn then "i:" else "f:";
    }
  }

  predicate FrontSpelled(s: string, m: nat, kind: Kind, size: nat) {
    && m <= |s|
    && (kind == IntColumn ==> s[..m] == "i:") && (kind == FloatColumn ==> s[..m] == "f:")
    && (kind == TextColumn ==>
          && 2 <= size <= 65537 && m >= 2 && s[..2] == "s:" && s[m - 1] == ':'
          && exists p, q :: 2 <= p < q && q == m - 1 && TextLengthSpelled(s, p, q, size))
  }

  lemma FrontOf(s: string, m: nat, kind: Kind, size: nat, name: string) returns (it: Item)
    requires FrontSpelled(s, m, kind, size) && 1 <= |name| <= 63 && ';' !in name && '\0' !in name
    ensures it.Fits() && it.Front() == s[..m] && it.name == name
  {
    hide TextLengthSpelled, Item.Fits, Item.Front;
    if kind == TextColumn {
      var p, q :| 2 <= p < q && q == m - 1 && TextLengthSpelled(s, p, q, size);
      it := SizedOf(s, p, q, size, name);
    } else {
      it := PlainOf(s[..m], name);
    }
  }

  lemma PlainOf(f: string, name: string) returns (it: Item)
    requires f == "i:" || f == "f:"
    requires 1 <= |name| <= 63 && ';' !in name && '\0' !in name
    ensures it.Fits() && it.Front() == f && it.name == name
  {
    it := Plain(f[0], name);
  }

  lemma SizedOf(s: string, p: nat, q: nat, size: nat, name: string) returns (it: Item)
    requires 2 <= p < q < |s| && s[..2] == "s:" && s[q] == ':' && TextLengthSpelled(s, p, q, size) && 2 <= size <= 65537
    requires 1 <= |name| <= 63 && ';' !in name && '\0' !in name
    ensures it.Fits() && it.Front() == s[..q + 1] && it.name == name
  {
    hide DecVal;
    var plus := p > 2 && s[p - 1] == '+';
    var m := if plus then p - 1 else p;
    it := Sized(s[2..m], plus, s[p..q], name);
    assert s[m..p] == if plus then "+" else "";
    assert s[..q + 1] == s[..2] + s[2..m] + s[m..p] + s[p..q] + s[q..q + 1];
    forall k | 0 <= k < m - 2 ensures s[2..m][k] == ' ' {
      assert s[2..m][k] == s[2 + k];
    }
    forall k | 0 <= k < q - p ensures '0' <= s[p..q][k] <= '9' {
      assert s[p..q][k] == s[p + k] && IsDigit(s[p + k]);
    }
  }

  lemma {:induction false} ItemsOf(s: string, cols: seq<Column>, end: nat) returns (items: seq<Item>)
    requires '\0' !in s && ReadAll(s, cols, end).Some? && |cols| <= 32
    ensures s == Joined(items) && |cols| + |items| <= 32 && Distinct(items) && Fresh(cols, items)
    ensures (forall k :: 0 <= k < |items| ==> items[k].Fits()) && (items == [] <==> s == [])
    decreases |s|
  {
    hide ReadAll, ReadEntry, Item.Text, Item.Fits, HasName, Joined, Fresh, Distinct;
    if s == [] {
      NoItems(cols, end);
      items := [];
    } else {
      var c, used := NextColumn(s, cols, end);
      var it := ItemOf(s);
      var rest := s[used..];
      assert '\0' !in rest;
      var more := ItemsOf(rest, cols + [c], c.off + c.size);
      FreshFront(it, more, cols, c);
      JoinFront(it, more);
      assert s == s[..used] + rest;
      items := [it] + more;
    }
  }

  lemma NextColumn(s: string, cols: seq<Column>, end: nat) returns (c: Column, used: nat)
    requires s != [] && ReadAll(s, cols, end).Some?
    ensures ReadEntry(s).Some? && used == ReadEntry(s).value.used && 0 < used <= |s| && |cols| < 32
    ensures c.name == ReadEntry(s).value.name && !HasName(cols, c.name)
    ensures ReadAll(s[used..], cols + [c], c.off + c.size).Some?
  {
    hide ReadEntry, HasName, Start;
    var e := ReadEntry(s).value;
    c, used := Column(e.kind, e.size, Start(e.kind, end), e.name), e.used;
  }

  lemma JoinFront(it: Item, more: seq<Item>)
    ensures Joined([it] + more) == it.Text() + Joined(more)
  {
    hide Item.Text;
    assert ([it] + more)[1..] == more;
  }

  lemma FreshFront(it: Item, more: seq<Item>, cols: seq<Column>, c: Column)
    requires Distinct(more) && Fresh(cols + [c], more) && c.name == it.name && !HasName(cols, c.name)
    ensures Distinct([it] + more) && Fresh(cols, [it] + more)
  {
    assert forall k :: 0 <= k < |more| ==> (cols + [c])[|cols|].name != more[k].name;
    forall j, k | 0 <= j < |cols| && 0 <= k < |more| ensures cols[j].name != more[k].name {
      assert (cols + [c])[j] == cols[j];
    }
  }

  /** A schema text is accepted exactly when it is so spelled. */
  lemma AcceptedExactlyWhenSpelled(s: string)
    requires '\0' !in s
    ensures Schema.Parse(s).Some? <==> exists items :: Good(items) && s == Joined(items)
  {
    if Schema.Parse(s).Some? {
      var items := ItemsOf(s, [], 0);
      assert Good(items);
    }
    if items :| Good(items) && s == Joined(items) {
      SpelledIsAccepted(items);
    }
  }
}
