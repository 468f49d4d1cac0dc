/** The shared table's schema text and the row layout it describes. */
module Schema {
  import opened Basics
  import opened DecimalText

  const MAX_COLS := 32
  const NAME_LIMIT := 64
  const MAX_TEXT := 65536

  datatype Kind = IntColumn | FloatColumn | TextColumn

  /** A column: the bytes [off, off + size) of a row. */
  datatype Column = Column(kind: Kind, size: nat, off: nat, name: string)

  /** What one entry of the text says; `used` characters spell it. */
  datatype Entry = Entry(kind: Kind, size: nat, name: string, used: nat)

  datatype Layout = Layout(cols: seq<Column>, stride: nat)

  // ---- The text of one entry ----

  /** Leading characters of s that satisfy p. */
  function Run(s: string, p: char -> bool): (n: nat)
    ensures n <= |s| && (forall k :: 0 <= k < n ==> p(s[k])) && (n < |s| ==> !p(s[n]))
  {
    if s == [] || !p(s[0]) then 0 else 1 + Run(s[1..], p)
  }

  /** The length of a leading run is settled by the run and what ends it. */
  lemma {:induction false} RunIs(s: string, p: char -> bool, n: nat)
    requires n <= |s| && (forall k :: 0 <= k < n ==> p(s[k])) && (n < |s| ==> !p(s[n]))
    ensures Run(s, p) == n
  {
    if n > 0 {
      RunIs(s[1..], p, n - 1);
    }
  }

  predicate IsBlank(c: char) { c == ' ' }
  predicate InName(c: char) { c != ';' }

  /** Spaces, an optional plus sign, digits and a colon; the number must be 1 to 65536. */
  function Number(s: string): (r: Option<(nat, nat)>)
    ensures r.Some? ==> 1 <= r.value.0 <= MAX_TEXT && 1 < r.value.1 <= |s|
  {
    var p := SignEnd(s);
    var n := Run(s[p..], IsDigit);
    var v := DecVal(s[p..p + n]);
    if n > 0 && p + n < |s| && s[p + n] == ':' && 1 <= v <= MAX_TEXT then Some((v, p + n + 1)) else None
  }

  function SignEnd(s: string): (p: nat)
    ensures p <= |s|
  {
    var sp := Run(s, IsBlank);
    if sp < |s| && s[sp] == '+' then sp + 1 else sp
  }

  /** The kind and size an entry starts with, and how many characters that takes. */
  function Head(s: string): (r: Option<(Kind, nat, nat)>)
    ensures r.Some? ==> 2 <= r.value.2 <= |s|
    ensures r.Some? ==> if r.value.0 == TextColumn then 2 <= r.value.1 <= MAX_TEXT + 1 else r.value.1 == 8
  {
    if |s| < 2 || s[1] != ':' then None
    else if s[0] == 'i' then Some((IntColumn, 8, 2))
    else if s[0] == 'f' then Some((FloatColumn, 8, 2))
    else if s[0] == 's' then
      var n := Number(s[2..]);
      if n.Some? then Some((TextColumn, n.value.0 + 1, 2 + n.value.1)) else None
    else None
  }

  predicate NameOk(name: string) {
    1 <= |name| < NAME_LIMIT && ';' !in name && '\0' !in name
  }

  function ReadEntry(s: string): (r: Option<Entry>)
    ensures r.Some? ==> 2 < r.value.used <= |s| && r.value.used >= |r.value.name|
    ensures r.Some? ==> 1 <= |r.value.name| < NAME_LIMIT && ';' !in r.value.name
    ensures r.Some? ==> if r.value.kind == TextColumn then 2 <= r.value.size <= MAX_TEXT + 1 else r.value.size == 8
  {
    var h := Head(s);
    if h.None? then None
    else
      var rest := s[h.value.2..];
      var n := Run(rest, InName);
      if n < |rest| && 1 <= n < NAME_LIMIT then Some(Entry(h.value.0, h.value.1, rest[..n], h.value.2 + n + 1))
      else None
  }

  // ---- The layout ----

  function Align8(x: nat): (y: nat)
    ensures y % 8 == 0 && x <= y < x + 8
  {
    (x + 7) / 8 * 8
  }

  /** Where a column of this kind starts when the row is filled up to `end`. */
  function Start(kind: Kind, end: nat): (o: nat)
    ensures end <= o && (kind != TextColumn ==> o % 8 == 0)
  {
    if kind == TextColumn then end else Align8(end)
  }

  predicate HasName(cols: seq<Column>, name: string) {
    exists j :: 0 <= j < |cols| && cols[j].name == name
  }

  /** Read the entries of s behind the columns read so far. */
  function ReadAll(s: string, cols: seq<Column>, end: nat): (r: Option<Layout>)
    decreases |s|
  {
    if s == [] then Some(Layout(cols, end))
    else if |cols| >= MAX_COLS then None
    else
      var e := ReadEntry(s);
      if e.None? || HasName(cols, e.value.name) then None
      else
        var c := Column(e.value.kind, e.value.size, Start(e.value.kind, end), e.value.name);
        ReadAll(s[e.value.used..], cols + [c], c.off + c.size)
  }

  /** What a schema text describes; the empty text describes nothing. */
  function Parse(s: string): Option<Layout> {
    if s == [] then None else ReadAll(s, [], 0)
  }

  /** The end of column k - 1, 0 before the first. */
  function EndOf(cols: seq<Column>, k: nat): nat
    requires k <= |cols|
  {
    if k == 0 then 0 else cols[k - 1].off + cols[k - 1].size
  }

  predicate ColumnOk(c: Column) {
    && NameOk(c.name)
    && if c.kind == TextColumn then 2 <= c.size <= MAX_TEXT + 1 else c.size == 8 && c.off % 8 == 0
  }

  /** Each column starts at the first place its kind allows behind the one before it. */
  predicate Packed(cols: seq<Column>) {
    forall k :: 0 <= k < |cols| ==> cols[k].off == Start(cols[k].kind, EndOf(cols, k))
  }

  predicate DistinctNames(cols: seq<Column>) {
    forall j, k :: 0 <= j < k < |cols| ==> cols[j].name != cols[k].name
  }

  predicate LayoutOk(l: Layout) {
    && |l.cols| <= MAX_COLS && DistinctNames(l.cols) && Packed(l.cols)
    && (forall k :: 0 <= k < |l.cols| ==> ColumnOk(l.cols[k]))
    && l.stride == EndOf(l.cols, |l.cols|)
  }

  /** Packed columns come one after the other. */
  lemma {:induction false} PackedInOrder(cols: seq<Column>, j: nat, k: nat)
    requires Packed(cols) && j < k <= |cols|
    ensures cols[j].off + cols[j].size <= EndOf(cols, k)
    ensures k < |cols| ==> cols[j].off + cols[j].size <= cols[k].off
    decreases k
  {
    hide Start;
    if j < k - 1 {
      PackedInOrder(cols, j, k - 1);
    }
  }

  /** Columns take disjoint ranges inside the row. */
  lemma ColumnsDisjoint(l: Layout, j: nat, k: nat)
    requires LayoutOk(l) && j < |l.cols| && k < |l.cols| && j != k
    ensures l.cols[j].off + l.cols[j].size <= l.stride
    ensures l.cols[j].off + l.cols[j].size <= l.cols[k].off || l.cols[k].off + l.cols[k].size <= l.cols[j].off
  {
    hide Packed;
    PackedInOrder(l.cols, j, |l.cols|);
    if j < k { PackedInOrder(l.cols, j, k); } else { PackedInOrder(l.cols, k, j); }
  }

  lemma AddColumn(cols: seq<Column>, c: Column)
    requires LayoutOk(Layout(cols, EndOf(cols, |cols|))) && |cols| < MAX_COLS
    requires ColumnOk(c) && !HasName(cols, c.name) && c.off == Start(c.kind, EndOf(cols, |cols|))
    ensures LayoutOk(Layout(cols + [c], c.off + c.size))
  {
    hide Start, ColumnOk, Packed, DistinctNames, HasName, EndOf;
    PackedMore(cols, c);
    DistinctMore(cols, c);
    assert EndOf(cols + [c], |cols| + 1) == c.off + c.size by { EndMore(cols, c); }
  }

  lemma EndMore(cols: seq<Column>, c: Column)
    ensures EndOf(cols + [c], |cols| + 1) == c.off + c.size
    ensures forall k: nat :: k <= |cols| ==> EndOf(cols + [c], k) == EndOf(cols, k)
  {
  }

  lemma PackedMore(cols: seq<Column>, c: Column)
    requires Packed(cols) && c.off == Start(c.kind, EndOf(cols, |cols|))
    ensures Packed(cols + [c])
  {
    hide Start, EndOf;
    EndMore(cols, c);
    var more := cols + [c];
    forall k | 0 <= k < |more| ensures more[k].off == Start(more[k].kind, EndOf(more, k)) {
      assert EndOf(more, k) == EndOf(cols, k);
    }
  }

  lemma DistinctMore(cols: seq<Column>, c: Column)
    requires DistinctNames(cols) && !HasName(cols, c.name)
    ensures DistinctNames(cols + [c])
  {
  }

  lemma {:induction false} ReadAllOk(s: string, cols: seq<Column>)
    requires '\0' !in s && LayoutOk(Layout(cols, EndOf(cols, |cols|)))
    ensures var r := ReadAll(s, cols, EndOf(cols, |cols|)); r.Some? ==> LayoutOk(r.value)
    decreases |s|
  {
    hide LayoutOk, ReadEntry, Start, HasName;
    if s != [] && |cols| < MAX_COLS {
      var e := ReadEntry(s);
      if e.Some? && !HasName(cols, e.value.name) {
        var c := Column(e.value.kind, e.value.size, Start(e.value.kind, EndOf(cols, |cols|)), e.value.name);
        EntryName(s);
        AddColumn(cols, c);
        assert EndOf(cols + [c], |cols| + 1) == c.off + c.size;
        assert '\0' !in s[e.value.used..];
        ReadAllOk(s[e.value.used..], cols + [c]);
      }
    }
  }

  lemma EntryName(s: string)
    requires '\0' !in s && ReadEntry(s).Some?
    ensures NameOk(ReadEntry(s).value.name)
  {
  }

  /** Every accepted schema gives a sound layout. */
  lemma AcceptedIsSound(s: string)
    requires '\0' !in s && Parse(s).Some?
    ensures LayoutOk(Parse(s).value) && |Parse(s).value.cols| > 0
  {
    ReadAllOk(s, []);
    ReadAllGrows(s, [], 0);
  }

  lemma {:induction false} ReadAllGrows(s: string, cols: seq<Column>, end: nat)
    ensures ReadAll(s, cols, end).Some? ==> |ReadAll(s, cols, end).value.cols| >= |cols| + if s == [] then 0 else 1
    decreases |s|
  {
    hide ReadEntry, HasName, Start;
    if s != [] && |cols| < MAX_COLS {
      var e := ReadEntry(s);
      if e.Some? && !HasName(cols, e.value.name) {
        var c := Column(e.value.kind, e.value.size, Start(e.value.kind, end), e.value.name);
        ReadAllGrows(s[e.value.used..], cols + [c], c.off + c.size);
      }
    }
  }

  // ---- Rows ----

  type Byte = x: int | 0 <= x < 256

  function Stored(row: seq<Byte>, c: Column): seq<Byte>
    requires c.off + c.size <= |row|
  {
    row[c.off..c.off + c.size]
  }

  /** A row after a value's bytes were put at the start of a column. */
  function Put(row: seq<Byte>, c: Column, bytes: seq<Byte>): (r: seq<Byte>)
    requires c.off + c.size <= |row| && |bytes| <= c.size
    ensures |r| == |row|
  {
    row[..c.off] + bytes + row[c.off + |bytes|..]
  }

  /** A write to one column shows in that column and in no other. */
  lemma PutIsLocal(l: Layout, row: seq<Byte>, j: nat, k: nat, bytes: seq<Byte>)
    requires LayoutOk(l) && |row| == l.stride && j < |l.cols| && k < |l.cols|
    requires |bytes| <= l.cols[j].size
    ensures l.cols[j].off + l.cols[j].size <= |row| && l.cols[k].off + l.cols[k].size <= |row|
    ensures Stored(Put(row, l.cols[j], bytes), l.cols[j])[..|bytes|] == bytes
    ensures k != j ==> Stored(Put(row, l.cols[j], bytes), l.cols[k]) == Stored(row, l.cols[k])
  {
    hide LayoutOk;
    InRow(l, j);
    InRow(l, k);
    PutReads(row, l.cols[j], bytes);
    if k != j {
      ColumnsDisjoint(l, j, k);
      PutElsewhere(row, l.cols[j], l.cols[k], bytes);
    }
  }

  lemma PutReads(row: seq<Byte>, c: Column, bytes: seq<Byte>)
    requires c.off + c.size <= |row| && |bytes| <= c.size
    ensures Stored(Put(row, c, bytes), c)[..|bytes|] == bytes
  {
    var r := Put(row, c, bytes);
    assert r[c.off..c.off + |bytes|] == bytes;
    assert r[c.off..c.off + c.size][..|bytes|] == r[c.off..c.off + |bytes|];
  }

  lemma PutElsewhere(row: seq<Byte>, c: Column, d: Column, bytes: seq<Byte>)
    requires c.off + c.size <= |row| && d.off + d.size <= |row| && |bytes| <= c.size
    requires c.off + c.size <= d.off || d.off + d.size <= c.off
    ensures Stored(Put(row, c, bytes), d) == Stored(row, d)
  {
    var r := Put(row, c, bytes);
    forall i | d.off <= i < d.off + d.size ensures r[i] == row[i] {
      if i >= c.off + c.size {
        assert r[i] == row[c.off + |bytes|..][i - c.off - |bytes|];
      }
    }
  }

  lemma InRow(l: Layout, j: nat)
    requires LayoutOk(l) && j < |l.cols|
    ensures l.cols[j].off + l.cols[j].size <= l.stride
  {
    PackedInOrder(l.cols, j, |l.cols|);
  }

  // ---- Canonical text ----

  function KindText(kind: Kind, size: nat): string
    requires kind == TextColumn ==> size >= 1
  {
    match kind
    case IntColumn => "i:"
    case FloatColumn => "f:"
    case TextColumn => "s:" + DigitText(size - 1) + ":"
  }

  function Item(c: Column): string
    requires ColumnOk(c)
  {
    KindText(c.kind, c.size) + c.name + ";"
  }

  /** The plainest schema text for a list of columns. */
  function Render(cols: seq<Column>): string
    requires forall k :: 0 <= k < |cols| ==> ColumnOk(cols[k])
  {
    if cols == [] then [] else Item(cols[0]) + Render(cols[1..])
  }

  lemma ReadsNumber(n: nat, t: string)
    requires 1 <= n <= MAX_TEXT
    ensures Number(DigitText(n) + ":" + t) == Some((n, |DigitText(n)| + 1))
  {
    hide DigitText, DecVal;
    var d := DigitText(n);
    var s := d + ":" + t;
    assert s[0] == d[0] && IsDigit(s[0]);
    RunIs(s, IsBlank, 0);
    assert s[0..] == s;
    assert s[|d|] == ':';
    RunIs(s, IsDigit, |d|);
    assert s[0..0 + |d|] == d;
    DigitTextValue(n);
  }

  lemma ReadsHead(kind: Kind, size: nat, t: string)
    requires if kind == TextColumn then 2 <= size <= MAX_TEXT + 1 else size == 8
    ensures Head(KindText(kind, size) + t) == Some((kind, size, |KindText(kind, size)|))
  {
    hide DigitText, Number;
    var k := KindText(kind, size);
    var s := k + t;
    assert s[0] == k[0] && s[1] == k[1];
    if kind == TextColumn {
      ReadsNumber(size - 1, t);
      assert s[2..] == DigitText(size - 1) + ":" + t;
    }
  }

  lemma ReadsItem(c: Column, t: string)
    requires ColumnOk(c)
    ensures ReadEntry(Item(c) + t) == Some(Entry(c.kind, c.size, c.name, |Item(c)|))
  {
    hide KindText, Head;
    var k := KindText(c.kind, c.size);
    var rest := c.name + ";" + t;
    assert Item(c) + t == k + rest;
    ReadsHead(c.kind, c.size, rest);
    assert (k + rest)[|k|..] == rest;
    forall j | 0 <= j < |c.name| ensures InName(rest[j]) {
      assert rest[j] == c.name[j] && c.name[j] in c.name;
    }
    assert rest[|c.name|] == ';';
    RunIs(rest, InName, |c.name|);
    assert rest[..|c.name|] == c.name;
  }

  /** One entry read in front of the rest. */
  lemma ReadAllStep(s: string, cols: seq<Column>, end: nat, c: Column, used: nat)
    requires ReadEntry(s) == Some(Entry(c.kind, c.size, c.name, used)) && |cols| < MAX_COLS
    requires !HasName(cols, c.name) && c.off == Start(c.kind, end)
    ensures used <= |s| && ReadAll(s, cols, end) == ReadAll(s[used..], cols + [c], c.off + c.size)
  {
    hide ReadEntry, Start, HasName;
  }

  lemma ColumnAt(l: Layout, k: nat)
    requires LayoutOk(l) && k < |l.cols|
    ensures ColumnOk(l.cols[k]) && l.cols[k].off == Start(l.cols[k].kind, EndOf(l.cols, k))
    ensures !HasName(l.cols[..k], l.cols[k].name) && k < MAX_COLS
    ensures EndOf(l.cols, k + 1) == l.cols[k].off + l.cols[k].size
  {
    hide Start, ColumnOk;
  }

  lemma RenderStep(cols: seq<Column>, k: nat)
    requires k < |cols| && forall j :: 0 <= j < |cols| ==> ColumnOk(cols[j])
    ensures Render(cols[k..]) == Item(cols[k]) + Render(cols[k + 1..])
  {
    assert cols[k..][0] == cols[k] && cols[k..][1..] == cols[k + 1..];
  }

  lemma RenderedStep(l: Layout, k: nat, c: Column, front: seq<Column>, item: string, rest: string)
    requires LayoutOk(l) && k < |l.cols| && c == l.cols[k] && front == l.cols[..k] && ColumnOk(c) && item == Item(c)
    ensures ReadAll(item + rest, front, EndOf(l.cols, k)) == ReadAll(rest, l.cols[..k + 1], EndOf(l.cols, k + 1))
  {
    hide LayoutOk, ReadAll, ReadEntry, Item, Start, ColumnOk, HasName, EndOf;
    ColumnAt(l, k);
    ReadsItem(c, rest);
    ReadAllStep(item + rest, front, EndOf(l.cols, k), c, |item|);
    assert (item + rest)[|item|..] == rest;
    assert l.cols[..k + 1] == front + [c];
  }

  lemma {:induction false} ReadsRendered(l: Layout, k: nat)
    requires LayoutOk(l) && k <= |l.cols|
    ensures ReadAll(Render(l.cols[k..]), l.cols[..k], EndOf(l.cols, k)) == Some(l)
    decreases |l.cols| - k
  {
    hide Packed, DistinctNames, ReadEntry, Item, Start, ColumnOk, HasName;
    if k == |l.cols| {
      assert l.cols[k..] == [] && l.cols[..k] == l.cols;
    } else {
      hide ReadAll, EndOf, Render;
      ReadsRendered(l, k + 1);
      RenderStep(l.cols, k);
      RenderedStep(l, k, l.cols[k], l.cols[..k], Item(l.cols[k]), Render(l.cols[k + 1..]));
    }
  }

  lemma EntryUsed(s: string)
    ensures ReadEntry(s).Some? ==> s != []
  {
  }

  /** Writing an accepted layout out in plain form and reading it again gives the same layout. */
  lemma RenderedReparses(s: string)
    requires '\0' !in s && Parse(s).Some?
    ensures LayoutOk(Parse(s).value)
    ensures Parse(Render(Parse(s).value.cols)) == Parse(s)
  {
    hide ReadAll, Item, ReadEntry;
    AcceptedIsSound(s);
    var l := Parse(s).value;
    ReadsRendered(l, 0);
    assert l.cols[0..] == l.cols && l.cols[..0] == [];
    ReadsItem(l.cols[0], Render(l.cols[1..]));
    EntryUsed(Render(l.cols));
  }

  /** How an accepted entry is spelled: plain for numbers, with room for blanks, a sign and zeros for texts. */
  lemma EntrySpelling(s: string)
    requires ReadEntry(s).Some?
    ensures var e := ReadEntry(s).value;
            && s[..e.used] == s[..e.used - |e.name| - 1] + e.name + ";"
            && (e.kind == IntColumn ==> s[..e.used - |e.name| - 1] == "i:")
            && (e.kind == FloatColumn ==> s[..e.used - |e.name| - 1] == "f:")
            && (e.kind == TextColumn ==>
                  exists p, q :: 2 <= p < q < e.used && s[..2] == "s:" && s[q] == ':' && q + 2 + |e.name| == e.used
                    && TextLengthSpelled(s, p, q, e.size))
  {
    hide Number, DecVal;
    var e := ReadEntry(s).value;
    var h := Head(s).value.2;
    assert s[h..][..|e.name|] == e.name;
    if e.kind == TextColumn {
      var p := LengthSpelling(s, h, e.size);
      assert TextLengthSpelled(s, p, h - 1, e.size);
    }
  }

  /** The characters from 2 to p are blanks but perhaps for a last plus sign; digits follow up to q. */
  predicate TextLengthSpelled(s: string, p: nat, q: nat, size: nat) {
    && 2 <= p < q <= |s|
    && (forall k :: 2 <= k < p ==> s[k] == ' ' || (k == p - 1 && s[k] == '+'))
    && (forall k :: p <= k < q ==> IsDigit(s[k]))
    && DecVal(s[p..q]) + 1 == size
  }

  lemma LengthSpelling(s: string, h: nat, size: nat) returns (p: nat)
    requires |s| >= 2 && Number(s[2..]) == Some((size - 1, h - 2))
    ensures 2 <= p < h - 1 && s[h - 1] == ':' && TextLengthSpelled(s, p, h - 1, size)
  {
    hide Number, DecVal, SignEnd;
    var t := s[2..];
    NumberSpelling(t);
    p := 2 + SignEnd(t);
    BehindTwo(s, p, h - 1);
  }

  lemma BehindTwo(s: string, p: nat, q: nat)
    requires 2 <= p <= q <= |s|
    ensures s[2..][p - 2..q - 2] == s[p..q]
    ensures forall k :: 2 <= k < q ==> s[k] == s[2..][k - 2]
  {
  }

  lemma NumberSpelling(t: string)
    requires Number(t).Some?
    ensures var p, q := SignEnd(t), Number(t).value.1 - 1;
            && p < q < |t| && t[q] == ':' && DecVal(t[p..q]) == Number(t).value.0
            && (forall k :: 0 <= k < p ==> t[k] == ' ' || (k == p - 1 && t[k] == '+'))
            && (forall k :: p <= k < q ==> IsDigit(t[k]))
  {
    hide DecVal;
    var p, q := SignEnd(t), Number(t).value.1 - 1;
    forall k | p <= k < q ensures IsDigit(t[k]) {
      assert t[p..][k - p] == t[k];
    }
  }

  // ---- The parser ----

  lemma RunStep(s: string, i: nat, p: char -> bool)
    requires i <= |s|
    ensures Run(s[i..], p) == if i < |s| && p(s[i]) then 1 + Run(s[i + 1..], p) else 0
  {
    if i < |s| {
      assert s[i..][1..] == s[i + 1..];
    }
  }

  /** A longer string of digits stands for no smaller number. */
  lemma {:induction false} ValueGrows(d: string, k: nat)
    requires k <= |d| && forall j :: 0 <= j < |d| ==> IsDigit(d[j])
    ensures DecVal(d) >= DecVal(d[..k]) >= 0
    decreases |d|
  {
    if k < |d| {
      ValueGrows(d[..|d| - 1], k);
      assert d[..|d| - 1][..k] == d[..k];
    } else if k > 0 {
      ValueGrows(d[..|d| - 1], k - 1);
      assert d[..k] == d;
    }
  }

  /** The first k of a run of digits stand for no more than the whole run. */
  lemma PrefixBelow(s: string, start: nat, k: nat)
    requires start + k <= |s| && k <= Run(s[start..], IsDigit)
    ensures DecVal(s[start..start + Run(s[start..], IsDigit)]) >= DecVal(s[start..start + k]) >= 0
  {
    hide DecVal, Run;
    var len := Run(s[start..], IsDigit);
    assert s[start..start + len] == s[start..][..len];
    assert s[start..][..len][..k] == s[start..start + k];
    ValueGrows(s[start..][..len], k);
  }

  /** The number behind blanks and a sign that end at `start`. */
  lemma NumberHere(s: string, at: nat, start: nat)
    requires at <= start <= |s| && SignEnd(s[at..]) == start - at
    ensures var len := Run(s[start..], IsDigit);
            var v: nat := DecVal(s[start..start + len]);
            var used: nat := start + len + 1 - at;
            Number(s[at..]) == if len > 0 && start + len < |s| && s[start + len] == ':' && 1 <= v <= MAX_TEXT
                               then Some((v, used)) else None
  {
    hide Run, DecVal, SignEnd;
    var len := Run(s[start..], IsDigit);
    assert s[at..][start - at..] == s[start..];
    assert s[at..][start - at..start - at + len] == s[start..start + len];
  }

  /** The length of a text column; stops early once it is over the limit. */
  method ReadNumber(s: string, at: nat) returns (r: Option<(nat, nat)>)
    requires '\0' !in s && at <= |s|
    ensures r == Number(s[at..])
  {
    hide Run, DecVal;
    var i := at;
    RunStep(s, i, IsBlank);
    while CharAt(s, i) == ' '
      invariant at <= i <= |s| && Run(s[at..], IsBlank) == i - at + Run(s[i..], IsBlank)
      decreases |s| - i
    {
      RunStep(s, i, IsBlank);
      i := i + 1;
    }
    RunStep(s, i, IsBlank);
    if CharAt(s, i) == '+' {
      i := i + 1;
    }
    SignAt(s, at, i);
    r := ReadDigits(s, at, i);
  }

  lemma SignAt(s: string, at: nat, i: nat)
    requires at <= i <= |s|
    requires var sp := Run(s[at..], IsBlank); i - at == if CharAt(s, at + sp) == '+' then sp + 1 else sp
    ensures SignEnd(s[at..]) == i - at
  {
  }

  /** The digits of a length from `start` on, in a number that began at `at`. */
  method ReadDigits(s: string, at: nat, start: nat) returns (r: Option<(nat, nat)>)
    requires '\0' !in s && at <= start <= |s| && SignEnd(s[at..]) == start - at
    ensures r == Number(s[at..])
  {
    hide Run, DecVal, SignEnd, Number;
    ghost var len := Run(s[start..], IsDigit);
    NumberHere(s, at, start);
    var i := start;
    var n := 0;
    RunStep(s, i, IsDigit);
    if CharAt(s, i) < '0' || CharAt(s, i) > '9' {
      return None;
    }
    ValueNil(s[start..i]);
    while '0' <= CharAt(s, i) <= '9'
      invariant start <= i <= |s| && len == i - start + Run(s[i..], IsDigit)
      invariant n == DecVal(s[start..i]) && 0 <= n <= MAX_TEXT
      decreases |s| - i
    {
      var d := CharAt(s, i) as int - '0' as int;
      RunStep(s, i, IsDigit);
      ValueSnoc(s, start, i);
      n := n * 10 + d;
      if n > MAX_TEXT {
        PrefixBelow(s, start, i + 1 - start);
        return None;
      }
      i := i + 1;
    }
    RunStep(s, i, IsDigit);
    if n == 0 || CharAt(s, i) != ':' {
      return None;
    }
    r := Some((n, i + 1 - at));
  }

  lemma ValueNil(d: string)
    requires d == []
    ensures DecVal(d) == 0
  {
  }

  lemma ValueSnoc(s: string, start: nat, i: nat)
    requires start <= i < |s|
    ensures DecVal(s[start..i + 1]) == DecVal(s[start..i]) * 10 + DigitValue(s[i])
  {
    assert s[start..i + 1][..i - start] == s[start..i];
  }

  /** Kind and size of the entry at i, and where its name starts. */
  method ReadHead(s: string, at: nat) returns (r: Option<(Kind, nat, nat)>)
    requires '\0' !in s && at < |s|
    ensures r == Head(s[at..])
  {
    hide Number;
    var ch := s[at];
    var kind;
    if ch == 'i' {
      kind := IntColumn;
    } else if ch == 'f' {
      kind := FloatColumn;
    } else if ch == 's' {
      kind := TextColumn;
    } else {
      return None;
    }
    if CharAt(s, at + 1) != ':' {
      return None;
    }
    assert s[at..][2..] == s[at + 2..];
    if kind == TextColumn {
      var n := ReadNumber(s, at + 2);
      r := if n.Some? then Some((TextColumn, n.value.0 + 1, 2 + n.value.1)) else None;
    } else {
      r := Some((kind, 8, 2));
    }
  }

  /** The column of a kind and name, -1 when there is none. */
  method FindColumn(cols: seq<Column>, kind: Kind, name: string) returns (j: int)
    requires DistinctNames(cols)
    ensures -1 <= j < |cols|
    ensures forall k :: 0 <= k < |cols| ==> (j == k <==> cols[k].kind == kind && cols[k].name == name)
  {
    j := 0;
    while j < |cols|
      invariant 0 <= j <= |cols|
      invariant forall k :: 0 <= k < j ==> !(cols[k].kind == kind && cols[k].name == name)
    {
      if cols[j].kind == kind && cols[j].name == name {
        return;
      }
      j := j + 1;
    }
    j := -1;
  }

  method IsTaken(cols: seq<Column>, name: string) returns (taken: bool)
    ensures taken <==> HasName(cols, name)
  {
    var j := 0;
    while j < |cols|
      invariant 0 <= j <= |cols| && !HasName(cols[..j], name)
    {
      if cols[j].name == name {
        return true;
      }
      j := j + 1;
    }
    assert cols[..j] == cols;
    taken := false;
  }

  /** One entry at i: its kind, size and name, or nothing when it is malformed. */
  method ReadOne(s: string, at: nat) returns (r: Option<Entry>)
    requires '\0' !in s && at < |s|
    ensures r == ReadEntry(s[at..])
  {
    hide Head, Run;
    var h := ReadHead(s, at);
    if h.None? {
      return None;
    }
    var start := at + h.value.2;
    var i := start;
    assert s[at..][h.value.2..] == s[start..];
    while CharAt(s, i) != '\0' && CharAt(s, i) != ';'
      invariant start <= i <= |s| && Run(s[start..], InName) == i - start + Run(s[i..], InName)
      decreases |s| - i
    {
      RunStep(s, i, InName);
      i := i + 1;
    }
    RunStep(s, i, InName);
    assert i < |s| ==> s[i] != '\0';
    var nlen := i - start;
    if CharAt(s, i) != ';' || nlen == 0 || nlen >= NAME_LIMIT {
      return None;
    }
    assert s[start..][..nlen] == s[start..i];
    r := Some(Entry(h.value.0, h.value.1, s[start..i], i + 1 - at));
  }

  method ParseSchema(s: string) returns (r: Option<Layout>)
    requires '\0' !in s
    ensures r == Parse(s)
  {
    hide ReadEntry, HasName, Align8;
    if |s| == 0 {
      return None;
    }
    var cols: seq<Column> := [];
    var offset: nat := 0;
    var i: nat := 0;
    assert s[0..] == s;
    while i < |s|
      invariant i <= |s| && ReadAll(s[i..], cols, offset) == Parse(s)
    {
      if |cols| >= MAX_COLS {
        return None;
      }
      var e := ReadOne(s, i);
      if e.None? {
        return None;
      }
      var taken := IsTaken(cols, e.value.name);
      if taken {
        return None;
      }
      if e.value.kind == IntColumn || e.value.kind == FloatColumn {
        offset := Align8(offset);
      }
      assert s[i..][e.value.used..] == s[i + e.value.used..];
      cols := cols + [Column(e.value.kind, e.value.size, offset, e.value.name)];
      offset := offset + e.value.size;
      i := i + e.value.used;
    }
    assert s[i..] == [];
    r := Some(Layout(cols, offset));
  }
}
