/** The layout of a table's tuples: header, null bitmap, aligned fixed-width fields, then the heap of string bodies. */
module TupleLayout {
  import opened Wrappers
  import opened Bytes

  const HEADER_SIZE := 16
  const U16_END := 0x1_0000

  datatype DataType = Bool | I8 | I16 | I32 | I64 | U8 | U16 | U32 | U64 | F32 | F64 | Text

  /** Floats are opaque bit patterns; a string is its bytes. */
  datatype Value =
    | Null
    | BoolValue(b: bool)
    | IntValue(kind: DataType, n: int)
    | FloatValue(kind: DataType, bits: seq<Byte>)
    | TextValue(bytes: seq<Byte>)

  datatype Column = Column(name: string, kind: DataType, position: nat)

  function Size(t: DataType): nat {
    match t
    case Bool | I8 | U8 => 1
    case I16 | U16 => 2
    case I32 | U32 | F32 | Text => 4
    case I64 | U64 | F64 => 8
  }

  function Align(t: DataType): (a: nat)
    ensures a > 0
  {
    Size(t)
  }

  // ---------------------------------------------------------------- where fields go

  function Padded(at: nat, t: DataType): (r: nat)
    ensures at <= r < at + Align(t) && r % Align(t) == 0
  {
    PaddingOk(at, Align(t));
    at + (Align(t) - at % Align(t)) % Align(t)
  }

  lemma PaddingOk(at: nat, a: nat)
    requires a == 1 || a == 2 || a == 4 || a == 8
    ensures (at + (a - at % a) % a) % a == 0
  {
    if a == 2 { PaddingTo2(at); } else if a == 4 { PaddingTo4(at); } else if a == 8 { PaddingTo8(at); }
  }

  lemma PaddingTo2(at: nat)
    ensures (at + (2 - at % 2) % 2) % 2 == 0
  {
  }

  lemma PaddingTo4(at: nat)
    ensures (at + (4 - at % 4) % 4) % 4 == 0
  {
  }

  lemma PaddingTo8(at: nat)
    ensures (at + (8 - at % 8) % 8) % 8 == 0
  {
  }

  lemma PaddedUp(at: nat, t: DataType)
    ensures at <= Padded(at, t)
  {
  }

  /** Where fields start in a table of `n` columns: behind the header and one null bit per column. */
  function Start(n: nat): nat {
    HEADER_SIZE + (n + 7) / 8
  }

  /** The end of the fields laid out so far. */
  function End(n: nat, cols: seq<Column>): nat {
    if cols == [] then Start(n)
    else
      var last := cols[|cols| - 1].kind;
      Padded(End(n, cols[..|cols| - 1]), last) + Size(last)
  }

  function OffsetOf(n: nat, cols: seq<Column>, i: nat): nat
    requires i < |cols|
  {
    Padded(End(n, cols[..i]), cols[i].kind)
  }

  lemma {:induction false} EndStep(n: nat, cols: seq<Column>, i: nat)
    requires i < |cols|
    ensures End(n, cols[..i + 1]) == OffsetOf(n, cols, i) + Size(cols[i].kind)
  {
    assert cols[..i + 1][..i] == cols[..i];
  }

  lemma {:induction false} EndGrows(n: nat, cols: seq<Column>, i: nat, j: nat)
    requires i <= j <= |cols|
    ensures Start(n) <= End(n, cols[..i]) <= End(n, cols[..j])
    decreases j
  {
    hide Padded, Size;
    if j > 0 {
      EndGrows(n, cols, if i == j then i - 1 else i, j - 1);
      EndStep(n, cols, j - 1);
      PaddedUp(End(n, cols[..j - 1]), cols[j - 1].kind);
    }
  }

  lemma FieldsInOrder(cols: seq<Column>, i: nat, j: nat)
    requires i < j < |cols|
    ensures OffsetOf(|cols|, cols, i) + Size(cols[i].kind) <= OffsetOf(|cols|, cols, j)
  {
    hide End, Size;
    EndStep(|cols|, cols, i);
    EndGrows(|cols|, cols, i + 1, j);
  }

  lemma {:induction false} FieldInside(cols: seq<Column>, i: nat)
    requires i < |cols|
    ensures Start(|cols|) <= OffsetOf(|cols|, cols, i) &&
      OffsetOf(|cols|, cols, i) + Size(cols[i].kind) <= End(|cols|, cols)
  {
    hide End, Size, Start;
    EndStep(|cols|, cols, i);
    EndGrows(|cols|, cols, 0, i);
    EndGrows(|cols|, cols, i + 1, |cols|);
    assert cols[..|cols|] == cols;
  }

  /** Fields are aligned, clear of header and bitmap, within the fixed part and pairwise disjoint. */
  lemma FieldsApart(cols: seq<Column>, i: nat, j: nat)
    requires i < |cols| && j < |cols|
    ensures var n := |cols|;
      && OffsetOf(n, cols, i) % Align(cols[i].kind) == 0
      && HEADER_SIZE + (n + 7) / 8 <= OffsetOf(n, cols, i) && OffsetOf(n, cols, i) + Size(cols[i].kind) <= End(n, cols)
      && (i != j ==>
        OffsetOf(n, cols, i) + Size(cols[i].kind) <= OffsetOf(n, cols, j) ||
        OffsetOf(n, cols, j) + Size(cols[j].kind) <= OffsetOf(n, cols, i))
  {
    hide End, Size, Padded;
    FieldInside(cols, i);
    if i < j { FieldsInOrder(cols, i, j); }
    if j < i { FieldsInOrder(cols, j, i); }
    assert OffsetOf(|cols|, cols, i) == Padded(End(|cols|, cols[..i]), cols[i].kind);
  }

  /** A field stands at the first multiple of its width behind the field before it. */
  lemma FieldsTight(cols: seq<Column>, i: nat, p: nat)
    requires i < |cols|
    ensures var n := |cols|;
      var before := if i == 0 then 16 + (n + 7) / 8 else OffsetOf(n, cols, i - 1) + Size(cols[i - 1].kind);
      && before <= OffsetOf(n, cols, i)
      && (before <= p < OffsetOf(n, cols, i) ==> p % Size(cols[i].kind) != 0)
  {
    hide Size, End;
    if i > 0 { EndStep(|cols|, cols, i - 1); } else { NoFields(|cols|, cols); }
    var end, kind := End(|cols|, cols[..i]), cols[i].kind;
    if end <= p < Padded(end, kind) && p % Size(kind) == 0 { MultiplesApart(p, Padded(end, kind), Size(kind)); }
  }

  lemma NoFields(n: nat, cols: seq<Column>)
    ensures End(n, cols[..0]) == 16 + (n + 7) / 8
  {
  }

  lemma MultiplesApart(p: nat, q: nat, a: nat)
    requires a > 0 && p % a == 0 && q % a == 0 && p < q
    ensures p + a <= q
  {
    var x, y := p / a, q / a;
    assert p == a * x && q == a * y;
    assert x < y;
    assert a * (x + 1) <= a * y;
  }

  /** The widths of the types, by the numbers a field of the type can hold. */
  lemma Ranges(n: int)
    ensures Fits(IntValue(U8, n), U8) <==> 0 <= n < 256
    ensures Fits(IntValue(U16, n), U16) <==> 0 <= n < 65536
    ensures Fits(IntValue(U32, n), U32) <==> 0 <= n < 0x1_0000_0000
    ensures Fits(IntValue(U64, n), U64) <==> 0 <= n < 0x1_0000_0000_0000_0000
    ensures Fits(IntValue(I8, n), I8) <==> -128 <= n < 128
    ensures Fits(IntValue(I16, n), I16) <==> -32768 <= n < 32768
    ensures Fits(IntValue(I32, n), I32) <==> -0x8000_0000 <= n < 0x8000_0000
    ensures Fits(IntValue(I64, n), I64) <==> -0x8000_0000_0000_0000 <= n < 0x8000_0000_0000_0000
    ensures Size(Bool) == 1 && Size(F32) == 4 && Size(F64) == 8 && Size(Text) == 4
  {
    hide Pow256;
    Widths();
  }

  // ---------------------------------------------------------------- the layout

  datatype Layout = Layout(count: nat, bitmapAt: nat, offsets: map<string, nat>, types: map<string, DataType>,
    fixedLen: nat)

  function InsertByPosition(cols: seq<Column>, c: Column): seq<Column> {
    if cols == [] || cols[|cols| - 1].position <= c.position then cols + [c]
    else InsertByPosition(cols[..|cols| - 1], c) + [cols[|cols| - 1]]
  }

  /** The stable sort by position. */
  function ByPosition(cols: seq<Column>): seq<Column> {
    if cols == [] then [] else InsertByPosition(ByPosition(cols[..|cols| - 1]), cols[|cols| - 1])
  }

  ghost predicate Ascending(cols: seq<Column>) {
    forall i, j :: 0 <= i < j < |cols| ==> cols[i].position <= cols[j].position
  }

  ghost predicate UpTo(cols: seq<Column>, p: nat) {
    forall i :: 0 <= i < |cols| ==> cols[i].position <= p
  }

  lemma AscendingSnoc(cols: seq<Column>, c: Column)
    requires Ascending(cols) && UpTo(cols, c.position)
    ensures Ascending(cols + [c])
  {
  }

  lemma {:induction false} InsertByPositionOk(cols: seq<Column>, c: Column, p: nat)
    requires Ascending(cols) && UpTo(cols, p) && c.position <= p
    ensures Ascending(InsertByPosition(cols, c)) && UpTo(InsertByPosition(cols, c), p)
  {
    if cols == [] || cols[|cols| - 1].position <= c.position {
      AscendingSnoc(cols, c);
    } else {
      var front, last := cols[..|cols| - 1], cols[|cols| - 1];
      InsertByPositionOk(front, c, last.position);
      AscendingSnoc(InsertByPosition(front, c), last);
    }
  }

  lemma {:induction false} InsertByPositionKeeps(cols: seq<Column>, c: Column)
    ensures multiset(InsertByPosition(cols, c)) == multiset(cols) + multiset{c}
  {
    if cols != [] && cols[|cols| - 1].position > c.position {
      var front, last := cols[..|cols| - 1], cols[|cols| - 1];
      InsertByPositionKeeps(front, c);
      assert cols == front + [last];
    }
  }

  function Highest(cols: seq<Column>, c: Column): (p: nat)
    ensures c.position <= p
    ensures forall i :: 0 <= i < |cols| ==> cols[i].position <= p
  {
    if cols == [] then c.position
    else
      var p := Highest(cols[1..], c);
      if cols[0].position > p then cols[0].position else p
  }

  /** Sorting orders the columns by position and neither drops nor adds one. */
  lemma {:induction false} ByPositionOk(cols: seq<Column>)
    ensures Ascending(ByPosition(cols)) && multiset(ByPosition(cols)) == multiset(cols)
  {
    if cols != [] {
      var front, last := ByPosition(cols[..|cols| - 1]), cols[|cols| - 1];
      ByPositionOk(cols[..|cols| - 1]);
      InsertByPositionOk(front, last, Highest(front, last));
      InsertByPositionKeeps(front, last);
      assert cols == cols[..|cols| - 1] + [cols[|cols| - 1]];
    }
  }

  ghost predicate Distinct(cols: seq<Column>) {
    forall i, j {:trigger cols[i], cols[j]} :: 0 <= i < j < |cols| ==> cols[i].name != cols[j].name
  }

  function Names(cols: seq<Column>): (names: set<string>)
    ensures forall i {:trigger cols[i]} :: 0 <= i < |cols| ==> cols[i].name in names
  {
    set i | 0 <= i < |cols| :: cols[i].name
  }

  ghost predicate FieldAt(offsets: map<string, nat>, types: map<string, DataType>, n: nat, cols: seq<Column>, i: nat)
    requires i < |cols|
  {
    && cols[i].name in types && types[cols[i].name] == cols[i].kind
    && cols[i].name in offsets && offsets[cols[i].name] == OffsetOf(n, cols, i)
  }

  /** The maps place the first `k` of these columns. */
  ghost predicate Places(offsets: map<string, nat>, types: map<string, DataType>, n: nat, cols: seq<Column>, k: nat)
    requires k <= |cols|
  {
    && offsets.Keys == types.Keys == Names(cols[..k])
    && forall i {:trigger FieldAt(offsets, types, n, cols, i)} :: 0 <= i < k ==> FieldAt(offsets, types, n, cols, i)
  }

  lemma NamesStep(cols: seq<Column>, k: nat)
    requires k < |cols|
    ensures Names(cols[..k + 1]) == Names(cols[..k]) + {cols[k].name}
  {
    forall name | name in Names(cols[..k + 1])
      ensures name in Names(cols[..k]) + {cols[k].name}
    {
      var i :| 0 <= i < k + 1 && cols[..k + 1][i].name == name;
      if i < k { assert cols[..k][i].name == name; }
    }
    forall name | name in Names(cols[..k])
      ensures name in Names(cols[..k + 1])
    {
      var i :| 0 <= i < k && cols[..k][i].name == name;
      assert cols[..k + 1][i].name == name;
    }
    assert cols[..k + 1][k].name == cols[k].name;
  }

  lemma {:induction false} PlaceStep(offsets: map<string, nat>, types: map<string, DataType>, n: nat, cols: seq<Column>,
                                     k: nat)
    requires k < |cols| && Distinct(cols) && Places(offsets, types, n, cols, k)
    ensures Places(offsets[cols[k].name := OffsetOf(n, cols, k)], types[cols[k].name := cols[k].kind], n, cols, k + 1)
  {
    hide OffsetOf;
    var os, ts := offsets[cols[k].name := OffsetOf(n, cols, k)], types[cols[k].name := cols[k].kind];
    NamesStep(cols, k);
    forall i {:trigger FieldAt(os, ts, n, cols, i)} | 0 <= i < k + 1
      ensures FieldAt(os, ts, n, cols, i)
    {
      if i < k { assert FieldAt(offsets, types, n, cols, i) && cols[i].name != cols[k].name; }
    }
  }

  /** The layout places exactly these columns, in this order. */
  ghost predicate Describes(layout: Layout, cols: seq<Column>) {
    && layout.count == |cols| && layout.bitmapAt == HEADER_SIZE && layout.fixedLen == End(|cols|, cols)
    && Places(layout.offsets, layout.types, |cols|, cols, |cols|)
  }

  method From(columns: seq<Column>) returns (layout: Layout)
    requires Distinct(ByPosition(columns)) && End(|columns|, ByPosition(columns)) < U16_END
    ensures Describes(layout, ByPosition(columns))
  {
    hide Ascending, ByPosition, Size, Places, Distinct;
    ByPositionOk(columns);
    var sorted := ByPosition(columns);
    ghost var cols := sorted;
    var count := |sorted|;
    var current := HEADER_SIZE + (count + 7) / 8;
    var offsets: map<string, nat>, types: map<string, DataType> := map[], map[];
    NothingPlaced(count, cols);
    for i := 0 to count
      invariant current == End(count, cols[..i])
      invariant Places(offsets, types, count, cols, i)
    {
      EndStep(count, cols, i);
      PlaceStep(offsets, types, count, cols, i);
      var kind := sorted[i].kind;
      current := Padded(current, kind);
      offsets := offsets[sorted[i].name := current];
      types := types[sorted[i].name := kind];
      current := current + Size(kind);
    }
    assert cols[..count] == cols;
    layout := Layout(count, HEADER_SIZE, offsets, types, current);
  }

  lemma NothingPlaced(n: nat, cols: seq<Column>)
    ensures Places(map[], map[], n, cols, 0)
  {
  }

  // ---------------------------------------------------------------- null bits

  function Bit(b: nat, k: nat): bool {
    if k == 0 then b % 2 == 1 else Bit(b / 2, k - 1)
  }

  function WithBit(b: nat, k: nat, on: bool): nat {
    if k == 0 then b / 2 * 2 + (if on then 1 else 0) else b % 2 + 2 * WithBit(b / 2, k - 1, on)
  }

  lemma {:induction false} WithBitOk(b: nat, k: nat, on: bool, j: nat)
    ensures Bit(WithBit(b, k, on), j) == if j == k then on else Bit(b, j)
  {
    var r := WithBit(b, k, on);
    if k == 0 {
      assert r / 2 == b / 2 && r % 2 == if on then 1 else 0;
    } else {
      assert r / 2 == WithBit(b / 2, k - 1, on) && r % 2 == b % 2;
      if j > 0 { WithBitOk(b / 2, k - 1, on, j - 1); }
    }
  }

  /** Setting a bit to what it is changes nothing; setting it to the other value does. */
  lemma {:induction false} WithBitSame(b: nat, k: nat, on: bool)
    ensures WithBit(b, k, on) == b <==> Bit(b, k) == on
  {
    if k > 0 { WithBitSame(b / 2, k - 1, on); }
  }

  function Pow2(n: nat): nat {
    if n == 0 then 1 else 2 * Pow2(n - 1)
  }

  lemma {:induction false} WithBitFits(b: nat, k: nat, on: bool, n: nat)
    requires b < Pow2(n) && k < n
    ensures WithBit(b, k, on) < Pow2(n)
  {
    assert Pow2(n) == 2 * Pow2(n - 1) && b / 2 < Pow2(n - 1);
    if k > 0 {
      WithBitFits(b / 2, k - 1, on, n - 1);
      assert WithBit(b, k, on) == b % 2 + 2 * WithBit(b / 2, k - 1, on);
    } else {
      assert WithBit(b, k, on) == b / 2 * 2 + (if on then 1 else 0);
    }
  }

  function SetBit(b: Byte, k: nat, on: bool): Byte
    requires k < 8
  {
    assert Pow2(8) == 256 by { assert Pow2(4) == 16; }
    WithBitFits(b, k, on, 8);
    WithBit(b, k, on)
  }

  // ---------------------------------------------------------------- values as bytes

  predicate Signed(t: DataType) {
    t.I8? || t.I16? || t.I32? || t.I64?
  }

  predicate Integer(t: DataType) {
    Signed(t) || t.U8? || t.U16? || t.U32? || t.U64?
  }

  /** A value a column of this type can hold in place. */
  predicate Fits(v: Value, t: DataType) {
    match v
    case Null => true
    case BoolValue(_) => t == Bool
    case IntValue(kind, n) =>
      kind == t && Integer(t) && if Signed(t) then -(Pow256(Size(t)) as int) <= 2 * n < Pow256(Size(t))
        else 0 <= n < Pow256(Size(t))
    case FloatValue(kind, bits) => kind == t && (t == F32 || t == F64) && |bits| == Size(t)
    case TextValue(_) => false
  }

  function Encode(v: Value, t: DataType): (bytes: seq<Byte>)
    requires Fits(v, t) && !v.Null?
    ensures |bytes| == Size(t)
  {
    match v
    case BoolValue(b) => [if b then 1 else 0]
    case IntValue(kind, n) => ToLE(Size(t), if n < 0 then n + Pow256(Size(t)) else n)
    case FloatValue(kind, bits) => bits
  }

  function Decode(t: DataType, bytes: seq<Byte>): Value
    requires t != Text && |bytes| == Size(t)
  {
    if t == Bool then BoolValue(bytes[0] != 0)
    else if t == F32 || t == F64 then FloatValue(t, bytes)
    else
      var x := FromLE(bytes);
      IntValue(t, if Signed(t) && 2 * x >= Pow256(Size(t)) then x - Pow256(Size(t)) else x)
  }

  /** Every value of a type, negative ones included, comes back from its bytes. */
  lemma CodecRoundTrip(v: Value, t: DataType)
    requires Fits(v, t) && !v.Null?
    ensures t != Text && Decode(t, Encode(v, t)) == v
  {
    hide Pow256, ToLE, FromLE;
    if v.IntValue? {
      LERoundTrip(Size(t), if v.n < 0 then v.n + Pow256(Size(t)) else v.n);
    }
  }

  // ---------------------------------------------------------------- reading and writing fields

  function IsNull(layout: Layout, index: nat, t: seq<Byte>): bool {
    var at := layout.bitmapAt + index / 8;
    at < |t| && Bit(t[at], index % 8)
  }

  function ReadText(t: seq<Byte>, o: nat): Option<Value> {
    if o + 4 > |t| then None
    else
      var length, off := Num16(t, o), Num16(t, o + 2);
      if off + length <= |t| then Some(TextValue(t[off..off + length])) else Some(TextValue([]))
  }

  function ReadField(layout: Layout, name: string, index: nat, t: seq<Byte>): Option<Value> {
    if name !in layout.offsets || name !in layout.types then None
    else
      var o, kind := layout.offsets[name], layout.types[name];
      if IsNull(layout, index, t) then Some(Null)
      else if kind == Text then ReadText(t, o)
      else if o + Size(kind) <= |t| then Some(Decode(kind, t[o..o + Size(kind)]))
      else None
  }

  function Marked(layout: Layout, index: nat, t: seq<Byte>, on: bool): (r: seq<Byte>)
    ensures |r| == |t|
  {
    var at := layout.bitmapAt + index / 8;
    if at < |t| then t[at := SetBit(t[at], index % 8, on)] else t
  }

  /** The type a value carries itself. */
  function KindOf(v: Value): DataType {
    match v
    case Null => Bool
    case BoolValue(_) => Bool
    case IntValue(kind, _) => kind
    case FloatValue(kind, _) => kind
    case TextValue(_) => Text
  }

  /** A value of the range of its own type. */
  predicate Proper(v: Value) {
    v.TextValue? || Fits(v, KindOf(v))
  }

  /** The tuple after writing a value into a field; its own type, not the field's, decides how many bytes go there. */
  function Written(layout: Layout, name: string, index: nat, t: seq<Byte>, v: Value): (r: seq<Byte>)
    requires name in layout.offsets && Proper(v)
    ensures |r| == |t|
  {
    var o, marked := layout.offsets[name], Marked(layout, index, t, v.Null?);
    if v.Null? || v.TextValue? || o + Size(KindOf(v)) > |t| then marked
    else Splice(marked, o, Encode(v, KindOf(v)))
  }

  /** Writing a field. A string is refused, though its null bit has been cleared by then. */
  method WriteField(layout: Layout, name: string, index: nat, tuple: array<Byte>, v: Value) returns (ok: bool)
    requires Proper(v)
    modifies tuple
    ensures ok == (name in layout.offsets && !v.TextValue?)
    ensures tuple[..] == if name in layout.offsets then Written(layout, name, index, old(tuple[..]), v)
      else old(tuple[..])
  {
    if name !in layout.offsets { return false; }
    var o, at := layout.offsets[name], layout.bitmapAt + index / 8;
    if v.Null? {
      if at < tuple.Length { tuple[at] := SetBit(tuple[at], index % 8, true); }
      return true;
    }
    if at < tuple.Length { tuple[at] := SetBit(tuple[at], index % 8, false); }
    ghost var marked := tuple[..];
    assert marked == Marked(layout, index, old(tuple[..]), false);
    if v.TextValue? { return false; }
    var bytes := Encode(v, KindOf(v));
    if o + |bytes| <= tuple.Length {
      Write(tuple, o, bytes);
      SplicedIs(marked, tuple[..], o, bytes);
    }
    return true;
  }

  lemma SplicedIs(b: seq<Byte>, r: seq<Byte>, at: nat, bytes: seq<Byte>)
    requires at + |bytes| <= |b| && SameOutside(b, r, at, at + |bytes|) && r[at..at + |bytes|] == bytes
    ensures r == Splice(b, at, bytes)
  {
    forall k | 0 <= k < |b|
      ensures r[k] == Splice(b, at, bytes)[k]
    {
      if at <= k < at + |bytes| { assert r[k] == r[at..at + |bytes|][k - at]; }
    }
  }

  /** Marking one null bit changes no other null bit and no field. */
  lemma {:induction false} MarkedKeeps(layout: Layout, cols: seq<Column>, t: seq<Byte>, i: nat, on: bool, j: nat)
    requires Describes(layout, cols) && i < |cols| && j < |cols| && layout.fixedLen <= |t|
    ensures IsNull(layout, j, Marked(layout, i, t, on)) == if j == i then on else IsNull(layout, j, t)
    ensures forall lo, hi :: Start(|cols|) <= lo <= hi <= |t| ==> Marked(layout, i, t, on)[lo..hi] == t[lo..hi]
  {
    hide Bit, WithBit, Places;
    var at := layout.bitmapAt + i / 8;
    FieldsEnd(cols);
    WithBitOk(t[at], i % 8, on, j % 8);
    assert at < Start(|cols|);
  }

  lemma {:induction false} FieldsEnd(cols: seq<Column>)
    ensures Start(|cols|) <= End(|cols|, cols)
  {
    EndGrows(|cols|, cols, 0, |cols|);
    assert cols[..|cols|] == cols;
  }

  /** A value written to a field is what the field reads. */
  lemma {:induction false} WriteThenRead(layout: Layout, cols: seq<Column>, t: seq<Byte>, i: nat, v: Value)
    requires Describes(layout, cols) && i < |cols| && layout.fixedLen <= |t| && Fits(v, cols[i].kind)
    requires cols[i].name in layout.offsets && cols[i].name in layout.types &&
      layout.types[cols[i].name] == cols[i].kind
    ensures ReadField(layout, cols[i].name, i, Written(layout, cols[i].name, i, t, v)) == Some(v)
  {
    hide Bit, Places, Decode, Encode, Fits, End, Padded, Size;
    var o, kind, marked := OffsetOf(|cols|, cols, i), cols[i].kind, Marked(layout, i, t, v.Null?);
    PlacedAt(layout, cols, i);
    FieldInside(cols, i);
    MarkedKeeps(layout, cols, t, i, v.Null?, i);
    if !v.Null? {
      CodecRoundTrip(v, kind);
      NotText(v, kind);
      var bytes := Encode(v, kind);
      SpliceReads(marked, o, bytes, o, o);
      NullKept(layout, cols, marked, i, o, bytes);
    }
  }

  lemma NotText(v: Value, t: DataType)
    requires Fits(v, t) && !v.Null?
    ensures !v.TextValue? && t != Text && KindOf(v) == t
  {
  }

  lemma PlacedAt(layout: Layout, cols: seq<Column>, i: nat)
    requires Describes(layout, cols) && i < |cols|
    ensures cols[i].name in layout.offsets && cols[i].name in layout.types
    ensures layout.types[cols[i].name] == cols[i].kind && layout.offsets[cols[i].name] == OffsetOf(|cols|, cols, i)
  {
    assert FieldAt(layout.offsets, layout.types, |cols|, cols, i);
  }

  /** Writing field bytes touches no null bit. */
  lemma NullKept(layout: Layout, cols: seq<Column>, t: seq<Byte>, j: nat, o: nat, bytes: seq<Byte>)
    requires Describes(layout, cols) && j < |cols| && Start(|cols|) <= o && o + |bytes| <= |t|
    ensures IsNull(layout, j, Splice(t, o, bytes)) == IsNull(layout, j, t)
  {
    hide Bit;
    assert layout.bitmapAt + j / 8 < Start(|cols|);
  }

  /** The string body a pointer leads to lies beyond the fixed part. */
  predicate BodyBeyond(layout: Layout, t: seq<Byte>, o: nat) {
    o + 4 <= |t| && Num16(t, o + 2) >= layout.fixedLen
  }

  /** How many bytes a write of this value puts down. */
  function Width(v: Value): nat {
    if v.Null? || v.TextValue? then 0 else Size(KindOf(v))
  }

  /** Where a write into field `i` ends. */
  function Reach(cols: seq<Column>, i: nat, v: Value): nat
    requires i < |cols|
  {
    OffsetOf(|cols|, cols, i) + Width(v)
  }

  /** A write into field `i` ends before field `j`, or field `j` before it; and it stays within the fixed part if `j` is
      a string, whose body lies beyond. */
  predicate Spares(cols: seq<Column>, i: nat, v: Value, j: nat)
    requires i < |cols| && j < |cols|
  {
    && (Reach(cols, i, v) <= OffsetOf(|cols|, cols, j) ||
      OffsetOf(|cols|, cols, j) + Size(cols[j].kind) <= OffsetOf(|cols|, cols, i))
    && (cols[j].kind == Text ==> Reach(cols, i, v) <= End(|cols|, cols))
  }

  /** A value no wider than its column spares every other one; so does a wider one that ends in padding. */
  lemma NarrowSpares(cols: seq<Column>, i: nat, v: Value, j: nat)
    requires i < |cols| && j < |cols| && i != j && Width(v) <= Size(cols[i].kind)
    ensures Spares(cols, i, v, j)
  {
    FieldsApart(cols, i, j);
  }

  /** Field `j` of a tuple reads as before once `v` is written into field `i`. */
  ghost predicate Keeps(layout: Layout, cols: seq<Column>, t: seq<Byte>, i: nat, v: Value, j: nat)
    requires i < |cols| && j < |cols| && Proper(v) && cols[i].name in layout.offsets
  {
    ReadField(layout, cols[j].name, j, Written(layout, cols[i].name, i, t, v)) == ReadField(layout, cols[j].name, j, t)
  }

  /** A field the write spares reads as before, provided string bodies lie beyond the fixed part. */
  lemma {:induction false} OthersKept(layout: Layout, cols: seq<Column>, t: seq<Byte>, i: nat, v: Value, j: nat)
    requires Describes(layout, cols) && i < |cols| && j < |cols| && i != j && layout.fixedLen <= |t|
    requires cols[i].name in layout.offsets && Proper(v) && Spares(cols, i, v, j)
    requires cols[j].kind == Text ==> BodyBeyond(layout, t, OffsetOf(|cols|, cols, j))
    ensures Keeps(layout, cols, t, i, v, j)
  {
    hide Bit, Places, Decode, Encode, Fits, End, Padded;
    var n, o, p := |cols|, OffsetOf(|cols|, cols, i), OffsetOf(|cols|, cols, j);
    var marked, r := Marked(layout, i, t, v.Null?), Written(layout, cols[i].name, i, t, v);
    PlacedAt(layout, cols, i);
    PlacedAt(layout, cols, j);
    FieldsApart(cols, i, j);
    FieldsApart(cols, j, i);
    MarkedKeeps(layout, cols, t, i, v.Null?, j);
    FieldBytesKept(layout, cols, t, i, v, p, p + Size(cols[j].kind));
    if r != marked { NullKept(layout, cols, marked, j, o, Encode(v, KindOf(v))); }
    if cols[j].kind == Text {
      TextKept(layout, cols, t, i, v, p);
    }
  }

  /** Bytes behind the bitmap and clear of the written stretch stay. */
  lemma {:induction false} FieldBytesKept(layout: Layout, cols: seq<Column>, t: seq<Byte>, i: nat, v: Value, lo: nat,
                                          hi: nat)
    requires Describes(layout, cols) && i < |cols| && layout.fixedLen <= |t| && Start(|cols|) <= lo <= hi <= |t|
    requires cols[i].name in layout.offsets && Proper(v)
    requires hi <= OffsetOf(|cols|, cols, i) || Reach(cols, i, v) <= lo
    ensures Written(layout, cols[i].name, i, t, v)[lo..hi] == t[lo..hi]
  {
    hide Bit, Places, Encode, Fits, End, Padded, Size;
    var marked, r := Marked(layout, i, t, v.Null?), Written(layout, cols[i].name, i, t, v);
    PlacedAt(layout, cols, i);
    FieldInside(cols, i);
    MarkedKeeps(layout, cols, t, i, v.Null?, i);
    if !v.Null? && !v.TextValue? {
      if r != marked { SpliceReads(marked, OffsetOf(|cols|, cols, i), Encode(v, KindOf(v)), lo, hi); }
    }
  }

  lemma {:induction false} TextKept(layout: Layout, cols: seq<Column>, t: seq<Byte>, i: nat, v: Value, p: nat)
    requires Describes(layout, cols) && i < |cols| && layout.fixedLen <= |t| && BodyBeyond(layout, t, p)
    requires cols[i].name in layout.offsets && Proper(v) && Reach(cols, i, v) <= layout.fixedLen
    requires Start(|cols|) <= p && (p + 4 <= OffsetOf(|cols|, cols, i) || Reach(cols, i, v) <= p)
    ensures ReadText(Written(layout, cols[i].name, i, t, v), p) == ReadText(t, p)
  {
    hide Bit, Places, Encode, Fits, End, Padded, Size, Written, Reach, Num16;
    var r := Written(layout, cols[i].name, i, t, v);
    FieldBytesKept(layout, cols, t, i, v, p, p + 4);
    SamePointer(t, r, p);
    var length, off := Num16(t, p), Num16(t, p + 2);
    FieldsEnd(cols);
    if off + length <= |t| {
      FieldBytesKept(layout, cols, t, i, v, off, off + length);
    }
  }

  lemma SamePointer(t: seq<Byte>, r: seq<Byte>, p: nat)
    requires p + 4 <= |t| && p + 4 <= |r| && r[p..p + 4] == t[p..p + 4]
    ensures Num16(r, p) == Num16(t, p) && Num16(r, p + 2) == Num16(t, p + 2)
  {
    Piece(t, p, r, p, 4, 0, 2);
    Piece(t, p, r, p, 4, 2, 4);
    NumsAreLE(t, p);
    NumsAreLE(r, p);
    NumsAreLE(t, p + 2);
    NumsAreLE(r, p + 2);
  }

  // ---------------------------------------------------------------- readings in numbers

  lemma ReadsAt(layout: Layout, cols: seq<Column>, t: seq<Byte>, j: nat)
    requires Describes(layout, cols) && j < |cols| && layout.fixedLen <= |t| && !IsNull(layout, j, t)
    ensures OffsetOf(|cols|, cols, j) + Size(cols[j].kind) <= |t|
    ensures var p, kind := OffsetOf(|cols|, cols, j), cols[j].kind;
      ReadField(layout, cols[j].name, j, t) == if kind == Text then ReadText(t, p)
        else Some(Decode(kind, t[p..p + Size(kind)]))
  {
    hide End, Padded, Size, Decode, Places;
    PlacedAt(layout, cols, j);
    FieldInside(cols, j);
  }

  function BitValue(k: nat): (v: nat)
    requires k < 8
    ensures v > 0
  {
    match k
    case 0 => 1
    case 1 => 2
    case 2 => 4
    case 3 => 8
    case 4 => 16
    case 5 => 32
    case 6 => 64
    case _ => 128
  }

  lemma {:induction false} BitIs(b: nat, k: nat)
    requires k < 8
    ensures Bit(b, k) <==> b / BitValue(k) % 2 == 1
  {
    if k > 0 {
      BitIs(b / 2, k - 1);
      HalfOf(b, k);
    }
  }

  lemma HalfOf(b: nat, k: nat)
    requires 0 < k < 8
    ensures b / 2 / BitValue(k - 1) == b / BitValue(k)
  {
    match k
    case 1 => assert b / 2 / 1 == b / 2;
    case 2 => assert b / 2 / 2 == b / 4;
    case 3 => assert b / 2 / 4 == b / 8;
    case 4 => assert b / 2 / 8 == b / 16;
    case 5 => assert b / 2 / 16 == b / 32;
    case 6 => assert b / 2 / 32 == b / 64;
    case _ => assert b / 2 / 64 == b / 128;
  }

  /** The null bits lie behind a 16-byte header, one per column, the lowest bit of a byte first. */
  predicate NullBit(t: seq<Byte>, i: nat) {
    16 + i / 8 < |t| && t[16 + i / 8] / BitValue(i % 8) % 2 == 1
  }

  lemma NullInBits(layout: Layout, cols: seq<Column>, t: seq<Byte>, i: nat)
    requires Describes(layout, cols) && i < |cols|
    ensures IsNull(layout, i, t) <==> NullBit(t, i)
  {
    hide Bit, Places, BitValue;
    if 16 + i / 8 < |t| { BitIs(t[16 + i / 8], i % 8); }
  }

  /** A string column reads the bytes its pointer leads to: length and offset, little endian, two bytes each. A pointer
      past the end of the tuple reads as the empty string. */
  lemma ReadString(layout: Layout, cols: seq<Column>, t: seq<Byte>, i: nat, length: nat, off: nat)
    requires Describes(layout, cols) && i < |cols| && cols[i].kind == Text && layout.fixedLen <= |t|
    requires !NullBit(t, i) && length < 0x1_0000 && off < 0x1_0000
    requires var p := OffsetOf(|cols|, cols, i);
      p + 4 <= |t| && t[p..p + 4] == [length % 256, length / 256, off % 256, off / 256]
    ensures ReadField(layout, cols[i].name, i, t) ==
      Some(TextValue(if off + length <= |t| then t[off..off + length] else []))
  {
    hide Bit, Places, End, Padded, IsNull, NullBit;
    var p := OffsetOf(|cols|, cols, i);
    NullInBits(layout, cols, t, i);
    ReadsAt(layout, cols, t, i);
    assert t[p] == t[p..p + 4][0] && t[p + 1] == t[p..p + 4][1] && t[p + 2] == t[p..p + 4][2] &&
      t[p + 3] == t[p..p + 4][3];
    assert t[p] == length % 256 && t[p + 1] == length / 256 && t[p + 2] == off % 256 && t[p + 3] == off / 256;
    assert Num16(t, p) == length && Num16(t, p + 2) == off;
  }

  lemma DecodeNumber(kind: DataType, bytes: seq<Byte>, n: int)
    requires Integer(kind) && |bytes| == Size(kind)
    requires if Signed(kind) then -(Pow256(Size(kind)) as int) <= 2 * n < Pow256(Size(kind)) else 0 <= n
    requires FromLE(bytes) == if n < 0 then n + Pow256(Size(kind)) else n
    ensures Decode(kind, bytes) == IntValue(kind, n)
  {
    hide Pow256, FromLE;
  }

  /** An integer column reads its bytes as a little-endian number, in two's complement if it is signed. */
  lemma ReadNumber(layout: Layout, cols: seq<Column>, t: seq<Byte>, i: nat, n: int)
    requires Describes(layout, cols) && i < |cols| && Integer(cols[i].kind) && layout.fixedLen <= |t|
    requires !NullBit(t, i)
    requires var kind := cols[i].kind;
      if Signed(kind) then -(Pow256(Size(kind)) as int) <= 2 * n < Pow256(Size(kind)) else 0 <= n < Pow256(Size(kind))
    requires var p, size := OffsetOf(|cols|, cols, i), Size(cols[i].kind);
      p + size <= |t| && FromLE(t[p..p + size]) == if n < 0 then n + Pow256(size) else n
    ensures ReadField(layout, cols[i].name, i, t) == Some(IntValue(cols[i].kind, n))
  {
    hide Bit, Places, End, Padded, IsNull, Decode, Pow256, FromLE, NullBit;
    var p, kind := OffsetOf(|cols|, cols, i), cols[i].kind;
    NullInBits(layout, cols, t, i);
    ReadsAt(layout, cols, t, i);
    DecodeNumber(kind, t[p..p + Size(kind)], n);
  }

  // ---------------------------------------------------------------- exactly when others are kept

  /** Every other field of every tuple reads as before. */
  ghost predicate KeepsOthers(layout: Layout, cols: seq<Column>, i: nat, v: Value)
    requires i < |cols| && Proper(v) && cols[i].name in layout.offsets
  {
    forall t: seq<Byte>, j: nat {:trigger Keeps(layout, cols, t, i, v, j)} ::
      layout.fixedLen <= |t| && j < |cols| && j != i &&
      (cols[j].kind == Text ==> BodyBeyond(layout, t, OffsetOf(|cols|, cols, j))) ==>
        Keeps(layout, cols, t, i, v, j)
  }

  /** What a written tuple holds, byte by byte, behind the null bits. */
  lemma WrittenByte(layout: Layout, cols: seq<Column>, t: seq<Byte>, i: nat, v: Value, x: nat)
    requires Describes(layout, cols) && i < |cols| && layout.fixedLen <= |t| && Reach(cols, i, v) <= |t|
    requires cols[i].name in layout.offsets && Proper(v) && Width(v) > 0 && Start(|cols|) <= x < |t|
    ensures Written(layout, cols[i].name, i, t, v)[x] ==
      if OffsetOf(|cols|, cols, i) <= x < Reach(cols, i, v) then Encode(v, KindOf(v))[x - OffsetOf(|cols|, cols, i)]
        else t[x]
  {
    hide Bit, Places, Encode, Fits, End, Padded;
    var marked, o := Marked(layout, i, t, false), OffsetOf(|cols|, cols, i);
    PlacedAt(layout, cols, i);
    MarkedKeeps(layout, cols, t, i, false, i);
    assert marked[x..x + 1] == t[x..x + 1];
    assert marked[x] == marked[x..x + 1][0] && t[x] == t[x..x + 1][0];
  }

  function Other(b: Byte): Byte {
    if b == 0 then 1 else 0
  }

  lemma {:induction false} ZeroBit(k: nat)
    ensures !Bit(0, k)
  {
    if k > 0 { ZeroBit(k - 1); }
  }

  /** All zero but for one stretch and one byte further on. */
  function Blank(n: nat, p: nat, field: seq<Byte>, at: nat, b: Byte): (t: seq<Byte>)
    ensures |t| == n
  {
    seq(n, x => if p <= x < p + |field| then field[x - p] else if x == at then b else 0)
  }

  lemma BlankOk(n: nat, p: nat, field: seq<Byte>, at: nat, b: Byte)
    requires p + |field| <= n
    ensures Blank(n, p, field, at, b)[p..p + |field|] == field
  {
  }

  /** Its columns are not null, and stay so when another one is written. */
  lemma BlankNotNull(layout: Layout, cols: seq<Column>, t: seq<Byte>, i: nat, v: Value, j: nat)
    requires Describes(layout, cols) && i < |cols| && j < |cols| && i != j && layout.fixedLen <= |t|
    requires cols[i].name in layout.offsets && Proper(v)
    requires forall x :: 0 <= x < Start(|cols|) && x < |t| ==> t[x] == 0
    ensures !IsNull(layout, j, t) && !IsNull(layout, j, Written(layout, cols[i].name, i, t, v))
  {
    hide Bit, Places, Encode, Fits, End, Padded;
    var marked, r := Marked(layout, i, t, v.Null?), Written(layout, cols[i].name, i, t, v);
    ZeroBit(j % 8);
    PlacedAt(layout, cols, i);
    FieldInside(cols, i);
    MarkedKeeps(layout, cols, t, i, v.Null?, j);
    assert layout.bitmapAt + j / 8 < Start(|cols|);
    if r != marked { NullKept(layout, cols, marked, j, OffsetOf(|cols|, cols, i), Encode(v, KindOf(v))); }
  }

  /** The lowest byte of a field's value matters. */
  lemma DecodeSensitive(t: DataType, bytes: seq<Byte>)
    requires t != Text && |bytes| == Size(t)
    ensures Decode(t, bytes[0 := Other(bytes[0])]) != Decode(t, bytes)
  {
    var other := bytes[0 := Other(bytes[0])];
    assert other[1..] == bytes[1..] && other[0] != bytes[0];
    assert FromLE(other) - FromLE(bytes) == other[0] as int - bytes[0] as int;
    assert Pow256(Size(t)) >= 256;
  }

  /** What a write leaves of the field it runs into, the rest of it being zero. */
  function RunInto(bytes: seq<Byte>, skip: nat, size: nat): (after: seq<Byte>)
    ensures |after| == size
  {
    seq(size, k requires 0 <= k < size => if skip + k < |bytes| then bytes[skip + k] else 0)
  }

  /** Field bytes that a write turns into something else. */
  function Before(kind: DataType, after: seq<Byte>): (field: seq<Byte>)
    requires |after| == Size(kind)
    ensures |field| == |after|
  {
    var first := after[0 := Other(after[0])];
    if kind == Text then first[2 := 255][3 := 255] else first
  }

  lemma TextsDiffer(t: seq<Byte>, r: seq<Byte>, p: nat)
    requires |t| == |r| >= 0x20000 && p + 4 <= |t| && Num16(t, p) != Num16(r, p)
    ensures ReadText(t, p) != ReadText(r, p)
  {
    var a, b := ReadText(t, p), ReadText(r, p);
    assert |a.value.bytes| == Num16(t, p) && |b.value.bytes| == Num16(r, p);
  }

  lemma BodiesDiffer(t: seq<Byte>, r: seq<Byte>, p: nat, off: nat)
    requires |t| == |r| && p + 4 <= |t| && off < |t| && t[off] != r[off]
    requires Num16(t, p) == Num16(r, p) == 1 && Num16(t, p + 2) == Num16(r, p + 2) == off
    ensures ReadText(t, p) != ReadText(r, p)
  {
    assert t[off..off + 1][0] == t[off] && r[off..off + 1][0] == r[off];
  }

  /** A write that runs into another field changes what that one reads, on some tuple. */
  lemma {:induction false} FieldOverwritten(layout: Layout, cols: seq<Column>, i: nat, v: Value, j: nat)
    returns (t: seq<Byte>)
    requires Describes(layout, cols) && i < |cols| && j < |cols| && i != j && layout.fixedLen < U16_END
    requires cols[i].name in layout.offsets && Proper(v)
    requires OffsetOf(|cols|, cols, j) < Reach(cols, i, v) &&
      OffsetOf(|cols|, cols, i) < OffsetOf(|cols|, cols, j) + Size(cols[j].kind)
    ensures layout.fixedLen <= |t| && (cols[j].kind == Text ==> BodyBeyond(layout, t, OffsetOf(|cols|, cols, j)))
    ensures !Keeps(layout, cols, t, i, v, j)
  {
    hide Describes, Encode, End, Padded, Decode, Written, IsNull, ReadText, ReadField, RunInto, Blank;
    var o, p, kind := OffsetOf(|cols|, cols, i), OffsetOf(|cols|, cols, j), cols[j].kind;
    FieldsApart(cols, i, j);
    var after := RunInto(Encode(v, KindOf(v)), p - o, Size(kind));
    t := Overwritable(layout, cols, j, after);
    var r := Written(layout, cols[i].name, i, t, v);
    BlankNotNull(layout, cols, t, i, v, j);
    ReadsAt(layout, cols, t, j);
    ReadsAt(layout, cols, r, j);
    RunsInto(layout, cols, t, i, v, j);
    if kind == Text {
      TextsDiffer(t, r, p);
    } else {
      DecodeSensitive(kind, after);
    }
  }

  /** A tuple with this field as it might have been before the write, and zeros everywhere else. */
  lemma Overwritable(layout: Layout, cols: seq<Column>, j: nat, after: seq<Byte>) returns (t: seq<Byte>)
    requires Describes(layout, cols) && j < |cols| && layout.fixedLen < U16_END && |after| == Size(cols[j].kind)
    ensures var p, field := OffsetOf(|cols|, cols, j), Before(cols[j].kind, after);
      && |t| == 0x30000 && p + |field| <= layout.fixedLen && t[p..p + |field|] == field
      && (forall x :: 0 <= x < Start(|cols|) && x < |t| ==> t[x] == 0)
      && (cols[j].kind == Text ==> BodyBeyond(layout, t, p))
  {
    hide End, Padded, Places;
    var p, field := OffsetOf(|cols|, cols, j), Before(cols[j].kind, after);
    FieldInside(cols, j);
    t := Blank(0x30000, p, field, 0x2ffff, 0);
    BlankOk(0x30000, p, field, 0x2ffff, 0);
    if cols[j].kind == Text { assert t[p + 2] == field[2] == 255 && t[p + 3] == field[3] == 255; }
  }

  /** Written into, that field holds what the write leaves of it. */
  lemma RunsInto(layout: Layout, cols: seq<Column>, t: seq<Byte>, i: nat, v: Value, j: nat)
    requires Describes(layout, cols) && i < |cols| && j < |cols| && i != j && |t| == 0x30000 &&
      layout.fixedLen < U16_END
    requires cols[i].name in layout.offsets && Proper(v) && Width(v) > 0
    requires OffsetOf(|cols|, cols, i) < OffsetOf(|cols|, cols, j) < Reach(cols, i, v)
    requires var p, kind := OffsetOf(|cols|, cols, j), cols[j].kind;
      var after := RunInto(Encode(v, KindOf(v)), p - OffsetOf(|cols|, cols, i), Size(kind));
      p + Size(kind) <= layout.fixedLen && t[p..p + Size(kind)] == Before(kind, after)
    ensures var p, kind := OffsetOf(|cols|, cols, j), cols[j].kind;
      var after := RunInto(Encode(v, KindOf(v)), p - OffsetOf(|cols|, cols, i), Size(kind));
      var r := Written(layout, cols[i].name, i, t, v);
      if kind == Text then Num16(t, p) != Num16(r, p) else r[p..p + Size(kind)] == after
  {
    hide Encode, End, Padded, Decode, Written, Describes, Num16, RunInto, Before, Places, Fits;
    var o, p, kind := OffsetOf(|cols|, cols, i), OffsetOf(|cols|, cols, j), cols[j].kind;
    var bytes, r := Encode(v, KindOf(v)), Written(layout, cols[i].name, i, t, v);
    DescribedEnd(layout, cols);
    FieldInside(cols, i);
    FieldInside(cols, j);
    forall x | p <= x < p + Size(kind)
      ensures r[x] == if p - o + (x - p) < |bytes| then bytes[p - o + (x - p)] else t[x]
    {
      WrittenByte(layout, cols, t, i, v, x);
    }
    RunIntoOk(kind, bytes, p - o, t, r, p);
  }

  lemma RunIntoOk(kind: DataType, bytes: seq<Byte>, skip: nat, t: seq<Byte>, r: seq<Byte>, p: nat)
    requires |t| == |r| && p + Size(kind) <= |t| && skip < |bytes|
    requires t[p..p + Size(kind)] == Before(kind, RunInto(bytes, skip, Size(kind)))
    requires forall x {:trigger r[x]} :: p <= x < p + Size(kind) ==>
      r[x] == if skip + (x - p) < |bytes| then bytes[skip + (x - p)] else t[x]
    ensures if kind == Text then Num16(t, p) != Num16(r, p)
      else r[p..p + Size(kind)] == RunInto(bytes, skip, Size(kind))
  {
    var after := RunInto(bytes, skip, Size(kind));
    var field := Before(kind, after);
    assert forall x :: p <= x < p + Size(kind) ==> t[x] == t[p..p + Size(kind)][x - p] == field[x - p];
    assert r[p] == after[0] != t[p];
    if kind == Text {
      assert r[p + 1] == after[1] == t[p + 1];
    } else {
      forall x | p <= x < p + Size(kind)
        ensures r[x] == after[x - p]
      {
      }
    }
  }

  /** A write past the fixed part changes a string whose body starts there. */
  lemma {:induction false} BodyOverwritten(layout: Layout, cols: seq<Column>, i: nat, v: Value, j: nat)
    returns (t: seq<Byte>)
    requires Describes(layout, cols) && i < |cols| && j < |cols| && i != j && layout.fixedLen < U16_END
    requires cols[i].name in layout.offsets && Proper(v) && cols[j].kind == Text && layout.fixedLen < Reach(cols, i, v)
    requires OffsetOf(|cols|, cols, j) + 4 <= OffsetOf(|cols|, cols, i)
    ensures layout.fixedLen <= |t| && BodyBeyond(layout, t, OffsetOf(|cols|, cols, j))
    ensures !Keeps(layout, cols, t, i, v, j)
  {
    hide Describes, Encode, End, Padded, Decode, Written, IsNull, ReadText, ReadField;
    var o, p, off := OffsetOf(|cols|, cols, i), OffsetOf(|cols|, cols, j), layout.fixedLen;
    DescribedEnd(layout, cols);
    FieldInside(cols, i);
    FieldInside(cols, j);
    var field: seq<Byte> := [1, 0, off % 256, off / 256];
    t := Blank(0x30000, p, field, off, Other(Encode(v, KindOf(v))[off - o]));
    var r := Written(layout, cols[i].name, i, t, v);
    BlankOk(0x30000, p, field, off, t[off]);
    BlankNotNull(layout, cols, t, i, v, j);
    WrittenByte(layout, cols, t, i, v, off);
    forall x | p <= x < p + 4
      ensures r[x] == t[x] == field[x - p]
    {
      WrittenByte(layout, cols, t, i, v, x);
    }
    ReadsAt(layout, cols, t, j);
    ReadsAt(layout, cols, r, j);
    BodiesDiffer(t, r, p, off);
  }

  lemma DescribedEnd(layout: Layout, cols: seq<Column>)
    requires Describes(layout, cols)
    ensures layout.fixedLen == End(|cols|, cols) && forall i :: 0 <= i < |cols| ==> cols[i].name in layout.offsets
  {
    forall i | 0 <= i < |cols|
      ensures cols[i].name in layout.offsets
    {
      PlacedAt(layout, cols, i);
    }
  }

  /** A write leaves every other field of every tuple as it was if and only if it ends before each one behind it and, if
      there is a string, within the fixed part. */
  lemma OthersKeptIff(layout: Layout, cols: seq<Column>, i: nat, v: Value)
    requires Describes(layout, cols) && i < |cols| && layout.fixedLen < U16_END && cols[i].name in layout.offsets &&
      Proper(v)
    ensures KeepsOthers(layout, cols, i, v) <==> forall j :: 0 <= j < |cols| && j != i ==> Spares(cols, i, v, j)
  {
    hide Keeps, Describes, Spares, BodyBeyond;
    if j: nat :| j < |cols| && j != i && !Spares(cols, i, v, j) {
      var t := SparesNot(layout, cols, i, v, j);
      assert !Keeps(layout, cols, t, i, v, j);
    } else {
      forall t: seq<Byte>, j: nat | layout.fixedLen <= |t| && j < |cols| && j != i &&
          (cols[j].kind == Text ==> BodyBeyond(layout, t, OffsetOf(|cols|, cols, j)))
        ensures Keeps(layout, cols, t, i, v, j)
      {
        OthersKept(layout, cols, t, i, v, j);
      }
    }
  }

  lemma SparesNot(layout: Layout, cols: seq<Column>, i: nat, v: Value, j: nat) returns (t: seq<Byte>)
    requires Describes(layout, cols) && i < |cols| && j < |cols| && i != j && layout.fixedLen < U16_END
    requires cols[i].name in layout.offsets && Proper(v) && !Spares(cols, i, v, j)
    ensures layout.fixedLen <= |t| && (cols[j].kind == Text ==> BodyBeyond(layout, t, OffsetOf(|cols|, cols, j)))
    ensures !Keeps(layout, cols, t, i, v, j)
  {
    hide Keeps, BodyBeyond, End, Padded;
    if OffsetOf(|cols|, cols, j) < Reach(cols, i, v) &&
      OffsetOf(|cols|, cols, i) < OffsetOf(|cols|, cols, j) + Size(cols[j].kind) {
      t := FieldOverwritten(layout, cols, i, v, j);
    } else {
      FieldInside(cols, j);
      t := BodyOverwritten(layout, cols, i, v, j);
    }
  }

  /** Two 4-byte columns, one after the other. */
  function TwoFloats(): seq<Column> {
    [Column("a", F32, 0), Column("b", F32, 1)]
  }

  lemma TwoFloatsPlaced()
    ensures OffsetOf(2, TwoFloats(), 0) == 20 && OffsetOf(2, TwoFloats(), 1) == 24 && End(2, TwoFloats()) == 28 &&
      Start(2) == 17
  {
    var cols := TwoFloats();
    assert cols[..0] == [] && cols[..1] == [cols[0]] && cols[..1][..0] == [] && cols[..2] == cols;
    assert Padded(17, F32) == 20 && Padded(24, F32) == 24;
    assert End(2, cols[..1]) == 24;
  }

  /** Concrete overwrite: an 8-byte value written to the first of two 4-byte columns is read back from the second. */
  lemma {:induction false} WideValueOverwrites(layout: Layout)
    requires Describes(layout, TwoFloats())
    ensures var v, t := FloatValue(F64, seq(8, k => 1)), seq(28, k => 0);
      && Proper(v) && "a" in layout.offsets && !Spares(TwoFloats(), 0, v, 1)
      && ReadField(layout, "b", 1, t) == Some(FloatValue(F32, seq(4, k => 0)))
      && ReadField(layout, "b", 1, Written(layout, "a", 0, t, v)) == Some(FloatValue(F32, seq(4, k => 1)))
  {
    hide Describes, OffsetOf, End, Written, IsNull, ReadField;
    var cols, v, t := TwoFloats(), FloatValue(F64, seq(8, k => 1)), seq(28, k => 0);
    TwoFloatsPlaced();
    DescribedEnd(layout, cols);
    assert cols[0].name == "a" && cols[1].name == "b";
    var r := Written(layout, "a", 0, t, v);
    BlankNotNull(layout, cols, t, 0, v, 1);
    ReadsAt(layout, cols, t, 1);
    ReadsAt(layout, cols, r, 1);
    forall x | 24 <= x < 28
      ensures r[x] == 1
    {
      WrittenByte(layout, cols, t, 0, v, x);
    }
    assert t[24..28] == seq(4, k => 0) && r[24..28] == seq(4, k => 1);
  }

  /** A refused string write leaves the tuple alone exactly when the field was not null. */
  lemma {:induction false} RefusedWriteIff(layout: Layout, cols: seq<Column>, t: seq<Byte>, i: nat, v: Value)
    requires Describes(layout, cols) && i < |cols| && layout.fixedLen <= |t| && v.TextValue?
    requires cols[i].name in layout.offsets && cols[i].name in layout.types
    ensures Written(layout, cols[i].name, i, t, v) == t <==> !IsNull(layout, i, t)
  {
    hide Bit, WithBit, Places;
    var at := layout.bitmapAt + i / 8;
    FieldsEnd(cols);
    WithBitSame(t[at], i % 8, false);
    assert Written(layout, cols[i].name, i, t, v)[at] == SetBit(t[at], i % 8, false);
  }
}
