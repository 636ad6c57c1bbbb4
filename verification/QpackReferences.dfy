/**
 Field sections and encoder streams as any encoder may write them (sections 4.3 and 4.5 of
 RFC 9204): every line and instruction form, strings plain or Huffman-coded, references on
 either side of the Base, any Base.  The decoder must not care where the encoder put the Base.
 */
module QpackReferences {
  import opened Bytes
  import opened PrefixInteger
  import opened DynamicTables
  import opened RequiredInsertCounts
  import opened QpackEncoding
  import opened QpackRoundTrip
  import Q = QpackDecoding

  // ---------- strings ----------

  /** A string as it travels: as it is, or as Huffman code. */
  datatype Text = Plain(bytes: seq<Byte>) | Coded(bytes: seq<Byte>)

  /** What it says; none if it is not a Huffman code. */
  function TextOf(env: Q.Env, x: Text): Option<seq<Byte>> {
    if x.Plain? then Some(x.bytes) else env.huffman(x.bytes)
  }

  /** The flags differ in the bit above the prefix. */
  predicate TextFlags(n: nat, plain: Byte, coded: Byte) {
    && 1 <= n <= 7 && IsFlags(plain, n) && IsFlags(coded, n)
    && plain / (Mask(n) + 1) % 2 == 0 && coded == plain + Mask(n) + 1
  }

  function WriteText(x: Text, n: nat, plain: Byte, coded: Byte): (bs: seq<Byte>)
    requires TextFlags(n, plain, coded)
    ensures bs != [] && plain <= bs[0] <= coded + Mask(n)
  {
    EncodeString(x.bytes, n, if x.Plain? then plain else coded)
  }

  /** A value: seven bits of length, the Huffman bit on top. */
  function Value(x: Text): (bs: seq<Byte>)
    ensures bs != []
  {
    WriteText(x, 7, 0x00, 0x80)
  }

  function AsRead<T>(o: Option<T>, rest: seq<Byte>): Read<T> {
    match o
    case None => Raised
    case Some(v) => Got(v, rest)
  }

  lemma TextRead(env: Q.Env, x: Text, n: nat, plain: Byte, coded: Byte, rest: seq<Byte>)
    requires TextFlags(n, plain, coded) && |x.bytes| < U64
    ensures var bs := WriteText(x, n, plain, coded) + rest;
      Q.DecodeString(env, bs[0], n, bs[1..]) == AsRead(TextOf(env, x), rest)
  {
    hide Q.DecodeString, EncodeString;
    if x.Plain? {
      StringRoundTrip(env, x.bytes, n, plain, rest);
    } else {
      CodedBit(n, plain, coded);
      HuffmanRead(env, x.bytes, n, coded, rest);
    }
  }

  lemma CodedBit(n: nat, plain: Byte, coded: Byte)
    requires TextFlags(n, plain, coded)
    ensures coded / (Mask(n) + 1) % 2 == 1
  {
    var w := Mask(n) + 1;
    assert plain == plain / w * w;
    ModUnique(coded, w, plain / w + 1, 0);
  }

  lemma ValueRead(env: Q.Env, x: Text, rest: seq<Byte>)
    requires |x.bytes| < U64
    ensures Q.NextString(env, 7, Value(x) + rest) == AsRead(TextOf(env, x), rest)
  {
    hide Q.DecodeString, WriteText;
    TextRead(env, x, 7, 0x00, 0x80, rest);
  }

  // ---------- field lines ----------

  /** A field line by what it refers to; `never` is the bit that forbids later indexing. */
  datatype Line =
    | StaticEntry(index: nat)
    | DynamicEntry(absolute: nat)
    | StaticName(index: nat, value: Text, never: bool)
    | DynamicName(absolute: nat, value: Text, never: bool)
    | Literal(name: Text, value: Text, never: bool)

  function BothOf(name: Option<seq<Byte>>, value: Option<seq<Byte>>): Option<Field> {
    if name.None? || value.None? then None else Some(Field(name.value, value.value))
  }

  /** The field a line stands for; none if one of its strings is not a Huffman code. */
  function Meaning(env: Q.Env, d: Table, line: Line): Option<Field> {
    match line
    case StaticEntry(i) => Some(if i < |env.statics| then env.statics[i] else NOTHING)
    case DynamicEntry(a) => Some(if d.ByAbsolute(a).Some? then d.ByAbsolute(a).value else NOTHING)
    case StaticName(i, v, _) => BothOf(Some(if i < |env.statics| then env.statics[i].name else []), TextOf(env, v))
    case DynamicName(a, v, _) =>
      BothOf(Some(if d.ByAbsolute(a).Some? then d.ByAbsolute(a).value.name else []), TextOf(env, v))
    case Literal(n, v, _) => BothOf(TextOf(env, n), TextOf(env, v))
  }

  /** Entries below the Base are counted backwards from it, the others forwards. */
  function WriteRef(base: nat, line: Line): (bs: seq<Byte>)
    ensures bs != []
  {
    match line
    case StaticEntry(i) => Encode(i, 6, 0xC0)
    case DynamicEntry(a) => if a < base then Encode(base - 1 - a, 6, 0x80) else Encode(a - base, 4, 0x10)
    case StaticName(i, v, never) => Encode(i, 4, if never then 0x70 else 0x50) + Value(v)
    case DynamicName(a, v, never) =>
      if a < base then Encode(base - 1 - a, 4, if never then 0x60 else 0x40) + Value(v)
      else Encode(a - base, 3, if never then 0x08 else 0x00) + Value(v)
    case Literal(n, v, never) =>
      (if never then WriteText(n, 3, 0x30, 0x38) else WriteText(n, 3, 0x20, 0x28)) + Value(v)
  }

  /** Indices fit the 32 bits they are narrowed to, absolute indices and lengths 64 bits. */
  predicate Writable(base: nat, line: Line) {
    match line
    case StaticEntry(i) => i < 0x8000_0000
    case DynamicEntry(a) => a < U64 && Distance(base, a) < 0x8000_0000
    case StaticName(i, v, _) => i < 0x8000_0000 && |v.bytes| < U64
    case DynamicName(a, v, _) => a < U64 && Distance(base, a) < 0x8000_0000 && |v.bytes| < U64
    case Literal(n, v, _) => |n.bytes| < U64 && |v.bytes| < U64
  }

  function Distance(base: nat, a: nat): nat { if a < base then base - 1 - a else a - base }

  /** The index at the front of a line, and the range its first byte is in. */
  lemma FirstByte(index: nat, n: nat, flags: Byte, rest: seq<Byte>)
    requires 1 <= n <= 6 && IsFlags(flags, n) && index < U64
    ensures var bs := Encode(index, n, flags) + rest;
      && bs != [] && flags <= bs[0] <= flags + Mask(n)
      && Q.Narrow(Decode(bs[0], n, bs[1..])) == if index < I32 then Got(index, rest) else Raised
  {
    hide Encode, Decode;
    EncodeDecode(index, n, flags, rest);
  }

  lemma EntryDecoded(env: Q.Env, d: Table, base: nat, line: Line, rest: seq<Byte>)
    requires Writable(base, line) && (line.StaticEntry? || line.DynamicEntry?)
    ensures Q.DecodeLine(env, d, base, WriteRef(base, line) + rest) == AsRead(Meaning(env, d, line), rest)
  {
    hide Encode, Decode, Q.Narrow;
    match line
    case StaticEntry(i) => FirstByte(i, 6, 0xC0, rest);
    case DynamicEntry(a) =>
      if a < base {
        FirstByte(base - 1 - a, 6, 0x80, rest);
      } else {
        FirstByte(a - base, 4, 0x10, rest);
      }
  }

  /** An index followed by a value string. */
  lemma NameWritten(env: Q.Env, index: nat, n: nat, flags: Byte, v: Text, rest: seq<Byte>)
    requires 1 <= n <= 6 && IsFlags(flags, n) && index < I32 && |v.bytes| < U64
    ensures var bs := Encode(index, n, flags) + Value(v) + rest;
      && bs != [] && flags <= bs[0] <= flags + Mask(n)
      && Q.Narrow(Decode(bs[0], n, bs[1..])) == Got(index, Value(v) + rest)
      && Q.NextString(env, 7, Value(v) + rest) == AsRead(TextOf(env, v), rest)
  {
    hide Encode, Decode, Q.Narrow, Q.NextString, Value;
    Assoc(Encode(index, n, flags), Value(v), rest);
    FirstByte(index, n, flags, Value(v) + rest);
    ValueRead(env, v, rest);
  }

  lemma StaticNameDecoded(env: Q.Env, d: Table, base: nat, i: nat, v: Text, never: bool, rest: seq<Byte>)
    requires i < I32 && |v.bytes| < U64
    ensures Q.DecodeLine(env, d, base, WriteRef(base, StaticName(i, v, never)) + rest)
         == AsRead(Meaning(env, d, StaticName(i, v, never)), rest)
  {
    hide Encode, Decode, Q.Narrow, Value, Q.NextString, TextOf;
    var flags: Byte := if never then 0x70 else 0x50;
    NameWritten(env, i, 4, flags, v, rest);
    var bs := Encode(i, 4, flags) + Value(v) + rest;
    assert bs[0] / 64 == 1 && bs[0] / 16 % 2 == 1;
  }

  lemma RelativeNameDecoded(env: Q.Env, d: Table, base: nat, relative: nat, v: Text, flags: Byte, rest: seq<Byte>)
    requires relative < base && relative < I32 && |v.bytes| < U64 && (flags == 0x40 || flags == 0x60)
    ensures Q.DecodeLine(env, d, base, Encode(relative, 4, flags) + Value(v) + rest)
         == AsRead(BothOf(Some(Q.NameOf(d.ByAbsolute(base - 1 - relative))), TextOf(env, v)), rest)
  {
    hide Encode, Decode, Q.Narrow, Value, Q.NextString, Q.NameOf, TextOf;
    NameWritten(env, relative, 4, flags, v, rest);
    var bs := Encode(relative, 4, flags) + Value(v) + rest;
    assert bs[0] / 64 == 1 && bs[0] / 16 % 2 == 0;
  }

  lemma PostBaseNameDecoded(env: Q.Env, d: Table, base: nat, index: nat, v: Text, flags: Byte, rest: seq<Byte>)
    requires base + index < U64 && index < I32 && |v.bytes| < U64 && (flags == 0x00 || flags == 0x08)
    ensures Q.DecodeLine(env, d, base, Encode(index, 3, flags) + Value(v) + rest)
         == AsRead(BothOf(Some(Q.NameOf(d.ByAbsolute(base + index))), TextOf(env, v)), rest)
  {
    hide Encode, Decode, Q.Narrow, Value, Q.NextString, Q.NameOf, TextOf;
    NameWritten(env, index, 3, flags, v, rest);
    var bs := Encode(index, 3, flags) + Value(v) + rest;
    assert bs[0] < 16;
  }

  lemma DynamicNameDecoded(env: Q.Env, d: Table, base: nat, a: nat, v: Text, never: bool, rest: seq<Byte>)
    requires Writable(base, DynamicName(a, v, never))
    ensures Q.DecodeLine(env, d, base, WriteRef(base, DynamicName(a, v, never)) + rest)
         == AsRead(Meaning(env, d, DynamicName(a, v, never)), rest)
  {
    hide Encode, Value, Q.DecodeLine, TextOf;
    if a < base {
      RelativeNameDecoded(env, d, base, base - 1 - a, v, if never then 0x60 else 0x40, rest);
    } else {
      PostBaseNameDecoded(env, d, base, a - base, v, if never then 0x08 else 0x00, rest);
    }
  }

  lemma LiteralDecoded(env: Q.Env, d: Table, base: nat, n: Text, v: Text, never: bool, rest: seq<Byte>)
    requires |n.bytes| < U64 && |v.bytes| < U64
    ensures Q.DecodeLine(env, d, base, WriteRef(base, Literal(n, v, never)) + rest)
         == AsRead(Meaning(env, d, Literal(n, v, never)), rest)
  {
    hide Q.NextString, Q.DecodeString, WriteText, TextOf, Value;
    var plain: Byte, coded: Byte := if never then 0x30 else 0x20, if never then 0x38 else 0x28;
    var name, after := WriteText(n, 3, plain, coded), Value(v) + rest;
    Assoc(name, Value(v), rest);
    TextRead(env, n, 3, plain, coded, after);
    ValueRead(env, v, rest);
    var bs := name + after;
    assert bs[0] / 32 == 1;
  }

  /** Every form of line decodes to what it refers to, wherever the Base is. */
  lemma RefDecoded(env: Q.Env, d: Table, base: nat, line: Line, rest: seq<Byte>)
    requires Writable(base, line)
    ensures Q.DecodeLine(env, d, base, WriteRef(base, line) + rest) == AsRead(Meaning(env, d, line), rest)
  {
    hide Q.DecodeLine, WriteRef, Meaning;
    match line
    case Literal(n, v, never) => LiteralDecoded(env, d, base, n, v, never, rest);
    case StaticName(i, v, never) => StaticNameDecoded(env, d, base, i, v, never, rest);
    case DynamicName(a, v, never) => DynamicNameDecoded(env, d, base, a, v, never, rest);
    case _ => EntryDecoded(env, d, base, line, rest);
  }

  /** Prefix length and flags of the line forms that start with an index. */
  predicate IsIndexForm(n: nat, flags: Byte) {
    || (n == 6 && (flags == 0xC0 || flags == 0x80))
    || (n == 4 && (flags == 0x70 || flags == 0x60 || flags == 0x50 || flags == 0x40 || flags == 0x10))
    || (n == 3 && (flags == 0x08 || flags == 0x00))
  }

  /** An index that does not fit 32 bits raises, in every indexed form of a line. */
  lemma WideIndexRaises(env: Q.Env, d: Table, base: nat, index: nat, n: nat, flags: Byte, rest: seq<Byte>)
    requires 0x8000_0000 <= index < 0x1_0000_0000_0000_0000
    requires IsIndexForm(n, flags)
    ensures Q.DecodeLine(env, d, base, Encode(index, n, flags) + rest) == Raised
  {
    hide Encode, Decode, Q.Narrow;
    FirstByte(index, n, flags, rest);
  }

  function WriteAll(base: nat, lines: seq<Line>): seq<Byte> {
    if lines == [] then [] else WriteRef(base, lines[0]) + WriteAll(base, lines[1..])
  }

  function Meanings(env: Q.Env, d: Table, lines: seq<Line>): seq<Option<Field>> {
    if lines == [] then [] else [Meaning(env, d, lines[0])] + Meanings(env, d, lines[1..])
  }

  predicate AllWritable(base: nat, lines: seq<Line>) { forall i :: 0 <= i < |lines| ==> Writable(base, lines[i]) }

  /** The fields up to the first line that cannot be read. */
  function Given(ms: seq<Option<Field>>): seq<Field> {
    if ms == [] || ms[0].None? then [] else [ms[0].value] + Given(ms[1..])
  }

  predicate AllGiven(ms: seq<Option<Field>>) { forall i :: 0 <= i < |ms| ==> ms[i].Some? }

  /** The outcome of field lines: what can be read is validated, and the first unreadable line fails. */
  function Judged(ms: seq<Option<Field>>, s: Q.Section): Q.Outcome {
    var v := Validate(Given(ms), s);
    if v.Invalid? || AllGiven(ms) then v else Q.Failed
  }

  lemma {:induction false} AllRefsDecoded(env: Q.Env, d: Table, base: nat, lines: seq<Line>, s: Q.Section)
    requires AllWritable(base, lines)
    ensures Q.DecodeLines(env, d, base, WriteAll(base, lines), s) == Judged(Meanings(env, d, lines), s)
    decreases |lines|
  {
    hide Q.DecodeLine, WriteRef, Meaning, Q.Accept, Writable;
    if lines != [] {
      var m, ms := Meaning(env, d, lines[0]), Meanings(env, d, lines);
      var later := Meanings(env, d, lines[1..]);
      RefDecoded(env, d, base, lines[0], WriteAll(base, lines[1..]));
      assert ms == [m] + later && ms[1..] == later;
      assert AllGiven(ms) <==> m.Some? && AllGiven(later);
      if m.Some? {
        assert Given(ms)[1..] == Given(later);
        var next := Q.Accept(s, m.value);
        if next.Some? {
          AllRefsDecoded(env, d, base, lines[1..], next.value);
        }
      }
    }
  }

  /** The Base relative to the Required Insert Count, with its sign. */
  function WriteBase(required: nat, base: nat): (bs: seq<Byte>)
    ensures bs != []
  {
    if base >= required then Encode(base - required, 7, 0x00) else Encode(required - base - 1, 7, 0x80)
  }

  lemma BaseDecoded(required: nat, base: nat, rest: seq<Byte>)
    requires required < U64 && base < U64 && (required == 0 ==> base == 0)
    ensures var bs := WriteBase(required, base) + rest;
      var delta := Decode(bs[0], 7, bs[1..]);
      && delta.Got? && delta.rest == rest
      && Q.BaseOf(required, bs[0] >= 128, delta.value) == Some(base)
  {
    if base >= required {
      EncodeDecode(base - required, 7, 0x00, rest);
    } else {
      EncodeDecode(required - base - 1, 7, 0x80, rest);
    }
  }

  function WriteCount(maxEntries: nat, required: nat): (bs: seq<Byte>)
    requires maxEntries > 0
    ensures bs != []
  {
    Encode(if required == 0 then 0 else required % (2 * maxEntries) + 1, 8, 0x00)
  }

  function WriteSection(maxEntries: nat, required: nat, base: nat, lines: seq<Line>): seq<Byte>
    requires maxEntries > 0
  {
    WriteCount(maxEntries, required) + (WriteBase(required, base) + WriteAll(base, lines))
  }

  /** A count the decoder can tell from its own insert count, for whatever capacity it has. */
  predicate Recoverable(d: Table, required: nat) {
    var m := MaxEntries(d.capacity);
    && m > 0 && d.Inserted() + 3 * m < U64
    && (required == 0 || d.Inserted() - m < required <= d.Inserted() + m)
  }

  lemma CountDecoded(d: Table, required: nat, rest: seq<Byte>)
    requires Recoverable(d, required)
    ensures var bs := WriteCount(MaxEntries(d.capacity), required) + rest;
      var eric := Decode(bs[0], 8, bs[1..]);
      && eric.Got? && eric.rest == rest && Reconstruct(d.capacity, d.Inserted(), eric.value) == Some(required)
  {
    var m := MaxEntries(d.capacity);
    if required == 0 {
      EncodeDecode(0, 8, 0x00, rest);
    } else {
      assert required % (2 * m) < 2 * m;
      EncodeDecode(required % (2 * m) + 1, 8, 0x00, rest);
      ReconstructRecovers(d.capacity, d.Inserted(), required);
    }
  }

  /**
   Any section of any encoder: blocked exactly if it needs more insertions than there are;
   otherwise decided by the fields its lines stand for, which must be well ordered, up to the
   first that cannot be read.  The Base does not occur in the result.
   */
  lemma SectionDecoded(env: Q.Env, d: Table, required: nat, base: nat, lines: seq<Line>)
    requires Recoverable(d, required) && AllWritable(base, lines)
    requires base < U64 && (required == 0 ==> base == 0)
    ensures var ms := Meanings(env, d, lines);
      Q.DecodeBlock(env, d, WriteSection(MaxEntries(d.capacity), required, base, lines))
      == if required > d.Inserted() then Q.Blocked(required)
         else if !WellOrdered(Given(ms)) then Q.Invalid
         else if AllGiven(ms) then Q.Headers(PutAll([], Given(ms)))
         else Q.Failed
  {
    hide WriteCount, WriteBase, WriteAll, Reconstruct, Decode, Meanings, WellOrdered, Given, AllGiven;
    var body := WriteBase(required, base) + WriteAll(base, lines);
    CountDecoded(d, required, body);
    BaseDecoded(required, base, WriteAll(base, lines));
    AllRefsDecoded(env, d, base, lines, Q.START);
    ValidateExact(Given(Meanings(env, d, lines)), Q.START);
  }

  /** Two encoders that differ only in where they put the Base say the same. */
  lemma BaseDoesNotMatter(env: Q.Env, d: Table, required: nat, b: nat, c: nat, lines: seq<Line>)
    requires Recoverable(d, required) && required > 0 && b < U64 && c < U64
    requires AllWritable(b, lines) && AllWritable(c, lines)
    ensures Q.DecodeBlock(env, d, WriteSection(MaxEntries(d.capacity), required, b, lines))
         == Q.DecodeBlock(env, d, WriteSection(MaxEntries(d.capacity), required, c, lines))
  {
    hide Q.DecodeBlock, WriteSection;
    SectionDecoded(env, d, required, b, lines);
    SectionDecoded(env, d, required, c, lines);
  }

  /** A Base below zero or beyond 64 bits fails the section, and one without a Base has no fields. */
  lemma OddBases(env: Q.Env, d: Table, required: nat, delta: nat, rest: seq<Byte>)
    requires Recoverable(d, required) && 0 < required <= d.Inserted() && delta < U64
    ensures var count := WriteCount(MaxEntries(d.capacity), required);
      && Q.DecodeBlock(env, d, count) == Q.Headers([])
      && (delta >= required ==> Q.DecodeBlock(env, d, count + (Encode(delta, 7, 0x80) + rest)) == Q.Failed)
      && (required + delta >= U64 ==> Q.DecodeBlock(env, d, count + (Encode(delta, 7, 0x00) + rest)) == Q.Failed)
  {
    hide WriteCount, Encode, Decode, Reconstruct, Q.DecodeLines;
    var count := WriteCount(MaxEntries(d.capacity), required);
    assert count + [] == count;
    CountDecoded(d, required, []);
    CountDecoded(d, required, Encode(delta, 7, 0x80) + rest);
    CountDecoded(d, required, Encode(delta, 7, 0x00) + rest);
    EncodeDecode(delta, 7, 0x80, rest);
    EncodeDecode(delta, 7, 0x00, rest);
  }

  // ---------- encoder streams ----------

  /** An instruction by what it does. */
  datatype Order =
    | Resize(capacity: nat)
    | InsertStatic(index: nat, value: Text)
    | InsertDynamic(absolute: nat, value: Text)
    | InsertNamed(name: Text, value: Text)
    | Duplicate(absolute: nat)

  function WriteOrder(t: Table, o: Order): (bs: seq<Byte>)
    requires OrderFits(t, o)
    ensures bs != []
  {
    match o
    case Resize(c) => Encode(c, 5, 0x20)
    case InsertStatic(i, v) => Encode(i, 6, 0xC0) + Value(v)
    case InsertDynamic(a, v) => Encode(t.Inserted() - 1 - a, 6, 0x80) + Value(v)
    case InsertNamed(n, v) => WriteText(n, 5, 0x40, 0x60) + Value(v)
    case Duplicate(a) => Encode(t.Inserted() - 1 - a, 5, 0x00)
  }

  predicate OrderFits(t: Table, o: Order) {
    match o
    case Resize(c) => c < U64
    case InsertStatic(i, v) => i < I32 && |v.bytes| < U64
    case InsertDynamic(a, v) => a < t.Inserted() && t.Inserted() - 1 - a < I32 && |v.bytes| < U64
    case InsertNamed(n, v) => |n.bytes| < U64 && |v.bytes| < U64
    case Duplicate(a) => a < t.Inserted() && t.Inserted() - 1 - a < I32
  }

  /** What it does to the table; none if one of its strings is not a Huffman code. */
  function Performed(env: Q.Env, t: Table, o: Order): Option<Table> {
    match o
    case Resize(c) => Some(t.SetCapacity(c))
    case InsertStatic(i, v) =>
      AddedTo(t, BothOf(Some(if i < |env.statics| then env.statics[i].name else []), TextOf(env, v)))
    case InsertDynamic(a, v) =>
      AddedTo(t, BothOf(Some(if t.ByAbsolute(a).Some? then t.ByAbsolute(a).value.name else []), TextOf(env, v)))
    case InsertNamed(n, v) => AddedTo(t, BothOf(TextOf(env, n), TextOf(env, v)))
    case Duplicate(a) => Some(if t.ByAbsolute(a).Some? then t.Add(t.ByAbsolute(a).value) else t)
  }

  function AddedTo(t: Table, f: Option<Field>): Option<Table> { if f.None? then None else Some(t.Add(f.value)) }

  lemma NameReferenceRead(env: Q.Env, t: Table, o: Order, rest: seq<Byte>)
    requires OrderFits(t, o) && (o.InsertStatic? || o.InsertDynamic?)
    ensures Q.Instruction(env, t, WriteOrder(t, o) + rest) == AsRead(Performed(env, t, o), rest)
  {
    hide Encode, Decode, Q.Narrow, Value, TextOf, Q.NextString;
    var index := if o.InsertStatic? then o.index else t.Inserted() - 1 - o.absolute;
    var flags: Byte := if o.InsertStatic? then 0xC0 else 0x80;
    NameWritten(env, index, 6, flags, o.value, rest);
    var bs := Encode(index, 6, flags) + Value(o.value) + rest;
    assert bs[0] >= 128 && (bs[0] / 64 % 2 == 1 <==> o.InsertStatic?);
  }

  lemma NamedInsertRead(env: Q.Env, t: Table, n: Text, v: Text, rest: seq<Byte>)
    requires OrderFits(t, InsertNamed(n, v))
    ensures Q.Instruction(env, t, WriteOrder(t, InsertNamed(n, v)) + rest)
         == AsRead(Performed(env, t, InsertNamed(n, v)), rest)
  {
    hide Value, WriteText, TextOf, Q.NextString, Q.DecodeString;
    var bs := WriteText(n, 5, 0x40, 0x60) + (Value(v) + rest);
    Assoc(WriteText(n, 5, 0x40, 0x60), Value(v), rest);
    TextRead(env, n, 5, 0x40, 0x60, Value(v) + rest);
    ValueRead(env, v, rest);
    assert bs[0] / 64 == 1;
  }

  /** Every instruction of any encoder does what it says, or raises on a bad Huffman code. */
  lemma OrderRead(env: Q.Env, t: Table, o: Order, rest: seq<Byte>)
    requires OrderFits(t, o)
    ensures Q.Instruction(env, t, WriteOrder(t, o) + rest) == AsRead(Performed(env, t, o), rest)
  {
    hide Encode, Decode, Q.Narrow;
    match o
    case Resize(c) => EncodeDecode(c, 5, 0x20, rest);
    case Duplicate(a) => FirstByte(t.Inserted() - 1 - a, 5, 0x00, rest);
    case InsertNamed(n, v) => NamedInsertRead(env, t, n, v, rest);
    case _ => NameReferenceRead(env, t, o, rest);
  }

  /** Each instruction is written for the table the ones before it make; the first bad one ends the stream. */
  function WriteOrders(env: Q.Env, t: Table, os: seq<Order>): seq<Byte>
    requires AllFit(env, t, os)
    decreases |os|
  {
    if os == [] then []
    else
      var next := Performed(env, t, os[0]);
      WriteOrder(t, os[0]) + if next.None? then [] else WriteOrders(env, next.value, os[1..])
  }

  predicate AllFit(env: Q.Env, t: Table, os: seq<Order>)
    decreases |os|
  {
    os == [] ||
    (OrderFits(t, os[0]) &&
     match Performed(env, t, os[0])
     case None => true
     case Some(next) => AllFit(env, next, os[1..]))
  }

  function PerformAll(env: Q.Env, t: Table, os: seq<Order>): Q.Replayed
    decreases |os|
  {
    if os == [] then Q.Replayed(t, true)
    else match Performed(env, t, os[0])
      case None => Q.Replayed(t, false)
      case Some(next) => PerformAll(env, next, os[1..])
  }

  /** A whole encoder stream of any encoder. */
  lemma {:induction false} OrdersRead(env: Q.Env, t: Table, os: seq<Order>)
    requires AllFit(env, t, os)
    ensures Q.Replay(env, t, WriteOrders(env, t, os)) == PerformAll(env, t, os)
    decreases |os|
  {
    hide Q.Instruction, WriteOrder, Performed;
    if os != [] {
      var next := Performed(env, t, os[0]);
      if next.Some? {
        OrderRead(env, t, os[0], WriteOrders(env, next.value, os[1..]));
        OrdersRead(env, next.value, os[1..]);
      } else {
        OrderRead(env, t, os[0], []);
      }
    }
  }

  /** An index that does not fit 32 bits raises. */
  lemma WideOrderRaises(env: Q.Env, t: Table, index: nat, rest: seq<Byte>)
    requires I32 <= index < U64
    ensures Q.Instruction(env, t, Encode(index, 6, 0xC0) + rest) == Raised
    ensures Q.Instruction(env, t, Encode(index, 6, 0x80) + rest) == Raised
    ensures Q.Instruction(env, t, Encode(index, 5, 0x00) + rest) == Raised
  {
    hide Encode, Decode, Q.Narrow;
    FirstByte(index, 6, 0xC0, rest);
    FirstByte(index, 6, 0x80, rest);
    FirstByte(index, 5, 0x00, rest);
  }
}
