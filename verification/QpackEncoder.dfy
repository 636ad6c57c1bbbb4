/**
 The two-pass QPACK encoder.  Pass 1 inserts what is novel into the dynamic table and
 writes the matching encoder-stream instructions; pass 2 writes one field line per
 header against the table that pass 1 left behind.
 */
module QpackEncoding {
  import opened Bytes
  import opened PrefixInteger
  import opened DynamicTables

  /** First position of an entry with this name and value. */
  function FindExact(entries: seq<Field>, f: Field): (r: Option<nat>)
    ensures r.Some? ==> r.value < |entries| && entries[r.value] == f && f !in entries[..r.value]
    ensures r.None? ==> f !in entries
  {
    if entries == [] then None
    else if entries[0] == f then Some(0)
    else match FindExact(entries[1..], f)
      case None => None
      case Some(i) => Some(i + 1)
  }

  /** First position of an entry with this name. */
  function FindName(entries: seq<Field>, name: seq<Byte>): (r: Option<nat>)
    ensures r.Some? ==> r.value < |entries| && entries[r.value].name == name
    ensures r.Some? ==> forall j :: 0 <= j < r.value ==> entries[j].name != name
    ensures r.None? ==> forall j :: 0 <= j < |entries| ==> entries[j].name != name
  {
    if entries == [] then None
    else if entries[0].name == name then Some(0)
    else match FindName(entries[1..], name)
      case None => None
      case Some(i) => Some(i + 1)
  }

  function EncodeString(s: seq<Byte>, n: nat, flags: Byte): seq<Byte>
    requires 1 <= n <= 8 && IsFlags(flags, n)
  {
    Encode(|s|, n, flags) + s
  }

  /** Whether pass 1 inserts this header. */
  predicate Novel(statics: seq<Field>, t: Table, f: Field) {
    f !in statics && f !in t.entries && t.capacity != 0
  }

  /** The encoder-stream instruction for an insertion, read against the table before it. */
  function InsertInstruction(statics: seq<Field>, t: Table, f: Field): (bs: seq<Byte>)
    ensures bs != []
  {
    match FindName(statics, f.name)
    case Some(i) => Encode(i, 6, 0xC0) + EncodeString(f.value, 7, 0)
    case None =>
      match FindName(t.entries, f.name)
      case Some(d) =>
        var absolute := t.dropped + d;
        Encode(t.Inserted() - 1 - absolute, 6, 0x80) + EncodeString(f.value, 7, 0)
      case None => EncodeString(f.name, 5, 0x40) + EncodeString(f.value, 7, 0)
  }

  datatype Insertions = Insertions(table: Table, instructions: seq<Byte>)

  function InsertIfNovel(statics: seq<Field>, t: Table, f: Field): Insertions {
    if Novel(statics, t, f) then Insertions(t.Add(f), InsertInstruction(statics, t, f))
    else Insertions(t, [])
  }

  function Pass1(statics: seq<Field>, t: Table, hs: seq<Field>): Insertions
    decreases |hs|
  {
    if hs == [] then Insertions(t, [])
    else
      var first := InsertIfNovel(statics, t, hs[0]);
      var rest := Pass1(statics, first.table, hs[1..]);
      Insertions(rest.table, first.instructions + rest.instructions)
  }

  /** The rest of pass 1, behind the instructions already on the stream. */
  function Pass1On(stream: seq<Byte>, statics: seq<Field>, t: Table, hs: seq<Field>): Insertions {
    var rest := Pass1(statics, t, hs);
    Insertions(rest.table, stream + rest.instructions)
  }

  lemma Pass1OnStep(stream: seq<Byte>, statics: seq<Field>, t: Table, hs: seq<Field>, i: nat)
    requires i < |hs|
    ensures var step := InsertIfNovel(statics, t, hs[i]);
      Pass1On(stream, statics, t, hs[i..]) == Pass1On(stream + step.instructions, statics, step.table, hs[i + 1..])
  {
    var step := InsertIfNovel(statics, t, hs[i]);
    assert hs[i..][1..] == hs[i + 1..];
    Assoc(stream, step.instructions, Pass1(statics, step.table, hs[i + 1..]).instructions);
  }

  lemma Pass1OnEnd(stream: seq<Byte>, statics: seq<Field>, t: Table)
    ensures Pass1On(stream, statics, t, []) == Insertions(t, stream)
  {
  }

  /** One field line, read against the table `t` with Base equal to its insert count. */
  function FieldLine(statics: seq<Field>, t: Table, f: Field): (bs: seq<Byte>)
    ensures bs != []
  {
    match FindExact(statics, f)
    case Some(i) => Encode(i, 6, 0xC0)
    case None =>
      match FindExact(t.entries, f)
      case Some(d) =>
        var absolute := t.dropped + d;
        Encode(t.Inserted() - 1 - absolute, 6, 0x80)
      case None =>
        match FindName(statics, f.name)
        case Some(i) => Encode(i, 4, 0x50) + EncodeString(f.value, 7, 0)
        case None => EncodeString(f.name, 3, 0x20) + EncodeString(f.value, 7, 0)
  }

  function Pass2(statics: seq<Field>, t: Table, hs: seq<Field>): seq<Byte> {
    if hs == [] then [] else FieldLine(statics, t, hs[0]) + Pass2(statics, t, hs[1..])
  }

  /** The encoder always wraps its insert count at 256, whatever the capacity. */
  function EncodedInsertCount(count: nat): nat {
    if count == 0 then 0 else count % 256 + 1
  }

  function BlockPrefix(count: nat): seq<Byte> {
    Encode(EncodedInsertCount(count), 8, 0) + [0]
  }

  function Block(statics: seq<Field>, t: Table, hs: seq<Field>): seq<Byte> {
    BlockPrefix(t.Inserted()) + Pass2(statics, t, hs)
  }

  class Encoder {
    const statics: seq<Field>
    const table: DynamicTable
    var stream: seq<Byte>

    ghost predicate Valid()
      reads this, table
    {
      table.Valid()
    }

    constructor (statics: seq<Field>)
      ensures Valid() && fresh(table) && this.statics == statics
      ensures table.Value() == EMPTY && stream == []
    {
      this.statics := statics;
      table := new DynamicTable();
      stream := [];
    }

    method SetCapacity(capacity: nat)
      requires Valid()
      modifies this, table
      ensures Valid()
      ensures table.Value() == old(table.Value()).SetCapacity(capacity)
      ensures stream == old(stream) + Encode(capacity, 5, 0x20)
    {
      hide Encode;
      table.SetCapacity(capacity);
      var bs := Write(capacity, 5, 0x20);
      stream := stream + bs;
    }

    /** Writes an insertion on the encoder stream and performs it, if the header is novel. */
    method Insert(f: Field)
      requires Valid()
      modifies this, table
      ensures Valid()
      ensures table.Value() == InsertIfNovel(statics, old(table.Value()), f).table
      ensures stream == old(stream) + InsertIfNovel(statics, old(table.Value()), f).instructions
    {
      if f in statics || f in table.entries || table.capacity == 0 {
        return;
      }
      var staticName := FindName(statics, f.name);
      var dynamicName := FindName(table.entries, f.name);
      var name := [];
      if staticName.Some? {
        name := Write(staticName.value, 6, 0xC0);
      } else if dynamicName.Some? {
        var absolute := table.droppedCount + dynamicName.value;
        name := Write(table.insertCount - 1 - absolute, 6, 0x80);
      } else {
        name := EncodeString(f.name, 5, 0x40);
      }
      stream := stream + (name + EncodeString(f.value, 7, 0));
      table.Add(f.name, f.value);
    }

    method WriteLine(f: Field) returns (line: seq<Byte>)
      requires Valid()
      ensures line == FieldLine(statics, table.Value(), f)
    {
      var staticExact := FindExact(statics, f);
      if staticExact.Some? {
        line := Write(staticExact.value, 6, 0xC0);
        return;
      }
      var dynamicExact := FindExact(table.entries, f);
      if dynamicExact.Some? {
        var absolute := table.droppedCount + dynamicExact.value;
        line := Write(table.insertCount - 1 - absolute, 6, 0x80);
        return;
      }
      var staticName := FindName(statics, f.name);
      if staticName.Some? {
        line := Write(staticName.value, 4, 0x50);
        line := line + EncodeString(f.value, 7, 0);
      } else {
        line := EncodeString(f.name, 3, 0x20) + EncodeString(f.value, 7, 0);
      }
    }

    method InsertNovel(headers: seq<Field>)
      requires Valid()
      modifies this, table
      ensures Valid()
      ensures table.Value() == Pass1(statics, old(table.Value()), headers).table
      ensures stream == old(stream) + Pass1(statics, old(table.Value()), headers).instructions
    {
      ghost var whole := Pass1On(stream, statics, table.Value(), headers);
      var i := 0;
      assert headers[0..] == headers;
      while i < |headers|
        invariant 0 <= i <= |headers| && Valid()
        invariant Pass1On(stream, statics, table.Value(), headers[i..]) == whole
      {
        Pass1OnStep(stream, statics, table.Value(), headers, i);
        Insert(headers[i]);
        i := i + 1;
      }
      Pass1OnEnd(stream, statics, table.Value());
      assert headers[i..] == [];
    }

    method WriteLines(headers: seq<Field>) returns (fields: seq<Byte>)
      requires Valid()
      ensures fields == Pass2(statics, table.Value(), headers)
    {
      ghost var t := table.Value();
      fields := [];
      var i := 0;
      assert headers[0..] == headers;
      while i < |headers|
        invariant 0 <= i <= |headers|
        invariant fields + Pass2(statics, t, headers[i..]) == Pass2(statics, t, headers)
      {
        var line := WriteLine(headers[i]);
        assert headers[i..][1..] == headers[i + 1..];
        Assoc(fields, line, Pass2(statics, t, headers[i + 1..]));
        fields := fields + line;
        i := i + 1;
      }
    }

    /** Pass 2 and the block prefix, with the final insert count as Required Insert Count and Base. */
    method WriteBlock(headers: seq<Field>) returns (block: seq<Byte>)
      requires Valid()
      ensures block == Block(statics, table.Value(), headers)
    {
      var prefix := WritePrefix(table.insertCount);
      var fields := WriteLines(headers);
      block := prefix + fields;
    }

    /** The Required Insert Count, wrapped, and a Delta Base of zero. */
    method WritePrefix(finalCount: nat) returns (prefix: seq<Byte>)
      ensures prefix == BlockPrefix(finalCount)
    {
      var ric := if finalCount == 0 then 0 else finalCount % 256 + 1;
      prefix := Write(ric, 8, 0);
      prefix := prefix + [0];
    }

    method EncodeHeaders(headers: seq<Field>) returns (block: seq<Byte>)
      requires Valid()
      modifies this, table
      ensures Valid()
      ensures table.Value() == Pass1(statics, old(table.Value()), headers).table
      ensures stream == old(stream) + Pass1(statics, old(table.Value()), headers).instructions
      ensures block == Block(statics, table.Value(), headers)
    {
      InsertNovel(headers);
      block := WriteBlock(headers);
    }
  }
}
