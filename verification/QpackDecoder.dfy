/**
 The QPACK decoder: replay of encoder-stream instructions and decoding of field sections.
 Every read can raise (end of data, 64-bit or 32-bit overflow, Huffman error).
 */
module QpackDecoding {
  import opened Bytes
  import opened PrefixInteger
  import opened DynamicTables
  import opened RequiredInsertCounts

  /** What the decoder is built with: the static table and the Huffman decoder. */
  datatype Env = Env(statics: seq<Field>, huffman: seq<Byte> -> Option<seq<Byte>>)

  /** A table index is narrowed to 32 bits, which raises when it does not fit. */
  function Narrow(r: Read<nat>): (n: Read<nat>)
    ensures n.Got? ==> n == r
  {
    if r.Got? && r.value >= I32 then Raised else r
  }

  function DecodeString(env: Env, first: Byte, n: nat, bs: seq<Byte>): (r: Read<seq<Byte>>)
    requires 1 <= n <= 7
    ensures r.Got? ==> |r.rest| <= |bs|
  {
    var (len, after) :- Decode(first, n, bs);
    var k := Min(len, |after|);
    var raw := after[..k];
    if first / (Mask(n) + 1) % 2 == 1 then
      match env.huffman(raw)
      case None => Raised
      case Some(s) => Got(s, after[k..])
    else Got(raw, after[k..])
  }

  function NextString(env: Env, n: nat, bs: seq<Byte>): (r: Read<seq<Byte>>)
    requires 1 <= n <= 7
    ensures r.Got? ==> |r.rest| <= |bs|
  {
    if bs == [] then Got([], []) else DecodeString(env, bs[0], n, bs[1..])
  }

  function StaticEntry(env: Env, i: nat): Option<Field> {
    if i < |env.statics| then Some(env.statics[i]) else None
  }

  function NameOf(e: Option<Field>): seq<Byte> {
    if e.Some? then e.value.name else []
  }

  /** One encoder-stream instruction; the result is the table after it. */
  function Instruction(env: Env, t: Table, bs: seq<Byte>): (r: Read<Table>)
    requires bs != []
    ensures r.Got? ==> |r.rest| < |bs|
  {
    var b, tail := bs[0], bs[1..];
    if b / 32 == 1 then
      var (c, rest) :- Decode(b, 5, tail);
      Got(t.SetCapacity(c), rest)
    else if b >= 128 then
      var (i, after) :- Narrow(Decode(b, 6, tail));
      var e := if b / 64 % 2 == 1 then StaticEntry(env, i) else t.ByRelative(t.Inserted(), i);
      var (value, rest) :- NextString(env, 7, after);
      Got(t.Add(Field(NameOf(e), value)), rest)
    else if b / 64 == 1 then
      var (name, after) :- DecodeString(env, b, 5, tail);
      var (value, rest) :- NextString(env, 7, after);
      Got(t.Add(Field(name, value)), rest)
    else
      var (i, rest) :- Narrow(Decode(b, 5, tail));
      match t.ByRelative(t.Inserted(), i)
      case Some(e) => Got(t.Add(e), rest)
      case None => Got(t, rest)
  }

  /** The table after a batch, and whether the batch ran to its end without raising. */
  datatype Replayed = Replayed(table: Table, ok: bool)

  function Replay(env: Env, t: Table, bs: seq<Byte>): Replayed
    decreases |bs|
  {
    if bs == [] then Replayed(t, true)
    else match Instruction(env, t, bs)
      case Raised => Replayed(t, false)
      case Got(next, rest) => Replay(env, next, rest)
  }

  /** One field line; a reference to an entry that is not there yields an empty name. */
  function DecodeLine(env: Env, t: Table, base: nat, bs: seq<Byte>): (r: Read<Field>)
    requires bs != []
    ensures r.Got? ==> |r.rest| < |bs|
  {
    var b, tail := bs[0], bs[1..];
    if b >= 128 then
      var (i, rest) :- Narrow(Decode(b, 6, tail));
      var e := if b / 64 % 2 == 1 then StaticEntry(env, i) else t.ByRelative(base, i);
      Got(if e.Some? then e.value else Field([], []), rest)
    else if b / 64 == 1 then
      var (i, after) :- Narrow(Decode(b, 4, tail));
      var e := if b / 16 % 2 == 1 then StaticEntry(env, i) else t.ByRelative(base, i);
      var (value, rest) :- NextString(env, 7, after);
      Got(Field(NameOf(e), value), rest)
    else if b / 32 == 1 then
      var (name, after) :- DecodeString(env, b, 3, tail);
      var (value, rest) :- NextString(env, 7, after);
      Got(Field(name, value), rest)
    else if b / 16 == 1 then
      var (i, rest) :- Narrow(Decode(b, 4, tail));
      if base + i >= U64 then Raised
      else
        var e := t.ByPostBase(base, i);
        Got(if e.Some? then e.value else Field([], []), rest)
    else
      var (i, after) :- Narrow(Decode(b, 3, tail));
      if base + i >= U64 then Raised
      else
        var (value, rest) :- NextString(env, 7, after);
        Got(Field(NameOf(t.ByPostBase(base, i)), value), rest)
  }

  const COLON: Byte := 58

  predicate IsPseudo(name: seq<Byte>) { name != [] && name[0] == COLON }

  /** Hash assignment: an existing key keeps its place and gets the new value. */
  function Put(headers: seq<Field>, f: Field): seq<Field> {
    if headers == [] then [f]
    else if headers[0].name == f.name then [f] + headers[1..]
    else [headers[0]] + Put(headers[1..], f)
  }

  /** The state of the field-line loop. */
  datatype Section = Section(headers: seq<Field>, seenPseudo: set<seq<Byte>>, pastPseudos: bool)

  const START := Section([], {}, false)

  /** What one decoded line does; `None` is the validation error of section 4.3 of RFC 9114. */
  function Accept(s: Section, f: Field): Option<Section> {
    if f.name == [] then Some(s)
    else if IsPseudo(f.name) then
      if s.pastPseudos || f.name in s.seenPseudo then None
      else Some(Section(Put(s.headers, f), s.seenPseudo + {f.name}, s.pastPseudos))
    else Some(Section(Put(s.headers, f), s.seenPseudo, true))
  }

  datatype Outcome =
    | Headers(fields: seq<Field>)
    | Blocked(required: nat)
    | Invalid
    | Failed

  function DecodeLines(env: Env, t: Table, base: nat, bs: seq<Byte>, s: Section): Outcome
    decreases |bs|
  {
    if bs == [] then Headers(s.headers)
    else match DecodeLine(env, t, base, bs)
      case Raised => Failed
      case Got(f, rest) =>
        match Accept(s, f)
        case None => Invalid
        case Some(next) => DecodeLines(env, t, base, rest, next)
  }

  /** Base from the Required Insert Count and the sign and delta of the second prefix integer. */
  function BaseOf(required: nat, sign: bool, delta: nat): Option<nat> {
    if required == 0 then Some(0)
    else if !sign then (if required + delta >= U64 then None else Some(required + delta))
    else if required < delta + 1 then None
    else Some(required - delta - 1)
  }

  /** The part of a field section after the Required Insert Count. */
  function DecodeBody(env: Env, t: Table, required: nat, bs: seq<Byte>): Outcome {
    if required > t.Inserted() then Blocked(required)
    else if bs == [] then Headers([])
    else match Decode(bs[0], 7, bs[1..])
      case Raised => Failed
      case Got(delta, rest) =>
        match BaseOf(required, bs[0] >= 128, delta)
        case None => Failed
        case Some(base) => DecodeLines(env, t, base, rest, START)
  }

  function DecodeBlock(env: Env, t: Table, bs: seq<Byte>): Outcome {
    if bs == [] then Headers([])
    else match Decode(bs[0], 8, bs[1..])
      case Raised => Failed
      case Got(encoded, rest) =>
        match Reconstruct(t.capacity, t.Inserted(), encoded)
        case None => Failed
        case Some(required) => DecodeBody(env, t, required, rest)
  }

  /** The remembered Required Insert Count: untouched by an empty block or a failing prefix. */
  function Remembered(t: Table, last: nat, bs: seq<Byte>): nat {
    if bs == [] then last
    else match Decode(bs[0], 8, bs[1..])
      case Raised => last
      case Got(encoded, _) =>
        match Reconstruct(t.capacity, t.Inserted(), encoded)
        case None => last
        case Some(required) => required
  }

  class Decoder {
    const env: Env
    const table: DynamicTable
    var lastRequired: nat

    ghost predicate Valid()
      reads this, table
    {
      table.Valid()
    }

    constructor (env: Env)
      ensures Valid() && fresh(table) && this.env == env
      ensures table.Value() == EMPTY && lastRequired == 0
    {
      this.env := env;
      table := new DynamicTable();
      lastRequired := 0;
    }

    method ReadString(first: Byte, n: nat, buf: seq<Byte>, pos: nat) returns (s: Option<seq<Byte>>, next: nat)
      requires 1 <= n <= 7 && pos <= |buf|
      ensures pos <= next <= |buf|
      ensures s.None? ==> DecodeString(env, first, n, buf[pos..]) == Raised
      ensures s.Some? ==> DecodeString(env, first, n, buf[pos..]) == Got(s.value, buf[next..])
    {
      var len;
      len, next := ReadAt(first, n, buf, pos);
      if len.None? {
        return None, next;
      }
      var k := Min(len.value, |buf| - next);
      var raw := buf[next..next + k];
      assert buf[next..][..k] == raw && buf[next..][k..] == buf[next + k..];
      next := next + k;
      if first / (Mask(n) + 1) % 2 == 1 {
        s := env.huffman(raw);
      } else {
        s := Some(raw);
      }
    }

    method ReadNextString(n: nat, buf: seq<Byte>, pos: nat) returns (s: Option<seq<Byte>>, next: nat)
      requires 1 <= n <= 7 && pos <= |buf|
      ensures pos <= next <= |buf|
      ensures s.None? ==> NextString(env, n, buf[pos..]) == Raised
      ensures s.Some? ==> NextString(env, n, buf[pos..]) == Got(s.value, buf[next..])
    {
      if pos == |buf| {
        return Some([]), pos;
      }
      assert buf[pos..][1..] == buf[pos + 1..];
      s, next := ReadString(buf[pos], n, buf, pos + 1);
    }

    method ReadIndex(first: Byte, n: nat, buf: seq<Byte>, pos: nat) returns (i: Option<nat>, next: nat)
      requires 1 <= n <= 8 && pos <= |buf|
      ensures pos <= next <= |buf|
      ensures i.None? ==> Narrow(Decode(first, n, buf[pos..])) == Raised
      ensures i.Some? ==> Narrow(Decode(first, n, buf[pos..])) == Got(i.value, buf[next..])
    {
      i, next := ReadAt(first, n, buf, pos);
      if i.Some? && i.value >= I32 {
        i := None;
      }
    }

    /** Applies the instruction at `pos`; when it raises, the table is as it was. */
    method ApplyInstruction(buf: seq<Byte>, pos: nat) returns (ok: bool, next: nat)
      requires Valid() && pos < |buf|
      modifies table
      ensures Valid() && pos < next <= |buf|
      ensures !ok ==> Instruction(env, old(table.Value()), buf[pos..]) == Raised && table.Value() == old(table.Value())
      ensures ok ==> Instruction(env, old(table.Value()), buf[pos..]) == Got(table.Value(), buf[next..])
    {
      hide Decode, DecodeString, NextString;
      var b := buf[pos];
      assert buf[pos..][0] == b && buf[pos..][1..] == buf[pos + 1..];
      if b / 32 == 1 {
        var c;
        c, next := ReadAt(b, 5, buf, pos + 1);
        if c.None? {
          return false, next;
        }
        table.SetCapacity(c.value);
      } else if b >= 128 {
        var i;
        i, next := ReadIndex(b, 6, buf, pos + 1);
        if i.None? {
          return false, next;
        }
        var e;
        if b / 64 % 2 == 1 {
          e := StaticEntry(env, i.value);
        } else {
          e := table.GetByRelative(table.insertCount, i.value);
        }
        var value;
        value, next := ReadNextString(7, buf, next);
        if value.None? {
          return false, next;
        }
        table.Add(NameOf(e), value.value);
      } else if b / 64 == 1 {
        var name, value;
        name, next := ReadString(b, 5, buf, pos + 1);
        if name.None? {
          return false, next;
        }
        value, next := ReadNextString(7, buf, next);
        if value.None? {
          return false, next;
        }
        table.Add(name.value, value.value);
      } else {
        var i;
        i, next := ReadIndex(b, 5, buf, pos + 1);
        if i.None? {
          return false, next;
        }
        var e := table.GetByRelative(table.insertCount, i.value);
        if e.Some? {
          table.Add(e.value.name, e.value.value);
        }
      }
      ok := true;
    }

    method ProcessEncoderStream(data: seq<Byte>) returns (ok: bool)
      requires Valid()
      modifies table
      ensures Valid()
      ensures Replayed(table.Value(), ok) == Replay(env, old(table.Value()), data)
    {
      var pos := 0;
      ok := true;
      assert data[0..] == data;
      while pos < |data|
        invariant 0 <= pos <= |data| && Valid()
        invariant Replay(env, table.Value(), data[pos..]) == Replay(env, old(table.Value()), data)
      {
        ok, pos := ApplyInstruction(data, pos);
        if !ok {
          return;
        }
      }
    }

    method ReadLine(base: nat, buf: seq<Byte>, pos: nat) returns (f: Option<Field>, next: nat)
      requires Valid() && pos < |buf|
      ensures pos < next <= |buf|
      ensures f.None? ==> DecodeLine(env, table.Value(), base, buf[pos..]) == Raised
      ensures f.Some? ==> DecodeLine(env, table.Value(), base, buf[pos..]) == Got(f.value, buf[next..])
    {
      var b := buf[pos];
      assert buf[pos..][0] == b && buf[pos..][1..] == buf[pos + 1..];
      var prefix := if b >= 128 then 6 else if b / 64 == 1 || b / 16 == 1 then 4 else 3;
      if b / 32 == 1 {
        var name, value;
        name, next := ReadString(b, 3, buf, pos + 1);
        if name.None? {
          return None, next;
        }
        value, next := ReadNextString(7, buf, next);
        return (if value.None? then None else Some(Field(name.value, value.value))), next;
      }
      var i;
      i, next := ReadIndex(b, prefix, buf, pos + 1);
      if i.None? {
        return None, next;
      }
      var e;
      if b >= 64 {
        if b / (if b >= 128 then 64 else 16) % 2 == 1 {
          e := StaticEntry(env, i.value);
        } else {
          e := table.GetByRelative(base, i.value);
        }
      } else {
        if base + i.value >= U64 {
          return None, next;
        }
        e := table.GetByPostBase(base, i.value);
      }
      if b >= 128 || b / 16 == 1 {
        return Some(if e.Some? then e.value else Field([], [])), next;
      }
      var value;
      value, next := ReadNextString(7, buf, next);
      f := if value.None? then None else Some(Field(NameOf(e), value.value));
    }

    method DecodeFields(base: nat, buf: seq<Byte>, start: nat) returns (r: Outcome)
      requires Valid() && start <= |buf|
      ensures r == DecodeLines(env, table.Value(), base, buf[start..], START)
    {
      var pos, section := start, START;
      while pos < |buf|
        invariant start <= pos <= |buf|
        invariant DecodeLines(env, table.Value(), base, buf[pos..], section)
               == DecodeLines(env, table.Value(), base, buf[start..], START)
      {
        var f;
        f, pos := ReadLine(base, buf, pos);
        if f.None? {
          return Failed;
        }
        var next := Accept(section, f.value);
        if next.None? {
          return Invalid;
        }
        section := next.value;
      }
      r := Headers(section.headers);
    }

    /** Decoding reads the table and changes nothing but the remembered Required Insert Count. */
    method DecodeHeaders(bytes: seq<Byte>) returns (r: Outcome)
      requires Valid()
      modifies this
      ensures Valid() && table.Value() == old(table.Value())
      ensures r == DecodeBlock(env, table.Value(), bytes)
      ensures lastRequired == Remembered(table.Value(), old(lastRequired), bytes)
    {
      if bytes == [] {
        return Headers([]);
      }
      var encoded, pos := ReadAt(bytes[0], 8, bytes, 1);
      if encoded.None? {
        return Failed;
      }
      var required := Reconstruct(table.capacity, table.insertCount, encoded.value);
      if required.None? {
        return Failed;
      }
      lastRequired := required.value;
      if required.value > table.insertCount {
        return Blocked(required.value);
      }
      if pos == |bytes| {
        return Headers([]);
      }
      assert bytes[pos..][1..] == bytes[pos + 1..];
      var delta, next := ReadAt(bytes[pos], 7, bytes, pos + 1);
      if delta.None? {
        return Failed;
      }
      var base := BaseOf(required.value, bytes[pos] >= 128, delta.value);
      if base.None? {
        return Failed;
      }
      r := DecodeFields(base.value, bytes, next);
    }
  }
}
