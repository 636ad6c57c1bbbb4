/**
 A request stream on the server: HTTP/3 frames read from the stream's bytes, QPACK field
 sections among them, and the acceptor that decides whether a request is dispatched
 (sections 4.1 and 4.3.1 of RFC 9114).
 */
module RequestStreams {
  import opened Bytes
  import opened DynamicTables
  import opened QpackEncoding
  import opened QpackRoundTrip
  import opened Coalescing
  import Q = QpackDecoding
  import PrefixInteger
  import RequiredInsertCounts

  const MAX_FRAME_PAYLOAD := 16_777_216

  const H3_FRAME_UNEXPECTED := 0x105
  const H3_ID_ERROR := 0x108
  const H3_MESSAGE_ERROR := 0x10e

  /** ":method", ":path", ":scheme", ":status" and "GET". */
  const METHOD: seq<Byte> := [58, 109, 101, 116, 104, 111, 100]
  const PATH: seq<Byte> := [58, 112, 97, 116, 104]
  const SCHEME: seq<Byte> := [58, 115, 99, 104, 101, 109, 101]
  const STATUS: seq<Byte> := [58, 115, 116, 97, 116, 117, 115]
  const GET: seq<Byte> := [71, 69, 84]

  // ---------- frames ----------

  /** What one call of `read_frame` gives; a fault is an exception, of the validation kind or another. */
  datatype Item =
    | Data(bytes: seq<Byte>)
    | Fields(fields: seq<Field>)
    | Settings
    | PushPromise
    | Other
    | Fault(validation: bool)

  datatype Parsed = Parsed(item: Item, rest: seq<Byte>)

  predicate SettingsParse(bs: seq<Byte>)
    decreases |bs|
  {
    bs == [] ||
    match ReadVarInt(bs)
    case Raised => false
    case Got(_, after) =>
      match ReadVarInt(after)
      case Raised => false
      case Got(_, rest) => SettingsParse(rest)
  }

  /** Attempts at a field section as the table grows; running out of attempts is the timeout. */
  function Await(env: Q.Env, tables: seq<Table>, block: seq<Byte>): Item {
    if tables == [] then Fault(false)
    else match Q.DecodeBlock(env, tables[0], block)
      case Headers(fs) => Fields(fs)
      case Blocked(_) => Await(env, tables[1..], block)
      case Invalid => Fault(true)
      case Failed => Fault(false)
  }

  function DecodePayload(env: Q.Env, tables: seq<Table>, kind: nat, payload: seq<Byte>): Item {
    if kind == 0x00 then Data(payload)
    else if kind == 0x01 then Await(env, tables, payload)
    else if kind == 0x04 then (if SettingsParse(payload) then Settings else Fault(false))
    else if kind == 0x05 then PushPromise
    else if kind in {0x07, 0x0d, 0xF0700, 0xF0701} then
      (if ReadVarInt(payload).Got? then Other else Fault(false))
    else Other
  }

  function ReadFrame(env: Q.Env, tables: seq<Table>, bs: seq<Byte>): (p: Parsed)
    ensures p.item.Fault? || |p.rest| < |bs|
  {
    match ReadVarInt(bs)
    case Raised => Parsed(Fault(false), [])
    case Got(kind, after) =>
      match ReadVarInt(after)
      case Raised => Parsed(Fault(false), [])
      case Got(len, rest) =>
        if len > MAX_FRAME_PAYLOAD || len > |rest| then Parsed(Fault(false), [])
        else Parsed(DecodePayload(env, tables, kind, rest[..len]), rest[len..])
  }

  /** The tables the decoder goes through while it waits for a frame, by frame number. */
  type Tables = nat -> seq<Table>

  /** Everything on the stream from frame number `k` on, up to the first fault. */
  function Items(env: Q.Env, tables: Tables, bs: seq<Byte>, k: nat): (items: seq<Item>)
    ensures items != []
    decreases |bs|
  {
    var p := ReadFrame(env, tables(k), bs);
    if p.item.Fault? then [p.item] else [p.item] + Items(env, tables, p.rest, k + 1)
  }

  // ---------- the acceptor ----------

  datatype Mode = Router | LowLevel | Unserved

  datatype Config = Config(metricsPath: seq<Byte>, mode: Mode)

  datatype Request = Request(headers: seq<Field>, body: seq<Byte>)

  /** Connection closes, handler calls and metrics answers, in the order they happen. */
  datatype Outcome = Outcome(closes: seq<nat>, calls: seq<Request>, metrics: bool)

  const NOTHING := Outcome([], [], false)

  function Close(code: nat): Outcome { NOTHING.(closes := [code]) }

  predicate Has(headers: seq<Field>, name: seq<Byte>) {
    exists i :: 0 <= i < |headers| && headers[i].name == name
  }

  predicate HasPair(headers: seq<Field>, name: seq<Byte>, value: seq<Byte>) { Field(name, value) in headers }

  predicate IsMetrics(config: Config, headers: seq<Field>) {
    config.metricsPath != [] && HasPair(headers, PATH, config.metricsPath) && HasPair(headers, METHOD, GET)
  }

  function Dispatch(config: Config, headers: seq<Field>, body: seq<Byte>): Outcome {
    if IsMetrics(config, headers) then NOTHING.(metrics := true)
    else if config.mode == Unserved then NOTHING
    else NOTHING.(calls := [Request(headers, body)])
  }

  /** The body loop over the frames after the first. */
  function ReadBody(config: Config, headers: seq<Field>, items: seq<Item>, body: seq<Byte>): Outcome
    decreases |items|
  {
    if items == [] then Dispatch(config, headers, body)
    else match items[0]
      case Data(bytes) => ReadBody(config, headers, items[1..], body + bytes)
      case Settings => Close(H3_FRAME_UNEXPECTED)
      case PushPromise => Close(H3_ID_ERROR)
      case _ => Dispatch(config, headers, body)
  }

  predicate Complete(h: seq<Field>) { Has(h, METHOD) && Has(h, PATH) && Has(h, SCHEME) && !Has(h, STATUS) }

  function Handle(config: Config, items: seq<Item>): Outcome
    requires items != []
  {
    match items[0]
    case Fault(validation) => if validation then Close(H3_MESSAGE_ERROR) else NOTHING
    case Data(_) => Close(H3_FRAME_UNEXPECTED)
    case Settings => Close(H3_FRAME_UNEXPECTED)
    case PushPromise => Close(H3_ID_ERROR)
    case Other => NOTHING
    case Fields(h) => if Complete(h) then ReadBody(config, h, items[1..], []) else Close(H3_MESSAGE_ERROR)
  }

  method HasKey(headers: seq<Field>, name: seq<Byte>) returns (yes: bool)
    ensures yes <==> Has(headers, name)
  {
    yes := false;
    for i := 0 to |headers|
      invariant !yes && forall j :: 0 <= j < i ==> headers[j].name != name
    {
      if headers[i].name == name {
        return true;
      }
    }
  }

  /** The acceptor reads frame by frame from a cursor; what it does is decided by the frames alone. */
  method HandleRequest(config: Config, env: Q.Env, tables: Tables, stream: seq<Byte>) returns (r: Outcome)
    ensures r == Handle(config, Items(env, tables, stream, 0))
  {
    var p := ReadFrame(env, tables(0), stream);
    match p.item {
      case Fault(validation) => return if validation then Close(H3_MESSAGE_ERROR) else NOTHING;
      case Data(_) => return Close(H3_FRAME_UNEXPECTED);
      case Settings => return Close(H3_FRAME_UNEXPECTED);
      case PushPromise => return Close(H3_ID_ERROR);
      case Other => return NOTHING;
      case Fields(h) => {
        var method_ := HasKey(h, METHOD);
        var path := HasKey(h, PATH);
        var scheme := HasKey(h, SCHEME);
        var status := HasKey(h, STATUS);
        if !(method_ && path && scheme) || status {
          return Close(H3_MESSAGE_ERROR);
        }
        assert Items(env, tables, stream, 0)[1..] == Items(env, tables, p.rest, 1);
        r := CollectBody(config, env, tables, h, p.rest);
      }
    }
  }

  method CollectBody(config: Config, env: Q.Env, tables: Tables, h: seq<Field>, stream: seq<Byte>)
    returns (r: Outcome)
    ensures r == ReadBody(config, h, Items(env, tables, stream, 1), [])
  {
    var rest, k, body := stream, 1, [];
    while true
      invariant ReadBody(config, h, Items(env, tables, rest, k), body)
             == ReadBody(config, h, Items(env, tables, stream, 1), [])
      decreases |rest|
    {
      var p := ReadFrame(env, tables(k), rest);
      ghost var items := Items(env, tables, rest, k);
      assert items[0] == p.item;
      match p.item {
        case Data(bytes) =>
          assert items[1..] == Items(env, tables, p.rest, k + 1);
          body, rest, k := body + bytes, p.rest, k + 1;
        case Settings => return Close(H3_FRAME_UNEXPECTED);
        case PushPromise => return Close(H3_ID_ERROR);
        case _ => return Dispatch(config, h, body);
      }
    }
  }

  // ---------- when a handler runs, and with what ----------

  /** Frame `k` is the first after the request headers that is not DATA. */
  ghost predicate BodyEnds(items: seq<Item>, k: nat) {
    1 <= k < |items| && !items[k].Data? && forall i :: 1 <= i < k ==> items[i].Data?
  }

  function DataIn(item: Item): seq<Byte> { if item.Data? then item.bytes else [] }

  /** The DATA payloads among the frames, concatenated. */
  function DataOf(items: seq<Item>): seq<Byte> { FlatMap(DataIn, items) }

  /** The error code a frame is answered with, where it is not acceptable. */
  function ErrorOf(item: Item): nat {
    match item
    case PushPromise => H3_ID_ERROR
    case Fields(_) => H3_MESSAGE_ERROR
    case Fault(_) => H3_MESSAGE_ERROR
    case _ => H3_FRAME_UNEXPECTED
  }

  predicate Forbidden(item: Item) { item.Settings? || item.PushPromise? }

  lemma {:induction false} BodyRead(config: Config, h: seq<Field>, items: seq<Item>, k: nat, body: seq<Byte>)
    requires k < |items| && !items[k].Data? && forall i :: 0 <= i < k ==> items[i].Data?
    ensures Forbidden(items[k]) ==> ReadBody(config, h, items, body) == Close(ErrorOf(items[k]))
    ensures !Forbidden(items[k]) ==> ReadBody(config, h, items, body) == Dispatch(config, h, body + DataOf(items[..k]))
    decreases k
  {
    if k == 0 {
      assert body + DataOf(items[..0]) == body;
    } else {
      BodyRead(config, h, items[1..], k - 1, body + items[0].bytes);
      assert items[..k][1..] == items[1..][..k - 1];
      assert body + items[0].bytes + DataOf(items[1..][..k - 1]) == body + DataOf(items[..k]);
    }
  }

  predicate Served(config: Config, h: seq<Field>) { config.mode != Unserved && !IsMetrics(config, h) }

  /** The first frame makes a request. */
  predicate Opens(items: seq<Item>)
    requires items != []
  {
    items[0].Fields? && Complete(items[0].fields)
  }

  /**
   The handler runs at most once, and exactly if the first frame is a complete field section
   and the frame that ends the body is not SETTINGS or PUSH_PROMISE; it gets those headers
   and exactly the DATA up to that frame.  The connection is closed exactly for a forbidden
   frame or bad headers, and never when a handler runs or metrics are served.
   */
  lemma HandlerRunsIff(config: Config, items: seq<Item>, k: nat)
    requires items != [] && (items[0].Fields? ==> BodyEnds(items, k))
    ensures var r := Handle(config, items);
      var reaches := Opens(items) && !Forbidden(items[k]);
      && r.calls == (if reaches && Served(config, items[0].fields)
                     then [Request(items[0].fields, DataOf(items[1..k]))] else [])
      && (r.metrics <==> reaches && IsMetrics(config, items[0].fields))
      && r.closes == (if reaches || items[0].Other? || items[0] == Fault(false) then []
                      else if Opens(items) then [ErrorOf(items[k])]
                      else [ErrorOf(items[0])])
  {
    if Opens(items) {
      BodyRead(config, items[0].fields, items[1..], k - 1, []);
      assert items[1..][k - 1] == items[k];
      assert items[1..][..k - 1] == items[1..k];
      assert [] + DataOf(items[1..k]) == DataOf(items[1..k]);
    }
  }

  /** A stream always ends in a fault, so a first field section is always followed by the end of a body. */
  lemma {:induction false} StreamEnds(env: Q.Env, tables: Tables, bs: seq<Byte>, k: nat)
    ensures var items := Items(env, tables, bs, k);
      && items[|items| - 1].Fault? && forall i :: 0 <= i < |items| - 1 ==> !items[i].Fault?
    decreases |bs|
  {
    hide ReadFrame;
    var p := ReadFrame(env, tables(k), bs);
    if !p.item.Fault? {
      StreamEnds(env, tables, p.rest, k + 1);
    }
  }

  lemma {:induction false} FirstNonData(items: seq<Item>, from: nat) returns (k: nat)
    requires 1 <= from < |items| && items[|items| - 1].Fault? && forall i :: 1 <= i < from ==> items[i].Data?
    ensures BodyEnds(items, k)
    decreases |items| - from
  {
    if items[from].Data? {
      k := FirstNonData(items, from + 1);
    } else {
      k := from;
    }
  }

  // ---------- the field section behind the headers ----------

  /** All field lines, without validation. */
  function Lines(env: Q.Env, t: Table, base: nat, bs: seq<Byte>): Option<seq<Field>>
    decreases |bs|
  {
    if bs == [] then Some([])
    else match Q.DecodeLine(env, t, base, bs)
      case Raised => None
      case Got(f, rest) =>
        match Lines(env, t, base, rest)
        case None => None
        case Some(fs) => Some([f] + fs)
  }

  lemma {:induction false} LinesValidated(env: Q.Env, t: Table, base: nat, bs: seq<Byte>, s: Q.Section)
    ensures match Lines(env, t, base, bs)
      case Some(fs) => Q.DecodeLines(env, t, base, bs, s) == Validate(fs, s)
      case None => !Q.DecodeLines(env, t, base, bs, s).Headers?
    decreases |bs|
  {
    if bs != [] {
      var r := Q.DecodeLine(env, t, base, bs);
      if r.Got? {
        var next := Q.Accept(s, r.value);
        if next.Some? {
          LinesValidated(env, t, base, r.rest, next.value);
        }
        var fs := Lines(env, t, base, r.rest);
        assert fs.Some? ==> ([r.value] + fs.value)[1..] == fs.value;
      }
    }
  }

  /** Field lines are accepted exactly when they parse and the pseudo-headers come first, each once. */
  lemma LinesAcceptedIff(env: Q.Env, t: Table, base: nat, bs: seq<Byte>)
    ensures var fs := Lines(env, t, base, bs);
      && (Q.DecodeLines(env, t, base, bs, Q.START).Headers? <==> fs.Some? && WellOrdered(fs.value))
      && (fs.Some? && WellOrdered(fs.value) ==>
            Q.DecodeLines(env, t, base, bs, Q.START) == Q.Headers(PutAll([], fs.value)))
  {
    LinesValidated(env, t, base, bs, Q.START);
    var fs := Lines(env, t, base, bs);
    if fs.Some? {
      ValidateExact(fs.value, Q.START);
    }
  }

  /** The Base of a section and the bytes of its field lines; none if its prefix raises or blocks. */
  function SectionParts(t: Table, block: seq<Byte>): Option<(nat, seq<Byte>)> {
    if block == [] then Some((0, []))
    else match PrefixInteger.Decode(block[0], 8, block[1..])
      case Raised => None
      case Got(encoded, body) =>
        match RequiredInsertCounts.Reconstruct(t.capacity, t.Inserted(), encoded)
        case None => None
        case Some(required) =>
          if required > t.Inserted() then None
          else if body == [] then Some((0, []))
          else match PrefixInteger.Decode(body[0], 7, body[1..])
            case Raised => None
            case Got(delta, rest) =>
              match Q.BaseOf(required, body[0] >= 128, delta)
              case None => None
              case Some(base) => Some((base, rest))
  }

  /** All field lines of a section, without validation. */
  function SectionLines(env: Q.Env, t: Table, block: seq<Byte>): Option<seq<Field>> {
    match SectionParts(t, block)
    case None => None
    case Some((base, rest)) => Lines(env, t, base, rest)
  }

  /** A section is accepted exactly when its own lines parse and are well ordered; the map is their assignment. */
  lemma SectionAcceptedIff(env: Q.Env, t: Table, block: seq<Byte>)
    ensures var lines := SectionLines(env, t, block);
      && (Q.DecodeBlock(env, t, block).Headers? <==> lines.Some? && WellOrdered(lines.value))
      && (lines.Some? && WellOrdered(lines.value) ==>
            Q.DecodeBlock(env, t, block) == Q.Headers(PutAll([], lines.value)))
  {
    hide Q.DecodeLines, Lines, PrefixInteger.Decode, RequiredInsertCounts.Reconstruct;
    var parts := SectionParts(t, block);
    if parts.Some? {
      LinesAcceptedIff(env, t, parts.value.0, parts.value.1);
      if parts.value.1 == [] {
        NoLines(env, t, parts.value.0);
      }
    }
  }

  lemma NoLines(env: Q.Env, t: Table, base: nat)
    ensures Lines(env, t, base, []) == Some([]) && Q.DecodeLines(env, t, base, [], Q.START) == Q.Headers([])
  {
  }

  lemma {:induction false} PutHas(headers: seq<Field>, f: Field, name: seq<Byte>)
    ensures Has(Q.Put(headers, f), name) <==> Has(headers, name) || f.name == name
  {
    var r := Q.Put(headers, f);
    if headers == [] {
      assert r[0] == f;
    } else if headers[0].name == f.name {
      assert r[0] == f && headers[0].name == f.name;
      assert forall i :: 1 <= i < |headers| ==> r[i] == headers[i];
    } else {
      var tail := headers[1..];
      PutHas(tail, f, name);
      HasCons(headers[0], tail, name);
      HasCons(headers[0], Q.Put(tail, f), name);
      assert headers == [headers[0]] + tail;
    }
  }

  lemma HasCons(f: Field, rest: seq<Field>, name: seq<Byte>)
    ensures Has([f] + rest, name) <==> f.name == name || Has(rest, name)
  {
    var all := [f] + rest;
    assert all[0] == f && forall i :: 0 <= i < |rest| ==> all[i + 1] == rest[i];
  }

  /** The header map has a name exactly if some field line carries it. */
  lemma {:induction false} PutAllHas(headers: seq<Field>, fs: seq<Field>, name: seq<Byte>)
    requires name != []
    ensures Has(PutAll(headers, fs), name) <==> Has(headers, name) || Has(fs, name)
    decreases |fs|
  {
    if fs != [] {
      var next := if fs[0].name == [] then headers else Q.Put(headers, fs[0]);
      PutHas(headers, fs[0], name);
      PutAllHas(next, fs[1..], name);
      HasCons(fs[0], fs[1..], name);
      assert fs == [fs[0]] + fs[1..];
    }
  }

  // ---------- the whole stream ----------

  /** The table against which a section is finally decoded: the first that does not block it. */
  function Settled(env: Q.Env, tables: seq<Table>, block: seq<Byte>): (t: Option<Table>)
    ensures t.Some? ==> t.value in tables
  {
    if tables == [] then None
    else if Q.DecodeBlock(env, tables[0], block).Blocked? then Settled(env, tables[1..], block)
    else Some(tables[0])
  }

  lemma {:induction false} AwaitSettled(env: Q.Env, tables: seq<Table>, block: seq<Byte>)
    ensures var t := Settled(env, tables, block);
      && (Await(env, tables, block).Fields? <==> t.Some? && Q.DecodeBlock(env, t.value, block).Headers?)
      && (Await(env, tables, block).Fields? ==>
            Q.DecodeBlock(env, t.value, block) == Q.Headers(Await(env, tables, block).fields))
  {
    hide Q.DecodeBlock;
    if tables != [] {
      AwaitSettled(env, tables[1..], block);
    }
  }

  /** Type and payload of the frame at the front of the bytes. */
  function FirstFrame(bs: seq<Byte>): Option<(nat, seq<Byte>)> {
    match ReadVarInt(bs)
    case Raised => None
    case Got(kind, after) =>
      match ReadVarInt(after)
      case Raised => None
      case Got(len, rest) =>
        if len > MAX_FRAME_PAYLOAD || len > |rest| then None else Some((kind, rest[..len]))
  }

  /** The field lines of the first frame of a stream, if that is a HEADERS frame. */
  function RequestLines(env: Q.Env, tables: seq<Table>, bs: seq<Byte>): Option<seq<Field>> {
    match FirstFrame(bs)
    case None => None
    case Some((kind, payload)) =>
      if kind != 0x01 then None
      else match Settled(env, tables, payload)
        case None => None
        case Some(t) => SectionLines(env, t, payload)
  }

  lemma FirstItemIff(env: Q.Env, tables: Tables, bs: seq<Byte>)
    ensures var lines, first := RequestLines(env, tables(0), bs), Items(env, tables, bs, 0)[0];
      && (first.Fields? <==> lines.Some? && WellOrdered(lines.value))
      && (first.Fields? ==> first.fields == PutAll([], lines.value))
  {
    hide ReadVarInt, Await, SettingsParse, SectionLines, WellOrdered, Q.DecodeBlock, PutAll;
    var frame := FirstFrame(bs);
    if frame.Some? && frame.value.0 == 0x01 {
      var t := Settled(env, tables(0), frame.value.1);
      AwaitSettled(env, tables(0), frame.value.1);
      if t.Some? {
        SectionAcceptedIff(env, t.value, frame.value.1);
      }
    }
  }

  /**
   Any bytes at all on the stream: a handler runs if and only if the first frame is HEADERS, its
   own field lines parse with every pseudo-header before the regular ones and none twice, with
   :method, :path and :scheme among them and :status not, and the first frame after the DATA is
   neither SETTINGS nor PUSH_PROMISE.  It runs once, with the map of those lines and that DATA.
   */
  lemma HandlerOnBytesIff(config: Config, env: Q.Env, tables: Tables, bs: seq<Byte>) returns (k: nat)
    ensures var items, lines := Items(env, tables, bs, 0), RequestLines(env, tables(0), bs);
      var good := lines.Some? && WellOrdered(lines.value) && Complete(lines.value);
      && (good ==> BodyEnds(items, k))
      && Handle(config, items).calls
         == if good && Served(config, PutAll([], lines.value)) && !Forbidden(items[k])
            then [Request(PutAll([], lines.value), DataOf(items[1..k]))] else []
  {
    hide ReadFrame, Handle, Complete, WellOrdered, PutAll, RequestLines, IsMetrics, DataOf;
    k := 0;
    var items := Items(env, tables, bs, 0);
    FirstItemIff(env, tables, bs);
    if items[0].Fields? {
      StreamEnds(env, tables, bs, 0);
      k := FirstNonData(items, 1);
      CompleteLines(RequestLines(env, tables(0), bs).value);
    }
    HandlerRunsIff(config, items, k);
  }

  lemma CompleteLines(lines: seq<Field>)
    ensures Complete(PutAll([], lines)) <==> Complete(lines)
  {
    PutAllHas([], lines, METHOD);
    PutAllHas([], lines, PATH);
    PutAllHas([], lines, SCHEME);
    PutAllHas([], lines, STATUS);
  }

  function FrameBytes(kind: nat, payload: seq<Byte>): seq<Byte>
    requires kind < VARINT_LIMIT && |payload| < VARINT_LIMIT
  {
    VarInt(kind) + VarInt(|payload|) + payload
  }

  predicate Small(payload: seq<Byte>) { |payload| <= MAX_FRAME_PAYLOAD }

  function DataFrames(chunks: seq<seq<Byte>>): seq<Byte>
    requires forall i :: 0 <= i < |chunks| ==> Small(chunks[i])
  {
    if chunks == [] then []
    else
      assert Small(chunks[0]);
      FrameBytes(0x00, chunks[0]) + DataFrames(chunks[1..])
  }

  lemma FrameReadBack(env: Q.Env, tables: seq<Table>, kind: nat, payload: seq<Byte>, rest: seq<Byte>)
    requires kind < VARINT_LIMIT && Small(payload)
    ensures ReadFrame(env, tables, FrameBytes(kind, payload) + rest)
         == Parsed(DecodePayload(env, tables, kind, payload), rest)
  {
    hide VarInt, ReadVarInt, DecodePayload;
    var after := VarInt(|payload|) + (payload + rest);
    assert FrameBytes(kind, payload) + rest == VarInt(kind) + after;
    VarIntRoundTrip(kind, after);
    VarIntRoundTrip(|payload|, payload + rest);
    assert (payload + rest)[..|payload|] == payload && (payload + rest)[|payload|..] == rest;
  }

  function DataItems(chunks: seq<seq<Byte>>): (items: seq<Item>)
    ensures |items| == |chunks| && forall i :: 0 <= i < |items| ==> items[i].Data?
  {
    if chunks == [] then [] else [Data(chunks[0])] + DataItems(chunks[1..])
  }

  /** DATA frames read back one by one, whatever follows them. */
  lemma {:induction false} DataReadBack(env: Q.Env, tables: Tables, chunks: seq<seq<Byte>>, after: seq<Byte>, k: nat)
    requires forall i :: 0 <= i < |chunks| ==> Small(chunks[i])
    ensures Items(env, tables, DataFrames(chunks) + after, k)
         == DataItems(chunks) + Items(env, tables, after, k + |chunks|)
    decreases |chunks|
  {
    hide ReadFrame, FrameBytes;
    if chunks == [] {
      assert DataFrames(chunks) + after == after;
    } else {
      var more := DataFrames(chunks[1..]);
      assert Small(chunks[0]);
      Assoc(FrameBytes(0x00, chunks[0]), more, after);
      DataStep(env, tables, chunks[0], more + after, k);
      DataReadBack(env, tables, chunks[1..], after, k + 1);
      Assoc([Data(chunks[0])], DataItems(chunks[1..]), Items(env, tables, after, k + |chunks|));
    }
  }

  lemma DataStep(env: Q.Env, tables: Tables, chunk: seq<Byte>, after: seq<Byte>, k: nat)
    requires Small(chunk)
    ensures Items(env, tables, FrameBytes(0x00, chunk) + after, k) == [Data(chunk)] + Items(env, tables, after, k + 1)
  {
    hide ReadFrame, FrameBytes;
    FrameReadBack(env, tables(k), 0x00, chunk, after);
  }

  lemma {:induction false} DataItemsFlatten(chunks: seq<seq<Byte>>)
    ensures DataOf(DataItems(chunks)) == Flatten(chunks)
    decreases |chunks|
  {
    if chunks != [] {
      DataItemsFlatten(chunks[1..]);
      assert DataItems(chunks)[1..] == DataItems(chunks[1..]);
    }
  }

  /** Every attempt but the last finds the table behind; the last finds every referenced entry. */
  ghost predicate CatchesUp(env: Q.Env, t: Table, tables: seq<Table>, hs: seq<Field>) {
    && tables != []
    && (forall i :: 0 <= i < |tables| ==> Ordinary(env, t, tables[i], hs))
    && (forall i :: 0 <= i < |tables| - 1 ==> tables[i].Inserted() < t.Inserted())
    && Extends(tables[|tables| - 1], t)
    && forall i :: 0 <= i < |hs| ==> Survives(env.statics, t, tables[|tables| - 1], hs[i])
  }

  lemma {:induction false} AwaitReturnsHeaders(env: Q.Env, t: Table, tables: seq<Table>, hs: seq<Field>)
    requires CatchesUp(env, t, tables, hs) && DistinctNames(hs) && NonEmptyNames(hs) && WellOrdered(hs)
    ensures Await(env, tables, Block(env.statics, t, hs)) == Fields(hs)
    decreases |tables|
  {
    if |tables| == 1 {
      AheadNeverWrong(env, t, tables[0], hs);
    } else {
      BehindBlocks(env, t, tables[0], hs);
      AwaitReturnsHeaders(env, t, tables[1..], hs);
    }
  }

  /** A request that can be written and will be found complete. */
  ghost predicate Deliverable(env: Q.Env, t: Table, tables: seq<Table>, hs: seq<Field>, chunks: seq<seq<Byte>>) {
    && CatchesUp(env, t, tables, hs)
    && DistinctNames(hs) && NonEmptyNames(hs) && WellOrdered(hs) && Complete(hs)
    && Small(Block(env.statics, t, hs)) && forall i :: 0 <= i < |chunks| ==> Small(chunks[i])
  }

  function Message(block: seq<Byte>, chunks: seq<seq<Byte>>): seq<Byte>
    requires Small(block) && forall i :: 0 <= i < |chunks| ==> Small(chunks[i])
  {
    FrameBytes(0x01, block) + DataFrames(chunks)
  }

  /**
   End to end: a message written as one HEADERS frame and any DATA frames is the header map
   and the body, however often the field section blocks first; what follows decides the rest.
   */
  lemma MessageReadBack(
      env: Q.Env, t: Table, tables: Tables, hs: seq<Field>, chunks: seq<seq<Byte>>, after: seq<Byte>)
    requires Deliverable(env, t, tables(0), hs, chunks)
    ensures Items(env, tables, Message(Block(env.statics, t, hs), chunks) + after, 0)
         == [Fields(hs)] + DataItems(chunks) + Items(env, tables, after, 1 + |chunks|)
  {
    hide Items, Block, FrameBytes, DataFrames, Complete, WellOrdered;
    var block := Block(env.statics, t, hs);
    Assoc(FrameBytes(0x01, block), DataFrames(chunks), after);
    HeadersStep(env, t, tables, hs, DataFrames(chunks) + after);
    DataReadBack(env, tables, chunks, after, 1);
    Assoc([Fields(hs)], DataItems(chunks), Items(env, tables, after, 1 + |chunks|));
  }

  lemma EmptyStream(env: Q.Env, tables: Tables, k: nat)
    ensures Items(env, tables, [], k) == [Fault(false)]
  {
  }

  /** When the stream ends there, the handler gets exactly the message. */
  lemma RequestDelivered(config: Config, env: Q.Env, t: Table, tables: Tables, hs: seq<Field>, chunks: seq<seq<Byte>>)
    ensures Deliverable(env, t, tables(0), hs, chunks) && Served(config, hs) ==>
      Handle(config, Items(env, tables, Message(Block(env.statics, t, hs), chunks), 0))
      == NOTHING.(calls := [Request(hs, Flatten(chunks))])
  {
    hide Items, Block, Message, Handle, WellOrdered, CatchesUp;
    if Deliverable(env, t, tables(0), hs, chunks) && Served(config, hs) {
      var message := Message(Block(env.statics, t, hs), chunks);
      assert message + [] == message;
      MessageReadBack(env, t, tables, hs, chunks, []);
      EmptyStream(env, tables, 1 + |chunks|);
      BodyDelivered(config, hs, chunks, Fault(false), []);
      var items := [Fields(hs)] + DataItems(chunks) + [Fault(false)];
      assert items + [] == items;
    }
  }

  // ---------- streams that end too early ----------

  lemma VarIntCut(v: nat, k: nat)
    requires v < VARINT_LIMIT && k < |VarInt(v)|
    ensures ReadVarInt(VarInt(v)[..k]) == Raised
  {
    Powers();
    if k > 0 {
      assert VarInt(v)[..k][0] == VarInt(v)[0];
    }
  }

  /** A frame cut anywhere cannot be read. */
  lemma FrameCut(env: Q.Env, tables: seq<Table>, kind: nat, payload: seq<Byte>, k: nat)
    requires kind < VARINT_LIMIT && Small(payload) && k < |FrameBytes(kind, payload)|
    ensures ReadFrame(env, tables, FrameBytes(kind, payload)[..k]).item == Fault(false)
  {
    hide VarInt, ReadVarInt, DecodePayload;
    var first, second := VarInt(kind), VarInt(|payload|);
    var bs := FrameBytes(kind, payload)[..k];
    if k < |first| {
      assert bs == first[..k];
      VarIntCut(kind, k);
    } else if k < |first| + |second| {
      var part := second[..k - |first|];
      assert bs == first + part;
      VarIntRoundTrip(kind, part);
      VarIntCut(|payload|, k - |first|);
    } else {
      var part := payload[..k - |first| - |second|];
      assert bs == first + (second + part);
      VarIntRoundTrip(kind, second + part);
      VarIntRoundTrip(|payload|, part);
    }
  }

  /** How many DATA frames are whole within the first `m` bytes. */
  function WholeFrames(chunks: seq<seq<Byte>>, m: nat): (j: nat)
    requires forall i :: 0 <= i < |chunks| ==> Small(chunks[i])
    ensures j <= |chunks|
    decreases |chunks|
  {
    if chunks == [] then 0
    else
      assert Small(chunks[0]);
      var frame := |FrameBytes(0x00, chunks[0])|;
      if m < frame then 0 else 1 + WholeFrames(chunks[1..], m - frame)
  }

  lemma {:induction false} DataCut(env: Q.Env, tables: Tables, chunks: seq<seq<Byte>>, m: nat, k: nat)
    requires forall i :: 0 <= i < |chunks| ==> Small(chunks[i])
    requires m <= |DataFrames(chunks)|
    ensures Items(env, tables, DataFrames(chunks)[..m], k)
         == DataItems(chunks[..WholeFrames(chunks, m)]) + [Fault(false)]
    decreases |chunks|
  {
    hide ReadFrame, FrameBytes;
    if chunks == [] {
      EmptyStream(env, tables, k);
      assert DataFrames(chunks)[..m] == [];
    } else {
      assert Small(chunks[0]);
      var frame, more := FrameBytes(0x00, chunks[0]), DataFrames(chunks[1..]);
      if m < |frame| {
        assert DataFrames(chunks)[..m] == frame[..m];
        FrameCut(env, tables(k), 0x00, chunks[0], m);
      } else {
        var j := WholeFrames(chunks[1..], m - |frame|);
        assert DataFrames(chunks)[..m] == frame + more[..m - |frame|];
        DataStep(env, tables, chunks[0], more[..m - |frame|], k);
        DataCut(env, tables, chunks[1..], m - |frame|, k + 1);
        assert chunks[..1 + j][1..] == chunks[1..][..j];
        Assoc([Data(chunks[0])], DataItems(chunks[1..][..j]), [Fault(false)]);
      }
    }
  }

  /**
   A stream that ends anywhere inside a message: inside the HEADERS frame nothing happens, and
   after it the handler runs with the DATA frames that are whole, as if the message were complete.
   */
  lemma RequestCut(
      config: Config, env: Q.Env, t: Table, tables: Tables, hs: seq<Field>, chunks: seq<seq<Byte>>, m: nat)
    ensures Deliverable(env, t, tables(0), hs, chunks) && m <= |Message(Block(env.statics, t, hs), chunks)| ==>
      var block := Block(env.statics, t, hs);
      var frame := |FrameBytes(0x01, block)|;
      Handle(config, Items(env, tables, Message(block, chunks)[..m], 0))
      == if m < frame then NOTHING
         else Dispatch(config, hs, Flatten(chunks[..WholeFrames(chunks, m - frame)]))
  {
    hide ReadFrame, Block, FrameBytes, DataFrames, WellOrdered, Complete, CatchesUp, Dispatch, WholeFrames;
    if Deliverable(env, t, tables(0), hs, chunks) && m <= |Message(Block(env.statics, t, hs), chunks)| {
      var block := Block(env.statics, t, hs);
      var frame, data := FrameBytes(0x01, block), DataFrames(chunks);
      if m < |frame| {
        assert Message(block, chunks)[..m] == frame[..m];
        FrameCut(env, tables(0), 0x01, block, m);
      } else {
        var j := WholeFrames(chunks, m - |frame|);
        assert Message(block, chunks)[..m] == frame + data[..m - |frame|];
        HeadersStep(env, t, tables, hs, data[..m - |frame|]);
        DataCut(env, tables, chunks, m - |frame|, 1);
        BodyDelivered(config, hs, chunks[..j], Fault(false), []);
        var items := [Fields(hs)] + DataItems(chunks[..j]) + [Fault(false)];
        Assoc([Fields(hs)], DataItems(chunks[..j]), [Fault(false)]);
        assert items + [] == items;
      }
    }
  }

  /** What a frame of this type and payload is, when it ends the body. */
  function BodyOutcome(config: Config, hs: seq<Field>, body: seq<Byte>, kind: nat, payload: seq<Byte>): Outcome {
    if kind == 0x04 && SettingsParse(payload) then Close(0x105)
    else if kind == 0x05 then Close(0x108)
    else Dispatch(config, hs, body)
  }

  /** When another frame follows, its type decides, and nothing after it matters. */
  lemma RequestInterrupted(
      config: Config, env: Q.Env, t: Table, tables: Tables, hs: seq<Field>, chunks: seq<seq<Byte>>,
      kind: nat, payload: seq<Byte>, rest: seq<Byte>)
    requires 0 < kind < VARINT_LIMIT && Small(payload)
    ensures Deliverable(env, t, tables(0), hs, chunks) ==>
      var stream := Message(Block(env.statics, t, hs), chunks) + (FrameBytes(kind, payload) + rest);
      Handle(config, Items(env, tables, stream, 0)) == BodyOutcome(config, hs, Flatten(chunks), kind, payload)
  {
    hide ReadFrame, Block, Message, FrameBytes, Handle, WellOrdered, CatchesUp, SettingsParse, Dispatch;
    if Deliverable(env, t, tables(0), hs, chunks) {
      var after, k := FrameBytes(kind, payload) + rest, 1 + |chunks|;
      MessageReadBack(env, t, tables, hs, chunks, after);
      FrameReadBack(env, tables(k), kind, payload, rest);
      AwaitIsNoData(env, tables(k), payload);
      var item := DecodePayload(env, tables(k), kind, payload);
      var items := Items(env, tables, after, k);
      assert items == [item] + items[1..];
      BodyDelivered(config, hs, chunks, item, items[1..]);
      Assoc([Fields(hs)] + DataItems(chunks), [item], items[1..]);
    }
  }

  lemma {:induction false} AwaitIsNoData(env: Q.Env, tables: seq<Table>, block: seq<Byte>)
    ensures Await(env, tables, block).Fields? || Await(env, tables, block).Fault?
  {
    if tables != [] {
      AwaitIsNoData(env, tables[1..], block);
    }
  }

  lemma HeadersStep(env: Q.Env, t: Table, tables: Tables, hs: seq<Field>, rest: seq<Byte>)
    requires CatchesUp(env, t, tables(0), hs) && DistinctNames(hs) && NonEmptyNames(hs) && WellOrdered(hs)
    requires Small(Block(env.statics, t, hs))
    ensures Items(env, tables, FrameBytes(0x01, Block(env.statics, t, hs)) + rest, 0)
         == [Fields(hs)] + Items(env, tables, rest, 1)
  {
    FrameReadBack(env, tables(0), 0x01, Block(env.statics, t, hs), rest);
    AwaitReturnsHeaders(env, t, tables(0), hs);
  }

  lemma BodyDelivered(config: Config, hs: seq<Field>, chunks: seq<seq<Byte>>, last: Item, rest: seq<Item>)
    requires Complete(hs) && !last.Data?
    ensures Handle(config, [Fields(hs)] + DataItems(chunks) + [last] + rest)
         == if Forbidden(last) then Close(ErrorOf(last)) else Dispatch(config, hs, Flatten(chunks))
  {
    hide Complete, Dispatch, ErrorOf;
    var items, after := [Fields(hs)] + DataItems(chunks) + [last] + rest, DataItems(chunks) + [last] + rest;
    assert items[1..] == after && after[..|chunks|] == DataItems(chunks);
    DataItemsFlatten(chunks);
    BodyRead(config, hs, after, |chunks|, []);
    assert [] + Flatten(chunks) == Flatten(chunks);
  }

  // ---------- frames that ought to be ignored ----------

  /** The first frame at or after a position that is not DATA. */
  function BodyEnd(items: seq<Item>, from: nat): (k: nat)
    requires from <= |items|
    ensures from <= k <= |items| && (k < |items| ==> !items[k].Data?)
    ensures forall i :: from <= i < k ==> items[i].Data?
    decreases |items| - from
  {
    if from < |items| && items[from].Data? then BodyEnd(items, from + 1) else from
  }

  /** As every stream does. */
  predicate EndsInFault(items: seq<Item>) { items != [] && items[|items| - 1].Fault? }

  /** The frames cause no action at all. */
  predicate Quiet(config: Config, items: seq<Item>)
    requires EndsInFault(items)
  {
    || items[0].Other? || items[0] == Fault(false)
    || (Opens(items) && !Forbidden(items[BodyEnd(items, 1)])
        && config.mode == Unserved && !IsMetrics(config, items[0].fields))
  }

  lemma QuietIff(config: Config, items: seq<Item>)
    requires EndsInFault(items)
    ensures Handle(config, items) == NOTHING <==> Quiet(config, items)
  {
    hide Handle, Complete, IsMetrics, DataOf;
    HandlerRunsIff(config, items, if items[0].Fields? then BodyEnd(items, 1) else 0);
  }

  /** Whether an unknown frame at position `k` makes no difference, by what stands around it. */
  predicate IgnoredAt(config: Config, items: seq<Item>, k: nat)
    requires EndsInFault(items) && k < |items| && items[k].Other?
  {
    if k == 0 then Quiet(config, items[1..])
    else if !Opens(items) || BodyEnd(items, 1) < k then true
    else
      var j := BodyEnd(items, k + 1);
      !Forbidden(items[j]) && (Served(config, items[0].fields) ==> DataOf(items[k + 1..j]) == [])
  }

  /**
   An unknown frame before the headers loses the request, one inside the body ends it.  At every
   position, leaving the frame out gives the same outcome exactly in these cases: before the
   headers, if nothing would have happened anyway; at the end of the body, if what follows is not
   forbidden and carries no DATA bytes for a handler; and anywhere after the frame that decides.
   */
  lemma UnknownFrameIgnoredIff(config: Config, items: seq<Item>, k: nat)
    requires EndsInFault(items) && k < |items| && items[k].Other?
    ensures Handle(config, items) == Handle(config, items[..k] + items[k + 1..]) <==> IgnoredAt(config, items, k)
  {
    var without := items[..k] + items[k + 1..];
    if k == 0 {
      assert without == items[1..];
      QuietIff(config, without);
    } else if Opens(items) {
      assert without[0] == items[0];
      if BodyEnd(items, 1) < k {
        AfterTheDecision(config, items, k);
      } else {
        AtTheDecision(config, items, k);
      }
    }
  }

  lemma AfterTheDecision(config: Config, items: seq<Item>, k: nat)
    requires EndsInFault(items) && 0 < BodyEnd(items, 1) < k < |items| && items[0].Fields?
    ensures Handle(config, items) == Handle(config, items[..k] + items[k + 1..])
  {
    hide Handle, Complete, IsMetrics, DataOf;
    var without, d := items[..k] + items[k + 1..], BodyEnd(items, 1);
    assert forall i :: 0 <= i <= d ==> without[i] == items[i];
    assert without[1..d] == items[1..d];
    HandlerRunsIff(config, items, d);
    HandlerRunsIff(config, without, d);
  }

  lemma AtTheDecision(config: Config, items: seq<Item>, k: nat)
    requires EndsInFault(items) && Opens(items) && 0 < k < |items| && items[k].Other? && BodyEnd(items, 1) >= k
    ensures Handle(config, items) == Handle(config, items[..k] + items[k + 1..]) <==> IgnoredAt(config, items, k)
  {
    hide Handle, Complete, IsMetrics, DataOf, BodyEnd, ErrorOf;
    var without, j := items[..k] + items[k + 1..], BodyEnd(items, k + 1);
    WithoutOne(items, k, j);
    HandlerRunsIff(config, items, k);
    HandlerRunsIff(config, without, j - 1);
    var a, b := DataOf(items[1..k]), DataOf(items[k + 1..j]);
    assert a == a + b <==> |b| == 0;
  }

  lemma WithoutOne(items: seq<Item>, k: nat, j: nat)
    requires BodyEnds(items, k) && k < j < |items| && !items[j].Data? && forall i :: k < i < j ==> items[i].Data?
    ensures var without := items[..k] + items[k + 1..];
      && without[0] == items[0] && without[j - 1] == items[j] && BodyEnds(without, j - 1)
      && DataOf(without[1..j - 1]) == DataOf(items[1..k]) + DataOf(items[k + 1..j])
  {
    var without := items[..k] + items[k + 1..];
    assert without[1..j - 1] == items[1..k] + items[k + 1..j];
    FlatMapAppend(DataIn, items[1..k], items[k + 1..j]);
  }

  /** A frame of an unknown type before the headers loses the request. */
  lemma UnknownFrameLosesRequest(config: Config, h: seq<Field>)
    requires Complete(h) && Served(config, h)
    ensures Handle(config, [Other, Fields(h), Fault(false)]) == NOTHING
    ensures Handle(config, [Fields(h), Fault(false)]).calls == [Request(h, [])]
  {
    HandlerRunsIff(config, [Fields(h), Fault(false)], 1);
    assert [Fields(h), Fault(false)][1..1] == [];
  }

  /** A frame of an unknown type between two DATA frames cuts the second one off. */
  lemma UnknownFrameCutsBody(config: Config, h: seq<Field>, a: seq<Byte>, b: seq<Byte>)
    requires Complete(h) && Served(config, h) && b != []
    ensures var items := [Fields(h), Data(a), Other, Data(b), Fault(false)];
      && Handle(config, items).calls == [Request(h, a)]
      && Handle(config, [Fields(h), Data(a), Data(b), Fault(false)]).calls == [Request(h, a + b)]
  {
    var items := [Fields(h), Data(a), Other, Data(b), Fault(false)];
    var fewer := [Fields(h), Data(a), Data(b), Fault(false)];
    DataOfPair(Data(a), Data(b));
    HandlerRunsIff(config, items, 2);
    HandlerRunsIff(config, fewer, 3);
    assert items[1..2] == [Data(a)] && fewer[1..3] == [Data(a), Data(b)];
  }

  lemma DataOfPair(x: Item, y: Item)
    requires x.Data? && y.Data?
    ensures DataOf([x]) == x.bytes && DataOf([x, y]) == x.bytes + y.bytes
  {
    FlatMapOne(DataIn, x);
    FlatMapOne(DataIn, y);
    FlatMapAppend(DataIn, [x], [y]);
    assert [x, y] == [x] + [y];
  }

  // ---------- names and codes ----------

  /** The bytes of an ASCII string. */
  function Ascii(s: string): seq<Byte> {
    seq(|s|, i requires 0 <= i < |s| => if s[i] < 128 as char then s[i] as int else 0)
  }

  /** The four names are these, and they are pseudo-headers, as is every name that starts with a colon. */
  lemma PseudoNames(name: string)
    ensures METHOD == Ascii(":method") && PATH == Ascii(":path")
    ensures SCHEME == Ascii(":scheme") && STATUS == Ascii(":status") && GET == Ascii("GET")
    ensures Q.IsPseudo(METHOD) && Q.IsPseudo(PATH) && Q.IsPseudo(SCHEME) && Q.IsPseudo(STATUS)
    ensures Q.IsPseudo(Ascii(name)) <==> name != "" && name[0] == ':'
  {
    assert Ascii(":method")[0] == 58;
  }

  /** A request has these three pseudo-headers and not the fourth. */
  lemma CompleteIff(h: seq<Field>)
    ensures Complete(h)
       <==> Has(h, Ascii(":method")) && Has(h, Ascii(":path")) && Has(h, Ascii(":scheme")) && !Has(h, Ascii(":status"))
  {
    PseudoNames("");
  }

  /** Metrics are served for a GET of the configured path, and nothing else is then called. */
  lemma MetricsIff(config: Config, h: seq<Field>, body: seq<Byte>)
    ensures Dispatch(config, h, body).metrics
       <==> config.metricsPath != [] && Field(Ascii(":path"), config.metricsPath) in h
            && Field(Ascii(":method"), Ascii("GET")) in h
    ensures Dispatch(config, h, body).metrics ==> Dispatch(config, h, body).calls == []
    ensures !Dispatch(config, h, body).metrics && (config.mode == Router || config.mode == LowLevel) ==>
      Dispatch(config, h, body).calls == [Request(h, body)]
  {
    PseudoNames("");
  }

  /** Section 8.1 of RFC 9114: the code for each first frame that is not acceptable. */
  lemma FirstFrameCodes(config: Config, first: Item, rest: seq<Item>)
    ensures var r := Handle(config, [first] + rest);
      && (first.Data? || first.Settings? ==> r == NOTHING.(closes := [0x105]))
      && (first.PushPromise? ==> r == NOTHING.(closes := [0x108]))
      && (first == Fault(true) ==> r == NOTHING.(closes := [0x10e]))
      && (first.Fields? && !Complete(first.fields) ==> r == NOTHING.(closes := [0x10e]))
      && (first == Fault(false) || first.Other? ==> r == NOTHING)
  {
  }

  /** A frame that announces more than 16 MiB is refused unread. */
  lemma TooLargeRefused(env: Q.Env, tables: seq<Table>, kind: nat, len: nat, rest: seq<Byte>)
    requires kind < VARINT_LIMIT && 16_777_216 < len < VARINT_LIMIT
    ensures ReadFrame(env, tables, VarInt(kind) + (VarInt(len) + rest)).item == Fault(false)
  {
    hide VarInt, ReadVarInt, DecodePayload;
    VarIntRoundTrip(kind, VarInt(len) + rest);
    VarIntRoundTrip(len, rest);
  }

  /** One of exactly 16 MiB is not. */
  lemma LargestAccepted(env: Q.Env, tables: seq<Table>, payload: seq<Byte>, rest: seq<Byte>)
    requires |payload| == 16_777_216
    ensures ReadFrame(env, tables, FrameBytes(0x00, payload) + rest) == Parsed(Data(payload), rest)
  {
    hide FrameBytes, ReadFrame;
    FrameReadBack(env, tables, 0x00, payload, rest);
  }

  /** Identifiers and values of a SETTINGS payload. */
  function WriteSettings(pairs: seq<(nat, nat)>): seq<Byte>
    requires forall i :: 0 <= i < |pairs| ==> pairs[i].0 < VARINT_LIMIT && pairs[i].1 < VARINT_LIMIT
  {
    if pairs == [] then []
    else VarInt(pairs[0].0) + (VarInt(pairs[0].1) + WriteSettings(pairs[1..]))
  }

  /** Written settings parse, and do not when a further pair behind them is cut off anywhere. */
  lemma {:induction false} SettingsWritten(pairs: seq<(nat, nat)>, id: nat, value: nat, k: nat)
    requires forall i :: 0 <= i < |pairs| ==> pairs[i].0 < VARINT_LIMIT && pairs[i].1 < VARINT_LIMIT
    requires id < VARINT_LIMIT && value < VARINT_LIMIT && 0 < k < |VarInt(id) + VarInt(value)|
    ensures SettingsParse(WriteSettings(pairs))
    ensures !SettingsParse(WriteSettings(pairs) + (VarInt(id) + VarInt(value))[..k])
    decreases |pairs|
  {
    hide VarInt, ReadVarInt;
    var part := (VarInt(id) + VarInt(value))[..k];
    assert |part| == k;
    if pairs == [] {
      assert [] + part == part;
      PairCut(id, value, k);
    } else {
      var rest := WriteSettings(pairs[1..]);
      var first, second := VarInt(pairs[0].0), VarInt(pairs[0].1);
      SettingsWritten(pairs[1..], id, value, k);
      VarIntRoundTrip(pairs[0].0, second + rest);
      VarIntRoundTrip(pairs[0].1, rest);
      VarIntRoundTrip(pairs[0].0, second + (rest + part));
      VarIntRoundTrip(pairs[0].1, rest + part);
      assert WriteSettings(pairs) + part == first + (second + (rest + part));
    }
  }

  lemma PairCut(id: nat, value: nat, k: nat)
    requires id < VARINT_LIMIT && value < VARINT_LIMIT && 0 < k < |VarInt(id) + VarInt(value)|
    ensures !SettingsParse((VarInt(id) + VarInt(value))[..k])
  {
    hide VarInt, ReadVarInt;
    var first, second := VarInt(id), VarInt(value);
    var part := (first + second)[..k];
    if k < |first| {
      assert part == first[..k];
      VarIntCut(id, k);
    } else {
      assert part == first + second[..k - |first|];
      VarIntRoundTrip(id, second[..k - |first|]);
      VarIntCut(value, k - |first|);
    }
  }

  /**
   On the bytes: a first frame whose field section breaks the order of pseudo-headers closes the
   connection as a malformed message; one that cannot be decoded, or never unblocks, is dropped.
   */
  lemma BadSectionOutcome(config: Config, env: Q.Env, tables: Tables, block: seq<Byte>, rest: seq<Byte>)
    requires Small(block)
    ensures var r := Handle(config, Items(env, tables, FrameBytes(0x01, block) + rest, 0));
      match Settled(env, tables(0), block)
      case None => r == NOTHING
      case Some(t) =>
        && (Q.DecodeBlock(env, t, block).Invalid? ==> r == NOTHING.(closes := [0x10e]))
        && (Q.DecodeBlock(env, t, block).Failed? ==> r == NOTHING)
  {
    hide ReadFrame, FrameBytes, Q.DecodeBlock, ReadBody, Complete;
    FrameReadBack(env, tables(0), 0x01, block, rest);
    AwaitFaults(env, tables(0), block);
  }

  lemma {:induction false} AwaitFaults(env: Q.Env, tables: seq<Table>, block: seq<Byte>)
    ensures match Settled(env, tables, block)
      case None => Await(env, tables, block) == Fault(false)
      case Some(t) =>
        && (Q.DecodeBlock(env, t, block).Invalid? ==> Await(env, tables, block) == Fault(true))
        && (Q.DecodeBlock(env, t, block).Failed? ==> Await(env, tables, block) == Fault(false))
  {
    hide Q.DecodeBlock;
    if tables != [] {
      AwaitFaults(env, tables[1..], block);
    }
  }
}
