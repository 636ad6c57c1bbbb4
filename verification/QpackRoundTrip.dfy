/**
 What encoder and decoder guarantee together: equal tables after every batch of
 instructions, and header blocks that decode to what was encoded, whether the decoder is
 level with the encoder, behind it or ahead of it.
 */
module QpackRoundTrip {
  import opened Bytes
  import opened PrefixInteger
  import opened DynamicTables
  import opened RequiredInsertCounts
  import opened QpackEncoding
  import Q = QpackDecoding

  // ---------- size limits of the source's integer types ----------

  /** String lengths are 32-bit. */
  predicate Sized(f: Field) { |f.name| < I32 && |f.value| < I32 }

  predicate AllSized(hs: seq<Field>) { forall i :: 0 <= i < |hs| ==> Sized(hs[i]) }

  /** Table positions are 32-bit. */
  predicate Addressable(t: Table) { t.Fits() && t.capacity < 32 * I32 }

  lemma AddressableLength(t: Table)
    requires Addressable(t)
    ensures |t.entries| < I32
  {
    TotalSizeBoundsLength(t.entries);
  }

  // ---------- strings ----------

  lemma StringRoundTrip(env: Q.Env, s: seq<Byte>, n: nat, flags: Byte, rest: seq<Byte>)
    requires 1 <= n <= 7 && IsFlags(flags, n) && flags / (Mask(n) + 1) % 2 == 0 && |s| < U64
    ensures var bs := EncodeString(s, n, flags) + rest;
            Q.DecodeString(env, bs[0], n, bs[1..]) == Got(s, rest)
  {
    var w := Mask(n) + 1;
    var bs := EncodeString(s, n, flags) + rest;
    assert bs == Encode(|s|, n, flags) + (s + rest);
    EncodeDecode(|s|, n, flags, s + rest);
    assert flags == flags / w * w;
    ModUnique(bs[0], w, flags / w, Min(|s|, Mask(n)));
    assert (s + rest)[..|s|] == s && (s + rest)[|s|..] == rest;
  }

  /** A string whose Huffman bit is set is what the Huffman decoder makes of its bytes. */
  lemma HuffmanRead(env: Q.Env, h: seq<Byte>, n: nat, flags: Byte, rest: seq<Byte>)
    requires 1 <= n <= 7 && IsFlags(flags, n) && flags / (Mask(n) + 1) % 2 == 1 && |h| < U64
    ensures var bs := EncodeString(h, n, flags) + rest;
      Q.DecodeString(env, bs[0], n, bs[1..])
      == match env.huffman(h)
         case None => Raised
         case Some(text) => Got(text, rest)
  {
    hide Encode, Decode;
    var w := Mask(n) + 1;
    var bs := EncodeString(h, n, flags) + rest;
    Assoc(Encode(|h|, n, flags), h, rest);
    EncodeDecode(|h|, n, flags, h + rest);
    assert flags == flags / w * w;
    ModUnique(bs[0], w, flags / w, Min(|h|, Mask(n)));
    assert (h + rest)[..|h|] == h && (h + rest)[|h|..] == rest;
  }

  lemma ValueRoundTrip(env: Q.Env, s: seq<Byte>, rest: seq<Byte>)
    requires |s| < U64
    ensures Q.NextString(env, 7, EncodeString(s, 7, 0) + rest) == Got(s, rest)
  {
    StringRoundTrip(env, s, 7, 0, rest);
  }

  // ---------- encoder stream ----------

  lemma StaticNameReplayed(env: Q.Env, t: Table, i: nat, v: seq<Byte>, rest: seq<Byte>)
    requires i < |env.statics| <= I32 && |v| < U64
    ensures Q.Instruction(env, t, Encode(i, 6, 0xC0) + (EncodeString(v, 7, 0) + rest))
         == Got(t.Add(Field(env.statics[i].name, v)), rest)
  {
    hide Encode, Decode, EncodeString, Q.NextString;
    EncodeDecode(i, 6, 0xC0, EncodeString(v, 7, 0) + rest);
    ValueRoundTrip(env, v, rest);
  }

  lemma DynamicNameReplayed(env: Q.Env, t: Table, p: nat, v: seq<Byte>, rest: seq<Byte>)
    requires p < |t.entries| < I32 && |v| < U64
    ensures Q.Instruction(env, t, Encode(|t.entries| - 1 - p, 6, 0x80) + (EncodeString(v, 7, 0) + rest))
         == Got(t.Add(Field(t.entries[p].name, v)), rest)
  {
    hide Encode, Decode, EncodeString, Q.NextString;
    var relative := |t.entries| - 1 - p;
    EncodeDecode(relative, 6, 0x80, EncodeString(v, 7, 0) + rest);
    assert t.ByRelative(t.Inserted(), relative) == Some(t.entries[p]);
    ValueRoundTrip(env, v, rest);
  }

  lemma LiteralReplayed(env: Q.Env, t: Table, f: Field, rest: seq<Byte>)
    requires Sized(f)
    ensures Q.Instruction(env, t, EncodeString(f.name, 5, 0x40) + (EncodeString(f.value, 7, 0) + rest))
         == Got(t.Add(f), rest)
  {
    var after := EncodeString(f.value, 7, 0) + rest;
    StringRoundTrip(env, f.name, 5, 0x40, after);
    ValueRoundTrip(env, f.value, rest);
    var bs := EncodeString(f.name, 5, 0x40) + after;
    assert bs[0] / 64 == 1 && Q.DecodeString(env, bs[0], 5, bs[1..]) == Got(f.name, after);
  }

  lemma InsertForms(statics: seq<Field>, t: Table, f: Field, rest: seq<Byte>)
    ensures var bs, value := InsertInstruction(statics, t, f) + rest, EncodeString(f.value, 7, 0);
            match FindName(statics, f.name)
            case Some(i) => bs == Encode(i, 6, 0xC0) + (value + rest)
            case None =>
              match FindName(t.entries, f.name)
              case Some(p) => bs == Encode(|t.entries| - 1 - p, 6, 0x80) + (value + rest)
              case None => bs == EncodeString(f.name, 5, 0x40) + (value + rest)
  {
    var value := EncodeString(f.value, 7, 0);
    match FindName(statics, f.name)
    case Some(i) => Assoc(Encode(i, 6, 0xC0), value, rest);
    case None =>
      match FindName(t.entries, f.name)
      case Some(p) => Assoc(Encode(|t.entries| - 1 - p, 6, 0x80), value, rest);
      case None => Assoc(EncodeString(f.name, 5, 0x40), value, rest);
  }

  /** Replaying the instruction for an insertion performs that insertion. */
  lemma InsertReplayed(env: Q.Env, t: Table, f: Field, rest: seq<Byte>)
    requires Addressable(t) && Sized(f) && |env.statics| <= I32
    ensures Q.Instruction(env, t, InsertInstruction(env.statics, t, f) + rest) == Got(t.Add(f), rest)
  {
    hide Q.Instruction, InsertInstruction, Encode, EncodeString;
    AddressableLength(t);
    InsertForms(env.statics, t, f, rest);
    var s, p := FindName(env.statics, f.name), FindName(t.entries, f.name);
    if s.Some? {
      StaticNameReplayed(env, t, s.value, f.value, rest);
      assert f == Field(env.statics[s.value].name, f.value);
    } else if p.Some? {
      DynamicNameReplayed(env, t, p.value, f.value, rest);
      assert f == Field(t.entries[p.value].name, f.value);
    } else {
      LiteralReplayed(env, t, f, rest);
    }
  }

  lemma InsertKeepsAddressable(statics: seq<Field>, t: Table, f: Field)
    requires Addressable(t)
    ensures var r := InsertIfNovel(statics, t, f).table;
            Addressable(r) && r.capacity == t.capacity && t.Inserted() <= r.Inserted() <= t.Inserted() + 1
  {
    AddExtends(t, f);
  }

  lemma {:induction false} Pass1KeepsAddressable(statics: seq<Field>, t: Table, hs: seq<Field>)
    requires Addressable(t)
    ensures var r := Pass1(statics, t, hs).table;
            Addressable(r) && r.capacity == t.capacity && t.Inserted() <= r.Inserted() <= t.Inserted() + |hs|
    decreases |hs|
  {
    if hs != [] {
      InsertKeepsAddressable(statics, t, hs[0]);
      Pass1KeepsAddressable(statics, InsertIfNovel(statics, t, hs[0]).table, hs[1..]);
    }
  }

  lemma ReplayOne(env: Q.Env, t: Table, bs: seq<Byte>, next: Table, rest: seq<Byte>)
    requires bs != [] && Q.Instruction(env, t, bs) == Got(next, rest)
    ensures Q.Replay(env, t, bs) == Q.Replay(env, next, rest)
  {
  }

  /** A decoder with the encoder's table replays a whole batch to the encoder's new table. */
  lemma {:induction false} BatchReplayed(env: Q.Env, t: Table, hs: seq<Field>, rest: seq<Byte>)
    requires Addressable(t) && AllSized(hs) && |env.statics| <= I32
    ensures var p := Pass1(env.statics, t, hs);
            Q.Replay(env, t, p.instructions + rest) == Q.Replay(env, p.table, rest)
    decreases |hs|
  {
    if hs == [] {
      assert [] + rest == rest;
    } else {
      var step := InsertIfNovel(env.statics, t, hs[0]);
      var later := Pass1(env.statics, step.table, hs[1..]).instructions;
      var bs := step.instructions + later + rest;
      assert bs == step.instructions + (later + rest);
      InsertKeepsAddressable(env.statics, t, hs[0]);
      if Novel(env.statics, t, hs[0]) {
        InsertReplayed(env, t, hs[0], later + rest);
        ReplayOne(env, t, bs, step.table, later + rest);
      } else {
        assert [] + (later + rest) == later + rest;
      }
      BatchReplayed(env, step.table, hs[1..], rest);
    }
  }

  lemma CapacityReplayed(env: Q.Env, t: Table, c: nat)
    requires c < U64
    ensures Q.Replay(env, t, Encode(c, 5, 0x20)) == Q.Replayed(t.SetCapacity(c), true)
  {
    var bs := Encode(c, 5, 0x20);
    assert bs == bs + [];
    EncodeDecode(c, 5, 0x20, []);
  }

  /** Whatever bytes arrive, replay never renumbers or alters an entry it keeps. */
  lemma {:induction false} ReplayExtends(env: Q.Env, t: Table, bs: seq<Byte>)
    ensures Extends(Q.Replay(env, t, bs).table, t)
    decreases |bs|
  {
    if bs != [] {
      var r := Q.Instruction(env, t, bs);
      if r.Got? {
        InstructionExtends(env, t, bs);
        ReplayExtends(env, r.value, r.rest);
        ExtendsTransitive(Q.Replay(env, r.value, r.rest).table, r.value, t);
      }
    }
  }

  lemma InstructionExtends(env: Q.Env, t: Table, bs: seq<Byte>)
    requires bs != [] && Q.Instruction(env, t, bs).Got?
    ensures Extends(Q.Instruction(env, t, bs).value, t)
  {
    var next := Q.Instruction(env, t, bs).value;
    forall f: Field ensures Extends(t.Add(f), t) { AddExtends(t, f); }
    forall c: nat ensures Extends(t.SetCapacity(c), t) { SetCapacityExtends(t, c); }
  }

  // ---------- field lines ----------

  /** Whether the line written for `f` against `t` still resolves in the decoder's table. */
  predicate Survives(statics: seq<Field>, t: Table, d: Table, f: Field) {
    f in statics || f !in t.entries || d.dropped <= t.dropped + FindExact(t.entries, f).value
  }

  const NOTHING := Field([], [])

  function Received(statics: seq<Field>, t: Table, d: Table, f: Field): Field {
    if Survives(statics, t, d, f) then f else NOTHING
  }

  lemma DynamicLineDecoded(env: Q.Env, t: Table, d: Table, p: nat, rest: seq<Byte>)
    requires p < |t.entries| < I32 && Extends(d, t)
    ensures Q.DecodeLine(env, d, t.Inserted(), Encode(|t.entries| - 1 - p, 6, 0x80) + rest)
         == Got(if d.dropped <= t.dropped + p then t.entries[p] else NOTHING, rest)
  {
    hide Encode, Decode;
    var relative := |t.entries| - 1 - p;
    EncodeDecode(relative, 6, 0x80, rest);
    var absolute := t.dropped + p;
    assert t.ByAbsolute(absolute) == Some(t.entries[p]);
    assert d.ByRelative(t.Inserted(), relative) == d.ByAbsolute(absolute);
  }

  lemma StaticLineDecoded(env: Q.Env, d: Table, base: nat, i: nat, rest: seq<Byte>)
    requires i < |env.statics| <= I32
    ensures Q.DecodeLine(env, d, base, Encode(i, 6, 0xC0) + rest) == Got(env.statics[i], rest)
  {
    hide Encode, Decode;
    EncodeDecode(i, 6, 0xC0, rest);
  }

  lemma StaticNameLineDecoded(env: Q.Env, d: Table, base: nat, i: nat, v: seq<Byte>, rest: seq<Byte>)
    requires i < |env.statics| <= I32 && |v| < U64
    ensures Q.DecodeLine(env, d, base, Encode(i, 4, 0x50) + (EncodeString(v, 7, 0) + rest))
         == Got(Field(env.statics[i].name, v), rest)
  {
    hide Encode, Decode, EncodeString, Q.NextString;
    EncodeDecode(i, 4, 0x50, EncodeString(v, 7, 0) + rest);
    ValueRoundTrip(env, v, rest);
  }

  lemma LiteralLineDecoded(env: Q.Env, d: Table, base: nat, f: Field, rest: seq<Byte>)
    requires Sized(f)
    ensures Q.DecodeLine(env, d, base, EncodeString(f.name, 3, 0x20) + (EncodeString(f.value, 7, 0) + rest))
         == Got(f, rest)
  {
    var after := EncodeString(f.value, 7, 0) + rest;
    StringRoundTrip(env, f.name, 3, 0x20, after);
    ValueRoundTrip(env, f.value, rest);
    var bs := EncodeString(f.name, 3, 0x20) + after;
    assert bs[0] / 32 == 1 && Q.DecodeString(env, bs[0], 3, bs[1..]) == Got(f.name, after);
  }

  /** A line decodes to its header, or to nothing when its entry has been dropped. */
  lemma LineDecoded(env: Q.Env, t: Table, d: Table, f: Field, rest: seq<Byte>)
    requires Addressable(t) && Sized(f) && |env.statics| <= I32 && Extends(d, t)
    ensures Q.DecodeLine(env, d, t.Inserted(), FieldLine(env.statics, t, f) + rest)
         == Got(Received(env.statics, t, d, f), rest)
  {
    hide Q.DecodeLine, Encode, EncodeString;
    AddressableLength(t);
    var value := EncodeString(f.value, 7, 0);
    var bs := FieldLine(env.statics, t, f) + rest;
    match FindExact(env.statics, f)
    case Some(i) => StaticLineDecoded(env, d, t.Inserted(), i, rest);
    case None =>
      match FindExact(t.entries, f)
      case Some(p) => DynamicLineDecoded(env, t, d, p, rest);
      case None =>
        match FindName(env.statics, f.name)
        case Some(i) =>
          assert bs == Encode(i, 4, 0x50) + (value + rest);
          StaticNameLineDecoded(env, d, t.Inserted(), i, f.value, rest);
        case None =>
          assert bs == EncodeString(f.name, 3, 0x20) + (value + rest);
          LiteralLineDecoded(env, d, t.Inserted(), f, rest);
  }

  /** Field validation alone, on lines already decoded. */
  function Validate(fs: seq<Field>, s: Q.Section): Q.Outcome {
    if fs == [] then Q.Headers(s.headers)
    else match Q.Accept(s, fs[0])
      case None => Q.Invalid
      case Some(next) => Validate(fs[1..], next)
  }

  function AllReceived(statics: seq<Field>, t: Table, d: Table, hs: seq<Field>): (r: seq<Field>)
    ensures |r| == |hs|
    ensures forall i :: 0 <= i < |hs| ==> r[i] == Received(statics, t, d, hs[i])
  {
    if hs == [] then [] else [Received(statics, t, d, hs[0])] + AllReceived(statics, t, d, hs[1..])
  }

  lemma {:induction false} LinesDecoded(env: Q.Env, t: Table, d: Table, hs: seq<Field>, s: Q.Section)
    requires Addressable(t) && AllSized(hs) && |env.statics| <= I32 && Extends(d, t)
    ensures Q.DecodeLines(env, d, t.Inserted(), Pass2(env.statics, t, hs), s)
         == Validate(AllReceived(env.statics, t, d, hs), s)
    decreases |hs|
  {
    if hs != [] {
      var f := Received(env.statics, t, d, hs[0]);
      var rest := Pass2(env.statics, t, hs[1..]);
      LineDecoded(env, t, d, hs[0], rest);
      var fs := AllReceived(env.statics, t, d, hs);
      assert fs[1..] == AllReceived(env.statics, t, d, hs[1..]);
      match Q.Accept(s, f)
      case None =>
      case Some(next) => LinesDecoded(env, t, d, hs[1..], next);
    }
  }

  // ---------- validation of decoded lines (section 4.3 of RFC 9114) ----------

  /** No pseudo-header is repeated and none comes after a regular header. */
  ghost predicate WellOrdered(fs: seq<Field>) {
    forall i, j :: 0 <= i < j < |fs| && Q.IsPseudo(fs[j].name) ==>
      fs[i].name == [] || (Q.IsPseudo(fs[i].name) && fs[i].name != fs[j].name)
  }

  function PutAll(headers: seq<Field>, fs: seq<Field>): seq<Field>
    decreases |fs|
  {
    if fs == [] then headers
    else PutAll(if fs[0].name == [] then headers else Q.Put(headers, fs[0]), fs[1..])
  }

  ghost predicate Admits(s: Q.Section, fs: seq<Field>) {
    forall i :: 0 <= i < |fs| && Q.IsPseudo(fs[i].name) ==> !s.pastPseudos && fs[i].name !in s.seenPseudo
  }

  lemma {:induction false} ValidateExact(fs: seq<Field>, s: Q.Section)
    ensures Validate(fs, s) == if WellOrdered(fs) && Admits(s, fs) then Q.Headers(PutAll(s.headers, fs)) else Q.Invalid
    decreases |fs|
  {
    if fs != [] {
      var f, rest := fs[0], fs[1..];
      assert forall j :: 1 <= j < |fs| ==> fs[j] == rest[j - 1];
      assert WellOrdered(fs) ==> WellOrdered(rest);
      match Q.Accept(s, f)
      case None => assert !Admits(s, fs);
      case Some(next) =>
        ValidateExact(rest, next);
        HeadAdmits(s, f, rest, next, fs);
    }
  }

  lemma HeadAdmits(s: Q.Section, f: Field, rest: seq<Field>, next: Q.Section, fs: seq<Field>)
    requires fs == [f] + rest && Q.Accept(s, f) == Some(next)
    ensures WellOrdered(fs) && Admits(s, fs) <==> WellOrdered(rest) && Admits(next, rest)
  {
    assert forall j :: 1 <= j < |fs| ==> fs[j] == rest[j - 1];
    if WellOrdered(fs) && Admits(s, fs) {
      forall i, j | 0 <= i < j < |rest| && Q.IsPseudo(rest[j].name)
        ensures rest[i].name == [] || (Q.IsPseudo(rest[i].name) && rest[i].name != rest[j].name)
      {
        assert fs[i + 1] == rest[i] && fs[j + 1] == rest[j];
      }
      forall i | 0 <= i < |rest| && Q.IsPseudo(rest[i].name)
        ensures !next.pastPseudos && rest[i].name !in next.seenPseudo
      {
        assert fs[i + 1] == rest[i] && fs[0] == f;
      }
    }
    if WellOrdered(rest) && Admits(next, rest) {
      forall i, j | 0 <= i < j < |fs| && Q.IsPseudo(fs[j].name)
        ensures fs[i].name == [] || (Q.IsPseudo(fs[i].name) && fs[i].name != fs[j].name)
      {
        assert fs[j] == rest[j - 1];
        if i > 0 {
          assert fs[i] == rest[i - 1];
        }
      }
    }
  }

  predicate DistinctNames(fs: seq<Field>) {
    forall i, j :: 0 <= i < j < |fs| ==> fs[i].name != fs[j].name
  }

  predicate NonEmptyNames(fs: seq<Field>) {
    forall i :: 0 <= i < |fs| ==> fs[i].name != []
  }

  /** The named headers, in order. */
  function Named(fs: seq<Field>): seq<Field> {
    if fs == [] then []
    else if fs[0].name == [] then Named(fs[1..])
    else [fs[0]] + Named(fs[1..])
  }

  lemma {:induction false} NamedIsAll(fs: seq<Field>)
    ensures |Named(fs)| <= |fs| && (Named(fs) == fs <==> NonEmptyNames(fs))
  {
    if fs != [] {
      NamedIsAll(fs[1..]);
      if fs[0].name != [] {
        assert Named(fs)[1..] == Named(fs[1..]);
        assert NonEmptyNames(fs[1..]) ==> NonEmptyNames(fs) by {
          assert forall i :: 0 < i < |fs| ==> fs[i] == fs[1..][i - 1];
        }
      }
    }
  }

  lemma {:induction false} PutFresh(headers: seq<Field>, f: Field)
    requires forall i :: 0 <= i < |headers| ==> headers[i].name != f.name
    ensures Q.Put(headers, f) == headers + [f]
  {
    if headers != [] {
      PutFresh(headers[1..], f);
      assert headers == [headers[0]] + headers[1..];
    }
  }

  /** Names may repeat only where they are empty. */
  predicate DistinctNamed(fs: seq<Field>) {
    forall i, j :: 0 <= i < j < |fs| && fs[i].name != [] ==> fs[i].name != fs[j].name
  }

  ghost predicate Disjoint(headers: seq<Field>, fs: seq<Field>) {
    forall h, f :: h in headers && f in fs && f.name != [] ==> h.name != f.name
  }

  lemma DisjointStep(headers: seq<Field>, f: Field, rest: seq<Field>, fs: seq<Field>)
    requires fs == [f] + rest && f.name != [] && DistinctNamed(fs) && Disjoint(headers, fs)
    ensures Disjoint(headers + [f], rest)
  {
    forall h, g | h in headers + [f] && g in rest && g.name != [] ensures h.name != g.name {
      assert g in fs;
      var j :| 0 <= j < |rest| && rest[j] == g;
      assert fs[0] == f && fs[j + 1] == g;
    }
  }

  lemma {:induction false} PutAllFresh(headers: seq<Field>, fs: seq<Field>)
    requires DistinctNamed(fs) && Disjoint(headers, fs)
    ensures PutAll(headers, fs) == headers + Named(fs)
    decreases |fs|
  {
    hide Q.Put;
    if fs != [] {
      var f, rest := fs[0], fs[1..];
      assert forall i :: 0 <= i < |rest| ==> rest[i] == fs[i + 1];
      assert DistinctNamed(rest);
      if f.name == [] {
        PutAllFresh(headers, rest);
      } else {
        assert f in fs;
        PutFresh(headers, f);
        DisjointStep(headers, f, rest, fs);
        PutAllFresh(headers + [f], rest);
        Assoc(headers, [f], Named(rest));
      }
    }
  }

  // ---------- whole blocks ----------

  /** The decoder can tell insert count `r` from its own: they are within MaxEntries of each other. */
  predicate InWindow(d: Table, r: nat) {
    d.Inserted() - 128 < r <= d.Inserted() + 128
  }

  /** The capacities the hard-coded modulus 256 is right for. */
  predicate Modulus256(c: nat) { MaxEntries(c) == 128 }

  predicate Ordinary(env: Q.Env, t: Table, d: Table, hs: seq<Field>) {
    && Addressable(t) && AllSized(hs) && |env.statics| <= I32
    && Modulus256(d.capacity) && InWindow(d, t.Inserted()) && d.Inserted() + 384 < U64
  }

  lemma PrefixDecoded(env: Q.Env, t: Table, d: Table, lines: seq<Byte>)
    requires Modulus256(d.capacity) && InWindow(d, t.Inserted()) && d.Inserted() + 384 < U64
    ensures Q.DecodeBlock(env, d, BlockPrefix(t.Inserted()) + lines)
         == Q.DecodeBody(env, d, t.Inserted(), [0] + lines)
  {
    var r := t.Inserted();
    var bs := BlockPrefix(r) + lines;
    var encoded := EncodedInsertCount(r);
    assert bs == Encode(encoded, 8, 0) + ([0] + lines);
    EncodeDecode(encoded, 8, 0, [0] + lines);
    if r > 0 {
      ReconstructRecovers(d.capacity, d.Inserted(), r);
    }
  }

  lemma BodyDecoded(env: Q.Env, d: Table, r: nat, lines: seq<Byte>)
    requires r <= d.Inserted() && r < U64
    ensures Q.DecodeBody(env, d, r, [0] + lines) == Q.DecodeLines(env, d, r, lines, Q.START)
  {
    var bs: seq<Byte> := [0] + lines;
    assert bs[0] == 0 && bs[1..] == lines;
  }

  /** Behind: a decoder that lacks insertions the block needs reports exactly how many it needs. */
  lemma BehindBlocks(env: Q.Env, t: Table, d: Table, hs: seq<Field>)
    requires Ordinary(env, t, d, hs) && d.Inserted() < t.Inserted()
    ensures Q.DecodeBlock(env, d, Block(env.statics, t, hs)) == Q.Blocked(t.Inserted())
  {
    PrefixDecoded(env, t, d, Pass2(env.statics, t, hs));
  }

  /** Level or ahead: validation of the surviving lines decides, for any header list at all. */
  lemma BlockDecoded(env: Q.Env, t: Table, d: Table, hs: seq<Field>)
    requires Ordinary(env, t, d, hs) && Extends(d, t)
    ensures var fs := AllReceived(env.statics, t, d, hs);
            (Q.DecodeBlock(env, d, Block(env.statics, t, hs))
             == if WellOrdered(fs) then Q.Headers(PutAll([], fs)) else Q.Invalid)
  {
    var lines := Pass2(env.statics, t, hs);
    PrefixDecoded(env, t, d, lines);
    BodyDecoded(env, d, t.Inserted(), lines);
    LinesDecoded(env, t, d, hs, Q.START);
    ValidateExact(AllReceived(env.statics, t, d, hs), Q.START);
  }

  /** The headers whose lines still resolve. */
  function Surviving(statics: seq<Field>, t: Table, d: Table, hs: seq<Field>): (r: seq<Field>)
    ensures |r| <= |hs|
    ensures r == hs <==> forall i :: 0 <= i < |hs| ==> Survives(statics, t, d, hs[i])
  {
    if hs == [] then []
    else if Survives(statics, t, d, hs[0]) then
      var r := [hs[0]] + Surviving(statics, t, d, hs[1..]);
      assert r == hs <==> r[1..] == hs[1..];
      r
    else
      var r := Surviving(statics, t, d, hs[1..]);
      assert |r| < |hs| && !Survives(statics, t, d, hs[0]);
      r
  }

  lemma {:induction false} NamedSurviving(statics: seq<Field>, t: Table, d: Table, hs: seq<Field>)
    requires NonEmptyNames(hs)
    ensures Named(AllReceived(statics, t, d, hs)) == Surviving(statics, t, d, hs)
    decreases |hs|
  {
    if hs != [] {
      NamedSurviving(statics, t, d, hs[1..]);
      var fs := AllReceived(statics, t, d, hs);
      assert fs[1..] == AllReceived(statics, t, d, hs[1..]);
      assert hs[0].name != [];
    }
  }

  /**
   Ahead: the decoder returns the original headers with the ones whose entries it has
   dropped left out, never a wrong name or value; so it returns the original map exactly
   when nothing the block refers to has been dropped.
   */
  lemma AheadNeverWrong(env: Q.Env, t: Table, d: Table, hs: seq<Field>)
    requires Ordinary(env, t, d, hs) && Extends(d, t)
    requires DistinctNames(hs) && NonEmptyNames(hs) && WellOrdered(hs)
    ensures var r := Q.DecodeBlock(env, d, Block(env.statics, t, hs));
            && r == Q.Headers(Surviving(env.statics, t, d, hs))
            && (r == Q.Headers(hs) <==> forall i :: 0 <= i < |hs| ==> Survives(env.statics, t, d, hs[i]))
  {
    hide Block, Q.DecodeBlock, Survives;
    var fs := AllReceived(env.statics, t, d, hs);
    assert WellOrdered(fs);
    assert DistinctNamed(fs);
    BlockDecoded(env, t, d, hs);
    PutAllFresh([], fs);
    NamedSurviving(env.statics, t, d, hs);
  }

  /**
   Level: with the same table on both sides, a header map comes back unchanged exactly when
   its names are non-empty and its pseudo-headers come first.
   */
  lemma LevelRoundTrip(env: Q.Env, t: Table, hs: seq<Field>)
    requires Ordinary(env, t, t, hs) && DistinctNames(hs)
    ensures Q.DecodeBlock(env, t, Block(env.statics, t, hs)) == Q.Headers(hs)
       <==> NonEmptyNames(hs) && WellOrdered(hs)
  {
    var fs := AllReceived(env.statics, t, t, hs);
    assert fs == hs;
    BlockDecoded(env, t, t, hs);
    PutAllFresh([], hs);
    NamedIsAll(hs);
  }

  // ---------- whole sessions ----------

  datatype Op = Resize(capacity: nat) | Send(headers: seq<Field>)

  datatype Peers = Peers(encoder: Table, decoder: Table)

  datatype Step = Step(peers: Peers, replayed: bool, outcome: Option<Q.Outcome>)

  /** The encoder acts, its instruction batch is delivered, then the block (if any) is. */
  function Exchange(env: Q.Env, p: Peers, op: Op): Step {
    match op
    case Resize(c) =>
      var r := Q.Replay(env, p.decoder, Encode(c, 5, 0x20));
      Step(Peers(p.encoder.SetCapacity(c), r.table), r.ok, None)
    case Send(hs) =>
      var out := Pass1(env.statics, p.encoder, hs);
      var r := Q.Replay(env, p.decoder, out.instructions);
      var outcome := Q.DecodeBlock(env, r.table, Block(env.statics, out.table, hs));
      Step(Peers(out.table, r.table), r.ok, Some(outcome))
  }

  function Session(env: Q.Env, p: Peers, ops: seq<Op>): seq<Step>
    decreases |ops|
  {
    if ops == [] then []
    else
      var s := Exchange(env, p, ops[0]);
      [s] + Session(env, s.peers, ops[1..])
  }

  ghost predicate Sendable(op: Op) {
    match op
    case Resize(c) => c < U64 && Modulus256(c)
    case Send(hs) => AllSized(hs) && DistinctNames(hs) && NonEmptyNames(hs) && WellOrdered(hs)
  }

  function HeaderCount(ops: seq<Op>): nat {
    if ops == [] then 0 else (if ops[0].Send? then |ops[0].headers| else 0) + HeaderCount(ops[1..])
  }

  /** What a step of a good session looks like. */
  predicate Faithful(s: Step, op: Op) {
    && s.replayed && s.peers.encoder == s.peers.decoder
    && (op.Send? ==> s.outcome == Some(Q.Headers(op.headers)))
  }

  lemma ExchangeFaithful(env: Q.Env, t: Table, op: Op)
    requires |env.statics| <= I32 && Sendable(op)
    requires Addressable(t) && Modulus256(t.capacity)
    requires op.Send? ==> t.Inserted() + |op.headers| + 384 < U64
    ensures var s := Exchange(env, Peers(t, t), op);
            && Faithful(s, op)
            && Addressable(s.peers.encoder) && Modulus256(s.peers.encoder.capacity)
            && s.peers.encoder.Inserted() <= t.Inserted() + (if op.Send? then |op.headers| else 0)
  {
    match op
    case Resize(c) =>
      CapacityReplayed(env, t, c);
      SetCapacityExtends(t, c);
    case Send(hs) =>
      var out := Pass1(env.statics, t, hs);
      BatchReplayed(env, t, hs, []);
      assert out.instructions + [] == out.instructions;
      Pass1KeepsAddressable(env.statics, t, hs);
      LevelRoundTrip(env, out.table, hs);
  }

  /**
   For every session, however its insertions evict one another: after every step both
   tables are equal, and every block decodes to exactly the map that was encoded.
   */
  lemma {:induction false} SessionFaithful(env: Q.Env, t: Table, ops: seq<Op>)
    requires |env.statics| <= I32 && forall i :: 0 <= i < |ops| ==> Sendable(ops[i])
    requires Addressable(t) && Modulus256(t.capacity)
    requires t.Inserted() + HeaderCount(ops) + 384 < U64
    ensures var steps := Session(env, Peers(t, t), ops);
            |steps| == |ops| && forall i :: 0 <= i < |ops| ==> Faithful(steps[i], ops[i])
    decreases |ops|
  {
    if ops != [] {
      var s := Exchange(env, Peers(t, t), ops[0]);
      ExchangeFaithful(env, t, ops[0]);
      SessionFaithful(env, s.peers.encoder, ops[1..]);
      var steps, later := Session(env, Peers(t, t), ops), Session(env, s.peers, ops[1..]);
      forall i | 0 <= i < |ops| ensures Faithful(steps[i], ops[i]) {
        if i > 0 {
          assert steps[i] == later[i - 1] && ops[i] == ops[1..][i - 1];
        }
      }
    }
  }

  /** From the empty tables a connection starts with. */
  lemma ConnectionFaithful(env: Q.Env, ops: seq<Op>)
    requires |env.statics| <= I32 && forall i :: 0 <= i < |ops| ==> Sendable(ops[i])
    requires HeaderCount(ops) + 384 < U64
    ensures var steps := Session(env, Peers(EMPTY, EMPTY), ops);
            |steps| == |ops| && forall i :: 0 <= i < |ops| ==> Faithful(steps[i], ops[i])
  {
    SessionFaithful(env, EMPTY, ops);
  }

  /** A decoder that went on to replay any further bytes at all before it saw the block. */
  lemma LaterDecoderNeverWrong(env: Q.Env, t: Table, later: seq<Byte>, hs: seq<Field>)
    requires var d := Q.Replay(env, t, later).table; Ordinary(env, t, d, hs)
    requires DistinctNames(hs) && NonEmptyNames(hs) && WellOrdered(hs)
    ensures var d := Q.Replay(env, t, later).table;
            Q.DecodeBlock(env, d, Block(env.statics, t, hs)) == Q.Headers(Surviving(env.statics, t, d, hs))
  {
    ReplayExtends(env, t, later);
    AheadNeverWrong(env, t, Q.Replay(env, t, later).table, hs);
  }

  // ---------- what the encoder chooses ----------

  /** A header is inserted exactly if it is new to both tables and there is a dynamic table at all. */
  lemma InsertsExactlyNew(statics: seq<Field>, t: Table, f: Field)
    ensures var r := InsertIfNovel(statics, t, f);
      if f !in statics && f !in t.entries && t.capacity > 0
      then r.table == t.Add(f) && r.table.Inserted() == t.Inserted() + 1 && r.instructions != []
      else r.table == t && r.instructions == []
  {
    AddExtends(t, f);
  }

  lemma {:induction false} EvictNone(t: Table)
    requires t.Fits()
    ensures t.Evict() == t
  {
    assert t.entries[0..] == t.entries;
  }

  /** While there is room, every header of a map that is not static is in the table afterwards. */
  lemma {:induction false} Pass1InsertsAll(statics: seq<Field>, t: Table, hs: seq<Field>)
    requires t.capacity > 0 && TotalSize(t.entries) + TotalSize(hs) <= t.capacity
    ensures var r := Pass1(statics, t, hs).table;
      && t.entries <= r.entries && r.dropped == t.dropped && r.capacity == t.capacity
      && forall f :: f in hs ==> f in statics || f in r.entries
    decreases |hs|
  {
    if hs != [] {
      var f, rest := hs[0], hs[1..];
      var grown := t.(entries := t.entries + [f]);
      SumAppend(EntrySize, t.entries, [f]);
      SumOne(EntrySize, f);
      EvictNone(grown);
      var next := InsertIfNovel(statics, t, f).table;
      Pass1InsertsAll(statics, next, rest);
      var r := Pass1(statics, t, hs).table;
      assert f in statics || f in next.entries;
      forall g | g in hs ensures g in statics || g in r.entries {
        assert g == f || g in rest;
      }
    }
  }

  /** With no dynamic table nothing is written and nothing inserted. */
  lemma {:induction false} NoTableNoInstructions(statics: seq<Field>, t: Table, hs: seq<Field>)
    requires t.capacity == 0
    ensures Pass1(statics, t, hs) == Insertions(t, [])
    decreases |hs|
  {
    if hs != [] {
      NoTableNoInstructions(statics, t, hs[1..]);
    }
  }

  /**
   The form of a line: an index where either table has the whole header, the static table first;
   else a static name where there is one; else the name itself.
   */
  lemma LineForms(statics: seq<Field>, t: Table, f: Field)
    ensures var b := FieldLine(statics, t, f)[0];
      && (f in statics ==> 0xC0 <= b)
      && (f !in statics && f in t.entries ==> 0x80 <= b < 0xC0)
      && (f !in statics && f !in t.entries && (exists e :: e in statics && e.name == f.name) ==> 0x50 <= b < 0x60)
      && (f !in statics && f !in t.entries && (forall e :: e in statics ==> e.name != f.name) ==> 0x20 <= b < 0x28)
  {
    hide Encode;
    var i := FindName(statics, f.name);
    if i.Some? {
      assert statics[i.value] in statics;
    }
  }

  // ---------- repeated names ----------

  lemma {:induction false} PutHolds(headers: seq<Field>, f: Field, x: Field)
    requires x == f || (x in headers && x.name != f.name)
    ensures x in Q.Put(headers, f)
    decreases |headers|
  {
    if headers != [] && headers[0].name != f.name && x != headers[0] {
      PutHolds(headers[1..], f, x);
    }
  }

  /** Of several lines with one name the last one counts. */
  lemma {:induction false} LastLineWins(headers: seq<Field>, fs: seq<Field>, x: Field, k: int)
    requires x.name != []
    requires -1 <= k < |fs| && (if k >= 0 then fs[k] == x else x in headers)
    requires forall j :: k < j < |fs| ==> fs[j].name != x.name
    ensures x in PutAll(headers, fs)
    decreases |fs|
  {
    hide Q.Put;
    if fs != [] {
      var next := if fs[0].name == [] then headers else Q.Put(headers, fs[0]);
      if k <= 0 {
        if fs[0].name != [] {
          PutHolds(headers, fs[0], x);
        }
        LastLineWins(next, fs[1..], x, -1);
      } else {
        LastLineWins(next, fs[1..], x, k - 1);
      }
    }
  }

  lemma {:induction false} PutNames(headers: seq<Field>, f: Field, name: seq<Byte>)
    requires name != f.name && forall i :: 0 <= i < |headers| ==> headers[i].name != name
    ensures forall i :: 0 <= i < |Q.Put(headers, f)| ==> Q.Put(headers, f)[i].name != name
    decreases |headers|
  {
    if headers != [] && headers[0].name != f.name {
      PutNames(headers[1..], f, name);
    }
  }

  lemma {:induction false} PutDistinct(headers: seq<Field>, f: Field)
    requires DistinctNames(headers)
    ensures DistinctNames(Q.Put(headers, f))
    decreases |headers|
  {
    if headers != [] {
      var tail := headers[1..];
      assert forall i :: 0 <= i < |tail| ==> tail[i] == headers[i + 1];
      assert DistinctNames(tail);
      if headers[0].name != f.name {
        PutDistinct(tail, f);
        PutNames(tail, f, headers[0].name);
      }
    }
  }

  /** And the map has each name once. */
  lemma {:induction false} PutAllDistinct(headers: seq<Field>, fs: seq<Field>)
    requires DistinctNames(headers)
    ensures DistinctNames(PutAll(headers, fs))
    decreases |fs|
  {
    hide Q.Put;
    if fs != [] {
      PutDistinct(headers, fs[0]);
      PutAllDistinct(if fs[0].name == [] then headers else Q.Put(headers, fs[0]), fs[1..]);
    }
  }
}
