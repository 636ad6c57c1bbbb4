/**
 What the hard-coded modulus 256 does to whole blocks when the table has another capacity:
 encoder and decoder hold the same table, but the decoder may read another insert count out of
 the block and then resolve every dynamic reference against the wrong Base.
 */
module QpackModulus {
  import opened Bytes
  import opened PrefixInteger
  import opened DynamicTables
  import opened RequiredInsertCounts
  import opened QpackEncoding
  import opened QpackRoundTrip
  import Q = QpackDecoding

  predicate AllDistinct(entries: seq<Field>) {
    forall i, j :: 0 <= i < j < |entries| ==> entries[i] != entries[j]
  }

  // ---------- the encoder never holds an entry twice ----------

  lemma AddKeepsDistinct(t: Table, f: Field)
    requires AllDistinct(t.entries) && f !in t.entries
    ensures AllDistinct(t.Add(f).entries)
  {
    var all := t.entries + [f];
    assert AllDistinct(all);
    var k := EvictCount(t.capacity, all);
    assert forall i :: 0 <= i < |all| - k ==> all[k..][i] == all[k + i];
  }

  lemma {:induction false} Pass1KeepsDistinct(statics: seq<Field>, t: Table, hs: seq<Field>)
    requires AllDistinct(t.entries)
    ensures AllDistinct(Pass1(statics, t, hs).table.entries)
    decreases |hs|
  {
    if hs != [] {
      if Novel(statics, t, hs[0]) {
        AddKeepsDistinct(t, hs[0]);
      }
      Pass1KeepsDistinct(statics, InsertIfNovel(statics, t, hs[0]).table, hs[1..]);
    }
  }

  lemma SetCapacityKeepsDistinct(t: Table, c: nat)
    requires AllDistinct(t.entries)
    ensures AllDistinct(t.SetCapacity(c).entries)
  {
    var k := EvictCount(c, t.entries);
    assert forall i :: 0 <= i < |t.entries| - k ==> t.entries[k..][i] == t.entries[k + i];
  }

  // ---------- lines against another Base ----------

  /** The header's line refers to the dynamic table. */
  predicate Dynamic(statics: seq<Field>, t: Table, f: Field) { f !in statics && f in t.entries }

  /** What a reference to position `p` finds when the Base is `base` instead of the insert count. */
  function EntryAt(t: Table, base: nat, p: nat): Field
    requires p < |t.entries|
  {
    var e := t.ByRelative(base, |t.entries| - 1 - p);
    if e.Some? then e.value else NOTHING
  }

  function Misread(statics: seq<Field>, t: Table, base: nat, f: Field): Field {
    if Dynamic(statics, t, f) then EntryAt(t, base, FindExact(t.entries, f).value) else f
  }

  lemma ReferenceMisread(env: Q.Env, t: Table, base: nat, p: nat, rest: seq<Byte>)
    requires p < |t.entries| < I32
    ensures Q.DecodeLine(env, t, base, Encode(|t.entries| - 1 - p, 6, 0x80) + rest) == Got(EntryAt(t, base, p), rest)
  {
    hide Encode, Decode;
    EncodeDecode(|t.entries| - 1 - p, 6, 0x80, rest);
  }

  lemma LineMisread(env: Q.Env, t: Table, base: nat, f: Field, rest: seq<Byte>)
    requires Addressable(t) && Sized(f) && |env.statics| <= I32
    ensures Q.DecodeLine(env, t, base, FieldLine(env.statics, t, f) + rest)
         == Got(Misread(env.statics, t, base, f), rest)
  {
    hide Q.DecodeLine, Encode, EncodeString, EntryAt;
    AddressableLength(t);
    var value := EncodeString(f.value, 7, 0);
    match FindExact(env.statics, f)
    case Some(i) => StaticLineDecoded(env, t, base, i, rest);
    case None =>
      match FindExact(t.entries, f)
      case Some(p) => ReferenceMisread(env, t, base, p, rest);
      case None =>
        match FindName(env.statics, f.name)
        case Some(i) =>
          Assoc(Encode(i, 4, 0x50), value, rest);
          StaticNameLineDecoded(env, t, base, i, f.value, rest);
        case None =>
          Assoc(EncodeString(f.name, 3, 0x20), value, rest);
          LiteralLineDecoded(env, t, base, f, rest);
  }

  function AllMisread(statics: seq<Field>, t: Table, base: nat, hs: seq<Field>): (fs: seq<Field>)
    ensures |fs| == |hs| && forall i :: 0 <= i < |hs| ==> fs[i] == Misread(statics, t, base, hs[i])
  {
    if hs == [] then [] else [Misread(statics, t, base, hs[0])] + AllMisread(statics, t, base, hs[1..])
  }

  lemma {:induction false} LinesMisread(env: Q.Env, t: Table, base: nat, hs: seq<Field>, s: Q.Section)
    requires Addressable(t) && AllSized(hs) && |env.statics| <= I32
    ensures Q.DecodeLines(env, t, base, Pass2(env.statics, t, hs), s)
         == Validate(AllMisread(env.statics, t, base, hs), s)
    decreases |hs|
  {
    hide FieldLine, Q.DecodeLine, Misread, Addressable;
    if hs != [] {
      var f := Misread(env.statics, t, base, hs[0]);
      LineMisread(env, t, base, hs[0], Pass2(env.statics, t, hs[1..]));
      var fs := AllMisread(env.statics, t, base, hs);
      assert fs[1..] == AllMisread(env.statics, t, base, hs[1..]);
      match Q.Accept(s, f)
      case None =>
      case Some(next) => LinesMisread(env, t, base, hs[1..], next);
    }
  }

  // ---------- whole blocks ----------

  /** The count the decoder reads out of a block of this table. */
  function CountRead(t: Table): Option<nat> {
    Reconstruct(t.capacity, t.Inserted(), EncodedInsertCount(t.Inserted()))
  }

  /** What becomes of a block, at any capacity. */
  lemma BlockMisread(env: Q.Env, t: Table, hs: seq<Field>)
    requires Addressable(t) && AllSized(hs) && |env.statics| <= I32 && t.Inserted() < U64
    ensures Q.DecodeBlock(env, t, Block(env.statics, t, hs))
      == match CountRead(t)
         case None => Q.Failed
         case Some(r) =>
           if r > t.Inserted() then Q.Blocked(r)
           else
             var fs := AllMisread(env.statics, t, r, hs);
             if WellOrdered(fs) then Q.Headers(PutAll([], fs)) else Q.Invalid
  {
    hide Encode, Decode, Reconstruct, Pass2, AllMisread, WellOrdered, Addressable;
    var lines := Pass2(env.statics, t, hs);
    var encoded := EncodedInsertCount(t.Inserted());
    Assoc(Encode(encoded, 8, 0), [0], lines);
    EncodeDecode(encoded, 8, 0, [0] + lines);
    var r := CountRead(t);
    if r.Some? && r.value <= t.Inserted() {
      BodyDecoded(env, t, r.value, lines);
      LinesMisread(env, t, r.value, hs, Q.START);
      ValidateExact(AllMisread(env.statics, t, r.value, hs), Q.START);
    }
  }

  /** No line of the block refers to the dynamic table. */
  predicate NoDynamic(statics: seq<Field>, t: Table, hs: seq<Field>) {
    forall i :: 0 <= i < |hs| ==> !Dynamic(statics, t, hs[i])
  }

  lemma EntryAtLower(t: Table, base: nat, p: nat)
    requires p < |t.entries| && base < t.Inserted()
    ensures EntryAt(t, base, p) == NOTHING || exists q :: 0 <= q < p && EntryAt(t, base, p) == t.entries[q]
  {
    var relative := |t.entries| - 1 - p;
    var e := t.ByRelative(base, relative);
    if e.Some? {
      var q := base - 1 - relative - t.dropped;
      assert 0 <= q < p && e.value == t.entries[q];
    }
  }

  /** The dynamic header whose entry is newest. */
  lemma {:induction false} Newest(statics: seq<Field>, t: Table, hs: seq<Field>) returns (i: nat)
    requires !NoDynamic(statics, t, hs)
    ensures i < |hs| && Dynamic(statics, t, hs[i])
    ensures forall j :: 0 <= j < |hs| && Dynamic(statics, t, hs[j]) ==>
      FindExact(t.entries, hs[j]).value <= FindExact(t.entries, hs[i]).value
    decreases |hs|
  {
    var n := |hs| - 1;
    var before := hs[..n];
    assert forall j :: 0 <= j < n ==> before[j] == hs[j];
    if NoDynamic(statics, t, before) {
      i := n;
    } else {
      i := Newest(statics, t, before);
      if Dynamic(statics, t, hs[n])
        && FindExact(t.entries, hs[n]).value > FindExact(t.entries, hs[i]).value {
        i := n;
      }
    }
  }

  /** Against a lower Base the newest dynamic header comes out of no line. */
  lemma NewestIsLost(statics: seq<Field>, t: Table, base: nat, hs: seq<Field>, i: nat)
    requires AllDistinct(t.entries) && NonEmptyNames(hs) && base < t.Inserted()
    requires i < |hs| && Dynamic(statics, t, hs[i])
    requires forall j :: 0 <= j < |hs| && Dynamic(statics, t, hs[j]) ==>
      FindExact(t.entries, hs[j]).value <= FindExact(t.entries, hs[i]).value
    ensures hs[i] !in AllMisread(statics, t, base, hs)
  {
    var f, fs := hs[i], AllMisread(statics, t, base, hs);
    var p := FindExact(t.entries, f).value;
    assert f.name != [];
    forall j | 0 <= j < |hs| ensures fs[j] != f {
      if Dynamic(statics, t, hs[j]) {
        EntryAtLower(t, base, FindExact(t.entries, hs[j]).value);
      }
    }
  }

  lemma {:induction false} PutMembers(headers: seq<Field>, f: Field, x: Field)
    requires x in Q.Put(headers, f)
    ensures x in headers || x == f
  {
    if headers != [] && headers[0].name != f.name {
      if x != headers[0] {
        PutMembers(headers[1..], f, x);
      }
    }
  }

  /** The map holds nothing but lines. */
  lemma {:induction false} PutAllMembers(headers: seq<Field>, fs: seq<Field>, x: Field)
    requires x in PutAll(headers, fs)
    ensures x in headers || x in fs
    decreases |fs|
  {
    hide Q.Put;
    if fs != [] {
      var next := if fs[0].name == [] then headers else Q.Put(headers, fs[0]);
      PutAllMembers(next, fs[1..], x);
      if x in next && x !in headers {
        PutMembers(headers, fs[0], x);
      }
    }
  }

  /**
   At any capacity, with equal tables: a good map comes back if and only if the decoder reads the
   right count, or a smaller one while no line refers to the dynamic table.
   */
  lemma BlockRightIff(env: Q.Env, t: Table, hs: seq<Field>)
    requires Addressable(t) && AllSized(hs) && |env.statics| <= I32 && t.Inserted() < U64
    requires AllDistinct(t.entries) && DistinctNames(hs) && NonEmptyNames(hs) && WellOrdered(hs)
    ensures var r := CountRead(t);
      Q.DecodeBlock(env, t, Block(env.statics, t, hs)) == Q.Headers(hs)
      <==> r.Some? && (r.value == t.Inserted() || (r.value < t.Inserted() && NoDynamic(env.statics, t, hs)))
  {
    hide Q.DecodeBlock, Block, Addressable, PutAll, Reconstruct;
    BlockMisread(env, t, hs);
    var r := CountRead(t);
    if r.Some? && r.value <= t.Inserted() {
      var fs := AllMisread(env.statics, t, r.value, hs);
      if r.value == t.Inserted() || NoDynamic(env.statics, t, hs) {
        ReadRight(env.statics, t, r.value, hs);
        PutAllFresh([], hs);
        NamedIsAll(hs);
      } else {
        var i := Newest(env.statics, t, hs);
        NewestIsLost(env.statics, t, r.value, hs, i);
        if PutAll([], fs) == hs {
          PutAllMembers([], fs, hs[i]);
        }
      }
    }
  }

  lemma ReadRight(statics: seq<Field>, t: Table, base: nat, hs: seq<Field>)
    requires base == t.Inserted() || NoDynamic(statics, t, hs)
    ensures AllMisread(statics, t, base, hs) == hs
  {
    var fs := AllMisread(statics, t, base, hs);
    forall i | 0 <= i < |hs| ensures fs[i] == hs[i] {
      if Dynamic(statics, t, hs[i]) {
        var p := FindExact(t.entries, hs[i]).value;
        assert t.ByRelative(base, |t.entries| - 1 - p) == Some(t.entries[p]);
      }
    }
  }

  /** After one encoder call, whatever the map and the table before. */
  lemma EncodedRightIff(env: Q.Env, before: Table, hs: seq<Field>)
    requires Addressable(before) && AllSized(hs) && |env.statics| <= I32 && before.Inserted() + |hs| < U64
    requires AllDistinct(before.entries) && DistinctNames(hs) && NonEmptyNames(hs) && WellOrdered(hs)
    ensures var t := Pass1(env.statics, before, hs).table;
      var r := CountRead(t);
      Q.DecodeBlock(env, t, Block(env.statics, t, hs)) == Q.Headers(hs)
      <==> r.Some? && (r.value == t.Inserted() || (r.value < t.Inserted() && NoDynamic(env.statics, t, hs)))
  {
    hide Q.DecodeBlock, Block, Pass1, CountRead, WellOrdered;
    Pass1KeepsAddressable(env.statics, before, hs);
    Pass1KeepsDistinct(env.statics, before, hs);
    BlockRightIff(env, Pass1(env.statics, before, hs).table, hs);
  }

  /**
   A wrong header, silently accepted.  With a capacity of 3200 and 256 insertions on both sides the
   count is read as 200, and a header stored at position `p` comes back as the entry 56 before it.
   */
  lemma WrongHeaderAccepted(env: Q.Env, t: Table, p: nat)
    requires t.capacity == 3200 && t.Fits() && t.Inserted() == 256 && |env.statics| <= I32
    requires AllDistinct(t.entries) && 56 <= p < |t.entries|
    requires t.entries[p] !in env.statics && Sized(t.entries[p]) && t.entries[p - 56].name != []
    ensures CountRead(t) == Some(200)
    ensures Q.DecodeBlock(env, t, Block(env.statics, t, [t.entries[p]])) == Q.Headers([t.entries[p - 56]])
    ensures t.entries[p - 56] != t.entries[p]
  {
    hide Q.DecodeBlock, Block, CountRead, AllMisread, WellOrdered, PutAll;
    var f := t.entries[p];
    ReadAs200(t);
    BlockMisread(env, t, [f]);
    OneMisread(env.statics, t, p);
    OneField(t.entries[p - 56]);
  }

  lemma ReadAs200(t: Table)
    requires t.capacity == 3200 && t.Inserted() == 256
    ensures CountRead(t) == Some(200)
  {
  }

  lemma OneMisread(statics: seq<Field>, t: Table, p: nat)
    requires t.Inserted() == 256 && AllDistinct(t.entries) && 56 <= p < |t.entries| && t.entries[p] !in statics
    ensures AllMisread(statics, t, 200, [t.entries[p]]) == [t.entries[p - 56]]
  {
    var f := t.entries[p];
    assert FindExact(t.entries, f).value == p;
    assert t.ByRelative(200, |t.entries| - 1 - p) == Some(t.entries[p - 56]);
  }

  lemma OneField(f: Field)
    requires f.name != []
    ensures WellOrdered([f]) && PutAll([], [f]) == [f]
  {
    assert [f][1..] == [];
  }

  /** A capacity too small for one entry makes every count divide by zero, and every later block fail. */
  lemma TinyCapacityFails(env: Q.Env, t: Table, hs: seq<Field>)
    requires 0 < t.capacity < 32 && 0 < t.Inserted() < U64
    requires Addressable(t) && AllSized(hs) && |env.statics| <= I32
    ensures Q.DecodeBlock(env, t, Block(env.statics, t, hs)) == Q.Failed
  {
    hide Q.DecodeBlock, Block, Addressable;
    BlockMisread(env, t, hs);
  }
}
