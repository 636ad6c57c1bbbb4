/**
 Where a batch of encoder-stream instructions stops.  The decoder keeps no state between
 calls, so a call sees whole instructions only if the bytes happen to be cut between them.
 */
module EncoderStreamCuts {
  import opened Bytes
  import opened PrefixInteger
  import opened DynamicTables
  import opened QpackEncoding
  import opened QpackDecoding
  import opened QpackRoundTrip

  // ---------- batches that raise half-way ----------

  /** Whole instructions at the front of `data` lead from `t` to `mid` and leave `rest`. */
  ghost predicate Reaches(env: Env, t: Table, data: seq<Byte>, mid: Table, rest: seq<Byte>)
    decreases |data|
  {
    || (t == mid && data == rest)
    || (data != [] &&
        match Instruction(env, t, data)
        case Raised => false
        case Got(next, after) => Reaches(env, next, after, mid, rest))
  }

  /** The batch `a + b`: the instructions of `a` complete, the next one raises on `b`. */
  ghost predicate FailsAfter(env: Env, t: Table, a: seq<Byte>, b: seq<Byte>, mid: Table) {
    b != [] && Reaches(env, t, a + b, mid, b) && Instruction(env, mid, b) == Raised
  }

  lemma {:induction false} ReachesReplay(env: Env, t: Table, data: seq<Byte>, mid: Table, rest: seq<Byte>)
    requires Reaches(env, t, data, mid, rest)
    ensures Replay(env, t, data) == Replay(env, mid, rest) && IsSuffix(rest, data)
    decreases |data|
  {
    hide Instruction;
    if !(t == mid && data == rest) {
      var r := Instruction(env, t, data);
      ReachesReplay(env, r.value, r.rest, mid, rest);
      InstructionTakesPrefix(env, t, data);
    }
  }

  predicate IsSuffix(r: seq<Byte>, bs: seq<Byte>) { |r| <= |bs| && r == bs[|bs| - |r|..] }

  /** Where a batch that raises stops. */
  lemma {:induction false} RaisesSomewhere(env: Env, t: Table, data: seq<Byte>) returns (mid: Table, rest: seq<Byte>)
    requires !Replay(env, t, data).ok
    ensures rest != [] && Reaches(env, t, data, mid, rest) && Instruction(env, mid, rest) == Raised
    decreases |data|
  {
    hide Instruction;
    mid, rest := t, data;
    var r := Instruction(env, t, data);
    if r.Got? {
      mid, rest := RaisesSomewhere(env, r.value, r.rest);
    }
  }

  /** What is read is always a prefix. */
  lemma {:induction false} TailTakesPrefix(acc: nat, bs: seq<Byte>, shift: nat)
    requires DecodeTail(acc, bs, shift).Got?
    ensures IsSuffix(DecodeTail(acc, bs, shift).rest, bs)
    decreases |bs|
  {
    if bs[0] >= 128 {
      TailTakesPrefix(acc + bs[0] % 128 * Pow2(shift) % U64, bs[1..], shift + 7);
    }
  }

  lemma IntegerTakesPrefix(first: Byte, n: nat, bs: seq<Byte>)
    requires 1 <= n <= 8 && Decode(first, n, bs).Got?
    ensures IsSuffix(Decode(first, n, bs).rest, bs)
  {
    if first % (Mask(n) + 1) == Mask(n) {
      TailTakesPrefix(Mask(n), bs, 0);
    }
  }

  lemma StringTakesPrefix(env: Env, first: Byte, n: nat, bs: seq<Byte>)
    requires 1 <= n <= 7 && DecodeString(env, first, n, bs).Got?
    ensures IsSuffix(DecodeString(env, first, n, bs).rest, bs)
  {
    hide Decode;
    IntegerTakesPrefix(first, n, bs);
  }

  lemma NextTakesPrefix(env: Env, n: nat, bs: seq<Byte>)
    requires 1 <= n <= 7 && NextString(env, n, bs).Got?
    ensures IsSuffix(NextString(env, n, bs).rest, bs)
  {
    hide DecodeString;
    if bs != [] {
      StringTakesPrefix(env, bs[0], n, bs[1..]);
    }
  }

  lemma InstructionTakesPrefix(env: Env, t: Table, bs: seq<Byte>)
    requires bs != [] && Instruction(env, t, bs).Got?
    ensures IsSuffix(Instruction(env, t, bs).rest, bs)
  {
    hide Decode, DecodeString, NextString;
    var b, tail := bs[0], bs[1..];
    if b / 32 == 1 {
      IntegerTakesPrefix(b, 5, tail);
    } else if b >= 128 {
      IntegerTakesPrefix(b, 6, tail);
      NextTakesPrefix(env, 7, Decode(b, 6, tail).rest);
    } else if b / 64 == 1 {
      StringTakesPrefix(env, b, 5, tail);
      NextTakesPrefix(env, 7, DecodeString(env, b, 5, tail).rest);
    } else {
      IntegerTakesPrefix(b, 5, tail);
    }
  }

  // ---------- reading the same without what follows ----------

  lemma {:induction false} TailAlone(acc: nat, a: seq<Byte>, b: seq<Byte>, shift: nat)
    requires var r := DecodeTail(acc, a + b, shift); r.Got? && |r.rest| >= |b|
    ensures var r := DecodeTail(acc, a + b, shift);
      DecodeTail(acc, a, shift) == Got(r.value, r.rest[..|r.rest| - |b|])
    decreases |a|
  {
    assert a == [] ==> a + b == b;
    assert (a + b)[0] == a[0] && (a + b)[1..] == a[1..] + b;
    if a[0] < 128 {
      assert (a[1..] + b)[..|a| - 1] == a[1..];
    } else {
      TailAlone(acc + a[0] % 128 * Pow2(shift) % U64, a[1..], b, shift + 7);
    }
  }

  lemma IntegerAlone(first: Byte, n: nat, a: seq<Byte>, b: seq<Byte>)
    requires 1 <= n <= 8
    requires var r := Decode(first, n, a + b); r.Got? && |r.rest| >= |b|
    ensures var r := Decode(first, n, a + b); Decode(first, n, a) == Got(r.value, r.rest[..|r.rest| - |b|])
  {
    if first % (Mask(n) + 1) == Mask(n) {
      TailAlone(Mask(n), a, b, 0);
    } else {
      assert (a + b)[..|a|] == a;
    }
  }

  /** A result that leaves all of `b`, with `b` taken away. */
  function Without<T>(r: Read<T>, b: seq<Byte>): Read<T>
    requires r.Got? && |r.rest| >= |b|
  {
    Got(r.value, r.rest[..|r.rest| - |b|])
  }

  lemma StringAlone(env: Env, first: Byte, n: nat, a: seq<Byte>, b: seq<Byte>)
    requires 1 <= n <= 7 && b != []
    requires var r := DecodeString(env, first, n, a + b); r.Got? && |r.rest| >= |b|
    ensures DecodeString(env, first, n, a) == Without(DecodeString(env, first, n, a + b), b)
  {
    hide Decode;
    IntegerAlone(first, n, a, b);
    var len := Decode(first, n, a + b);
    var short := len.rest[..|len.rest| - |b|];
    assert len.value <= |short|;
    assert short[..len.value] == len.rest[..len.value];
    assert short[len.value..] == len.rest[len.value..][..|len.rest| - len.value - |b|];
  }

  lemma NextAlone(env: Env, n: nat, a: seq<Byte>, b: seq<Byte>)
    requires 1 <= n <= 7 && b != []
    requires var r := NextString(env, n, a + b); r.Got? && |r.rest| >= |b|
    ensures NextString(env, n, a) == Without(NextString(env, n, a + b), b)
  {
    hide DecodeString;
    assert a == [] ==> a + b == b;
    assert (a + b)[0] == a[0] && (a + b)[1..] == a[1..] + b;
    StringAlone(env, a[0], n, a[1..], b);
  }

  /** What `Decode` and the like leave of `a + b`, when that is at least `b`. */
  lemma SuffixKeeps(r: seq<Byte>, a: seq<Byte>, b: seq<Byte>)
    requires IsSuffix(r, a + b) && |r| >= |b|
    ensures r == r[..|r| - |b|] + b
  {
  }

  lemma InstructionAlone(env: Env, t: Table, a: seq<Byte>, b: seq<Byte>)
    requires a + b != [] && b != []
    requires var r := Instruction(env, t, a + b); r.Got? && |r.rest| >= |b|
    ensures a != [] && Instruction(env, t, a) == Without(Instruction(env, t, a + b), b)
  {
    hide Decode, DecodeString, NextString;
    assert a == [] ==> a + b == b;
    var first, tail := a[0], a[1..];
    assert (a + b)[0] == first && (a + b)[1..] == tail + b;
    if first / 32 == 1 {
      IntegerAlone(first, 5, tail, b);
    } else if first >= 128 {
      IndexAlone(env, first, tail, b);
    } else if first / 64 == 1 {
      LiteralAlone(env, first, tail, b);
    } else {
      IntegerAlone(first, 5, tail, b);
    }
  }

  lemma IndexAlone(env: Env, first: Byte, a: seq<Byte>, b: seq<Byte>)
    requires b != [] && Decode(first, 6, a + b).Got?
    requires var r := NextString(env, 7, Decode(first, 6, a + b).rest); r.Got? && |r.rest| >= |b|
    ensures |Decode(first, 6, a + b).rest| >= |b|
    ensures var i := Without(Decode(first, 6, a + b), b);
      && Decode(first, 6, a) == i
      && NextString(env, 7, i.rest) == Without(NextString(env, 7, Decode(first, 6, a + b).rest), b)
  {
    hide Decode, NextString;
    var i := Decode(first, 6, a + b);
    IntegerTakesPrefix(first, 6, a + b);
    SuffixKeeps(i.rest, a, b);
    IntegerAlone(first, 6, a, b);
    NextAlone(env, 7, i.rest[..|i.rest| - |b|], b);
  }

  lemma LiteralAlone(env: Env, first: Byte, a: seq<Byte>, b: seq<Byte>)
    requires b != [] && DecodeString(env, first, 5, a + b).Got?
    requires var r := NextString(env, 7, DecodeString(env, first, 5, a + b).rest); r.Got? && |r.rest| >= |b|
    ensures |DecodeString(env, first, 5, a + b).rest| >= |b|
    ensures var i := Without(DecodeString(env, first, 5, a + b), b);
      && DecodeString(env, first, 5, a) == i
      && NextString(env, 7, i.rest) == Without(NextString(env, 7, DecodeString(env, first, 5, a + b).rest), b)
  {
    hide DecodeString, NextString;
    var i := DecodeString(env, first, 5, a + b);
    StringTakesPrefix(env, first, 5, a + b);
    SuffixKeeps(i.rest, a, b);
    StringAlone(env, first, 5, a, b);
    NextAlone(env, 7, i.rest[..|i.rest| - |b|], b);
  }

  /** Instructions completed in front of `b` complete just the same without it. */
  lemma {:induction false} ReachesAlone(env: Env, t: Table, a: seq<Byte>, b: seq<Byte>, mid: Table)
    requires b != [] && Reaches(env, t, a + b, mid, b)
    ensures Replay(env, t, a) == Replayed(mid, true)
    decreases |a|
  {
    hide Instruction;
    if t == mid && a + b == b {
      assert |a| == 0;
    } else {
      var r := Instruction(env, t, a + b);
      ReachesReplay(env, r.value, r.rest, mid, b);
      InstructionTakesPrefix(env, t, a + b);
      SuffixKeeps(r.rest, a, b);
      InstructionAlone(env, t, a, b);
      ReachesAlone(env, r.value, r.rest[..|r.rest| - |b|], b, mid);
    }
  }

  /** The table after a batch that fails is what its completed part makes on its own. */
  lemma FailsAfterExactly(env: Env, t: Table, a: seq<Byte>, b: seq<Byte>, mid: Table)
    requires FailsAfter(env, t, a, b, mid)
    ensures Replay(env, t, a + b) == Replayed(mid, false) && Replay(env, t, a) == Replayed(mid, true)
  {
    hide Instruction;
    ReachesReplay(env, t, a + b, mid, b);
    ReachesAlone(env, t, a, b, mid);
  }

  /** A batch raises if and only if it is some completed instructions and then bytes that raise. */
  lemma RaisesIff(env: Env, t: Table, data: seq<Byte>)
    ensures !Replay(env, t, data).ok <==> exists a, b, mid :: data == a + b && FailsAfter(env, t, a, b, mid)
  {
    hide Instruction;
    if !Replay(env, t, data).ok {
      var mid, b := RaisesSomewhere(env, t, data);
      ReachesReplay(env, t, data, mid, b);
      var a := data[..|data| - |b|];
      assert data == a + b;
      assert FailsAfter(env, t, a, b, mid);
    }
    if a, b, mid :| data == a + b && FailsAfter(env, t, a, b, mid) {
      FailsAfterExactly(env, t, a, b, mid);
    }
  }

  // ---------- instructions cut in two ----------

  lemma {:induction false} TailCutRaises(acc: nat, v: nat, shift: nat, k: nat)
    requires k < |Tail(v)|
    ensures DecodeTail(acc, Tail(v)[..k], shift) == Raised
    decreases v
  {
    if k > 0 {
      var bs := Tail(v)[..k];
      assert v >= 128 && bs[0] >= 128;
      assert bs[1..] == Tail(v / 128)[..k - 1];
      TailCutRaises(acc + bs[0] % 128 * Pow2(shift) % U64, v / 128, shift + 7, k - 1);
    }
  }

  /** An integer cut anywhere raises. */
  lemma IntegerCutRaises(v: nat, n: nat, flags: Byte, k: nat)
    requires 1 <= n <= 8 && IsFlags(flags, n) && 1 <= k < |Encode(v, n, flags)|
    ensures var bs := Encode(v, n, flags)[..k]; Decode(bs[0], n, bs[1..]) == Raised
  {
    var bs := Encode(v, n, flags)[..k];
    FlagsLeaveRoom(flags, n);
    PrefixBits(flags, Mask(n), Mask(n) + 1);
    assert bs[1..] == Tail(v - Mask(n))[..k - 1];
    TailCutRaises(Mask(n), v - Mask(n), 0, k - 1);
  }

  /** A string cut inside its length raises; cut later, it is silently shortened. */
  lemma StringCut(env: Env, s: seq<Byte>, n: nat, flags: Byte, k: nat)
    requires 1 <= n <= 7 && IsFlags(flags, n) && flags / (Mask(n) + 1) % 2 == 0 && |s| < U64
    requires 1 <= k <= |EncodeString(s, n, flags)|
    ensures var bs, len := EncodeString(s, n, flags)[..k], |Encode(|s|, n, flags)|;
      DecodeString(env, bs[0], n, bs[1..]) == if k < len then Raised else Got(s[..k - len], [])
  {
    hide Encode, Decode;
    var head := Encode(|s|, n, flags);
    var bs := EncodeString(s, n, flags)[..k];
    if k < |head| {
      assert bs == head[..k];
      IntegerCutRaises(|s|, n, flags, k);
    } else {
      var kept := s[..k - |head|];
      assert bs == head + kept;
      EncodeDecode(|s|, n, flags, kept);
      var w := Mask(n) + 1;
      assert flags == flags / w * w;
      ModUnique(bs[0], w, flags / w, Min(|s|, Mask(n)));
      assert kept[..|kept|] == kept && kept[|kept|..] == [];
    }
  }

  lemma ValueCut(env: Env, v: seq<Byte>, k: nat)
    requires |v| < U64 && k <= |EncodeString(v, 7, 0)|
    ensures var bs, len := EncodeString(v, 7, 0)[..k], |Encode(|v|, 7, 0)|;
      NextString(env, 7, bs) == if k == 0 then Got([], []) else if k < len then Raised else Got(v[..k - len], [])
  {
    hide Encode, Decode, DecodeString;
    if k > 0 {
      StringCut(env, v, 7, 0, k);
    }
  }

  predicate NameIsLiteral(statics: seq<Field>, t: Table, f: Field) {
    FindName(statics, f.name).None? && FindName(t.entries, f.name).None?
  }

  /** The part of an insertion before its value: a reference to a name, or the name itself. */
  function NamePart(statics: seq<Field>, t: Table, f: Field): (bs: seq<Byte>)
    ensures bs != [] && InsertInstruction(statics, t, f) == bs + EncodeString(f.value, 7, 0)
  {
    match FindName(statics, f.name)
    case Some(i) => Encode(i, 6, 0xC0)
    case None =>
      match FindName(t.entries, f.name)
      case Some(p) => Encode(t.Inserted() - 1 - (t.dropped + p), 6, 0x80)
      case None => EncodeString(f.name, 5, 0x40)
  }

  /** How many of its bytes are the integer at its front. */
  function NameInteger(statics: seq<Field>, t: Table, f: Field): nat {
    if NameIsLiteral(statics, t, f) then |Encode(|f.name|, 5, 0x40)| else |NamePart(statics, t, f)|
  }

  /** The entry inserted when only the first `k` bytes of an insertion arrive; none if that raises. */
  function CutEntry(statics: seq<Field>, t: Table, f: Field, k: nat): Option<Field> {
    var head, front := |NamePart(statics, t, f)|, NameInteger(statics, t, f);
    var len := |Encode(|f.value|, 7, 0)|;
    if k < front then None
    else if k <= head then
      Some(Field(if NameIsLiteral(statics, t, f) then f.name[..Min(k - front, |f.name|)] else f.name, []))
    else if k < head + len then None
    else Some(Field(f.name, f.value[..Min(k - head - len, |f.value|)]))
  }

  predicate Replayable(env: Env, t: Table, f: Field) { Addressable(t) && Sized(f) && |env.statics| <= I32 }

  ghost predicate CutsTo(env: Env, t: Table, f: Field, k: nat)
    requires 1 <= k <= |InsertInstruction(env.statics, t, f)|
  {
    Instruction(env, t, InsertInstruction(env.statics, t, f)[..k])
    == match CutEntry(env.statics, t, f, k)
       case None => Raised
       case Some(e) => Got(t.Add(e), [])
  }

  /** A name reference whose index arrives whole is decided by what there is of its value. */
  lemma IndexedCut(env: Env, t: Table, index: nat, flags: Byte, v: seq<Byte>, k: nat)
    requires index < I32 && (flags == 0xC0 || flags == 0x80) && |v| < U64
    requires 1 <= k <= |Encode(index, 6, flags) + EncodeString(v, 7, 0)|
    ensures var head, value := Encode(index, 6, flags), EncodeString(v, 7, 0);
      var e := if flags == 0xC0 then StaticEntry(env, index) else t.ByRelative(t.Inserted(), index);
      var got := if k < |head| then Raised else NextString(env, 7, value[..k - |head|]);
      Instruction(env, t, (head + value)[..k])
      == if got.Raised? then Raised else Got(t.Add(Field(NameOf(e), got.value)), got.rest)
  {
    hide Encode, Decode, NextString, EncodeString;
    var head, value := Encode(index, 6, flags), EncodeString(v, 7, 0);
    var bs := (head + value)[..k];
    assert bs[0] == head[0];
    if k < |head| {
      assert bs == head[..k];
      IntegerCutRaises(index, 6, flags, k);
    } else {
      assert bs == head + value[..k - |head|];
      EncodeDecode(index, 6, flags, value[..k - |head|]);
    }
  }

  lemma ReferenceCut(env: Env, t: Table, f: Field, k: nat)
    requires Replayable(env, t, f) && !NameIsLiteral(env.statics, t, f)
    requires 1 <= k <= |InsertInstruction(env.statics, t, f)|
    ensures CutsTo(env, t, f, k)
  {
    hide Encode, NextString, EncodeString, Instruction;
    AddressableLength(t);
    ValueLength(f.value);
    var s, p := FindName(env.statics, f.name), FindName(t.entries, f.name);
    var flags: Byte := if s.Some? then 0xC0 else 0x80;
    var index := if s.Some? then s.value else t.Inserted() - 1 - (t.dropped + p.value);
    IndexedCut(env, t, index, flags, f.value, k);
    var head := |NamePart(env.statics, t, f)|;
    if k >= head {
      ValueCut(env, f.value, k - head);
    }
  }

  lemma ValueLength(v: seq<Byte>)
    ensures |EncodeString(v, 7, 0)| == |Encode(|v|, 7, 0)| + |v|
  {
  }

  lemma LiteralCut(env: Env, t: Table, f: Field, k: nat)
    requires Replayable(env, t, f) && NameIsLiteral(env.statics, t, f)
    requires 1 <= k <= |InsertInstruction(env.statics, t, f)|
    ensures CutsTo(env, t, f, k)
  {
    hide Encode, Decode, NextString, DecodeString;
    var head, value := EncodeString(f.name, 5, 0x40), EncodeString(f.value, 7, 0);
    var bs := (head + value)[..k];
    assert bs[0] == head[0] == 0x40 + Min(|f.name|, Mask(5));
    if k <= |head| {
      assert bs == head[..k];
      StringCut(env, f.name, 5, 0x40, k);
      assert NextString(env, 7, []) == Got([], []) by {
        ValueCut(env, [], 0);
      }
    } else {
      assert bs == head + value[..k - |head|];
      StringRoundTrip(env, f.name, 5, 0x40, value[..k - |head|]);
      ValueCut(env, f.value, k - |head|);
    }
  }

  /**
   A batch that ends inside an insertion, for every header and every cut: it raises if and only
   if the cut falls inside one of its two integers; otherwise it inserts an entry with a
   shortened name or value, which is the right one only if all that is missing is the
   zero length of an empty value.
   */
  lemma InsertionCut(env: Env, t: Table, f: Field, k: nat)
    requires Replayable(env, t, f) && 1 <= k < |InsertInstruction(env.statics, t, f)|
    ensures var bs := InsertInstruction(env.statics, t, f);
      match CutEntry(env.statics, t, f, k)
      case None => Replay(env, t, bs[..k]) == Replayed(t, false)
      case Some(e) =>
        && Replay(env, t, bs[..k]) == Replayed(t.Add(e), true)
        && (e == f <==> f.value == [] && k == |bs| - 1)
  {
    hide Encode, Instruction, EncodeString, FindName;
    if NameIsLiteral(env.statics, t, f) {
      LiteralCut(env, t, f, k);
    } else {
      ReferenceCut(env, t, f, k);
    }
    CutEntryWrong(env.statics, t, f, k);
  }

  lemma CutEntryWrong(statics: seq<Field>, t: Table, f: Field, k: nat)
    requires 1 <= k < |InsertInstruction(statics, t, f)|
    ensures var e := CutEntry(statics, t, f, k);
      e.Some? ==> (e.value == f <==> f.value == [] && k == |InsertInstruction(statics, t, f)| - 1)
  {
    hide Decode;
    ValueLength(f.value);
    var head := |NamePart(statics, t, f)|;
    assert f.value == [] ==> |Encode(|f.value|, 7, 0)| == 1;
    assert NameIsLiteral(statics, t, f) ==> head == NameInteger(statics, t, f) + |f.name|;
  }

  /** For instance the first four bytes of an insertion of a five-byte name. */
  lemma ShortNameInserted(env: Env, t: Table, a: Byte, b: Byte, c: Byte)
    ensures Replay(env, t, [0x45, a, b, c]) == Replayed(t.Add(Field([a, b, c], [])), true)
  {
    var bs := [0x45, a, b, c];
    assert bs[1..] == [a, b, c] && [a, b, c][..3] == [a, b, c];
    assert Decode(0x45, 5, [a, b, c]) == Got(5, [a, b, c]);
    assert DecodeString(env, 0x45, 5, [a, b, c]) == Got([a, b, c], []);
  }

  /** A capacity change cut anywhere raises. */
  lemma CapacityCut(env: Env, t: Table, c: nat, k: nat)
    requires 1 <= k < |Encode(c, 5, 0x20)|
    ensures Replay(env, t, Encode(c, 5, 0x20)[..k]) == Replayed(t, false)
  {
    hide Decode;
    IntegerCutRaises(c, 5, 0x20, k);
    assert Encode(c, 5, 0x20)[..k][0] == 0x3F;
  }
}
