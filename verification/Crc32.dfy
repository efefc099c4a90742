/** The CRC-32 of the determinism oracle (src/gp_crc.cpp). */
module Crc32 {
  import opened Iteration

  // ---------- one step ----------

  function Xor(a: bv32, b: bv32): bv32 {
    a ^ b
  }

  function Half(c: bv32): bv32 {
    c >> 1
  }

  /** The polynomial, when the bit shifted out is set. */
  function Feedback(c: bv32): bv32 {
    0xEDB88320 & (0 - (c & 1))
  }

  function ShiftBit(c: bv32): bv32 {
    Xor(Half(c), Feedback(c))
  }

  function Wide(b: bv8): bv32 {
    b as bv32
  }

  function Step(c: bv32, b: bv8): bv32 {
    Times(ShiftBit, Xor(c, Wide(b)), 8)
  }

  function Not(c: bv32): bv32 {
    !c
  }

  /** The complement is undone before and redone after, so calls chain. */
  function Acc(crc: bv32, data: seq<bv8>): bv32 {
    Not(Fold(Step, Not(crc), data))
  }

  method Crc32Acc(crc: bv32, data: seq<bv8>) returns (r: bv32)
    ensures r == Acc(crc, data)
  {
    r := Not(crc);
    for i := 0 to |data|
      invariant r == Fold(Step, Not(crc), data[..i])
    {
      assert data[..i + 1][..i] == data[..i];
      r := Xor(r, Wide(data[i]));
      ghost var c := r;
      for k := 0 to 8
        invariant r == Times(ShiftBit, c, k)
      {
        r := ShiftBit(r);
      }
    }
    assert data[..|data|] == data;
    r := Not(r);
  }

  // ---------- chaining ----------

  lemma NotNot(x: bv32)
    ensures Not(Not(x)) == x
  {
  }

  /** The CRC of a concatenation is the CRC of its second part, seeded with that of the first. */
  lemma AccChains(c: bv32, a: seq<bv8>, b: seq<bv8>)
    ensures Acc(Acc(c, a), b) == Acc(c, a + b)
  {
    NotNot(Fold(Step, Not(c), a));
    FoldJoins(Step, Not(c), a, b);
  }

  // ---------- no information lost ----------

  /** The top bit of the result tells which bit was shifted out. */
  lemma ShiftBitInjective(a: bv32, b: bv32)
    requires ShiftBit(a) == ShiftBit(b)
    ensures a == b
  {
  }

  lemma XorCancels(a: bv32, b: bv32, x: bv32)
    requires Xor(a, x) == Xor(b, x)
    ensures a == b
  {
  }

  lemma NotInjective(a: bv32, b: bv32)
    requires Not(a) == Not(b)
    ensures a == b
  {
  }

  lemma StepInjective(a: bv32, b: bv32, x: bv8)
    requires Step(a, x) == Step(b, x)
    ensures a == b
  {
    forall p, q | ShiftBit(p) == ShiftBit(q) ensures p == q {
      ShiftBitInjective(p, q);
    }
    TimesInjective(ShiftBit, Xor(a, Wide(x)), Xor(b, Wide(x)), 8);
    XorCancels(a, b, Wide(x));
  }

  lemma CoreInjective(a: bv32, b: bv32, data: seq<bv8>)
    requires Fold(Step, a, data) == Fold(Step, b, data)
    ensures a == b
  {
    forall p, q, x | Step(p, x) == Step(q, x) ensures p == q {
      StepInjective(p, q, x);
    }
    FoldInjective(Step, a, b, data);
  }

  /** For fixed data, different seeds give different results. */
  lemma SeedInjective(a: bv32, b: bv32, data: seq<bv8>)
    requires Acc(a, data) == Acc(b, data)
    ensures a == b
  {
    NotInjective(Fold(Step, Not(a), data), Fold(Step, Not(b), data));
    CoreInjective(Not(a), Not(b), data);
    NotInjective(a, b);
  }

  // ---------- a step is linear in the high bits ----------

  function Dbl(y: bv32): bv32 {
    y << 1
  }

  predicate TopClear(y: bv32) {
    y & 0x8000_0000 == 0
  }

  /** The value fits in 24 bits. */
  predicate Short(y: bv32) {
    y & 0xff00_0000 == 0
  }

  function ByteUp(y: bv32): bv32 {
    y << 8
  }

  lemma XorAssoc(a: bv32, b: bv32, c: bv32)
    ensures Xor(Xor(a, b), c) == Xor(a, Xor(b, c))
  {
  }

  lemma XorComm(a: bv32, b: bv32)
    ensures Xor(a, b) == Xor(b, a)
  {
  }

  lemma HalfXor(a: bv32, b: bv32)
    ensures Half(Xor(a, b)) == Xor(Half(a), Half(b))
  {
  }

  lemma HalfDbl(y: bv32)
    requires TopClear(y)
    ensures Half(Dbl(y)) == y
  {
  }

  lemma FeedbackXor(x: bv32, y: bv32)
    ensures Feedback(Xor(x, Dbl(y))) == Feedback(x)
  {
  }

  lemma PeelBit(x: bv32, y: bv32)
    requires TopClear(y)
    ensures ShiftBit(Xor(x, Dbl(y))) == Xor(ShiftBit(x), y)
  {
    HalfXor(x, Dbl(y));
    HalfDbl(y);
    FeedbackXor(x, y);
    XorAssoc(Half(x), y, Feedback(x));
    XorComm(y, Feedback(x));
    XorAssoc(Half(x), Feedback(x), y);
  }

  lemma EightDoubles(y: bv32)
    requires Short(y)
    ensures TopClear(y) && TopClear(Dbl(y)) && TopClear(Dbl(Dbl(y))) && TopClear(Dbl(Dbl(Dbl(y))))
    ensures var z := Dbl(Dbl(Dbl(Dbl(y))));
      && TopClear(z) && TopClear(Dbl(z)) && TopClear(Dbl(Dbl(z))) && TopClear(Dbl(Dbl(Dbl(z))))
      && Dbl(Dbl(Dbl(Dbl(z)))) == ByteUp(y)
  {
  }

  lemma DoublesFit(y: bv32)
    requires Short(y)
    ensures (forall j: nat :: j < 8 ==> TopClear(Times(Dbl, y, j))) && Times(Dbl, y, 8) == ByteUp(y)
  {
    EightDoubles(y);
    assert Times(Dbl, y, 0) == y && Times(Dbl, y, 1) == Dbl(y) && Times(Dbl, y, 2) == Dbl(Dbl(y));
    assert Times(Dbl, y, 3) == Dbl(Times(Dbl, y, 2)) && Times(Dbl, y, 4) == Dbl(Times(Dbl, y, 3));
    assert Times(Dbl, y, 5) == Dbl(Times(Dbl, y, 4)) && Times(Dbl, y, 6) == Dbl(Times(Dbl, y, 5));
    assert Times(Dbl, y, 7) == Dbl(Times(Dbl, y, 6)) && Times(Dbl, y, 8) == Dbl(Times(Dbl, y, 7));
    forall j: nat | j < 8 ensures TopClear(Times(Dbl, y, j)) {
      assert j == 0 || j == 1 || j == 2 || j == 3 || j == 4 || j == 5 || j == 6 || j == 7;
    }
  }

  /** What lies above the low byte comes through eight shifts unchanged. */
  lemma PeelByte(x: bv32, y: bv32)
    requires Short(y)
    ensures Times(ShiftBit, Xor(x, ByteUp(y)), 8) == Xor(Times(ShiftBit, x, 8), y)
  {
    DoublesFit(y);
    forall p, q | TopClear(q) ensures ShiftBit(Xor(p, Dbl(q))) == Xor(ShiftBit(p), q) {
      PeelBit(p, q);
    }
    TimesPeels(ShiftBit, Xor, Dbl, TopClear, x, y, 8);
  }

  // ---------- the table form of section 8 of RFC 1952 ----------

  function TableBit(c: bv32): bv32 {
    if c & 1 != 0 then 0xEDB88320 ^ (c >> 1) else c >> 1
  }

  function TableEntry(n: bv32): bv32 {
    Times(TableBit, n, 8)
  }

  function Low(x: bv32): bv32 {
    x & 0xff
  }

  function High(x: bv32): bv32 {
    x >> 8
  }

  function TableStep(c: bv32, b: bv8): bv32 {
    Xor(TableEntry(Low(Xor(c, Wide(b)))), High(c))
  }

  function UpdateCrc(crc: bv32, buf: seq<bv8>): bv32 {
    Xor(Fold(TableStep, Xor(crc, 0xffff_ffff), buf), 0xffff_ffff)
  }

  lemma EvenBit(c: bv32)
    requires c & 1 == 0
    ensures ShiftBit(c) == c >> 1
  {
  }

  lemma OddBit(c: bv32)
    requires c & 1 == 1
    ensures ShiftBit(c) == 0xEDB88320 ^ (c >> 1)
  {
  }

  lemma EvenOrOdd(c: bv32)
    ensures c & 1 == 0 || c & 1 == 1
  {
  }

  lemma SameBit(c: bv32)
    ensures ShiftBit(c) == TableBit(c)
  {
    EvenOrOdd(c);
    if c & 1 == 0 {
      EvenBit(c);
    } else {
      OddBit(c);
    }
  }

  lemma LowAndHigh(x: bv32)
    ensures x == Xor(Low(x), ByteUp(High(x))) && Short(High(x))
  {
  }

  lemma HighUnmixed(c: bv32, b: bv8)
    ensures High(Xor(c, Wide(b))) == High(c)
  {
  }

  lemma StepIsTable(c: bv32, b: bv8)
    ensures Step(c, b) == TableStep(c, b)
  {
    var x := Xor(c, Wide(b));
    LowAndHigh(x);
    PeelByte(Low(x), High(x));
    forall p ensures ShiftBit(p) == TableBit(p) {
      SameBit(p);
    }
    SameTimes(ShiftBit, TableBit, Low(x), 8);
    HighUnmixed(c, b);
  }

  lemma NotIsXor(x: bv32)
    ensures Not(x) == Xor(x, 0xffff_ffff)
  {
  }

  /** The accumulator is the update_crc of RFC 1952, for every seed. */
  lemma AccIsUpdateCrc(crc: bv32, data: seq<bv8>)
    ensures Acc(crc, data) == UpdateCrc(crc, data)
  {
    forall p, b ensures Step(p, b) == TableStep(p, b) {
      StepIsTable(p, b);
    }
    NotIsXor(crc);
    SameFold(Step, TableStep, Not(crc), data);
    NotIsXor(Fold(Step, Not(crc), data));
  }

  // ---------- the check value ----------

  lemma EightShifts(x: bv32)
    ensures Times(ShiftBit, x, 8) ==
      ShiftBit(ShiftBit(ShiftBit(ShiftBit(ShiftBit(ShiftBit(ShiftBit(ShiftBit(x))))))))
  {
    assert Times(ShiftBit, x, 1) == ShiftBit(x) && Times(ShiftBit, x, 2) == ShiftBit(Times(ShiftBit, x, 1));
    assert Times(ShiftBit, x, 4) == ShiftBit(ShiftBit(Times(ShiftBit, x, 2)));
    assert Times(ShiftBit, x, 6) == ShiftBit(ShiftBit(Times(ShiftBit, x, 4)));
  }

  lemma FoldNext(c: bv32, data: seq<bv8>, b: bv8, next: seq<bv8>, d: bv32, r: bv32)
    requires next == data + [b] && Fold(Step, c, data) == d
    requires ShiftBit(ShiftBit(ShiftBit(ShiftBit(ShiftBit(ShiftBit(ShiftBit(ShiftBit(Xor(d, Wide(b))))))))))
      == r
    ensures Fold(Step, c, next) == r
  {
    assert next[..|data|] == data;
    EightShifts(Xor(d, Wide(b)));
  }

  /** The check value of the standard CRC-32: the digits one to nine. */
  lemma CheckValue()
    ensures Acc(0, [0x31, 0x32, 0x33, 0x34, 0x35, 0x36, 0x37, 0x38, 0x39]) == 0xCBF4_3926
  {
    var c: bv32 := 0xFFFF_FFFF;
    var d := [0x31 as bv8, 0x32, 0x33, 0x34, 0x35, 0x36, 0x37, 0x38, 0x39];
    FoldNext(c, d[..0], 0x31, d[..1], 0xFFFF_FFFF, 0x7C23_1048);
    FoldNext(c, d[..1], 0x32, d[..2], 0x7C23_1048, 0xB0AC_BB32);
    FoldNext(c, d[..2], 0x33, d[..3], 0xB0AC_BB32, 0x77B7_9C2D);
    FoldNext(c, d[..3], 0x34, d[..4], 0x77B7_9C2D, 0x641C_1F5C);
    FoldNext(c, d[..4], 0x35, d[..5], 0x641C_1F5C, 0x340A_C5E3);
    FoldNext(c, d[..5], 0x36, d[..6], 0x340A_C5E3, 0xF68D_2C9E);
    FoldNext(c, d[..6], 0x37, d[..7], 0xF68D_2C9E, 0xAFFC_9660);
    FoldNext(c, d[..7], 0x38, d[..8], 0xAFFC_9660, 0x651F_2550);
    FoldNext(c, d[..8], 0x39, d[..9], 0x651F_2550, 0x340B_C6D9);
    assert d[..9] == d;
  }

  // ---------- differences it always shows ----------

  /** The word that at most four bytes make, the first one lowest. */
  function Word(w: seq<bv8>): bv32 {
    if w == [] then 0 else Xor(Wide(w[0]), ByteUp(Word(w[1..])))
  }

  lemma XorZero(c: bv32)
    ensures Xor(c, 0) == c
  {
  }

  lemma OneByte(b: bv8)
    ensures Xor(Wide(b), ByteUp(0)) & 0xffff_ff00 == 0
  {
  }

  lemma TwoBytes(b: bv8, y: bv32)
    requires y & 0xffff_ff00 == 0
    ensures Xor(Wide(b), ByteUp(y)) & 0xffff_0000 == 0
  {
  }

  lemma ThreeBytes(b: bv8, y: bv32)
    requires y & 0xffff_0000 == 0
    ensures Xor(Wide(b), ByteUp(y)) & 0xff00_0000 == 0
  {
  }

  lemma Narrow(y: bv32)
    ensures y == 0 ==> y & 0xffff_ff00 == 0
    ensures y & 0xffff_ff00 == 0 ==> y & 0xffff_0000 == 0
    ensures y & 0xffff_0000 == 0 ==> Short(y)
  {
  }

  lemma {:induction false} WordIsShort(w: seq<bv8>)
    requires |w| <= 3
    ensures Short(Word(w))
    ensures |w| <= 2 ==> Word(w) & 0xffff_0000 == 0
    ensures |w| <= 1 ==> Word(w) & 0xffff_ff00 == 0
    decreases |w|
  {
    Narrow(Word(w));
    if w == [] {
    } else {
      WordIsShort(w[1..]);
      if |w| == 1 {
        OneByte(w[0]);
      } else if |w| == 2 {
        TwoBytes(w[0], Word(w[1..]));
      } else {
        ThreeBytes(w[0], Word(w[1..]));
      }
    }
  }

  /** Up to four bytes go in as one word. */
  lemma {:induction false} BytesAsWord(c: bv32, w: seq<bv8>)
    requires |w| <= 4
    ensures Fold(Step, c, w) == Times(ShiftBit, Xor(c, Word(w)), 8 * |w|)
    decreases |w|
  {
    if w == [] {
      XorZero(c);
    } else {
      var b, r := w[0], w[1..];
      WordIsShort(r);
      XorAssoc(c, Wide(b), ByteUp(Word(r)));
      PeelByte(Xor(c, Wide(b)), Word(r));
      TimesAdds(ShiftBit, Xor(c, Word(w)), 8, 8 * |r|);
      BytesAsWord(Step(c, b), r);
      FoldFirst(Step, c, w);
    }
  }

  lemma WordParts(a: bv8, b: bv8, x: bv32, y: bv32)
    requires Short(x) && Short(y) && Xor(Wide(a), ByteUp(x)) == Xor(Wide(b), ByteUp(y))
    ensures a == b && x == y
  {
  }

  lemma {:induction false} WordInjective(w: seq<bv8>, v: seq<bv8>)
    requires |w| == |v| <= 4 && Word(w) == Word(v)
    ensures w == v
    decreases |w|
  {
    if w == [] {
    } else {
      WordIsShort(w[1..]);
      WordIsShort(v[1..]);
      WordParts(w[0], v[0], Word(w[1..]), Word(v[1..]));
      WordInjective(w[1..], v[1..]);
      assert w == [w[0]] + w[1..] && v == [v[0]] + v[1..];
    }
  }

  lemma FewBytesInjective(c: bv32, w: seq<bv8>, v: seq<bv8>)
    requires |w| == |v| <= 4 && Fold(Step, c, w) == Fold(Step, c, v)
    ensures w == v
  {
    BytesAsWord(c, w);
    BytesAsWord(c, v);
    forall p, q | ShiftBit(p) == ShiftBit(q) ensures p == q {
      ShiftBitInjective(p, q);
    }
    TimesInjective(ShiftBit, Xor(c, Word(w)), Xor(c, Word(v)), 8 * |w|);
    XorComm(c, Word(w));
    XorComm(c, Word(v));
    XorCancels(Word(w), Word(v), c);
    WordInjective(w, v);
  }

  /** Data of equal length that differ only within four consecutive bytes never hash the same; in
      particular a single changed byte always shows. */
  lemma BurstShows(c: bv32, before: seq<bv8>, w: seq<bv8>, v: seq<bv8>, after: seq<bv8>)
    requires |w| == |v| <= 4 && w != v
    ensures Acc(c, before + w + after) != Acc(c, before + v + after)
  {
    var d := Fold(Step, Not(c), before);
    FoldJoins(Step, Not(c), before, w);
    FoldJoins(Step, Not(c), before, v);
    FoldJoins(Step, Not(c), before + w, after);
    FoldJoins(Step, Not(c), before + v, after);
    if Acc(c, before + w + after) == Acc(c, before + v + after) {
      NotInjective(Fold(Step, Not(c), before + w + after), Fold(Step, Not(c), before + v + after));
      CoreInjective(Fold(Step, d, w), Fold(Step, d, v), after);
      FewBytesInjective(d, w, v);
    }
  }

  // ---------- skipping arena pointers ----------

  /** The value of a run of bytes, the first one lowest. */
  function Value(q: seq<bv8>): bv64 {
    if q == [] then 0 else Above(q[0], Value(q[1..]))
  }

  function Above(b: bv8, v: bv64): bv64 {
    (b as bv64) | (v << 8)
  }

  function Qword(q: seq<bv8>): bv64
    requires |q| == 8
  {
    Value(q)
  }

  predicate IsArenaPtr(base: bv64, q: seq<bv8>)
    requires |q| == 8
  {
    InArena(base, Qword(q))
  }

  predicate InArena(base: bv64, v: bv64) {
    base <= v < base + 0x8000_0000
  }

  /** What is left of a range when the aligned slots that hold arena pointers are dropped. */
  function Kept(base: bv64, seg: seq<bv8>): seq<bv8>
    decreases |seg|
  {
    if |seg| < 8 then seg
    else (if IsArenaPtr(base, seg[..8]) then [] else seg[..8]) + Kept(base, seg[8..])
  }

  /** The CRC of a range of an object is the CRC of its kept bytes. */
  method CrcRangePtrAware(crc: bv32, base: bv64, seg: seq<bv8>) returns (r: bv32)
    ensures r == Acc(crc, Kept(base, seg))
  {
    r := crc;
    var off := 0;
    while off + 8 <= |seg|
      invariant off <= |seg| && Acc(r, Kept(base, seg[off..])) == Acc(crc, Kept(base, seg))
    {
      assert seg[off..][..8] == seg[off..off + 8] && seg[off..][8..] == seg[off + 8..];
      if !IsArenaPtr(base, seg[off..off + 8]) {
        AccChains(r, seg[off..off + 8], Kept(base, seg[off + 8..]));
        r := Crc32Acc(r, seg[off..off + 8]);
      } else {
        assert [] + Kept(base, seg[off + 8..]) == Kept(base, seg[off + 8..]);
      }
      off := off + 8;
    }
    if off < |seg| {
      r := Crc32Acc(r, seg[off..]);
    } else {
      AccEmpty(r);
    }
  }

  lemma AccEmpty(c: bv32)
    ensures Acc(c, []) == c
  {
    NotNot(c);
  }

  lemma EightBytes(a: bv8, b: bv8, c: bv8, d: bv8, e: bv8, f: bv8, g: bv8, h: bv8)
    ensures Above(a, Above(b, Above(c, Above(d, Above(e, Above(f, Above(g, Above(h, 0)))))))) ==
      (a as bv64) | (b as bv64 << 8) | (c as bv64 << 16) | (d as bv64 << 24)
      | (e as bv64 << 32) | (f as bv64 << 40) | (g as bv64 << 48) | (h as bv64 << 56)
  {
  }

  /** A slot is read as a little-endian word. */
  lemma QwordIs(q: seq<bv8>)
    requires |q| == 8
    ensures Qword(q) ==
      (q[0] as bv64) | (q[1] as bv64 << 8) | (q[2] as bv64 << 16) | (q[3] as bv64 << 24)
      | (q[4] as bv64 << 32) | (q[5] as bv64 << 40) | (q[6] as bv64 << 48) | (q[7] as bv64 << 56)
  {
    EightBytes(q[0], q[1], q[2], q[3], q[4], q[5], q[6], q[7]);
    assert Value(q[8..]) == 0 && Value(q[7..]) == Above(q[7], 0);
    assert Value(q[6..]) == Above(q[6], Value(q[7..])) && Value(q[5..]) == Above(q[5], Value(q[6..]));
    assert Value(q[4..]) == Above(q[4], Value(q[5..])) && Value(q[3..]) == Above(q[3], Value(q[4..]));
    assert Value(q[2..]) == Above(q[2], Value(q[3..])) && Value(q[1..]) == Above(q[1], Value(q[2..]));
  }

  /** Slot by slot: an address of the arena's two gigabytes is dropped, any other qword is kept. */
  lemma KeptSlot(base: bv64, q: seq<bv8>, rest: seq<bv8>)
    requires |q| == 8
    ensures base <= Qword(q) < base + 0x8000_0000 ==> Kept(base, q + rest) == Kept(base, rest)
    ensures !(base <= Qword(q) < base + 0x8000_0000) ==> Kept(base, q + rest) == q + Kept(base, rest)
  {
    assert (q + rest)[..8] == q && (q + rest)[8..] == rest;
    PointerIs(base, Qword(q));
    KeptNext(base, q + rest, q, rest);
  }

  lemma KeptNext(base: bv64, seg: seq<bv8>, q: seq<bv8>, rest: seq<bv8>)
    requires |seg| >= 8 && q == seg[..8] && rest == seg[8..]
    ensures Kept(base, seg) == (if InArena(base, Qword(q)) then [] else q) + Kept(base, rest)
  {
  }

  lemma PointerIs(base: bv64, v: bv64)
    ensures InArena(base, v) <==> base <= v < base + 0x8000_0000
  {
  }

  /** A tail that is no whole slot is kept. */
  lemma KeptTail(base: bv64, tail: seq<bv8>)
    requires |tail| < 8
    ensures Kept(base, tail) == tail
  {
  }

  lemma JoinAssoc(a: seq<bv8>, b: seq<bv8>, c: seq<bv8>)
    ensures a + (b + c) == a + b + c
  {
  }

  /** What is kept of whole slots does not depend on what follows them. */
  lemma {:induction false} KeptJoins(base: bv64, a: seq<bv8>, b: seq<bv8>)
    requires |a| % 8 == 0
    ensures Kept(base, a + b) == Kept(base, a) + Kept(base, b)
    decreases |a|
  {
    if a == [] {
      assert a + b == b;
    } else {
      var q, r := a[..8], a[8..];
      assert (a + b)[..8] == q && (a + b)[8..] == r + b;
      KeptNext(base, a, q, r);
      KeptNext(base, a + b, q, r + b);
      KeptJoins(base, r, b);
      JoinAssoc(if InArena(base, Qword(q)) then [] else q, Kept(base, r), Kept(base, b));
    }
  }

  /** A change within four bytes of a slot that holds no arena pointer, before or after, always shows. */
  lemma PlainChangeShows(crc: bv32, base: bv64, before: seq<bv8>, p: seq<bv8>, q: seq<bv8>, after: seq<bv8>,
                         x: seq<bv8>, w: seq<bv8>, v: seq<bv8>, y: seq<bv8>)
    requires |before| % 8 == 0 && |p| == |q| == 8
    requires !(base <= Qword(p) < base + 0x8000_0000) && !(base <= Qword(q) < base + 0x8000_0000)
    requires p == x + w + y && q == x + v + y && |w| == |v| <= 4 && w != v
    ensures Acc(crc, Kept(base, before + p + after)) != Acc(crc, Kept(base, before + q + after))
  {
    var k, r := Kept(base, before), Kept(base, after);
    PlainSlotKept(base, before, p, after);
    PlainSlotKept(base, before, q, after);
    BurstWithin(crc, k, x, w, v, y, r);
  }

  lemma BurstWithin(c: bv32, k: seq<bv8>, x: seq<bv8>, w: seq<bv8>, v: seq<bv8>, y: seq<bv8>, r: seq<bv8>)
    requires |w| == |v| <= 4 && w != v
    ensures Acc(c, k + (x + w + y) + r) != Acc(c, k + (x + v + y) + r)
  {
    BurstShows(c, k + x, w, v, y + r);
    assert k + x + w + (y + r) == k + (x + w + y) + r && k + x + v + (y + r) == k + (x + v + y) + r;
  }

  lemma PlainSlotKept(base: bv64, before: seq<bv8>, q: seq<bv8>, after: seq<bv8>)
    requires |before| % 8 == 0 && |q| == 8 && !(base <= Qword(q) < base + 0x8000_0000)
    ensures Kept(base, before + q + after) == Kept(base, before) + q + Kept(base, after)
  {
    assert before + q + after == before + (q + after);
    KeptJoins(base, before, q + after);
    KeptSlot(base, q, after);
  }

  /** Slot k of both ranges: the same bytes, or an arena pointer in both. */
  ghost predicate SlotAgrees(base: bv64, a: seq<bv8>, b: seq<bv8>, k: nat)
    requires 8 * k + 8 <= |a| == |b|
  {
    var p, q := a[8 * k..8 * k + 8], b[8 * k..8 * k + 8];
    p == q || (InArena(base, Qword(p)) && InArena(base, Qword(q)))
  }

  ghost predicate SlotsAgree(base: bv64, a: seq<bv8>, b: seq<bv8>)
    requires |a| == |b|
  {
    forall k: nat :: 8 * k + 8 <= |a| ==> SlotAgrees(base, a, b, k)
  }

  lemma TailSlots(base: bv64, a: seq<bv8>, b: seq<bv8>)
    requires |a| == |b| >= 8 && SlotsAgree(base, a, b)
    ensures SlotsAgree(base, a[8..], b[8..]) && SlotAgrees(base, a, b, 0)
  {
    forall k: nat | 8 * k + 8 <= |a| - 8 ensures SlotAgrees(base, a[8..], b[8..], k) {
      assert SlotAgrees(base, a, b, k + 1);
      SliceLater(a, k);
      SliceLater(b, k);
    }
  }

  lemma SliceLater(a: seq<bv8>, k: nat)
    requires 8 * k + 16 <= |a|
    ensures a[8..][8 * k..8 * k + 8] == a[8 * (k + 1)..8 * (k + 1) + 8]
  {
  }

  /** Ranges that differ only in slots where both hold an arena pointer hash the same. */
  lemma {:induction false} PointersDoNotShow(crc: bv32, base: bv64, a: seq<bv8>, b: seq<bv8>)
    requires |a| == |b| && SlotsAgree(base, a, b) && a[|a| / 8 * 8..] == b[|b| / 8 * 8..]
    ensures Kept(base, a) == Kept(base, b) && Acc(crc, Kept(base, a)) == Acc(crc, Kept(base, b))
    decreases |a|
  {
    if |a| < 8 {
      assert a == a[|a| / 8 * 8..] && b == b[|b| / 8 * 8..];
    } else {
      var p, q, r, s := a[..8], b[..8], a[8..], b[8..];
      TailSlots(base, a, b);
      assert a[0..8] == p && b[0..8] == q && a == p + r && b == q + s;
      assert r[|r| / 8 * 8..] == a[|a| / 8 * 8..] && s[|s| / 8 * 8..] == b[|b| / 8 * 8..];
      PointersDoNotShow(crc, base, r, s);
      KeptNext(base, a, p, r);
      KeptNext(base, b, q, s);
    }
  }
}
