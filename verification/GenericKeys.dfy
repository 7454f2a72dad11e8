/** Primary keys of generic XDF files, packed into words with a mask of the keys that a
    search looks at (`build_gen_prim_keys`). */
module GenericKeys {
  import opened Words
  import opened Grid

  /** A key ends at bit bit1, counted from 0 at the most significant bit of the first word,
      and has lcle + 1 bits. */
  datatype Key = Key(bit1: nat, lcle: nat, tcle: nat)

  const WILDCARD: word := 0xFFFF_FFFF

  function WordOf(k: Key): nat { k.bit1 / 32 }

  function Lo(k: Key): int { k.bit1 % 32 - k.lcle }

  function Hi(k: Key): nat { k.bit1 % 32 + 1 }

  predicate InWord(k: Key)
  {
    0 <= Lo(k)
  }

  predicate Apart(a: Key, b: Key)
  {
    WordOf(a) != WordOf(b) || Hi(a) <= Lo(b) || Hi(b) <= Lo(a)
  }

  /** Keys of a file, in any order: each inside one word, no two overlapping. */
  ghost predicate IsLayout(ks: seq<Key>, words: nat)
  {
    ks != [] &&
    (forall i | 0 <= i < |ks| :: InWord(ks[i]) && WordOf(ks[i]) < words) &&
    forall i, j | 0 <= i < j < |ks| :: Apart(ks[i], ks[j])
  }

  /** Words whose mask is not cleared first: those before the word of the first key listed, or
      after that of the last one. */
  predicate Stale(ks: seq<Key>, w: int)
    requires ks != []
  {
    w < WordOf(ks[0]) || WordOf(ks[|ks| - 1]) < w
  }

  // ----- Room for the keys -----

  function SumLcle(ks: seq<Key>): nat
  {
    if ks == [] then 0 else SumLcle(ks[..|ks| - 1]) + ks[|ks| - 1].lcle
  }

  /** The 64-bit units that `create_new_xdf` reserves for the keys, from their lengths less one. */
  function UnitsOf(ks: seq<Key>): nat
  {
    (SumLcle(ks) + 63) / 64
  }

  /** They are the fewest units that hold as many bits. */
  lemma RoomIsLeast(ks: seq<Key>)
    ensures SumLcle(ks) <= 64 * UnitsOf(ks) < SumLcle(ks) + 64
  {
    DivMod(SumLcle(ks) + 63, 64);
  }

  /** They hold all the keys if and only if they hold the last bit of the one that ends last. */
  lemma KeysHeldIff(ks: seq<Key>, last: nat)
    requires last < |ks| && forall i | 0 <= i < |ks| :: ks[i].bit1 <= ks[last].bit1
    ensures (forall i | 0 <= i < |ks| :: WordOf(ks[i]) < 2 * UnitsOf(ks)) <==> ks[last].bit1 < 64 * UnitsOf(ks)
  {
    hide UnitsOf;
    forall i | 0 <= i < |ks| ensures WordOf(ks[i]) < 2 * UnitsOf(ks) <==> ks[i].bit1 < 64 * UnitsOf(ks) {
      DivMod(ks[i].bit1, 32);
    }
    assert WordOf(ks[last]) < 2 * UnitsOf(ks) <==> ks[last].bit1 < 64 * UnitsOf(ks);
  }

  /** A key of one bit gets no room at all. */
  lemma OneBitKey()
    ensures UnitsOf([Key(0, 0, 0)]) == 0 && !(WordOf(Key(0, 0, 0)) < 2 * UnitsOf([Key(0, 0, 0)]))
  {
    var ks := [Key(0, 0, 0)];
    assert ks[..0] == [];
    assert SumLcle(ks) == 0;
  }

  // ----- Bits of words -----

  function Not(w: word): word { WORD_BASE - 1 - w }

  lemma AndHalves(a: nat, b: nat)
    ensures And(a, b) / 2 == And(a / 2, b / 2)
    ensures And(a, b) % 2 == if a % 2 == 1 && b % 2 == 1 then 1 else 0
  {
  }

  /** The bit at position p of a number with n bits. */
  lemma BitAt(v: nat, n: nat, p: nat)
    requires p < n
    ensures Bits(v, n)[p] == if p == n - 1 then v % 2 == 1 else Bits(v / 2, n - 1)[p]
  {
  }

  lemma {:induction false} BitOfAnd(a: nat, b: nat, n: nat, p: nat)
    requires p < n
    ensures Bits(And(a, b), n)[p] == (Bits(a, n)[p] && Bits(b, n)[p])
  {
    hide Bits, And;
    AndHalves(a, b);
    BitAt(a, n, p);
    BitAt(b, n, p);
    BitAt(And(a, b), n, p);
    if p < n - 1 { BitOfAnd(a / 2, b / 2, n - 1, p); }
  }

  lemma BitsOfAnd(a: nat, b: nat, n: nat)
    ensures Bits(And(a, b), n) == seq(n, i requires 0 <= i < n => Bits(a, n)[i] && Bits(b, n)[i])
  {
    hide Bits, And;
    forall i | 0 <= i < n ensures Bits(And(a, b), n)[i] == (Bits(a, n)[i] && Bits(b, n)[i]) {
      BitOfAnd(a, b, n, i);
    }
  }

  lemma {:induction false} BitOfXor(a: nat, b: nat, n: nat, p: nat)
    requires p < n
    ensures Bits(Xor(a, b), n)[p] == (Bits(a, n)[p] != Bits(b, n)[p])
  {
    hide Bits, Xor;
    XorHalves(a, b);
    BitAt(a, n, p);
    BitAt(b, n, p);
    BitAt(Xor(a, b), n, p);
    if p < n - 1 { BitOfXor(a / 2, b / 2, n - 1, p); }
  }

  lemma {:induction false} BitOfComplement(v: nat, n: nat, p: nat)
    requires v < Pow2(n) && p < n
    ensures Bits(Pow2(n) - 1 - v, n)[p] == !Bits(v, n)[p]
  {
    hide Bits;
    var h := Pow2(n - 1);
    var c := 2 * h - 1 - v;
    assert c / 2 == h - 1 - v / 2 && (c % 2 == 1 <==> v % 2 == 0);
    BitAt(v, n, p);
    BitAt(c, n, p);
    if p < n - 1 { BitOfComplement(v / 2, n - 1, p); }
  }

  lemma BitsOfNot(w: word)
    ensures forall p | 0 <= p < 32 :: Bits(Not(w), 32)[p] == !Bits(w, 32)[p]
  {
    hide Bits, Pow2;
    Pow2Values();
    forall p | 0 <= p < 32 ensures Bits(Not(w), 32)[p] == !Bits(w, 32)[p] {
      BitOfComplement(w, 32, p);
    }
  }

  /** A number is zero when all its bits are. */
  lemma ZeroBits(v: nat, n: nat)
    requires v < Pow2(n)
    ensures v == 0 <==> Bits(v, n) == Zeros(n)
  {
    hide Pow2, Bits;
    BitsSmall(0, n, 0);
    assert Pow2(0) >= 1;
    FromBitsOfBits(v, n);
    FromBitsOfBits(0, n);
  }

  // ----- Masks of keys -----

  /** The mask of a key: lcle + 1 ones.  Shifting twice covers keys of a whole word. */
  function Rmask(k: Key): word
  {
    Not(Shl(Shl(0xFFFF_FFFF, k.lcle), 1))
  }

  lemma RmaskIs(k: Key)
    requires InWord(k)
    ensures Rmask(k) == Pow2(k.lcle + 1) - 1
  {
    hide Pow2, Shl;
    var p := Pow2(k.lcle);
    Pow2Values();
    Pow2Monotonic(k.lcle, 31);
    ShlIsMod(0xFFFF_FFFF, k.lcle);
    OnesShifted(p);
    var x := WORD_BASE - p;
    ShlIsMod(x, 1);
    Pow2Step(k.lcle + 1);
    ModUniqueInt(WORD_BASE, 1, WORD_BASE - 2 * p, x * 2);
  }

  lemma OnesShifted(p: nat)
    requires 1 <= p <= 0x8000_0000
    ensures 0xFFFF_FFFF * p % WORD_BASE == WORD_BASE - p
  {
    ModUniqueInt(WORD_BASE, p - 1, WORD_BASE - p, 0xFFFF_FFFF * p);
  }

  function Shift(k: Key): nat { 31 - k.bit1 % 32 }

  /** The positions that the mask of a key covers in its word. */
  lemma MaskOfKey(k: Key)
    requires InWord(k)
    ensures forall p | 0 <= p < 32 :: Bits(Shl(Rmask(k), Shift(k)), 32)[p] == (Lo(k) <= p < Hi(k))
  {
    hide Rmask, Pow2, Shl;
    var n := k.lcle + 1;
    RmaskIs(k);
    Pow2Values();
    Pow2Monotonic(n, 32);
    BitsOfShl(Rmask(k), Shift(k));
    BitsSmall(Rmask(k), 32, n);
    AllOnes(n);
    var b := Bits(Rmask(k), 32);
    OnesAtEnd(b, Bits(Rmask(k), n));
    var s := Shift(k);
    forall p | 0 <= p < 32 ensures (b[s..] + Zeros(s))[p] == (Lo(k) <= p < Hi(k)) {
      if p < 32 - s { assert b[s..][p] == b[s + p]; }
    }
  }

  lemma OnesAtEnd(b: seq<bool>, ones: seq<bool>)
    requires |ones| <= |b| && b == Zeros(|b| - |ones|) + ones && AllTrue(ones)
    ensures forall p | 0 <= p < |b| :: b[p] == (p >= |b| - |ones|)
  {
    forall p | 0 <= p < |b| ensures b[p] == (p >= |b| - |ones|) {
      if p >= |b| - |ones| { assert b[p] == ones[p - (|b| - |ones|)]; }
    }
  }

  predicate AllTrue(s: seq<bool>)
  {
    forall i | 0 <= i < |s| :: s[i]
  }

  lemma AllOnes(n: nat)
    ensures AllTrue(Bits(Pow2(n) - 1, n))
  {
    hide Pow2, Bits;
    BitsSmall(0, n, 0);
    var b := Bits(Pow2(n) - 1, n);
    forall i | 0 <= i < n ensures b[i] {
      BitOfComplement(0, n, i);
      assert Zeros(n)[i] == false;
    }
  }

  // ----- Fields -----

  /** The bits of a key in a word. */
  ghost function FieldBits(w: word, k: Key): (b: seq<bool>)
    requires InWord(k)
    ensures |b| == k.lcle + 1
  {
    Bits(w, 32)[Lo(k)..Hi(k)]
  }

  /** The value of a key in a word, as it is unpacked. */
  function Value(w: word, k: Key): nat
    requires InWord(k)
  {
    And(Shr(w, Shift(k)), Rmask(k))
  }

  lemma ValueIs(w: word, k: Key)
    requires InWord(k)
    ensures Value(w, k) < Pow2(k.lcle + 1) && Bits(Value(w, k), k.lcle + 1) == FieldBits(w, k)
  {
    hide Rmask, Pow2, Shr, And;
    var n, s := k.lcle + 1, Shift(k);
    RmaskIs(k);
    Pow2Values();
    AndWithLowMask(Shr(w, s), n);
    BitsLow(Shr(w, s), n);
    BitsSplit(w, 32, s);
    BitsSplit(Shr(w, s), 32 - s, n);
    var high := Bits(Shr(Shr(w, s), n), 32 - s - n);
    assert Bits(w, 32) == high + Bits(Shr(w, s), n) + Bits(w, s);
  }

  /** Two words agree on a key when they give it the same bits. */
  lemma SameValue(v: word, w: word, k: Key)
    requires InWord(k)
    ensures Value(v, k) == Value(w, k) <==> FieldBits(v, k) == FieldBits(w, k)
  {
    hide Value, FieldBits, Pow2, Bits;
    ValueIs(v, k);
    ValueIs(w, k);
    FromBitsOfBits(Value(v, k), k.lcle + 1);
    FromBitsOfBits(Value(w, k), k.lcle + 1);
  }

  /** Clearing the bits of a key, then setting them to those of a value. */
  function SetField(w: word, k: Key, key: word): nat
  {
    var rmask := Rmask(k);
    Or(And(w, Not(Shl(rmask, Shift(k)))), Shl(AsWord(And(key, rmask)), Shift(k)))
  }

  function AsWord(v: nat): word
  {
    if v < WORD_BASE then v else 0
  }

  /** Only the bits of the key change, to the low bits of the value. */
  lemma SetFieldBits(w: word, k: Key, key: word)
    requires InWord(k)
    ensures SetField(w, k, key) < WORD_BASE
    ensures forall p | 0 <= p < 32 ::
      Bits(SetField(w, k, key), 32)[p] ==
      if Lo(k) <= p < Hi(k) then Bits(key, k.lcle + 1)[p - Lo(k)] else Bits(w, 32)[p]
  {
    hide Rmask, Pow2, Shl, And, Or, Bits, Not;
    var rmask, s, n := Rmask(k), Shift(k), k.lcle + 1;
    var m := Shl(rmask, s);
    AndBound(key, rmask);
    var v := AsWord(And(key, rmask));
    Pow2Values();
    AndBound(w, Not(m));
    OrBound(And(w, Not(m)), Shl(v, s), 32);
    MaskOfKey(k);
    BitsOfNot(m);
    BitsOfAnd(w, Not(m), 32);
    BitsOfOr(And(w, Not(m)), Shl(v, s), 32);
    RmaskIs(k);
    AndWithLowMask(key, n);
    BitsLow(key, n);
    Pow2Monotonic(n, 32);
    BitsSmall(v, 32, n);
    BitsOfShl(v, s);
    ShiftedBits(Bits(v, 32), Bits(key, n), s);
  }

  /** Bits shifted to the left by s. */
  lemma ShiftedBits(b: seq<bool>, low: seq<bool>, s: nat)
    requires |low| + s <= 32 && b == Zeros(32 - |low|) + low
    ensures forall p | 0 <= p < 32 ::
      (b[s..] + Zeros(s))[p] == if 32 - |low| - s <= p < 32 - s then low[p - (32 - |low| - s)] else false
  {
    forall p | 0 <= p < 32
      ensures (b[s..] + Zeros(s))[p] == if 32 - |low| - s <= p < 32 - s then low[p - (32 - |low| - s)] else false
    {
      if p < 32 - s { assert b[s..][p] == b[s + p]; }
    }
  }

  /** Setting a key gives it the value, and leaves the others alone. */
  lemma SetFieldSets(w: word, k: Key, key: word)
    requires InWord(k)
    ensures SetField(w, k, key) < WORD_BASE && Value(SetField(w, k, key), k) == key % Pow2(k.lcle + 1)
  {
    hide SetField, Value, Pow2, Bits;
    var n := k.lcle + 1;
    SetFieldBits(w, k, key);
    ValueIs(SetField(w, k, key), k);
    assert FieldBits(SetField(w, k, key), k) == Bits(key, n);
    BitsLow(key, n);
    FromBitsOfBits(Value(SetField(w, k, key), k), n);
    FromBitsOfBits(key % Pow2(n), n);
  }

  /** The place of a key: it ends with bit `bit1`, counted from the most significant bit of its word, and takes
      `lcle` bits before that one. */
  lemma KeyAt(w: word, k: Key, key: word)
    requires k.lcle <= k.bit1 % 32
    ensures Bits(Value(w, k), k.lcle + 1) == Bits(w, 32)[k.bit1 % 32 - k.lcle..k.bit1 % 32 + 1]
    ensures SetField(w, k, key) < WORD_BASE
    ensures Bits(SetField(w, k, key), 32) ==
      Bits(w, 32)[..k.bit1 % 32 - k.lcle] + Bits(key, k.lcle + 1) + Bits(w, 32)[k.bit1 % 32 + 1..]
  {
    hide SetField, Value, Pow2, Bits;
    ValueIs(w, k);
    SetFieldBits(w, k, key);
    var at, next := k.bit1 % 32 - k.lcle, k.bit1 % 32 + 1;
    var b := Bits(w, 32)[..at] + Bits(key, k.lcle + 1) + Bits(w, 32)[next..];
    forall p | 0 <= p < 32 ensures Bits(SetField(w, k, key), 32)[p] == b[p] {
    }
  }

  lemma SetFieldKeeps(w: word, k: Key, key: word, other: Key)
    requires InWord(k) && InWord(other) && WordOf(k) == WordOf(other) && Apart(k, other)
    ensures SetField(w, k, key) < WORD_BASE && Value(SetField(w, k, key), other) == Value(w, other)
  {
    hide SetField, Value, Pow2, Bits;
    SetFieldBits(w, k, key);
    assert FieldBits(SetField(w, k, key), other) == FieldBits(w, other);
    SameValue(SetField(w, k, key), w, other);
  }

  /** The same for the mask, whose keys are all ones. */
  lemma MaskFieldBits(w: word, k: Key)
    requires InWord(k)
    ensures var m := Or(And(w, Not(Shl(Rmask(k), Shift(k)))), Shl(Rmask(k), Shift(k)));
      m < WORD_BASE && forall p | 0 <= p < 32 :: Bits(m, 32)[p] == (Lo(k) <= p < Hi(k) || Bits(w, 32)[p])
  {
    hide Rmask, Pow2, Shl, And, Or, Bits, Not;
    var f := Shl(Rmask(k), Shift(k));
    Pow2Values();
    AndBound(w, Not(f));
    OrBound(And(w, Not(f)), f, 32);
    MaskOfKey(k);
    BitsOfNot(f);
    BitsOfAnd(w, Not(f), 32);
    BitsOfOr(And(w, Not(f)), f, 32);
  }

  // ----- Packing -----

  /** Character keys are put in upper case. */
  function Prepared(k: Key, key: word): (r: word)
  {
    if k.tcle / 32 > 0 then UpperCase(key) else key
  }

  /** Clears 0x20 in every byte that has 0x40. */
  function UpperCase(key: word): word
  {
    AsWord(And(key, Not(AsWord(Shr(AsWord(And(key, 0x40404040)), 1)))))
  }

  /** The bit of 0x20 in a byte that has that of 0x40. */
  predicate CaseBit(b: seq<bool>, p: nat)
    requires p < |b|
  {
    p % 8 == 2 && b[p - 1]
  }

  lemma UpperCaseBits(key: word)
    ensures forall p | 0 <= p < 32 ::
      Bits(UpperCase(key), 32)[p] == (Bits(key, 32)[p] && !CaseBit(Bits(key, 32), p))
  {
    hide And, Bits, Pow2, Shr, Not;
    var m := And(key, 0x40404040);
    Pow2Values();
    AndBound(key, 0x40404040);
    var u := Shr(m, 1);
    BitsOfShr(m, 1, 32);
    ShrBound(m, 1, 32);
    AndBound(key, Not(u));
    BitsOfAnd(key, 0x40404040, 32);
    BitsOfNot(u);
    BitsOfAnd(key, Not(u), 32);
    CaseMask();
    assert UpperCase(key) == And(key, Not(u));
    var b, c := Bits(key, 32), Bits(m, 32);
    forall p | 0 <= p < 32 ensures Bits(u, 32)[p] == (p > 0 && c[p - 1]) {
      if p > 0 { assert (Zeros(1) + c[..31])[p] == c[..31][p - 1]; }
    }
    forall p | 0 <= p < 32 ensures Bits(And(key, Not(u)), 32)[p] == (b[p] && !CaseBit(b, p)) {
      assert Bits(And(key, Not(u)), 32)[p] == (b[p] && !Bits(u, 32)[p]);
      if p > 0 { assert c[p - 1] == (b[p - 1] && (p - 1) % 8 == 1); }
    }
  }

  /** Only keys of characters are put in upper case. */
  lemma PreparedBits(k: Key, key: word)
    ensures forall p | 0 <= p < 32 ::
      Bits(Prepared(k, key), 32)[p] == (Bits(key, 32)[p] && !(k.tcle >= 32 && CaseBit(Bits(key, 32), p)))
  {
    hide Bits, UpperCase, CaseBit;
    UpperCaseBits(key);
  }

  /** The mask of the 0x40 bits. */
  lemma CaseMask()
    ensures forall p | 0 <= p < 32 :: Bits(0x40404040, 32)[p] == (p % 8 == 1)
  {
    hide Bits, Pow2, Shr;
    Pow2Values();
    ShrIsDiv(0x40404040, 16);
    ShrIsDiv(0x4040, 8);
    BitsSplit(0x40404040, 32, 16);
    BitsLow(0x40404040, 16);
    BitsSplit(0x4040, 16, 8);
    BitsLow(0x4040, 8);
    CaseByte();
  }

  lemma CaseByte()
    ensures Bits(0x40, 8) == [false, true, false, false, false, false, false, false]
  {
    assert Bits(1, 2) == [false, true];
    assert Bits(4, 4) == [false, true, false, false];
    assert Bits(16, 6) == [false, true, false, false, false, false];
  }

  /** Whether one of the first n keys that are set covers position p of word w. */
  ghost predicate Covered(ks: seq<Key>, keys: seq<word>, n: nat, w: nat, p: nat)
    requires n <= |ks| == |keys|
  {
    exists i | 0 <= i < n :: Covers(ks[i], keys[i], w, p)
  }

  predicate Covers(k: Key, key: word, w: nat, p: nat)
  {
    key != WILDCARD && WordOf(k) == w && Lo(k) <= p < Hi(k)
  }

  /** The values of the keys after the first n of them were set. */
  ghost predicate Packed(buf: seq<word>, before: seq<word>, ks: seq<Key>, keys: seq<word>, n: nat)
    requires n <= |ks| == |keys| && |buf| == |before| && IsLayout(ks, |buf|)
  {
    forall i | 0 <= i < |ks| :: PackedKey(buf, before, ks[i], keys[i], i < n)
  }

  ghost predicate PackedKey(buf: seq<word>, before: seq<word>, k: Key, key: word, done: bool)
    requires InWord(k) && WordOf(k) < |buf| == |before|
  {
    Value(buf[WordOf(k)], k) ==
      if done && key != WILDCARD then Prepared(k, key) % Pow2(k.lcle + 1) else Value(before[WordOf(k)], k)
  }

  /** The mask has ones just where the keys that are set are, and those left from before in the
      words that are not cleared. */
  ghost predicate Masked(mask: seq<word>, before: seq<word>, ks: seq<Key>, keys: seq<word>, n: nat)
    requires n <= |ks| == |keys| && |mask| == |before| && IsLayout(ks, |mask|)
  {
    forall w: nat, p: nat | w < |mask| && p < 32 :: Bits(mask[w], 32)[p] == MaskedAt(before, ks, keys, n, w, p)
  }

  ghost predicate MaskedAt(before: seq<word>, ks: seq<Key>, keys: seq<word>, n: nat, w: nat, p: nat)
    requires n <= |ks| == |keys| && ks != [] && w < |before| && p < 32
  {
    Covered(ks, keys, n, w, p) || (Stale(ks, w) && Bits(before[w], 32)[p])
  }

  lemma PackedMore(before: seq<word>, buf: seq<word>, ks: seq<Key>, keys: seq<word>, n: nat)
    requires n < |ks| == |keys| && |buf| == |before| && IsLayout(ks, |buf|) && Packed(buf, before, ks, keys, n)
    requires keys[n] != WILDCARD
    ensures var w := WordOf(ks[n]);
      SetField(buf[w], ks[n], Prepared(ks[n], keys[n])) < WORD_BASE &&
      Packed(buf[w := SetField(buf[w], ks[n], Prepared(ks[n], keys[n])) as word], before, ks, keys, n + 1)
  {
    hide SetField, Value, Pow2, Prepared;
    var k, key := ks[n], Prepared(ks[n], keys[n]);
    var w := WordOf(k);
    SetFieldSets(buf[w], k, key);
    var buf' := buf[w := SetField(buf[w], k, key) as word];
    forall i | 0 <= i < |ks| ensures PackedKey(buf', before, ks[i], keys[i], i < n + 1) {
      assert PackedKey(buf, before, ks[i], keys[i], i < n);
      if i != n && WordOf(ks[i]) == w {
        assert Apart(k, ks[i]) by { if i < n { assert Apart(ks[i], ks[n]); } else { assert Apart(ks[n], ks[i]); } }
        SetFieldKeeps(buf[w], k, key, ks[i]);
      }
    }
  }

  lemma MaskedMore(mask: seq<word>, before: seq<word>, ks: seq<Key>, keys: seq<word>, n: nat)
    requires n < |ks| == |keys| && |mask| == |before| && IsLayout(ks, |mask|) && Masked(mask, before, ks, keys, n)
    requires keys[n] != WILDCARD
    ensures var w, f := WordOf(ks[n]), Shl(Rmask(ks[n]), Shift(ks[n]));
      Or(And(mask[w], Not(f)), f) < WORD_BASE &&
        Masked(mask[w := Or(And(mask[w], Not(f)), f) as word], before, ks, keys, n + 1)
  {
    hide Rmask, Shl, Not, Or, And, Bits, Covered;
    var k := ks[n];
    var w := WordOf(k);
    MaskFieldBits(mask[w], k);
    var f := Shl(Rmask(k), Shift(k));
    var mask' := mask[w := Or(And(mask[w], Not(f)), f) as word];
    forall v: nat, p: nat | v < |mask| && p < 32
      ensures Bits(mask'[v], 32)[p] == MaskedAt(before, ks, keys, n + 1, v, p)
    {
      CoveredMore(ks, keys, n, v, p);
      assert Bits(mask[v], 32)[p] == MaskedAt(before, ks, keys, n, v, p);
      if v == w { assert Bits(mask'[w], 32)[p] == (Lo(k) <= p < Hi(k) || Bits(mask[w], 32)[p]); }
    }
  }

  lemma CoveredMore(ks: seq<Key>, keys: seq<word>, n: nat, w: nat, p: nat)
    requires n < |ks| == |keys|
    ensures Covered(ks, keys, n + 1, w, p) == (Covered(ks, keys, n, w, p) || Covers(ks[n], keys[n], w, p))
  {
    hide Covers;
    if Covers(ks[n], keys[n], w, p) { assert Covered(ks, keys, n + 1, w, p); }
    if Covered(ks, keys, n + 1, w, p) {
      var i :| 0 <= i < n + 1 && Covers(ks[i], keys[i], w, p);
      assert i == n || Covered(ks, keys, n, w, p);
    }
  }

  /** `build_gen_prim_keys` in write mode.  The first two words of the buffer and of the mask
      are the record header. */
  method Pack(buf: array<word>, mask: array<word>, keys: seq<word>, ks: seq<Key>)
    requires buf != mask && buf.Length == mask.Length >= 2 && |keys| == |ks| && IsLayout(ks, buf.Length - 2)
    modifies buf, mask
    ensures buf[..2] == old(buf[..2]) && Packed(buf[2..], old(buf[2..]), ks, keys, |ks|)
    ensures mask[..2] == [0, 0] && Masked(mask[2..], old(mask[2..]), ks, keys, |ks|)
  {
    hide IsLayout, Packed, Masked, Rmask, SetField, Prepared, Shl, Not, Or, And;
    LayoutFacts(ks, buf.Length - 2);
    ghost var before, mask0 := buf[2..], mask[2..];
    mask[0], mask[1] := 0, 0;
    assert mask[2..] == mask0;
    ClearMask(mask, ks, keys);
    NothingPacked(before, ks, keys);
    for i := 0 to |ks|
      invariant buf[..2] == old(buf[..2]) && Packed(buf[2..], before, ks, keys, i)
      invariant mask[..2] == [0, 0] && Masked(mask[2..], mask0, ks, keys, i)
    {
      if keys[i] != WILDCARD {
        PackKey(buf, mask, keys, ks, i, before, mask0);
      } else {
        WildcardSkipped(buf[2..], before, mask[2..], mask0, ks, keys, i);
      }
    }
  }

  lemma LayoutFacts(ks: seq<Key>, words: nat)
    requires IsLayout(ks, words)
    ensures ks != [] && forall i | 0 <= i < |ks| :: InWord(ks[i]) && WordOf(ks[i]) < words
  {
  }

  /** Clears the mask from the word of the first key to that of the last one. */
  method ClearMask(mask: array<word>, ks: seq<Key>, keys: seq<word>)
    requires mask.Length >= 2 && |keys| == |ks| && IsLayout(ks, mask.Length - 2)
    modifies mask
    ensures mask[..2] == old(mask[..2]) && Masked(mask[2..], old(mask[2..]), ks, keys, 0)
  {
    hide Bits;
    ghost var before := mask[2..];
    var wfirst, wlast := WordOf(ks[0]), WordOf(ks[|ks| - 1]);
    var i := wfirst;
    while i <= wlast
      invariant wfirst <= i && mask[..2] == old(mask[..2])
      invariant forall w | 2 <= w < mask.Length ::
        mask[w] == if wfirst <= w - 2 < i && w - 2 <= wlast then 0 else before[w - 2]
    {
      mask[2 + i] := 0;
      i := i + 1;
    }
    ClearedMask(mask[2..], before, ks, keys);
  }

  lemma ZeroWord()
    ensures forall p | 0 <= p < 32 :: !Bits(0, 32)[p]
  {
    BitsSmall(0, 32, 0);
  }

  lemma ClearedMask(mask: seq<word>, before: seq<word>, ks: seq<Key>, keys: seq<word>)
    requires |ks| == |keys| && |mask| == |before| && IsLayout(ks, |mask|)
    requires forall w | 0 <= w < |mask| :: mask[w] == if Stale(ks, w) then before[w] else 0
    ensures Masked(mask, before, ks, keys, 0)
  {
    hide Bits;
    ZeroWord();
    forall w: nat, p: nat | w < |mask| && p < 32
      ensures Bits(mask[w], 32)[p] == MaskedAt(before, ks, keys, 0, w, p)
    {
    }
  }

  lemma NothingPacked(before: seq<word>, ks: seq<Key>, keys: seq<word>)
    requires |ks| == |keys| && IsLayout(ks, |before|)
    ensures Packed(before, before, ks, keys, 0)
  {
  }

  lemma WildcardSkipped(buf: seq<word>, before: seq<word>, mask: seq<word>, mask0: seq<word>, ks: seq<Key>,
                        keys: seq<word>, n: nat)
    requires n < |ks| == |keys| && |buf| == |before| == |mask| == |mask0| && IsLayout(ks, |buf|) && keys[n] == WILDCARD
    requires Packed(buf, before, ks, keys, n) && Masked(mask, mask0, ks, keys, n)
    ensures Packed(buf, before, ks, keys, n + 1) && Masked(mask, mask0, ks, keys, n + 1)
  {
    hide Value, Prepared, Pow2, Bits;
    forall i | 0 <= i < |ks| ensures PackedKey(buf, before, ks[i], keys[i], i < n + 1) {
      assert PackedKey(buf, before, ks[i], keys[i], i < n);
    }
    hide Covered;
    forall w: nat, p: nat | w < |mask| && p < 32
      ensures Bits(mask[w], 32)[p] == MaskedAt(mask0, ks, keys, n + 1, w, p)
    {
      CoveredMore(ks, keys, n, w, p);
    }
  }

  /** Sets one key, and its bits of the mask. */
  method PackKey(buf: array<word>, mask: array<word>, keys: seq<word>, ks: seq<Key>, i: nat, ghost before: seq<word>,
                 ghost mask0: seq<word>)
    requires buf != mask && buf.Length == mask.Length >= 2 && i < |keys| == |ks| && IsLayout(ks, buf.Length - 2)
    requires |before| == |mask0| == buf.Length - 2 && keys[i] != WILDCARD
    requires Packed(buf[2..], before, ks, keys, i) && Masked(mask[2..], mask0, ks, keys, i)
    modifies buf, mask
    ensures buf[..2] == old(buf[..2]) && Packed(buf[2..], before, ks, keys, i + 1)
    ensures mask[..2] == old(mask[..2]) && Masked(mask[2..], mask0, ks, keys, i + 1)
  {
    hide IsLayout, Packed, Masked, Rmask, Prepared, Shl, Not, Or, And;
    LayoutFacts(ks, buf.Length - 2);
    PackedMore(before, buf[2..], ks, keys, i);
    MaskedMore(mask[2..], mask0, ks, keys, i);
    var wi, sc, rmask := WordOf(ks[i]), Shift(ks[i]), Rmask(ks[i]);
    var key := Prepared(ks[i], keys[i]);
    ghost var b, m := buf[2..], mask[2..];
    assert b[wi] == buf[2 + wi] && m[wi] == mask[2 + wi];
    buf[2 + wi] := Or(And(buf[2 + wi], Not(Shl(rmask, sc))), Shl(AsWord(And(key, rmask)), sc));
    mask[2 + wi] := Or(And(mask[2 + wi], Not(Shl(rmask, sc))), Shl(rmask, sc));
    assert buf[2..] == b[wi := buf[2 + wi]] && mask[2..] == m[wi := mask[2 + wi]];
  }

  /** `build_gen_prim_keys` in read mode. */
  method Unpack(buf: array<word>, ks: seq<Key>) returns (keys: seq<nat>)
    requires buf.Length >= 2 && IsLayout(ks, buf.Length - 2)
    ensures |keys| == |ks| && forall i | 0 <= i < |ks| :: keys[i] == Value(buf[2 + WordOf(ks[i])], ks[i])
  {
    keys := [];
    for i := 0 to |ks|
      invariant |keys| == i && forall k | 0 <= k < i :: keys[k] == Value(buf[2 + WordOf(ks[k])], ks[k])
    {
      keys := keys + [And(Shr(buf[2 + WordOf(ks[i])], Shift(ks[i])), Rmask(ks[i]))];
    }
  }

  /** Unpacking gives each key that was set, cut to its width, and leaves the others as they
      were. */
  method PackUnpack(buf: array<word>, mask: array<word>, keys: seq<word>, ks: seq<Key>) returns (found: seq<nat>)
    requires buf != mask && buf.Length == mask.Length >= 2 && |keys| == |ks| && IsLayout(ks, buf.Length - 2)
    modifies buf, mask
    ensures |found| == |ks| && forall i | 0 <= i < |ks| :: InWord(ks[i]) && WordOf(ks[i]) + 2 < buf.Length
    ensures forall i | 0 <= i < |ks| ::
      found[i] == if keys[i] != WILDCARD then Prepared(ks[i], keys[i]) % Pow2(ks[i].lcle +
        1) else Value(old(buf[2 + WordOf(ks[i])]), ks[i])
  {
    hide Value, Prepared, Pow2, Masked, IsLayout;
    LayoutFacts(ks, buf.Length - 2);
    ghost var before := buf[2..];
    Pack(buf, mask, keys, ks);
    found := Unpack(buf, ks);
    forall i | 0 <= i < |ks|
      ensures found[i] ==
        if keys[i] != WILDCARD then Prepared(ks[i], keys[i]) % Pow2(ks[i].lcle + 1) else Value(before[WordOf(ks[i])],
        ks[i])
    {
      assert PackedKey(buf[2..], before, ks[i], keys[i], i < |ks|);
    }
  }

  // ----- Matching -----

  /** Words that agree wherever the mask has ones. */
  lemma Agreement(e: word, t: word, m: word)
    ensures And(Xor(e, t), m) == 0 <==> forall p | 0 <= p < 32 :: Bits(m, 32)[p] ==> Bits(e, 32)[p] == Bits(t, 32)[p]
  {
    hide And, Xor, Bits;
    XorOfWords(e, t);
    MaskedOut(Xor(e, t), m);
    forall p | 0 <= p < 32 ensures Bits(Xor(e, t), 32)[p] == (Bits(e, 32)[p] != Bits(t, 32)[p]) {
      BitOfXor(e, t, 32, p);
    }
  }

  predicate NoneInBoth(b: seq<bool>, c: seq<bool>)
    requires |b| == |c|
  {
    forall p | 0 <= p < |b| :: !(b[p] && c[p])
  }

  /** Nothing is left under the mask when no bit is in both. */
  lemma MaskedOut(x: word, m: word)
    ensures And(x, m) == 0 <==> NoneInBoth(Bits(x, 32), Bits(m, 32))
  {
    hide And, Bits, Pow2;
    Pow2Values();
    AndBound(x, m);
    var both := Bits(And(x, m), 32);
    ZeroBits(And(x, m), 32);
    AllFalse(both);
    BothBits(x, m);
    if NoneInBoth(Bits(x, 32), Bits(m, 32)) {
      assert both == Zeros(32);
    } else {
      var p :| 0 <= p < 32 && Bits(x, 32)[p] && Bits(m, 32)[p];
      assert both[p] && !Zeros(32)[p];
    }
  }

  lemma BothBits(x: word, m: word)
    ensures forall p | 0 <= p < 32 :: Bits(And(x, m), 32)[p] == (Bits(x, 32)[p] && Bits(m, 32)[p])
  {
    hide And, Bits;
    BitsOfAnd(x, m, 32);
  }

  lemma AllFalse(b: seq<bool>)
    ensures b == Zeros(|b|) <==> forall p | 0 <= p < |b| :: !b[p]
  {
  }

  /** The comparison of a search: all words agree under the mask. */
  predicate AllAgree(entry: seq<word>, target: seq<word>, mask: seq<word>)
    requires |entry| == |target| == |mask|
  {
    forall w | 0 <= w < |entry| :: And(Xor(entry[w], target[w]), mask[w]) == 0
  }

  /** The keys that are set agree. */
  predicate KeysAgree(entry: seq<word>, target: seq<word>, ks: seq<Key>, keys: seq<word>)
    requires |entry| == |target| && |ks| == |keys| && IsLayout(ks, |entry|)
  {
    forall i | 0 <= i < |ks| && keys[i] != WILDCARD ::
      Value(entry[WordOf(ks[i])], ks[i]) == Value(target[WordOf(ks[i])], ks[i])
  }

  /** Words whose mask was not cleared agree under what it was before. */
  predicate RestAgrees(entry: seq<word>, target: seq<word>, before: seq<word>, ks: seq<Key>)
    requires |entry| == |target| == |before| && ks != []
  {
    forall w | 0 <= w < |entry| && Stale(ks, w) :: And(Xor(entry[w], target[w]), before[w]) == 0
  }

  /** An entry matches exactly when it agrees with the target on every key that is set, and on
      what the mask still asks for in words that were not cleared. */
  lemma MatchIff(entry: seq<word>, target: seq<word>, mask: seq<word>, before: seq<word>, ks: seq<Key>, keys: seq<word>)
    requires |entry| == |target| == |mask| == |before| && |ks| == |keys| && IsLayout(ks, |mask|)
    requires Masked(mask, before, ks, keys, |ks|)
    ensures AllAgree(entry, target, mask) <==>
      KeysAgree(entry, target, ks, keys) && RestAgrees(entry, target, before, ks)
  {
    hide And, Xor, Bits, Value, IsLayout, Masked;
    LayoutFacts(ks, |mask|);
    if AllAgree(entry, target, mask) {
      forall i | 0 <= i < |ks| && keys[i] != WILDCARD
        ensures Value(entry[WordOf(ks[i])], ks[i]) == Value(target[WordOf(ks[i])], ks[i])
      {
        KeyAgrees(entry, target, mask, before, ks, keys, i);
      }
      forall w: nat | w < |entry| && Stale(ks, w) ensures And(Xor(entry[w], target[w]), before[w]) == 0 {
        StaleAgrees(entry, target, mask, before, ks, keys, w);
      }
    }
    if KeysAgree(entry, target, ks, keys) && RestAgrees(entry, target, before, ks) {
      forall w: nat | w < |entry| ensures And(Xor(entry[w], target[w]), mask[w]) == 0 {
        WordAgrees(entry, target, mask, before, ks, keys, w);
      }
    }
  }

  lemma KeyAgrees(entry: seq<word>, target: seq<word>, mask: seq<word>, before: seq<word>, ks: seq<Key>,
                  keys: seq<word>, i: nat)
    requires |entry| == |target| == |mask| == |before| && i < |ks| == |keys| && IsLayout(ks, |mask|)
    requires Masked(mask, before, ks, keys, |ks|)
    requires keys[i] != WILDCARD && And(Xor(entry[WordOf(ks[i])], target[WordOf(ks[i])]), mask[WordOf(ks[i])]) == 0
    ensures Value(entry[WordOf(ks[i])], ks[i]) == Value(target[WordOf(ks[i])], ks[i])
  {
    hide And, Xor, Bits, Value;
    var k, w := ks[i], WordOf(ks[i]);
    Agreement(entry[w], target[w], mask[w]);
    forall p: nat | Lo(k) <= p < Hi(k) ensures Bits(entry[w], 32)[p] == Bits(target[w], 32)[p] {
      assert Covers(ks[i], keys[i], w, p);
      assert MaskedAt(before, ks, keys, |ks|, w, p);
    }
    assert FieldBits(entry[w], k) == FieldBits(target[w], k);
    SameValue(entry[w], target[w], k);
  }

  lemma StaleAgrees(entry: seq<word>, target: seq<word>, mask: seq<word>, before: seq<word>, ks: seq<Key>,
                    keys: seq<word>, w: nat)
    requires |entry| == |target| == |mask| == |before| && |ks| == |keys| && IsLayout(ks, |mask|)
    requires Masked(mask, before, ks, keys, |ks|)
    requires w < |mask| && Stale(ks, w) && And(Xor(entry[w], target[w]), mask[w]) == 0
    ensures And(Xor(entry[w], target[w]), before[w]) == 0
  {
    hide And, Xor, Bits, Covered;
    Agreement(entry[w], target[w], mask[w]);
    Agreement(entry[w], target[w], before[w]);
    forall p: nat | p < 32 && Bits(before[w], 32)[p] ensures Bits(mask[w], 32)[p] {
      assert MaskedAt(before, ks, keys, |ks|, w, p);
    }
  }

  lemma WordAgrees(entry: seq<word>, target: seq<word>, mask: seq<word>, before: seq<word>, ks: seq<Key>,
                   keys: seq<word>, w: nat)
    requires |entry| == |target| == |mask| == |before| && |ks| == |keys| && IsLayout(ks, |mask|)
    requires Masked(mask, before, ks, keys, |ks|)
    requires w < |mask| && KeysAgree(entry, target, ks, keys) && RestAgrees(entry, target, before, ks)
    ensures And(Xor(entry[w], target[w]), mask[w]) == 0
  {
    hide And, Xor, Bits, Value;
    Agreement(entry[w], target[w], mask[w]);
    if Stale(ks, w) { Agreement(entry[w], target[w], before[w]); }
    forall p: nat | p < 32 && Bits(mask[w], 32)[p] ensures Bits(entry[w], 32)[p] == Bits(target[w], 32)[p] {
      assert MaskedAt(before, ks, keys, |ks|, w, p);
      if Covered(ks, keys, |ks|, w, p) {
        var i :| 0 <= i < |ks| && Covers(ks[i], keys[i], w, p);
        CoveredBit(entry[w], target[w], ks[i], p);
      }
    }
  }

  lemma CoveredBit(e: word, t: word, k: Key, p: nat)
    requires InWord(k) && Lo(k) <= p < Hi(k) && Value(e, k) == Value(t, k)
    ensures Bits(e, 32)[p] == Bits(t, 32)[p]
  {
    hide Bits, Value;
    SameValue(e, t, k);
    assert FieldBits(e, k)[p - Lo(k)] == FieldBits(t, k)[p - Lo(k)];
  }

  // ----- When the keys alone decide -----

  /** Whatever the entry and the target, only the keys that are set matter. */
  ghost predicate OnlyKeysMatter(mask: seq<word>, ks: seq<Key>, keys: seq<word>)
    requires |ks| == |keys| && IsLayout(ks, |mask|)
  {
    forall entry: seq<word>, target: seq<word> {:trigger AllAgree(entry, target, mask)} | |entry| == |target| ==
      |mask| ::
      AllAgree(entry, target, mask) <==> KeysAgree(entry, target, ks, keys)
  }

  /** The mask of the words that are not cleared asks for nothing but keys that are set. */
  ghost predicate RestCovered(before: seq<word>, ks: seq<Key>, keys: seq<word>)
    requires |ks| == |keys| && ks != []
  {
    forall w: nat, p: nat | w < |before| && Stale(ks, w) && p < 32 && Bits(before[w], 32)[p] ::
      Covered(ks, keys, |ks|, w, p)
  }

  /** The words of the first and of the last key listed are the first and the last word. */
  predicate Spans(ks: seq<Key>, words: nat)
    requires ks != []
  {
    WordOf(ks[0]) == 0 && WordOf(ks[|ks| - 1]) == words - 1
  }

  /** The keys that are set decide alone if and only if the mask of the words that are not
      cleared asks for nothing else. */
  lemma KeysDecideIff(mask: seq<word>, before: seq<word>, ks: seq<Key>, keys: seq<word>)
    requires |mask| == |before| && |ks| == |keys| && IsLayout(ks, |mask|) && Masked(mask, before, ks, keys, |ks|)
    ensures OnlyKeysMatter(mask, ks, keys) <==> RestCovered(before, ks, keys)
  {
    hide And, Xor, Bits, Value, IsLayout, Masked, AllAgree, KeysAgree, RestAgrees, Covered;
    LayoutFacts(ks, |mask|);
    if RestCovered(before, ks, keys) {
      forall entry: seq<word>, target: seq<word> | |entry| == |target| == |mask|
        ensures AllAgree(entry, target, mask) <==> KeysAgree(entry, target, ks, keys)
      {
        MatchIff(entry, target, mask, before, ks, keys);
        if KeysAgree(entry, target, ks, keys) { RestFollows(entry, target, before, ks, keys); }
      }
    } else {
      var w: nat, p: nat :| w < |before| && Stale(ks, w) && p < 32 && Bits(before[w], 32)[p] &&
        !Covered(ks, keys, |ks|, w, p);
      var entry, target := OneBit(|mask|, w, p), AllZero(|mask|);
      OneBitDiffers(mask, before, ks, keys, w, p);
      assert !(AllAgree(entry, target, mask) <==> KeysAgree(entry, target, ks, keys));
    }
  }

  /** So they do when the first and the last of them are in the first and the last word. */
  lemma SpanningKeys(mask: seq<word>, before: seq<word>, ks: seq<Key>, keys: seq<word>)
    requires |mask| == |before| && |ks| == |keys| && IsLayout(ks, |mask|) && Masked(mask, before, ks, keys, |ks|)
    requires Spans(ks, |before|)
    ensures OnlyKeysMatter(mask, ks, keys)
  {
    hide Bits, IsLayout, Masked, OnlyKeysMatter;
    KeysDecideIff(mask, before, ks, keys);
  }

  lemma RestFollows(entry: seq<word>, target: seq<word>, before: seq<word>, ks: seq<Key>, keys: seq<word>)
    requires |entry| == |target| == |before| && |ks| == |keys| && IsLayout(ks, |before|)
    requires KeysAgree(entry, target, ks, keys) && RestCovered(before, ks, keys)
    ensures RestAgrees(entry, target, before, ks)
  {
    hide And, Xor, Bits, Value;
    forall w: nat | w < |entry| && Stale(ks, w) ensures And(Xor(entry[w], target[w]), before[w]) == 0 {
      Agreement(entry[w], target[w], before[w]);
      forall p: nat | p < 32 && Bits(before[w], 32)[p] ensures Bits(entry[w], 32)[p] == Bits(target[w], 32)[p] {
        assert Covered(ks, keys, |ks|, w, p);
        var i :| 0 <= i < |ks| && Covers(ks[i], keys[i], w, p);
        CoveredBit(entry[w], target[w], ks[i], p);
      }
    }
  }

  ghost function AllZero(words: nat): (ws: seq<word>)
    ensures |ws| == words && forall w | 0 <= w < words :: ws[w] == 0
  {
    seq(words, _ => 0)
  }

  /** Words with a single bit, at position p of word w. */
  ghost function OneBit(words: nat, w: nat, p: nat): (ws: seq<word>)
    requires w < words && p < 32
    ensures |ws| == words && forall v | 0 <= v < words && v != w :: ws[v] == 0
    ensures forall q | 0 <= q < 32 :: Bits(ws[w], 32)[q] == (q == p)
  {
    SingleBit(p);
    AllZero(words)[w := FromBits(Zeros(p) + [true] + Zeros(31 - p))]
  }

  lemma SingleBit(p: nat)
    requires p < 32
    ensures var v := FromBits(Zeros(p) + [true] + Zeros(31 - p));
      v < WORD_BASE && forall q | 0 <= q < 32 :: Bits(v, 32)[q] == (q == p)
  {
    hide Bits, FromBits, Pow2;
    Pow2Values();
    BitsOfFromBits(Zeros(p) + [true] + Zeros(31 - p));
  }

  lemma OneBitDiffers(mask: seq<word>, before: seq<word>, ks: seq<Key>, keys: seq<word>, w: nat, p: nat)
    requires |mask| == |before| && |ks| == |keys| && IsLayout(ks, |mask|) && Masked(mask, before, ks, keys, |ks|)
    requires w < |before| && Stale(ks, w) && p < 32 && Bits(before[w], 32)[p] && !Covered(ks, keys, |ks|, w, p)
    ensures !AllAgree(OneBit(|mask|, w, p), AllZero(|mask|), mask)
    ensures KeysAgree(OneBit(|mask|, w, p), AllZero(|mask|), ks, keys)
  {
    hide And, Xor, Bits, Value, Pow2, Covered, Covers;
    var entry, target := OneBit(|mask|, w, p), AllZero(|mask|);
    ZeroWord();
    assert MaskedAt(before, ks, keys, |ks|, w, p);
    assert And(Xor(entry[w], target[w]), mask[w]) != 0 by {
      Agreement(entry[w], target[w], mask[w]);
      assert Bits(mask[w], 32)[p] && Bits(entry[w], 32)[p] && !Bits(target[w], 32)[p];
    }
    forall i | 0 <= i < |ks| && keys[i] != WILDCARD
      ensures Value(entry[WordOf(ks[i])], ks[i]) == Value(target[WordOf(ks[i])], ks[i])
    {
      if WordOf(ks[i]) == w {
        NotCovering(ks, keys, i, w, p);
        BitElsewhere(entry[w], target[w], ks[i], p);
      }
    }
  }

  lemma NotCovering(ks: seq<Key>, keys: seq<word>, i: nat, w: nat, p: nat)
    requires i < |ks| == |keys| && !Covered(ks, keys, |ks|, w, p) && keys[i] != WILDCARD && WordOf(ks[i]) == w
    ensures !(Lo(ks[i]) <= p < Hi(ks[i]))
  {
    assert !Covers(ks[i], keys[i], w, p);
  }

  /** A bit outside a key does not show in it. */
  lemma BitElsewhere(e: word, t: word, k: Key, p: nat)
    requires InWord(k) && !(Lo(k) <= p < Hi(k))
    requires forall q | 0 <= q < 32 :: Bits(e, 32)[q] == (q == p)
    requires forall q | 0 <= q < 32 :: !Bits(t, 32)[q]
    ensures Value(e, k) == Value(t, k)
  {
    hide Bits, Value;
    var a, b := FieldBits(e, k), FieldBits(t, k);
    forall i | 0 <= i < |a| ensures a[i] == b[i] {
      assert a[i] == Bits(e, 32)[Lo(k) + i] && b[i] == Bits(t, 32)[Lo(k) + i];
    }
    assert a == b;
    SameValue(e, t, k);
  }
}
