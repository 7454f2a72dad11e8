/** The packer of unsigned integers without a header (`compact_integer` with operations 1
    and 2), as the report buffer uses it. */
module CompactInteger {
  import opened Words
  import opened BitStream

  /** The low n bits of the values. */
  ghost function Masked(values: seq<word>, n: nat): (f: seq<word>)
    requires n <= 32
    ensures |f| == |values| && forall k | 0 <= k < |f| :: f[k] == values[k] % Pow2(n)
  {
    seq(|values|, k requires 0 <= k < |values| => LowBits(values[k], n))
  }

  ghost function LowBits(v: word, n: nat): (r: word)
    requires n <= 32
    ensures r == v % Pow2(n) < Pow2(n)
  {
    DivMod(v, Pow2(n));
    Pow2Values();
    Pow2Monotonic(n, 32);
    v % Pow2(n)
  }

  ghost function PackedBits(values: seq<word>, n: nat): (s: seq<bool>)
    requires n <= 32
  {
    TokensBits(Masked(values, n), n)
  }

  lemma PackedLength(values: seq<word>, n: nat)
    requires n <= 32
    ensures |PackedBits(values, n)| == |values| * n
  {
    TokensBitsLength(Masked(values, n), n);
  }

  /** Tokens as wide as a word are the words. */
  lemma {:induction false} WholeWords(f: seq<word>)
    ensures TokensBits(f, 32) == WordsBits(f)
  {
    if f == [] {
    } else {
      WholeWords(f[1..]);
      WordsBitsFirst(f);
    }
  }

  lemma NothingMasked(values: seq<word>)
    ensures Masked(values, 32) == values
  {
    hide Pow2;
    Pow2Values();
    forall k | 0 <= k < |values| ensures Masked(values, 32)[k] == values[k] {
    }
  }

  /** Packs the values from word `start` on; the last word keeps its other bits. */
  method Pack(z: array<word>, start: nat, values: seq<word>, n: nat)
    requires n <= 32 && start + WordsFor(|values| * n) <= z.Length
    modifies z
    ensures Stored(z[..], start, PackedBits(values, n))
    ensures forall k | 0 <= k < z.Length && (k < start || start + WordsFor(|values| * n) <= k) :: z[k] == old(z[k])
  {
    hide Stored, TokensBits, Pow2, WordsBits;
    PackedLength(values, n);
    if n == 0 {
      assert Stored(z[..], start, PackedBits(values, n)) by { NothingStored(z[..], start, PackedBits(values, n)); }
      return;
    }
    if n == 32 {
      PackWords(z, start, values);
    } else {
      PackBits(z, start, values, n);
    }
  }

  lemma NothingStored(z: seq<word>, start: nat, bits: seq<bool>)
    requires bits == [] && start <= |z|
    ensures Stored(z, start, bits)
  {
  }

  method PackWords(z: array<word>, start: nat, values: seq<word>)
    requires start + |values| <= z.Length
    modifies z
    ensures Stored(z[..], start, PackedBits(values, 32))
    ensures forall k | 0 <= k < z.Length && (k < start || start + |values| <= k) :: z[k] == old(z[k])
  {
    hide TokensBits, Pow2, WordsBits;
    for i := 0 to |values|
      invariant forall k | 0 <= k < z.Length :: z[k] == if start <= k < start + i then values[k - start] else old(z[k])
    {
      z[start + i] := values[i];
    }
    WholeWords(values);
    NothingMasked(values);
    assert z[..][start..start + |values|] == values;
  }

  method PackBits(z: array<word>, start: nat, values: seq<word>, n: nat)
    requires 1 <= n <= 31 && start + WordsFor(|values| * n) <= z.Length
    modifies z
    ensures Stored(z[..], start, PackedBits(values, n))
    ensures forall k | 0 <= k < z.Length && (k < start || start + WordsFor(|values| * n) <= k) :: z[k] == old(z[k])
  {
    hide TokensBits, Bits, WordsBits, Pow2, Stored, StreamOf;
    var s := new BitWriter(z, start);
    PackedLength(values, n);
    assert [] + PackedBits(values, n) == PackedBits(values, n);
    StuffValues(s, values, n);
    s.Position();
    s.Squeeze();
  }

  /** Stuffs the low bits of the values. */
  method StuffValues(s: BitWriter, values: seq<word>, n: nat)
    requires s.Valid() && 1 <= n <= 31 && s.Stream() == [] && |PackedBits(values, n)| <= s.Capacity() - 32
    modifies s, s.z
    ensures s.Valid() && s.Stream() == PackedBits(values, n) && s.cur >= old(s.cur)
    ensures forall k | 0 <= k < s.z.Length && (k < old(s.cur) || s.cur <= k) :: s.z[k] == old(s.z[k])
  {
    hide TokensBits, Bits, WordsBits, Pow2, Stored, StreamOf;
    ghost var f, all := Masked(values, n), PackedBits(values, n);
    assert f[0..] == f && [] + all == all;
    for i := 0 to |values|
      invariant s.Valid() && s.Stream() + TokensBits(f[i..], n) == all && s.cur >= old(s.cur)
      invariant forall k | 0 <= k < s.z.Length && (k < old(s.cur) || s.cur <= k) :: s.z[k] == old(s.z[k])
    {
      TokensBitsStep(f, i, n);
      Append(s.Stream(), Bits(f[i], n), TokensBits(f[i + 1..], n), all);
      var token := Clean(values[i], n);
      s.Stuff(token, n);
    }
    TokensBitsLength(f[|f|..], n);
    assert s.Stream() == all;
  }

  /** The cleanup mask. */
  method Clean(v: word, n: nat) returns (token: word)
    requires 1 <= n <= 31
    ensures token == v % Pow2(n) < Pow2(n)
  {
    hide And, Pow2;
    AndWithLowMask(v, n);
    DivMod(v, Pow2(n));
    AndBound(v, Pow2(n) - 1);
    token := And(v, Pow2(n) - 1);
  }

  /** Unpacks as many values: each is what was packed, cut to n bits. */
  method Unpack(z: array<word>, start: nat, npts: nat, n: nat, ghost values: seq<word>) returns (found: seq<word>)
    requires 1 <= n <= 32 && |values| == npts && Holds(z[..], start, PackedBits(values, n))
    ensures found == Masked(values, n)
  {
    hide TokensBits, Holds, Pow2;
    found := UnpackStream(z, start, npts, n, Masked(values, n));
  }

  /** Reading whole words gives what is there. */
  lemma WholeWordsThere(z: seq<word>, start: nat, n: nat)
    requires start + n <= |z|
    ensures Stored(z, start, PackedBits(z[start..start + n], 32)) && |PackedBits(z[start..start + n], 32)| == 32 * n
  {
    hide WordsBits, TokensBits, Pow2;
    WholeWords(z[start..start + n]);
    NothingMasked(z[start..start + n]);
    PackedLength(z[start..start + n], 32);
  }

  lemma {:induction false} SameWords(a: seq<word>, b: seq<word>)
    requires |a| == |b| && WordsBits(a) == WordsBits(b)
    ensures a == b
  {
    hide Bits;
    if a != [] {
      var n := |a| - 1;
      assert WordsBits(a)[..32 * n] == WordsBits(a[..n]) && WordsBits(b)[..32 * n] == WordsBits(b[..n]);
      assert WordsBits(a)[32 * n..] == Bits(a[n], 32) && WordsBits(b)[32 * n..] == Bits(b[n], 32);
      SameWords(a[..n], b[..n]);
      TokenIs(a[n], b[n], 32) by { Pow2Values(); }
      assert a == a[..n] + [a[n]] && b == b[..n] + [b[n]];
    }
  }

  /** Values as wide as a word are the words that hold them. */
  lemma WholeWordsAre(z: seq<word>, values: seq<word>)
    requires |z| == |values| && Stored(z, 0, PackedBits(values, 32))
    ensures z == values
  {
    hide WordsBits, TokensBits, Pow2;
    WholeWords(values);
    NothingMasked(values);
    PackedLength(values, 32);
    assert z[0..WordsFor(32 * |values|)] == z;
    SameWords(z, values);
  }
}
