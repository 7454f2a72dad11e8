/** The bit stream that every packer of the library writes with `stuff` and
    reads back with `extract`. */
module BitStream {
  import opened Words

  /** Number of words that a stream takes. */
  function WordsFor(bits: nat): nat
  {
    (bits + 31) / 32
  }

  /** Number of words already flushed when that many bits have been stuffed. */
  function FlushedWords(bits: nat): nat
  {
    if bits == 0 then 0 else (bits - 1) / 32
  }

  /** The given bits are stored from word `start` on. */
  ghost predicate Stored(z: seq<word>, start: nat, bits: seq<bool>)
  {
    start + WordsFor(|bits|) <= |z| && bits <= WordsBits(z[start..start + WordsFor(|bits|)])
  }

  /** The given bits can be read from word `start` on: one more word follows when they end
      with a word, for `extract` then looks ahead. */
  ghost predicate Holds(z: seq<word>, start: nat, bits: seq<bool>)
  {
    Stored(z, start, bits) && start + |bits| / 32 < |z|
  }

  lemma HoldsAhead(z: array<word>, start: nat, bits: seq<bool>)
    requires Holds(z[..], start, bits)
    ensures start < z.Length && bits <= WordsBits(z[start..]) && |bits| < |WordsBits(z[start..])|
  {
    var end := start + WordsFor(|bits|);
    WordsBitsConcat(z[start..end], z[end..]);
    assert z[start..] == z[start..end] + z[end..];
    assert z[..][start..end] == z[start..end];
  }

  /** Writing elsewhere leaves a stream in place. */
  lemma StoredStill(z: seq<word>, z': seq<word>, start: nat, bits: seq<bool>)
    requires Stored(z, start, bits) && start + WordsFor(|bits|) <= |z'|
    requires forall k | start <= k < start + WordsFor(|bits|) :: z'[k] == z[k]
    ensures Stored(z', start, bits)
  {
    var end := start + WordsFor(|bits|);
    assert z'[start..end] == z[start..end];
  }

  /** The words flushed, then the bits of the last word that still wait to be.  What lies
      above them is leftover: the mask of the macro removes nothing. */
  ghost function StreamOf(flushed: seq<word>, lastWordShifted: word, space: nat): (s: seq<bool>)
    requires space <= 32
    ensures |s| == 32 * |flushed| + 32 - space
  {
    WordsBits(flushed) + Bits(lastWordShifted, 32)[space..]
  }

  /** The state the `stuff` macro works on. */
  class BitWriter {
    const z: array<word>
    const start: nat
    var cur: nat
    var lastWordShifted: word
    var spaceInLastWord: nat

    /** A word is flushed only when a token no longer fits, so that a full last word
        is still pending. */
    ghost predicate Valid()
      reads this
    {
      start <= cur <= z.Length && spaceInLastWord <= 32 &&
      (spaceInLastWord == 32 ==> cur == start)
    }

    /** Everything stuffed so far. */
    ghost function Stream(): seq<bool>
      requires Valid()
      reads this, z
    {
      StreamOf(z[start..cur], lastWordShifted, spaceInLastWord)
    }

    /** The bits that the array can take, counting the last word, which is never
        flushed. */
    ghost function Capacity(): int
    {
      32 * (z.Length - start) + 32
    }

    constructor (z: array<word>, start: nat)
      requires start <= z.Length
      ensures Valid() && this.z == z && this.start == start && cur == start
      ensures Stream() == []
    {
      this.z := z;
      this.start := start;
      cur := start;
      lastWordShifted := 0;
      spaceInLastWord := 32;
    }

    method Stuff(token: word, n: nat)
      requires Valid()
      requires 1 <= n <= 31 && token < Pow2(n)
      requires |Stream()| + n <= Capacity()
      modifies this, z
      ensures Valid()
      ensures Stream() == old(Stream()) + Bits(token, n)
      ensures cur >= old(cur)
      ensures forall k | 0 <= k < z.Length && (k < old(cur) || cur <= k) :: z[k] == old(z[k])
    {
      hide StreamOf, WordsBits, Bits, Or, And, Shl, Shr;
      ghost var flushed := z[start..cur];
      if spaceInLastWord >= n {
        StuffFits(flushed, lastWordShifted, token, n, spaceInLastWord);
        lastWordShifted := Or(Shl(lastWordShifted, n), token);
        spaceInLastWord := spaceInLastWord - n;
        assert z[start..cur] == flushed;
      } else {
        StuffFlushes(flushed, lastWordShifted, token, n, spaceInLastWord);
        z[cur] := Or(Shl(lastWordShifted, spaceInLastWord), Shr(token, n - spaceInLastWord));
        assert z[start..cur + 1] == flushed + [z[cur]];
        lastWordShifted := And(token, WORD_BASE - 1);
        spaceInLastWord := 32 - (n - spaceInLastWord);
        cur := cur + 1;
      }
    }

    /** The other way to end a stream: the bits that wait go to the top of the last word,
        which keeps its low bits. */
    method Squeeze()
      requires Valid()
      requires |Stream()| <= Capacity() - 32
      modifies z
      ensures Stored(z[..], start, old(Stream()))
      ensures forall k | 0 <= k < z.Length && (k < start || start + WordsFor(old(|Stream()|)) <= k) :: z[k] == old(z[k])
    {
      hide Bits, Pow2, Or, Shl, WordsBits, And;
      ghost var flushed, s := z[start..cur], Stream();
      if spaceInLastWord < 32 {
        SqueezeFills(flushed, lastWordShifted, spaceInLastWord, z[cur]);
        AndWithLowMask(z[cur], spaceInLastWord);
        z[cur] := Or(Shl(lastWordShifted, spaceInLastWord), And(z[cur], Pow2(spaceInLastWord) - 1));
        assert z[start..cur + 1] == flushed + [z[cur]];
        assert z[..][start..cur + 1] == z[start..cur + 1];
      } else {
        assert s == WordsBits(flushed) by { NothingWaits(flushed, lastWordShifted); }
        assert z[..][start..cur] == z[start..cur];
      }
    }

    lemma Position()
      requires Valid()
      ensures cur - start == FlushedWords(|Stream()|)
    {
    }

    /** The two 16-bit zeros that close a stream flush every bit, and exactly as many
        words are written as the bits need. */
    method Close()
      requires Valid()
      requires |Stream()| + 32 <= Capacity()
      modifies this, z
      ensures Valid()
      ensures cur == start + WordsFor(old(|Stream()|)) >= old(cur)
      ensures Stored(z[..], start, old(Stream()))
      ensures forall k | 0 <= k < z.Length && (k < old(cur) || cur <= k) :: z[k] == old(z[k])
    {
      hide Bits, WordsBits, Pow2;
      Pow2Values();
      ghost var s := Stream();
      Stuff(0, 16);
      Stuff(0, 16);
      assert Stream() == s + (Bits(0, 16) + Bits(0, 16));
      assert z[..][start..cur] == z[start..cur];
      assert WordsBits(z[start..cur]) == Stream()[..32 * (cur - start)];
    }
  }

  lemma NothingWaits(flushed: seq<word>, w: word)
    ensures StreamOf(flushed, w, 32) == WordsBits(flushed)
  {
  }

  /** Filling the last word up with what it held. */
  lemma SqueezeFills(flushed: seq<word>, w: word, space: nat, before: word)
    requires space < 32
    ensures Or(Shl(w, space), before % Pow2(space)) < WORD_BASE
    ensures StreamOf(flushed, w, space) <= WordsBits(flushed + [Or(Shl(w, space), before % Pow2(space)) as word])
  {
    hide Bits, Pow2, Or, Shl, WordsBits;
    Pow2Values();
    var low := before % Pow2(space);
    Pow2Monotonic(space, 32);
    OrBound(Shl(w, space), low, 32);
    BitsOfShl(w, space);
    BitsSmall(low, 32, space);
    BitsOfOrDisjoint(Shl(w, space), low, 32, space);
    WordsBitsSnoc(flushed, Or(Shl(w, space), low));
    assert Bits(Or(Shl(w, space), low), 32)[..32 - space] == Bits(w, 32)[space..];
  }

  lemma StuffFits(flushed: seq<word>, w: word, token: word, n: nat, space: nat)
    requires 1 <= n <= 31 && token < Pow2(n) && n <= space <= 32
    ensures Or(Shl(w, n), token) < WORD_BASE
    ensures StreamOf(flushed, Or(Shl(w, n), token), space - n) == StreamOf(flushed, w, space) + Bits(token, n)
  {
    var joined := Or(Shl(w, n), token);
    Pow2Values();
    OrBound(Shl(w, n), token, 32);
    BitsOfShl(w, n);
    BitsSmall(token, 32, n);
    BitsOfOrDisjoint(Shl(w, n), token, 32, n);
    DropOfConcat(Bits(w, 32), n, Bits(token, n), space - n);
    assert WordsBits(flushed) + (Bits(w, 32)[space..] + Bits(token, n))
        == WordsBits(flushed) + Bits(w, 32)[space..] + Bits(token, n);
  }

  lemma DropOfConcat(a: seq<bool>, n: nat, b: seq<bool>, k: nat)
    requires n + k <= |a|
    ensures (a[n..] + b)[k..] == a[n + k..] + b
  {
  }

  lemma StuffFlushes(flushed: seq<word>, w: word, token: word, n: nat, space: nat)
    requires space < n <= 31 && token < Pow2(n)
    ensures var full := Or(Shl(w, space), Shr(token, n - space));
      full < WORD_BASE && And(token, WORD_BASE - 1) == token &&
      StreamOf(flushed + [full], token, 32 - (n - space)) == StreamOf(flushed, w, space) + Bits(token, n)
  {
    var h := Shr(token, n - space);
    var full := Or(Shl(w, space), h);
    Pow2Values();
    AndWithOnes(token);
    OrBound(Shl(w, space), h, 32);
    Flushed(w, token, n, space);
    WordsBitsSnoc(flushed, full);
    Regroup(WordsBits(flushed), Bits(full, 32), Bits(token, 32)[32 - (n - space)..], Bits(w, 32)[space..],
      Bits(token, n));
  }

  lemma Flushed(w: word, token: word, n: nat, space: nat)
    requires space < n <= 31 && token < Pow2(n)
    ensures Bits(Or(Shl(w, space), Shr(token, n - space)), 32) + Bits(token, 32)[32 - (n - space)..]
         == Bits(w, 32)[space..] + Bits(token, n)
  {
    hide Bits, Pow2, Or, Shl, Shr;
    var h := Shr(token, n - space);
    Pow2Values();
    BitsOfShl(w, space);
    ShrBound(token, n - space, n);
    BitsSmall(h, 32, space);
    BitsSplit(token, n, n - space);
    BitsSplit(token, 32, n - space);
    BitsOfOrDisjoint(Shl(w, space), h, 32, space);
    assert Bits(w, 32)[space..] + (Bits(h, space) + Bits(token, n - space))
        == Bits(w, 32)[space..] + Bits(h, space) + Bits(token, n - space);
  }

  lemma Regroup<T>(a: seq<T>, b: seq<T>, c: seq<T>, d: seq<T>, e: seq<T>)
    requires b + c == d + e
    ensures a + b + c == a + d + e
  {
    assert a + b + c == a + (b + c);
    assert a + d + e == a + (d + e);
  }

  /** Bits of the current word that were extracted have been shifted out, and zeros
      shifted in. */
  ghost predicate LowZeros(curword: word, bitPackInWord: nat)
    requires bitPackInWord <= 32
  {
    Bits(curword, 32)[bitPackInWord..] == Zeros(32 - bitPackInWord)
  }

  ghost function RestOf(curword: word, bitPackInWord: nat, later: seq<word>): (s: seq<bool>)
    requires bitPackInWord <= 32
    ensures |s| == bitPackInWord + 32 * |later|
  {
    Bits(curword, 32)[..bitPackInWord] + WordsBits(later)
  }

  /** The state the `extract` macro works on. */
  class BitReader {
    const z: array<word>
    var cur: nat
    var curword: word
    var bitPackInWord: nat

    ghost predicate Consistent()
      reads this
    {
      cur < z.Length && bitPackInWord <= 32 && LowZeros(curword, bitPackInWord)
    }

    ghost predicate Valid()
      reads this
    {
      Consistent() && bitPackInWord >= 1
    }

    /** The bits not yet extracted, to the end of the array. */
    ghost function Rest(): seq<bool>
      requires Consistent()
      reads this, z
    {
      RestOf(curword, bitPackInWord, z[cur + 1..])
    }

    constructor (z: array<word>, start: nat)
      requires start < z.Length
      ensures Valid() && this.z == z
      ensures Rest() == WordsBits(z[start..])
    {
      this.z := z;
      cur := start;
      curword := z[start];
      bitPackInWord := 32;
      new;
      WordsBitsFirst(z[start..]);
      assert z[start..][1..] == z[start + 1..];
    }

    /** At n = 32 the shift of the macro is undefined in C, but its result is never used:
        the word is then used up and the next one is fetched. */
    method Extract(n: nat) returns (token: word)
      requires Valid()
      requires 1 <= n <= 32 && n < |Rest()|
      modifies this
      ensures Valid()
      ensures token < Pow2(n)
      ensures old(Rest()) == Bits(token, n) + Rest()
    {
      hide RestOf, LowZeros, Bits, WordsBits, Pow2, Or, Shl, Shr;
      ghost var before := Rest();
      token := Shr(curword, 32 - n);
      if bitPackInWord >= n {
        ExtractFits(curword, n, bitPackInWord, z[cur + 1..]);
        curword := Shl(curword, n);
        bitPackInWord := bitPackInWord - n;
      } else {
        assert z[cur + 1..][1..] == z[cur + 2..];
        ExtractJoins(curword, n, bitPackInWord, z[cur + 1..]);
        var k := n - bitPackInWord;
        cur := cur + 1;
        curword := z[cur];
        token := Or(token, Shr(curword, 32 - k));
        curword := Shl(curword, k);
        bitPackInWord := 32 - k;
      }
      assert Consistent() && token < Pow2(n) && before == Bits(token, n) + Rest();
      if bitPackInWord == 0 {
        assert z[cur + 1..][1..] == z[cur + 2..];
        NextWord(curword, z[cur + 1..]);
        cur := cur + 1;
        curword := z[cur];
        bitPackInWord := 32;
      }
    }

    /** `extract` where the next token is known to be v. */
    method Take(n: nat, ghost v: nat, ghost rest: seq<bool>) returns (token: word)
      requires Valid()
      requires 1 <= n <= 32 && v < Pow2(n)
      requires Rest() == Bits(v, n) + rest && rest != []
      modifies this
      ensures Valid()
      ensures token == v && Rest() == rest
    {
      hide RestOf, LowZeros, Bits, Pow2;
      ghost var before := Rest();
      token := Extract(n);
      TokenAtFront(before, token, Rest(), v, n, rest);
    }
  }

  /** Fetching a word when none is left. */
  lemma NextWord(w: word, later: seq<word>)
    requires later != []
    ensures RestOf(w, 0, later) == RestOf(later[0], 32, later[1..])
    ensures LowZeros(later[0], 32)
  {
    WordsBitsFirst(later);
    assert Bits(w, 32)[..0] + WordsBits(later) == WordsBits(later);
    assert Bits(later[0], 32)[..32] == Bits(later[0], 32);
  }

  lemma ExtractFits(w: word, n: nat, k: nat, later: seq<word>)
    requires 1 <= n <= k <= 32 && LowZeros(w, k)
    ensures Shr(w, 32 - n) < Pow2(n) && LowZeros(Shl(w, n), k - n)
    ensures RestOf(w, k, later) == Bits(Shr(w, 32 - n), n) + RestOf(Shl(w, n), k - n, later)
  {
    hide Bits, WordsBits, Pow2, Shl, Shr;
    var b := Bits(w, 32);
    Pow2Values();
    ShrBound(w, 32 - n, 32);
    BitsSplit(w, 32, 32 - n);
    BitsOfShl(w, n);
    DropOfConcat(b, n, Zeros(n), k - n);
    assert Zeros(32 - k) + Zeros(n) == Zeros(32 - (k - n));
    assert b[..k] == b[..n] + b[n..k];
    assert Bits(Shl(w, n), 32)[..k - n] == b[n..k];
    assert b[..n] + b[n..k] + WordsBits(later) == b[..n] + (b[n..k] + WordsBits(later));
  }

  lemma ExtractJoins(w: word, n: nat, k: nat, later: seq<word>)
    requires 1 <= k < n <= 32 && LowZeros(w, k) && later != []
    ensures var token, w' := Or(Shr(w, 32 - n), Shr(later[0], 32 - (n - k))), Shl(later[0], n - k);
      token < Pow2(n) <= WORD_BASE && LowZeros(w', 32 - (n - k)) &&
      RestOf(w, k, later) == Bits(token, n) + RestOf(w', 32 - (n - k), later[1..])
  {
    Joined(w, later[0], n, k);
    WordsBitsFirst(later);
    var token, w' := Or(Shr(w, 32 - n), Shr(later[0], 32 - (n - k))), Shl(later[0], n - k);
    Reassociate(Bits(w, 32)[..k], Bits(later[0], 32), WordsBits(later[1..]), Bits(token, n),
      Bits(w', 32)[..32 - (n - k)]);
  }

  lemma Reassociate<T>(a: seq<T>, b: seq<T>, c: seq<T>, d: seq<T>, e: seq<T>)
    requires a + b == d + e
    ensures a + (b + c) == d + (e + c)
  {
    assert a + (b + c) == a + b + c;
    assert d + (e + c) == d + e + c;
  }

  lemma Joined(w: word, next: word, n: nat, k: nat)
    requires 1 <= k < n <= 32 && Bits(w, 32)[k..] == Zeros(32 - k)
    ensures var token := Or(Shr(w, 32 - n), Shr(next, 32 - (n - k)));
      token < Pow2(n) <= WORD_BASE &&
      Bits(w, 32)[..k] + Bits(next, 32) == Bits(token, n) + Bits(Shl(next, n - k), 32)[..32 - (n - k)]
    ensures Bits(Shl(next, n - k), 32)[32 - (n - k)..] == Zeros(n - k)
  {
    hide Or, Shl, Shr, Bits, Pow2;
    var high, low := Shr(w, 32 - n), Shr(next, 32 - (n - k));
    Pow2Values();
    ShrBound(w, 32 - n, 32);
    ShrBound(next, 32 - (n - k), 32);
    Pow2Monotonic(n - k, n);
    Pow2Monotonic(n, 32);
    OrBound(high, low, n);
    BitsSmall(low, n, n - k);
    BitsSplit(next, 32, 32 - (n - k));
    BitsSplit(w, 32, 32 - n);
    assert Bits(high, n) == Bits(w, 32)[..n];
    assert Bits(w, 32)[..n][k..] == Bits(w, 32)[k..][..n - k];
    assert Bits(w, 32)[..n][..k] == Bits(w, 32)[..k];
    BitsOfOrDisjoint(high, low, n, n - k);
    assert Bits(Or(high, low), n) == Bits(w, 32)[..k] + Bits(low, n - k);
    BitsOfShl(next, n - k);
    assert Bits(next, 32) == Bits(low, n - k) + Bits(next, 32)[n - k..];
  }

  /** Tokens are recovered from their bits. */
  lemma TokenIs(token: nat, v: nat, n: nat)
    requires token < Pow2(n) && v < Pow2(n) && Bits(token, n) == Bits(v, n)
    ensures token == v
  {
    FromBitsOfBits(token, n);
    FromBitsOfBits(v, n);
  }

  lemma TokenAtFront(before: seq<bool>, token: nat, after: seq<bool>, v: nat, n: nat, tail: seq<bool>)
    requires before == Bits(token, n) + after && before == Bits(v, n) + tail
    requires token < Pow2(n) && v < Pow2(n)
    ensures token == v && after == tail
  {
    assert Bits(token, n) == before[..n] == Bits(v, n);
    assert after == before[n..] == tail;
    TokenIs(token, v, n);
  }

  /** One more token of the stream to write has been written. */
  lemma Append(stream: seq<bool>, bits: seq<bool>, rest: seq<bool>, all: seq<bool>)
    requires stream + (bits + rest) == all
    ensures stream + bits + rest == all
    ensures |stream| + |bits| <= |all|
  {
    assert stream + bits + rest == stream + (bits + rest);
  }

  // ----- Streams of equally wide tokens -----

  ghost function TokensBits(f: seq<word>, n: nat): seq<bool>
  {
    if f == [] then [] else Bits(f[0], n) + TokensBits(f[1..], n)
  }

  lemma {:induction false} TokensBitsLength(f: seq<word>, n: nat)
    ensures |TokensBits(f, n)| == |f| * n
  {
    if f != [] { TokensBitsLength(f[1..], n); }
  }

  lemma TokensBitsStep(f: seq<word>, i: nat, n: nat)
    requires i < |f|
    ensures TokensBits(f[i..], n) == Bits(f[i], n) + TokensBits(f[i + 1..], n)
  {
    assert f[i..][1..] == f[i + 1..];
  }

  method PackStream(z: array<word>, start: nat, f: seq<word>, nbits: nat) returns (cur: nat)
    requires 1 <= nbits <= 31 && forall k | 0 <= k < |f| :: f[k] < Pow2(nbits)
    requires start < z.Length && |TokensBits(f, nbits)| <= 32 * (z.Length - start)
    modifies z
    ensures cur == start + WordsFor(|f| * nbits) && Stored(z[..], start, TokensBits(f, nbits))
    ensures forall k | 0 <= k < start || cur < k < z.Length :: z[k] == old(z[k])
  {
    hide TokensBits, Bits, WordsBits, Pow2;
    z[start] := 0;
    ghost var all := TokensBits(f, nbits);
    TokensBitsLength(f, nbits);
    var s := new BitWriter(z, start);
    assert f[0..] == f;
    for i := 0 to |f|
      invariant s.z == z && s.start == start && fresh(s) && s.Valid()
      invariant s.Stream() + TokensBits(f[i..], nbits) == all
      invariant forall k | 0 <= k < start || (s.cur <= k < z.Length && k != start) :: z[k] == old(z[k])
    {
      TokensBitsStep(f, i, nbits);
      Append(s.Stream(), Bits(f[i], nbits), TokensBits(f[i + 1..], nbits), all);
      s.Stuff(f[i], nbits);
    }
    TokensBitsLength(f[|f|..], nbits);
    assert s.Stream() == all;
    s.Close();
    cur := s.cur;
  }

  method UnpackStream(z: array<word>, start: nat, npts: nat, nbits: nat, ghost f: seq<word>)
    returns (ufld: seq<word>)
    requires 1 <= nbits <= 32 && |f| == npts && forall k | 0 <= k < npts :: f[k] < Pow2(nbits)
    requires Holds(z[..], start, TokensBits(f, nbits))
    ensures ufld == f
  {
    hide TokensBits, Bits, WordsBits, Pow2, RestOf, LowZeros;
    var r := new BitReader(z, start);
    HoldsAhead(z, start, TokensBits(f, nbits));
    ghost var tail := r.Rest()[|TokensBits(f, nbits)|..];
    assert f[0..] == f;
    ufld := [];
    for i := 0 to npts
      invariant r.z == z && fresh(r) && r.Valid() && tail != []
      invariant r.Rest() == TokensBits(f[i..], nbits) + tail
      invariant ufld == f[..i]
    {
      TokensBitsStep(f, i, nbits);
      ghost var rest := TokensBits(f[i + 1..], nbits) + tail;
      assert r.Rest() == Bits(f[i], nbits) + rest;
      var token := r.Take(nbits, f[i], rest);
      ufld := ufld + [token];
    }
  }

  // ----- Tokens of different widths -----

  datatype Token = Token(value: word, width: nat)

  ghost predicate Fits(ts: seq<Token>)
  {
    forall k | 0 <= k < |ts| :: 1 <= ts[k].width <= 31 && ts[k].value < Pow2(ts[k].width)
  }

  ghost function MixedBits(ts: seq<Token>): seq<bool>
  {
    if ts == [] then [] else Bits(ts[0].value, ts[0].width) + MixedBits(ts[1..])
  }

  lemma MixedStep(ts: seq<Token>, i: nat)
    requires i < |ts|
    ensures MixedBits(ts[i..]) == Bits(ts[i].value, ts[i].width) + MixedBits(ts[i + 1..])
  {
    assert ts[i..][1..] == ts[i + 1..];
  }

  /** Whatever tokens are stuffed, each on its own width, the words hold them one after the other. */
  method PackMixed(z: array<word>, start: nat, ts: seq<Token>) returns (cur: nat)
    requires Fits(ts) && start < z.Length && |MixedBits(ts)| <= 32 * (z.Length - start)
    modifies z
    ensures cur == start + WordsFor(|MixedBits(ts)|) && Stored(z[..], start, MixedBits(ts))
    ensures forall k | 0 <= k < start || cur < k < z.Length :: z[k] == old(z[k])
  {
    hide MixedBits, Bits, WordsBits, Pow2;
    z[start] := 0;
    ghost var all := MixedBits(ts);
    var s := new BitWriter(z, start);
    assert ts[0..] == ts;
    for i := 0 to |ts|
      invariant s.z == z && s.start == start && fresh(s) && s.Valid()
      invariant s.Stream() + MixedBits(ts[i..]) == all
      invariant forall k | 0 <= k < start || (s.cur <= k < z.Length && k != start) :: z[k] == old(z[k])
    {
      MixedStep(ts, i);
      Append(s.Stream(), Bits(ts[i].value, ts[i].width), MixedBits(ts[i + 1..]), all);
      s.Stuff(ts[i].value, ts[i].width);
    }
    NoTokens(ts[|ts|..]);
    assert s.Stream() == all;
    s.Close();
    cur := s.cur;
  }

  lemma NoTokens(ts: seq<Token>)
    requires ts == []
    ensures MixedBits(ts) == []
  {
  }

  /** Reading with the same widths gives the tokens back. */
  method UnpackMixed(z: array<word>, start: nat, widths: seq<nat>, ghost ts: seq<Token>) returns (found: seq<Token>)
    requires Fits(ts) && |widths| == |ts| && forall k | 0 <= k < |ts| :: widths[k] == ts[k].width
    requires Holds(z[..], start, MixedBits(ts))
    ensures found == ts
  {
    hide MixedBits, Bits, WordsBits, Pow2, RestOf, LowZeros;
    var r := new BitReader(z, start);
    HoldsAhead(z, start, MixedBits(ts));
    ghost var tail := r.Rest()[|MixedBits(ts)|..];
    assert ts[0..] == ts;
    found := [];
    for i := 0 to |widths|
      invariant r.z == z && fresh(r) && r.Valid() && tail != []
      invariant r.Rest() == MixedBits(ts[i..]) + tail
      invariant found == ts[..i]
    {
      MixedStep(ts, i);
      ghost var rest := MixedBits(ts[i + 1..]) + tail;
      assert r.Rest() == Bits(ts[i].value, ts[i].width) + rest;
      var token := r.Take(widths[i], ts[i].value, rest);
      found := found + [Token(token, widths[i])];
    }
  }
}
