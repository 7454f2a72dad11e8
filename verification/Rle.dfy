/** The run-length coder of the sign bits (`pack1bitRLE`, `unpack1bitRLE`). */
module Rle {
  import opened Words
  import opened BitStream

  const SEQUENCE: nat := 0
  const COUNT: nat := 1

  ghost predicate IsMask(f: seq<word>)
  {
    forall k | 0 <= k < |f| :: f[k] < 2
  }

  /** Length of the run of equal values that starts at p. */
  ghost function RunLength(f: seq<word>, p: nat): (c: nat)
    requires p < |f|
    ensures 1 <= c <= |f| - p
    ensures forall k | p <= k < p + c :: f[k] == f[p]
    ensures p + c < |f| ==> f[p + c] != f[p]
    decreases |f| - p
  {
    if p + 1 < |f| && f[p + 1] == f[p] then 1 + RunLength(f, p + 1) else 1
  }

  ghost function RawEnd(f: seq<word>, p: nat): nat
  {
    if p + 7 > |f| then |f| else p + 7
  }

  /** A group of up to seven values as they are. */
  ghost function RawBits(f: seq<word>, p: nat): seq<bool>
    requires p <= |f|
  {
    Bits(SEQUENCE, 1) + TokensBits(f[p..RawEnd(f, p)], 1)
  }

  /** A value repeated count times, for a count below 63. */
  ghost function CountBits(val: word, count: nat): (s: seq<bool>)
    ensures |s| == 8
  {
    Bits(COUNT, 1) + (Bits(val, 1) + Bits(count, 6))
  }

  /** The code of f from p on, at the start of a run. */
  ghost function Code(f: seq<word>, p: nat): seq<bool>
    requires p <= |f|
    decreases |f| - p, 1
  {
    if p == |f| then []
    else if RunLength(f, p) < 8 then RawBits(f, p) + Code(f, RawEnd(f, p))
    else RunCode(f, p, RunLength(f, p), false)
  }

  /** The code of f from p on, when `left` values of a run remain; `repeat` says that
      62 of them have just been counted.  A byte of ones then stands for 255 more. */
  ghost function RunCode(f: seq<word>, p: nat, left: nat, repeat: bool): seq<bool>
    requires p + left <= |f|
    decreases |f| - p, if left == 0 then 2 else 0
  {
    if left == 0 then Code(f, p)
    else if left < 8 then RawBits(f, p) + Code(f, RawEnd(f, p))
    else if left < 62 then CountBits(f[p], left) + Code(f, p + left)
    else if left > 256 && repeat then Bits(0xFF, 8) + RunCode(f, p + 255, left - 255, true)
    else CountBits(f[p], 62) + RunCode(f, p + 62, left - 62, true)
  }

  ghost predicate IsRun(f: seq<word>, p: nat, left: nat)
  {
    p + left <= |f| && forall k | p <= k < p + left :: f[k] == f[p]
  }

  // ----- Size of the code -----

  /** Groups of seven that n values take. */
  function Sevens(n: nat): nat
  {
    (n + 6) / 7
  }

  lemma OneGroup(n: nat, k: nat)
    requires 1 <= n
    ensures n <= 7 ==> Sevens(n) == 1
    ensures 7 <= k <= n ==> Sevens(n) >= 1 + Sevens(n - k)
  {
  }

  /** Eight bits for every seven values at most. */
  lemma CodeBound(f: seq<word>, p: nat)
    requires p <= |f|
    ensures |Code(f, p)| <= 8 * ((|f| - p + 6) / 7)
  {
    hide Code;
    GroupsBound(f, p);
  }

  lemma {:induction false} GroupsBound(f: seq<word>, p: nat)
    requires p <= |f|
    ensures |Code(f, p)| <= 8 * Sevens(|f| - p)
    decreases |f| - p, 2
  {
    hide Sevens, Bits, RawBits;
    if p < |f| {
      if RunLength(f, p) < 8 {
        RawBound(f, p);
      } else {
        RunCodeBound(f, p, RunLength(f, p), false);
      }
    }
  }

  lemma {:induction false} RawBound(f: seq<word>, p: nat)
    requires p < |f|
    ensures |RawBits(f, p) + Code(f, RawEnd(f, p))| <= 8 * Sevens(|f| - p)
    decreases |f| - p, 0
  {
    hide Sevens, Bits, Code;
    TokensBitsLength(f[p..RawEnd(f, p)], 1);
    GroupsBound(f, RawEnd(f, p));
    OneGroup(|f| - p, 7);
    if RawEnd(f, p) == |f| { NothingLeft(f); }
  }

  lemma NothingLeft(f: seq<word>)
    ensures Code(f, |f|) == []
  {
  }

  lemma RunCodeLength(f: seq<word>, p: nat, left: nat, repeat: bool)
    requires p + left <= |f|
    ensures left == 0 ==> RunCode(f, p, left, repeat) == Code(f, p)
    ensures 0 < left < 8 ==> RunCode(f, p, left, repeat) == RawBits(f, p) + Code(f, RawEnd(f, p))
    ensures 8 <= left < 62 ==> |RunCode(f, p, left, repeat)| == 8 + |Code(f, p + left)|
    ensures left > 256 && repeat ==> |RunCode(f, p, left, repeat)| == 8 + |RunCode(f, p + 255, left - 255, true)|
    ensures left >= 62 && !(left > 256 && repeat) ==>
      |RunCode(f, p, left, repeat)| == 8 + |RunCode(f, p + 62, left - 62, true)|
  {
    hide Bits, RawBits, CountBits, Code;
  }

  lemma {:induction false} RunCodeBound(f: seq<word>, p: nat, left: nat, repeat: bool)
    requires p + left <= |f|
    ensures |RunCode(f, p, left, repeat)| <= 8 * Sevens(|f| - p)
    decreases |f| - p, if left == 0 then 3 else 1
  {
    hide *;
    RunCodeLength(f, p, left, repeat);
    if left == 0 { GroupsBound(f, p); }
    else if left < 8 { RawBound(f, p); }
    else if left < 62 { OneGroup(|f| - p, left); GroupsBound(f, p + left); }
    else if left > 256 && repeat { OneGroup(|f| - p, 255); RunCodeBound(f, p + 255, left - 255, true); }
    else { OneGroup(|f| - p, 62); RunCodeBound(f, p + 62, left - 62, true); }
  }

  /** For the fields that `c_armn_compress32` accepts the code never takes more bytes
      than a quarter of the points, the limit beyond which the sign mask would be stored
      in a form that the decoder does not read. */
  lemma NeverStored(f: seq<word>)
    requires |f| >= 256
    ensures 1 + 4 * WordsFor(|Code(f, 0)|) <= |f| / 4
  {
    hide Code;
    CodeBound(f, 0);
  }

  // ----- Packing -----

  /** Stuffs the raw group that starts at p. */
  method StuffRaw(s: BitWriter, ufld: array<word>, npts: nat, p: nat, ghost rest: seq<bool>, ghost all: seq<bool>)
    requires s.Valid() && s.z != ufld && npts <= ufld.Length && IsMask(ufld[..npts]) && p < npts
    requires s.Stream() + (RawBits(ufld[..npts], p) + rest) == all && |all| <= s.Capacity() - 32
    modifies s, s.z
    ensures s.Valid() && s.Stream() + rest == all && s.cur >= old(s.cur)
    ensures forall k | 0 <= k < s.z.Length && (k < old(s.cur) || s.cur <= k) :: s.z[k] == old(s.z[k])
  {
    hide Bits, TokensBits, Code, RunCode, WordsBits;
    ghost var f := ufld[..npts];
    Pow2Values();
    ghost var group: seq<word> := f[p..RawEnd(f, p)];
    assert Bits(0, 1) + TokensBits(group, 1) + rest == Bits(0, 1) + (TokensBits(group, 1) + rest);
    Append(s.Stream(), Bits(0, 1), TokensBits(group, 1) + rest, all);
    s.Stuff(0, 1);
    var limite := if p + 7 > npts then npts - p else 7;
    assert |group| == limite && group[0..] == group;
    for i := 0 to limite
      invariant s.Valid() && s.Stream() + (TokensBits(group[i..], 1) + rest) == all
      invariant s.cur >= old(s.cur)
      invariant forall k | 0 <= k < s.z.Length && (k < old(s.cur) || s.cur <= k) :: s.z[k] == old(s.z[k])
    {
      TokensBitsStep(group, i, 1);
      assert Bits(group[i], 1) + TokensBits(group[i + 1..], 1) + rest
          == Bits(group[i], 1) + (TokensBits(group[i + 1..], 1) + rest);
      Append(s.Stream(), Bits(group[i], 1), TokensBits(group[i + 1..], 1) + rest, all);
      assert group[i] == f[p + i] == ufld[p + i];
      s.Stuff(ufld[p + i], 1);
    }
    TokensBitsLength(group[limite..], 1);
    assert TokensBits(group[limite..], 1) + rest == rest;
  }

  /** Stuffs a count of the value at p. */
  method StuffCount(s: BitWriter, val: word, count: word, ghost rest: seq<bool>, ghost all: seq<bool>)
    requires s.Valid() && val < 2 && count < 64
    requires s.Stream() + (CountBits(val, count) + rest) == all && |all| <= s.Capacity() - 32
    modifies s, s.z
    ensures s.Valid() && s.Stream() + rest == all && s.cur >= old(s.cur)
    ensures forall k | 0 <= k < s.z.Length && (k < old(s.cur) || s.cur <= k) :: s.z[k] == old(s.z[k])
  {
    hide Bits, WordsBits;
    Pow2Values();
    CountSplit(val, count, rest);
    Append(s.Stream(), Bits(1, 1), Bits(val, 1) + (Bits(count, 6) + rest), all);
    s.Stuff(1, 1);
    Append(s.Stream(), Bits(val, 1), Bits(count, 6) + rest, all);
    s.Stuff(val, 1);
    Append(s.Stream(), Bits(count, 6), rest, all);
    s.Stuff(count, 6);
  }

  lemma CountSplit(val: word, count: nat, rest: seq<bool>)
    ensures CountBits(val, count) + rest == Bits(1, 1) + (Bits(val, 1) + (Bits(count, 6) + rest))
  {
  }

  /** The byte of ones is a count of 63, which no ordinary count is. */
  lemma OnesByte()
    ensures Bits(0xFF, 8) == CountBits(1, 63)
  {
    assert Shr(0xFF, 6) == 3;
    BitsSplit(0xFF, 8, 6);
    BitsSplit(3, 2, 1);
    Pow2Values();
    BitsLow(0xFF, 6);
    BitsLow(3, 1);
    assert Bits(1, 1) + Bits(1, 1) + Bits(63, 6) == CountBits(1, 63);
  }

  /** What is left to write when the encoder stands at `last`, possibly past the end. */
  ghost predicate Remains(stream: seq<bool>, f: seq<word>, last: nat, left: nat, repeat: bool, all: seq<bool>)
  {
    if last < |f| then last + left <= |f| && stream + RunCode(f, last, left, repeat) == all
    else stream == all
  }

  lemma {:induction false} RunLengthIs(f: seq<word>, p: nat, count: nat)
    requires IsRun(f, p, count) && count >= 1 && (p + count == |f| || f[p + count] != f[p])
    ensures RunLength(f, p) == count
    decreases count
  {
    if count > 1 {
      assert f[p + 1] == f[p];
      RunLengthIs(f, p + 1, count - 1);
    }
  }

  lemma AfterRaw(stream: seq<bool>, f: seq<word>, p: nat, all: seq<bool>)
    requires p < |f| && stream + Code(f, RawEnd(f, p)) == all
    ensures Remains(stream, f, p + 7, 0, false, all)
    ensures Remains(stream, f, p + 7, 0, true, all)
  {
    if p + 7 >= |f| { assert stream + [] == stream; }
  }

  lemma AfterCount(stream: seq<bool>, f: seq<word>, p: nat, left: nat, repeat: bool, all: seq<bool>)
    requires p + left <= |f| && stream + RunCode(f, p, left, repeat) == all
    ensures Remains(stream, f, p, left, repeat, all)
  {
    if p == |f| { assert stream + [] == stream; }
  }

  /** One step of the encoder inside a run, `left` values before its end. */
  method StuffRunStep(s: BitWriter, ufld: array<word>, npts: nat, lastIndx: nat, left: nat, repeat: bool,
                      ghost all: seq<bool>)
    returns (lclCount: nat, lastIndx': nat, repeat': bool)
    requires s.Valid() && s.z != ufld && npts <= ufld.Length && IsMask(ufld[..npts])
    requires lastIndx < npts && left > 0
    requires Remains(s.Stream(), ufld[..npts], lastIndx, left, repeat, all) && |all| <= s.Capacity() - 32
    modifies s, s.z
    ensures s.Valid() && s.cur >= old(s.cur)
    ensures forall k | 0 <= k < s.z.Length && (k < old(s.cur) || s.cur <= k) :: s.z[k] == old(s.z[k])
    ensures 1 <= lclCount <= left && lastIndx' >= lastIndx + lclCount
    ensures lclCount < left ==> lastIndx' == lastIndx + lclCount
    ensures Remains(s.Stream(), ufld[..npts], lastIndx', left - lclCount, repeat', all)
  {
    hide Bits, TokensBits, WordsBits, StreamOf, Code, RunCode, CountBits, RawBits, Remains;
    ghost var f := ufld[..npts];
    assert ufld[lastIndx] == f[lastIndx];
    RunCodeAt(s.Stream(), f, lastIndx, left, repeat, all);
    lclCount := if left >= 63 then 62 else left;
    repeat' := repeat;
    if lclCount < 8 {
      StuffRaw(s, ufld, npts, lastIndx, Code(f, RawEnd(f, lastIndx)), all);
      AfterRaw(s.Stream(), f, lastIndx, all);
      lastIndx' := lastIndx + 7;
    } else {
      if lclCount == 62 {
        if left > 256 && repeat {
          lclCount := 0xFF;
          ghost var rest := RunCode(f, lastIndx + 255, left - 255, true);
          Pow2Values();
          Append(s.Stream(), Bits(0xFF, 8), rest, all);
          s.Stuff(lclCount, 8);
          AfterCount(s.Stream(), f, lastIndx + 255, left - 255, true, all);
        } else {
          StuffCount(s, ufld[lastIndx], lclCount, RunCode(f, lastIndx + 62, left - 62, true), all);
          AfterCount(s.Stream(), f, lastIndx + 62, left - 62, true, all);
          repeat' := true;
        }
      } else {
        StuffCount(s, ufld[lastIndx], lclCount, Code(f, lastIndx + lclCount), all);
        AfterRun(s.Stream(), f, lastIndx + lclCount, repeat, all);
      }
      lastIndx' := lastIndx + lclCount;
    }
  }

  /** A whole run of eight values or more. */
  method StuffRun(s: BitWriter, ufld: array<word>, npts: nat, first: nat, count: nat, ghost all: seq<bool>)
    returns (lastIndx: nat)
    requires s.Valid() && s.z != ufld && npts <= ufld.Length && IsMask(ufld[..npts])
    requires first < npts && count >= 8
    requires Remains(s.Stream(), ufld[..npts], first, count, false, all) && |all| <= s.Capacity() - 32
    modifies s, s.z
    ensures s.Valid() && s.cur >= old(s.cur)
    ensures forall k | 0 <= k < s.z.Length && (k < old(s.cur) || s.cur <= k) :: s.z[k] == old(s.z[k])
    ensures lastIndx >= first + count
    ensures Remains(s.Stream(), ufld[..npts], lastIndx, 0, false, all)
  {
    hide Bits, TokensBits, WordsBits, StreamOf, Code, RunCode, CountBits, RawBits;
    lastIndx := first;
    var i, repeat := 0, false;
    while i < count
      invariant s.Valid() && ufld[..npts] == old(ufld[..npts])
      invariant i <= count && lastIndx >= first + i && (i < count ==> lastIndx == first + i)
      invariant Remains(s.Stream(), ufld[..npts], lastIndx, count - i, repeat, all)
      invariant s.cur >= old(s.cur)
      invariant forall k | 0 <= k < s.z.Length && (k < old(s.cur) || s.cur <= k) :: s.z[k] == old(s.z[k])
    {
      var lclCount;
      lclCount, lastIndx, repeat := StuffRunStep(s, ufld, npts, lastIndx, count - i, repeat, all);
      i := i + lclCount;
    }
    ForgetRepeat(s.Stream(), ufld[..npts], lastIndx, repeat, all);
  }

  /** The encoder.  The element past the last point is read but never counted. */
  method Pack1bitRle(z: array<word>, start: nat, ufld: array<word>, npts: nat) returns (zlng: nat)
    requires z != ufld && 1 <= npts < ufld.Length && IsMask(ufld[..npts])
    requires start < z.Length && |Code(ufld[..npts], 0)| <= 32 * (z.Length - start)
    modifies z
    ensures zlng == 1 + 4 * WordsFor(|Code(ufld[..npts], 0)|)
    ensures Stored(z[..], start, Code(ufld[..npts], 0))
    ensures forall k | 0 <= k < z.Length && (k < start || start + WordsFor(|Code(ufld[..npts], 0)|) <= k) &&
      k != start :: z[k] == old(z[k])
  {
    hide Bits, TokensBits, WordsBits, StreamOf, Code, RunCode, CountBits, RawBits, Remains, Stored;
    z[start] := 0;
    ghost var f := ufld[..npts];
    ghost var all := Code(f, 0);
    var s := new BitWriter(z, start);
    var lastIndx, indx := 0, 1;
    StartsRemaining(s.Stream(), f, all);
    while indx <= npts
      invariant s.z == z && s.start == start && fresh(s) && s.Valid()
      invariant ufld[..npts] == f && indx == lastIndx + 1
      invariant Remains(s.Stream(), f, lastIndx, 0, false, all)
      invariant forall k | 0 <= k < z.Length && (k < start || s.cur <= k) && k != start :: z[k] == old(z[k])
      decreases npts - lastIndx
    {
      while ufld[indx] == ufld[lastIndx] && indx < npts
        invariant lastIndx < indx <= npts
        invariant forall k | lastIndx <= k < indx :: f[k] == f[lastIndx]
      {
        assert f[indx] == f[lastIndx];
        indx := indx + 1;
      }
      assert indx < npts ==> f[indx] != f[lastIndx];
      var count := indx - lastIndx;
      RunLengthIs(f, lastIndx, count);
      CodeAtRun(s.Stream(), f, lastIndx, all);
      if count < 8 {
        StuffRaw(s, ufld, npts, lastIndx, Code(f, RawEnd(f, lastIndx)), all);
        AfterRaw(s.Stream(), f, lastIndx, all);
        lastIndx := lastIndx + 7;
      } else {
        lastIndx := StuffRun(s, ufld, npts, lastIndx, count, all);
      }
      indx := lastIndx + 1;
    }
    AllWritten(s.Stream(), f, lastIndx, all);
    s.Close();
    zlng := 1 + (s.cur - start) * 4;
  }

  lemma StartsRemaining(stream: seq<bool>, f: seq<word>, all: seq<bool>)
    requires stream == [] && all == Code(f, 0)
    ensures Remains(stream, f, 0, 0, false, all)
  {
    assert [] + all == all;
  }

  lemma AllWritten(stream: seq<bool>, f: seq<word>, last: nat, all: seq<bool>)
    requires last >= |f| && Remains(stream, f, last, 0, false, all)
    ensures stream == all
  {
  }

  lemma ForgetRepeat(stream: seq<bool>, f: seq<word>, last: nat, repeat: bool, all: seq<bool>)
    requires Remains(stream, f, last, 0, repeat, all)
    ensures Remains(stream, f, last, 0, false, all)
  {
  }

  lemma AfterRun(stream: seq<bool>, f: seq<word>, p: nat, repeat: bool, all: seq<bool>)
    requires p <= |f| && stream + Code(f, p) == all
    ensures Remains(stream, f, p, 0, repeat, all)
  {
    if p == |f| { assert stream + [] == stream; }
  }

  /** What the encoder writes next at the start of a run. */
  lemma CodeAtRun(stream: seq<bool>, f: seq<word>, p: nat, all: seq<bool>)
    requires p < |f| && Remains(stream, f, p, 0, false, all)
    ensures |stream| <= |all|
    ensures RunLength(f, p) < 8 ==> stream + (RawBits(f, p) + Code(f, RawEnd(f, p))) == all
    ensures RunLength(f, p) >= 8 ==> Remains(stream, f, p, RunLength(f, p), false, all)
  {
    hide Bits, RawBits, CountBits;
    assert RunCode(f, p, 0, false) == Code(f, p);
    assert |stream + Code(f, p)| >= |stream|;
  }

  /** What the encoder writes next inside a run. */
  lemma RunCodeAt(stream: seq<bool>, f: seq<word>, p: nat, left: nat, repeat: bool, all: seq<bool>)
    requires p < |f| && left > 0 && Remains(stream, f, p, left, repeat, all)
    ensures p + left <= |f|
    ensures left < 8 ==> stream + (RawBits(f, p) + Code(f, RawEnd(f, p))) == all
    ensures 8 <= left < 62 ==> stream + (CountBits(f[p], left) + Code(f, p + left)) == all
    ensures left > 256 && repeat ==> stream + (Bits(0xFF, 8) + RunCode(f, p + 255, left - 255, true)) == all
    ensures left >= 62 && !(left > 256 && repeat) ==>
      stream + (CountBits(f[p], 62) + RunCode(f, p + 62, left - 62, true)) == all
  {
    hide Bits, RawBits, CountBits;
  }

  // ----- Unpacking -----

  /** What the decoder still has to read when it stands at p, `left` values before the
      end of a run. */
  ghost predicate Ahead(rest: seq<bool>, f: seq<word>, p: nat, left: nat, repeat: bool, tail: seq<bool>)
  {
    p + left <= |f| && IsRun(f, p, left) && rest == RunCode(f, p, left, repeat) + tail
  }

  /** Whether the decoder stands before a raw group. */
  ghost predicate RawNext(f: seq<word>, p: nat, left: nat)
    requires p < |f|
  {
    if left == 0 then RunLength(f, p) < 8 else left < 8
  }

  lemma AheadRaw(rest: seq<bool>, f: seq<word>, p: nat, left: nat, repeat: bool, tail: seq<bool>)
    requires p < |f| && Ahead(rest, f, p, left, repeat, tail) && RawNext(f, p, left)
    ensures rest == Bits(SEQUENCE, 1) + (TokensBits(f[p..RawEnd(f, p)], 1) + (Code(f, RawEnd(f, p)) + tail))
  {
    hide Bits, TokensBits;
    assert left == 0 ==> RunCode(f, p, 0, repeat) == Code(f, p);
    Nest(Bits(SEQUENCE, 1), TokensBits(f[p..RawEnd(f, p)], 1), Code(f, RawEnd(f, p)), tail);
  }

  lemma Nest(a: seq<bool>, b: seq<bool>, c: seq<bool>, d: seq<bool>)
    ensures a + b + c + d == a + (b + (c + d))
  {
  }

  /** Before a count: what is counted, how many values that covers, and what follows. */
  lemma AheadCount(rest: seq<bool>, f: seq<word>, p: nat, left: nat, repeat: bool, tail: seq<bool>)
    returns (val: word, count: nat, span: nat, left': nat, after: seq<bool>)
    requires p < |f| && Ahead(rest, f, p, left, repeat, tail) && !RawNext(f, p, left)
    ensures rest == Counted(val, count, after) && |after| >= |tail|
    ensures IsRun(f, p, span) && span > 0
    ensures Ahead(after, f, p + span, left', true, tail) && (left' > 0 ==> f[p + span] == f[p])
    ensures count == 63 ==> span == 255 && val == 1 && repeat && left > 0
    ensures count != 63 ==> 8 <= count == span < 63 && val == f[p]
  {
    hide Bits, CountBits, Counted;
    var n, again := if left == 0 then RunLength(f, p) else left, left != 0 && repeat;
    if left == 0 { assert RunCode(f, p, 0, repeat) == Code(f, p) == RunCode(f, p, n, false); }
    if n < 62 {
      val, count, span := f[p], n, n;
      assert RunCode(f, p + n, 0, true) == Code(f, p + n);
    } else if n > 256 && again {
      OnesByte();
      val, count, span := 1, 63, 255;
    } else {
      val, count, span := f[p], 62, 62;
    }
    left' := n - span;
    var code := RunCode(f, p + span, left', true);
    after := code + tail;
    CountedIs(val, count, code, tail);
  }

  ghost function Counted(val: word, count: nat, rest: seq<bool>): seq<bool>
  {
    Bits(COUNT, 1) + (Bits(val, 1) + (Bits(count, 6) + rest))
  }

  lemma CountedIs(val: word, count: nat, rest: seq<bool>, tail: seq<bool>)
    ensures CountBits(val, count) + rest + tail == Counted(val, count, rest + tail)
  {
    hide Bits;
    CountSplit(val, count, rest + tail);
    assert CountBits(val, count) + rest + tail == CountBits(val, count) + (rest + tail);
  }

  /** Reads a raw group, after the bit that announces it. */
  method TakeRaw(r: BitReader, ufld: array<word>, i: nat, npts: nat, ghost f: seq<word>, ghost rest: seq<bool>)
    returns (i': nat)
    requires r.Valid() && r.z != ufld && i < npts == |f| && npts <= ufld.Length && IsMask(f)
    requires ufld[..i] == f[..i] && rest != []
    requires r.Rest() == TokensBits(f[i..RawEnd(f, i)], 1) + rest
    modifies r, ufld
    ensures r.Valid() && i' == RawEnd(f, i) && ufld[..i'] == f[..i'] && r.Rest() == rest
  {
    hide Bits, TokensBits, RestOf, LowZeros;
    Pow2Values();
    var limite := if i + 7 > npts then npts - i else 7;
    ghost var group: seq<word> := f[i..RawEnd(f, i)];
    assert group[0..] == group;
    for j := 0 to limite
      invariant r.Valid() && ufld[..i + j] == f[..i + j]
      invariant r.Rest() == TokensBits(group[j..], 1) + rest
    {
      TokensBitsStep(group, j, 1);
      ghost var next := TokensBits(group[j + 1..], 1) + rest;
      assert r.Rest() == Bits(group[j], 1) + next;
      var token := r.Take(1, group[j], next);
      ufld[i + j] := token;
      assert ufld[..i + j + 1] == ufld[..i + j] + [token];
    }
    TokensBitsLength(group[limite..], 1);
    assert TokensBits(group[limite..], 1) + rest == rest;
    i' := i + limite;
  }

  /** Fills the next count values. */
  method Fill(ufld: array<word>, i: nat, count: nat, val: word, ghost f: seq<word>)
    requires i + count <= |f| <= ufld.Length && ufld[..i] == f[..i]
    requires forall k | i <= k < i + count :: f[k] == val
    modifies ufld
    ensures ufld[..i + count] == f[..i + count]
  {
    for j := 0 to count
      invariant ufld[..i + j] == f[..i + j]
    {
      ufld[i + j] := val;
      assert ufld[..i + j + 1] == ufld[..i + j] + [val];
    }
  }

  /** One step of the decoder.  A count of 63 stands for 255 more of the value last
      counted, whatever the bit before it says. */
  method UnpackStep(r: BitReader, ufld: array<word>, i: nat, npts: nat, lastVal: word,
                    ghost f: seq<word>, ghost left: nat, ghost repeat: bool, ghost tail: seq<bool>)
    returns (i': nat, lastVal': word, ghost left': nat, ghost repeat': bool)
    requires r.Valid() && r.z != ufld && i < npts == |f| <= ufld.Length && IsMask(f) && tail != []
    requires ufld[..i] == f[..i] && Ahead(r.Rest(), f, i, left, repeat, tail)
    requires repeat && left > 0 ==> lastVal == f[i]
    modifies r, ufld
    ensures r.Valid() && i < i' <= npts && ufld[..i'] == f[..i']
    ensures Ahead(r.Rest(), f, i', left', repeat', tail)
    ensures i' + left' <= npts && (repeat' && left' > 0 ==> lastVal' == f[i'])
  {
    hide Bits, TokensBits, WordsBits, Code, RunCode, RestOf, LowZeros, Ahead;
    Pow2Values();
    ghost var raw := RawNext(f, i, left);
    ghost var known: word, count', span, after := 0, 0, 0, Code(f, RawEnd(f, i)) + tail;
    left', repeat' := 0, !raw;
    if raw {
      AheadRaw(r.Rest(), f, i, left, repeat, tail);
      AheadAtGroup(f, RawEnd(f, i), tail);
    } else {
      known, count', span, left', after := AheadCount(r.Rest(), f, i, left, repeat, tail);
      AheadFits(after, f, i + span, left', true, tail);
    }
    ghost var next := if raw then TokensBits(f[i..RawEnd(f, i)], 1) + after
                      else Bits(known, 1) + (Bits(count', 6) + after);
    assert |after| >= |tail| > 0 && |next| >= |after|;
    var seqType := r.Take(1, if raw then SEQUENCE else COUNT, next);
    lastVal' := lastVal;
    if seqType == SEQUENCE {
      i' := TakeRaw(r, ufld, i, npts, f, after);
    } else {
      var val := r.Take(1, known, Bits(count', 6) + after);
      var count := r.Take(6, count', after);
      if count == 63 {
        Fill(ufld, i, 255, lastVal, f);
        i' := i + 255;
      } else {
        Fill(ufld, i, count, val, f);
        i' := i + count;
        lastVal' := val;
      }
    }
  }

  /** The decoder. */
  method Unpack1bitRle(ufld: array<word>, z: array<word>, start: nat, npts: nat, ghost f: seq<word>)
    requires z != ufld && |f| == npts <= ufld.Length && IsMask(f)
    requires Holds(z[..], start, Code(f, 0))
    modifies ufld
    ensures ufld[..npts] == f
  {
    hide Bits, TokensBits, WordsBits, Code, RunCode, RestOf, LowZeros, Ahead;
    var r := new BitReader(z, start);
    HoldsAhead(z, start, Code(f, 0));
    ghost var tail := r.Rest()[|Code(f, 0)|..];
    var lastVal: word := 0xFFFFFFFF;
    var i := 0;
    ghost var left, repeat := 0, false;
    StartsAhead(r.Rest(), f, tail);
    while i < npts
      invariant r.z == z && fresh(r) && r.Valid() && tail != []
      invariant i + left <= npts && ufld[..i] == f[..i]
      invariant Ahead(r.Rest(), f, i, left, repeat, tail)
      invariant repeat && left > 0 ==> lastVal == f[i]
    {
      i, lastVal, left, repeat := UnpackStep(r, ufld, i, npts, lastVal, f, left, repeat, tail);
    }
  }

  lemma AheadFits(rest: seq<bool>, f: seq<word>, p: nat, left: nat, repeat: bool, tail: seq<bool>)
    requires Ahead(rest, f, p, left, repeat, tail)
    ensures p + left <= |f|
  {
  }

  lemma StartsAhead(rest: seq<bool>, f: seq<word>, tail: seq<bool>)
    requires rest == Code(f, 0) + tail
    ensures Ahead(rest, f, 0, 0, false, tail)
  {
  }

  lemma AheadAtGroup(f: seq<word>, p: nat, tail: seq<bool>)
    requires p <= |f|
    ensures Ahead(Code(f, p) + tail, f, p, 0, false, tail)
  {
  }
}
