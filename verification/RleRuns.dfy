/** What the run-length coder makes of a run of equal signs, byte by byte. */
module RleRuns {
  import opened Words
  import opened BitStream
  import opened Rle

  /** n values from p on are equal, and the next one is not. */
  ghost predicate IsMaximal(f: seq<word>, p: nat, n: nat)
  {
    n >= 1 && p + n <= |f| && (forall k | p <= k < p + n :: f[k] == f[p]) && (p + n < |f| ==> f[p + n] != f[p])
  }

  /** Signs as bits. */
  ghost function Plain(f: seq<word>): (s: seq<bool>)
    ensures |s| == |f| && forall k | 0 <= k < |f| :: s[k] == (f[k] == 1)
  {
    seq(|f|, k requires 0 <= k < |f| => f[k] == 1)
  }

  function Repeated(byte: seq<bool>, n: nat): seq<bool>
  {
    if n == 0 then [] else byte + Repeated(byte, n - 1)
  }

  /** The byte that counts n of a value: a one, the value, and n on six bits. */
  ghost function Counting(val: word, n: nat): seq<bool>
  {
    [true, val == 1] + Bits(n, 6)
  }

  const ONES: seq<bool> := [true, true, true, true, true, true, true, true]

  lemma SignBit(v: word)
    requires v < 2
    ensures Bits(v, 1) == [v == 1]
  {
    assert Bits(v, 1) == Bits(v / 2, 0) + [v % 2 == 1];
  }

  lemma CountingIs(val: word, n: nat)
    requires val < 2
    ensures CountBits(val, n) == Counting(val, n)
  {
    hide Bits;
    SignBit(1);
    SignBit(val);
  }

  lemma {:induction false} PlainIs(f: seq<word>)
    requires IsMask(f)
    ensures TokensBits(f, 1) == Plain(f)
  {
    hide Bits;
    if f != [] {
      PlainIs(f[1..]);
      SignBit(f[0]);
    }
  }

  lemma OnesIs()
    ensures Bits(0xFF, 8) == ONES
  {
    assert Bits(7, 3) == [true, true, true] by { assert Bits(1, 1) == [true] && Bits(3, 2) == [true, true]; }
    assert Bits(0x1F, 5) == Bits(0xF, 4) + [true] && Bits(0xF, 4) == Bits(7, 3) + [true];
    assert Bits(0xFF, 8) == Bits(0x7F, 7) + [true] && Bits(0x7F, 7) == Bits(0x3F, 6) + [true];
    assert Bits(0x3F, 6) == Bits(0x1F, 5) + [true];
  }

  /** Where the code goes on after a group of values as they are: up to seven of them. */
  function AfterGroup(f: seq<word>, p: nat): nat
  {
    if p + 7 > |f| then |f| else p + 7
  }

  /** A zero and the next seven values, or those that are left. */
  ghost function Group(f: seq<word>, p: nat): seq<bool>
    requires p <= |f|
  {
    [false] + Plain(f[p..AfterGroup(f, p)])
  }

  lemma GroupIs(f: seq<word>, p: nat)
    requires p <= |f| && IsMask(f)
    ensures RawBits(f, p) == Group(f, p)
  {
    hide Bits;
    SignBit(0);
    PlainIs(f[p..AfterGroup(f, p)]);
  }

  /** Where a run of fewer than eight values starts, the next values come as they are. */
  lemma ShortRun(f: seq<word>, p: nat, n: nat)
    requires IsMask(f) && IsMaximal(f, p, n) && n < 8
    ensures Code(f, p) == Group(f, p) + Code(f, AfterGroup(f, p))
  {
    hide RunCode, RawBits, Group;
    RunLengthIs(f, p, n);
    GroupIs(f, p);
  }

  /** A run from 8 to 61 values is one byte. */
  lemma OneByte(f: seq<word>, p: nat, n: nat)
    requires IsMask(f) && IsMaximal(f, p, n) && 8 <= n < 62
    ensures Code(f, p) == Counting(f[p], n) + Code(f, p + n)
  {
    hide CountBits, RawBits, Counting;
    RunLengthIs(f, p, n);
    CountingIs(f[p], n);
    assert Code(f, p) == RunCode(f, p, n, false);
  }

  // ----- Long runs -----

  /** How often 255 values are counted by a byte of ones, after the first 62 of a run. */
  function Repeats(left: nat): nat
  {
    if left <= 256 then 0 else (left - 2) / 255
  }

  lemma RepeatsStep(left: nat)
    requires left > 256
    ensures Repeats(left) == 1 + Repeats(left - 255)
  {
  }

  lemma RepeatsLeft(left: nat)
    ensures 255 * Repeats(left) <= left && left - 255 * Repeats(left) <= 256
  {
  }

  /** What is left of a run when less than 62 values are. */
  ghost function Rest(f: seq<word>, p: nat, left: nat): seq<bool>
    requires p + left <= |f|
  {
    if left == 0 then Code(f, p)
    else if left < 8 then Group(f, p) + Code(f, AfterGroup(f, p))
    else Counting(f[p], left) + Code(f, p + left)
  }

  lemma RestIs(f: seq<word>, p: nat, left: nat)
    requires IsMask(f) && p + left <= |f| && left < 62
    ensures RunCode(f, p, left, true) == Rest(f, p, left)
  {
    hide CountBits, RawBits, Counting, Group, Code;
    GroupIs(f, p);
    if left > 0 { CountingIs(f[p], left); }
  }

  lemma RepeatedStep(byte: seq<bool>, n: nat, rest: seq<bool>)
    requires n >= 1
    ensures Repeated(byte, n) + rest == byte + (Repeated(byte, n - 1) + rest)
  {
  }

  lemma Step62(f: seq<word>, p: nat, left: nat)
    requires IsMask(f) && p + left <= |f| && 62 <= left <= 256
    ensures RunCode(f, p, left, true) == Counting(f[p], 62) + RunCode(f, p + 62, left - 62, true)
  {
    hide CountBits, Counting, Code, RawBits;
    CountingIs(f[p], 62);
  }

  /** With at most 256 values left, 62 of them a byte. */
  lemma {:induction false} By62(f: seq<word>, p: nat, left: nat)
    requires IsMask(f) && p + left <= |f| && left <= 256 && forall k | p <= k < p + left :: f[k] == f[p]
    ensures RunCode(f, p, left, true) ==
      Repeated(Counting(if left == 0 then 0 else f[p], 62), left / 62) + Rest(f, p + left - left % 62, left % 62)
    decreases left
  {
    hide RunCode, Counting, Repeated, Rest;
    if left < 62 {
      RestIs(f, p, left);
      NoneRepeated(Counting(if left == 0 then 0 else f[p], 62), Rest(f, p, left));
    } else {
      By62(f, p + 62, left - 62);
      Step62(f, p, left);
      assert left / 62 == 1 + (left - 62) / 62 && left % 62 == (left - 62) % 62;
      RepeatedStep(Counting(f[p], 62), left / 62, Rest(f, p + left - left % 62, left % 62));
      if left - 62 == 0 { NoneOf(Counting(0, 62), Counting(f[p], 62)); }
    }
  }

  lemma NoneRepeated(byte: seq<bool>, rest: seq<bool>)
    ensures Repeated(byte, 0) + rest == rest
  {
  }

  lemma NoneOf(a: seq<bool>, b: seq<bool>)
    ensures Repeated(a, 0) == Repeated(b, 0)
  {
  }

  lemma {:induction false} By255(f: seq<word>, p: nat, left: nat)
    requires p + left <= |f|
    ensures Repeats(left) * 255 <= left
    ensures RunCode(f, p, left, true) == Repeated(ONES, Repeats(left)) +
      RunCode(f, p + Repeats(left) * 255, left - Repeats(left) * 255, true)
    decreases left
  {
    hide CountBits, Repeated, Code, Bits;
    RepeatsLeft(left);
    if left > 256 {
      RepeatsStep(left);
      By255(f, p + 255, left - 255);
      OnesIs();
      RepeatedStep(ONES, Repeats(left), RunCode(f, p + Repeats(left) * 255, left - Repeats(left) * 255, true));
    } else {
      NoneRepeated(ONES, RunCode(f, p, left, true));
    }
  }

  /** A longer run is 62 values in one byte, then 255 in each byte of ones while more than 256 are
      left, then again 62 in each byte, and the few values left. */
  lemma LongRun(f: seq<word>, p: nat, n: nat)
    requires IsMask(f) && IsMaximal(f, p, n) && n >= 62
    ensures var q := if n <= 318 then 0 else (n - 64) / 255;
      var r := n - 62 - 255 * q;
      0 <= r <= 256 &&
      Code(f, p) == Counting(f[p], 62) + (Repeated(ONES, q) +
        (Repeated(Counting(f[p], 62), r / 62) + Rest(f, p + n - r % 62, r % 62)))
  {
    hide CountBits, Counting, Repeated, Rest, Code, RunCode, IsMask;
    LongStart(f, p, n);
    var q := if n <= 318 then 0 else (n - 64) / 255;
    var r := n - 62 - 255 * q;
    RepeatsLeft(n - 62);
    assert q == Repeats(n - 62) && r == n - 62 - Repeats(n - 62) * 255;
    By255(f, p + 62, n - 62);
    By62(f, p + n - r, r);
    if r == 0 { NoneOf(Counting(0, 62), Counting(f[p], 62)); }
  }

  lemma LongStart(f: seq<word>, p: nat, n: nat)
    requires IsMask(f) && IsMaximal(f, p, n) && n >= 62
    ensures Code(f, p) == Counting(f[p], 62) + RunCode(f, p + 62, n - 62, true)
  {
    hide CountBits, RawBits, Counting;
    RunLengthIs(f, p, n);
    CountingIs(f[p], 62);
    assert Code(f, p) == RunCode(f, p, n, false);
  }

  lemma {:induction false} RepeatedLength(byte: seq<bool>, n: nat)
    ensures |Repeated(byte, n)| == |byte| * n
  {
    if n > 0 { RepeatedLength(byte, n - 1); }
  }

  /** A mask of equal signs takes 8 bits for every 255 of them, and at most 48 more. */
  lemma EqualSigns(f: seq<word>)
    requires IsMask(f) && |f| >= 1 && forall k | 0 <= k < |f| :: f[k] == f[0]
    ensures |Code(f, 0)| <= 8 * (|f| / 255 + 6)
  {
    hide Counting, Repeated, Code, Group;
    var n := |f|;
    assert IsMaximal(f, 0, n);
    NothingLeft(f);
    if n < 8 {
      ShortRun(f, 0, n);
      GroupLength(f, 0);
    } else if n < 62 {
      OneByte(f, 0, n);
    } else {
      LongRun(f, 0, n);
      var q := if n <= 318 then 0 else (n - 64) / 255;
      var r := n - 62 - 255 * q;
      RepeatedLength(ONES, q);
      RepeatedLength(Counting(f[0], 62), r / 62);
      GroupLength(f, n - r % 62);
    }
  }

  lemma GroupLength(f: seq<word>, p: nat)
    requires p <= |f|
    ensures |Group(f, p)| <= 8
  {
  }

  lemma NothingLeft(f: seq<word>)
    ensures Code(f, |f|) == [] && |Counting(0, 62)| == |Counting(1, 62)| == 8
    ensures forall v: word, n: nat :: |Counting(v, n)| == 8
    ensures forall p: nat | p <= |f| && p + 7 >= |f| :: AfterGroup(f, p) == |f|
  {
  }
}
