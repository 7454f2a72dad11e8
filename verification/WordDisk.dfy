/** A file as a run of 32-bit words, read and written by position (`c_waread`,
    `c_wawrit`), and the checksum of a run. */
module WordDisk {
  import opened Words

  /** The words ws stand at position `at`, counted from 0. */
  ghost predicate Segment(disk: seq<word>, at: nat, ws: seq<word>)
  {
    at + |ws| <= |disk| && disk[at..at + |ws|] == ws
  }

  /** Writes over what is there, and past the end of the file. */
  function Wawrit(disk: seq<word>, at: nat, ws: seq<word>): (disk': seq<word>)
    requires at <= |disk|
    ensures |disk'| == if at + |ws| < |disk| then |disk| else at + |ws|
  {
    disk[..at] + ws + (if at + |ws| < |disk| then disk[at + |ws|..] else [])
  }

  /** Reads as many words as the file has there. */
  function Waread(disk: seq<word>, at: int, n: nat): (ws: seq<word>)
    ensures |ws| <= n
    ensures 0 <= at && at + n <= |disk| ==> ws == disk[at..at + n]
  {
    if at < 0 || |disk| <= at then [] else if at + n <= |disk| then disk[at..at + n] else disk[at..]
  }

  lemma Written(disk: seq<word>, at: nat, ws: seq<word>)
    requires at <= |disk|
    ensures Segment(Wawrit(disk, at, ws), at, ws)
  {
  }

  /** What does not overlap the words written stays. */
  lemma Kept(disk: seq<word>, at: nat, ws: seq<word>, other: nat, s: seq<word>)
    requires at <= |disk| && Segment(disk, other, s) && (other + |s| <= at || at + |ws| <= other)
    ensures Segment(Wawrit(disk, at, ws), other, s)
  {
    var disk' := Wawrit(disk, at, ws);
    assert |disk'[other..other + |s|]| == |s|;
    forall k | 0 <= k < |s| ensures disk'[other..other + |s|][k] == s[k] {
      assert disk[other + k] == disk[other..other + |s|][k];
    }
  }

  lemma Within(disk: seq<word>, at: nat, ws: seq<word>, k: nat)
    requires Segment(disk, at, ws) && k < |ws|
    ensures disk[at + k] == ws[k]
  {
    assert disk[at + k] == disk[at..at + |ws|][k];
  }

  lemma SegmentLength(disk: seq<word>, at: nat, ws: seq<word>)
    requires Segment(disk, at, ws)
    ensures at + |ws| <= |disk|
  {
  }

  lemma Prefix(disk: seq<word>, at: nat, a: seq<word>, b: seq<word>)
    requires Segment(disk, at, a + b)
    ensures Segment(disk, at, a)
  {
    assert disk[at..at + |a|] == disk[at..at + |a + b|][..|a|];
  }

  // ----- Checksums -----

  /** The exclusive or of a run, on top of c. */
  function XorFrom(c: word, ws: seq<word>): word
  {
    if ws == [] then c
    else
      var x, y := XorFrom(c, ws[..|ws| - 1]), ws[|ws| - 1];
      XorOfWords(x, y);
      Xor(x, y)
  }

  lemma {:induction false} XorFromConcat(c: word, a: seq<word>, b: seq<word>)
    ensures XorFrom(c, a + b) == XorFrom(XorFrom(c, a), b)
  {
    hide Xor;
    if b == [] {
      assert a + b == a;
    } else {
      XorFromConcat(c, a, b[..|b| - 1]);
      assert (a + b)[..|a + b| - 1] == a + b[..|b| - 1];
    }
  }

  lemma {:induction false} XorFromStart(c: word, ws: seq<word>)
    ensures XorFrom(c, ws) == Xor(c, XorFrom(0, ws))
  {
    hide Xor;
    if ws == [] {
      assert Xor(c, 0) == c by { XorWithZero(c); }
    } else {
      var x, y := XorFrom(0, ws[..|ws| - 1]), ws[|ws| - 1];
      XorFromStart(c, ws[..|ws| - 1]);
      XorAssociates(c, x, y);
    }
  }

  lemma XorWithZero(c: word)
    ensures Xor(c, 0) == c && Xor(0, c) == c
  {
  }

  /** Storing the exclusive or of a run in place of one of its words, whose old value it
      started from, makes the run cancel out. */
  lemma ChecksumCancels(c: word, a: seq<word>, b: seq<word>)
    ensures XorFrom(0, a + [XorFrom(c, a + [c] + b)] + b) == 0
  {
    hide Xor;
    var x, y := XorFrom(0, a), XorFrom(0, b);
    AroundOne(c, a, c, b);
    XorFromStart(c, a);
    XorCommutes(c, x);
    XorCancels(x, c);
    var sum := XorFrom(c, a + [c] + b);
    XorFromStart(x, b);
    assert sum == Xor(x, y);
    AroundOne(0, a, sum, b);
    XorCancels(x, y);
    XorFromStart(y, b);
    XorSelf(y);
  }

  lemma AroundOne(c: word, a: seq<word>, w: word, b: seq<word>)
    ensures Xor(XorFrom(c, a), w) < WORD_BASE
    ensures XorFrom(c, a + [w] + b) == XorFrom(Xor(XorFrom(c, a), w), b)
  {
    hide Xor;
    XorOfWords(XorFrom(c, a), w);
    XorFromConcat(c, a + [w], b);
    assert (a + [w])[..|a|] == a;
  }
}
