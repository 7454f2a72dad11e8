/** Searches of generic files: when the keys that are asked for decide what is found. */
module KeySearch {
  import opened Words
  import opened XdfFormat
  import opened GenericKeys
  import opened XdfSearch

  /** The mask of a file that was just opened asks for every bit. */
  ghost predicate Fresh(before: seq<word>)
  {
    forall w | 0 <= w < |before| :: before[w] == 0xFFFF_FFFF
  }

  lemma AllOnesWord()
    ensures forall p | 0 <= p < 32 :: Bits(0xFFFF_FFFF, 32)[p]
  {
    Pow2Values();
    GenericKeys.AllOnes(32);
  }

  /** On a file that was just opened a word that is not cleared must be covered by keys that
      are set, or else it is compared as a whole. */
  lemma FreshIff(mask: seq<word>, before: seq<word>, ks: seq<Key>, keys: seq<word>)
    requires |mask| == |before| && |ks| == |keys| && IsLayout(ks, |mask|) && Masked(mask, before, ks, keys, |ks|)
    requires Fresh(before)
    ensures OnlyKeysMatter(mask, ks, keys) <==>
      forall w: nat, p: nat | w < |mask| && Stale(ks, w) && p < 32 :: GenericKeys.Covered(ks, keys, |ks|, w, p)
  {
    hide Bits, IsLayout, Masked, OnlyKeysMatter, GenericKeys.Covered;
    KeysDecideIff(mask, before, ks, keys);
    AllOnesWord();
  }

  /** Words past the last key: an entry with the key asked for is not found, because of what
      it has in a word that no key uses. */
  lemma PastTheKeys(mask: seq<word>)
    requires |mask| == 2 && Masked(mask, [0xFFFF_FFFF, 0xFFFF_FFFF], [Key(31, 31, 0)], [5], 1)
    ensures KeysAgree([5, 1], [5, 0], [Key(31, 31, 0)], [5]) && !AllAgree([5, 1], [5, 0], mask)
  {
    hide And, Xor, Bits, Value, Masked;
    var entry: seq<word>, target: seq<word>, before: seq<word> := [5, 1], [5, 0], [0xFFFF_FFFF, 0xFFFF_FFFF];
    var ks, keys: seq<word> := [Key(31, 31, 0)], [5];
    MatchIff(entry, target, mask, before, ks, keys);
    assert Stale(ks, 1);
    assert And(Xor(entry[1], target[1]), before[1]) == 1 by { OneDiffers(); }
  }

  lemma OneDiffers()
    ensures And(Xor(1, 0), 0xFFFF_FFFF) == 1
  {
    AndWithOnes(1);
  }

  /** Keys that are not listed in the order of their words: the mask of a key in between, that
      is not asked for, is never cleared. */
  lemma OutOfOrder(mask: seq<word>)
    requires |mask| == 2
    requires Masked(mask, [0xFFFF_FFFF, 0xFFFF_FFFF], [Key(47, 15, 0), Key(31, 31, 0), Key(63, 15, 0)],
      [1, WILDCARD, 2], 3)
    ensures KeysAgree([1, 9], [0, 9], [Key(47, 15, 0), Key(31, 31, 0), Key(63, 15, 0)], [1, WILDCARD, 2])
    ensures !AllAgree([1, 9], [0, 9], mask)
  {
    hide And, Xor, Bits, Value, Masked;
    var entry: seq<word>, target: seq<word>, before: seq<word> := [1, 9], [0, 9], [0xFFFF_FFFF, 0xFFFF_FFFF];
    var ks, keys: seq<word> := [Key(47, 15, 0), Key(31, 31, 0), Key(63, 15, 0)], [1, WILDCARD, 2];
    MatchIff(entry, target, mask, before, ks, keys);
    assert Stale(ks, 0);
    assert And(Xor(entry[0], target[0]), before[0]) == 1 by { OneDiffers(); }
  }

  /** The keys that are set have in the entry the values that were asked for. */
  ghost predicate KeysFound(entry: seq<word>, ks: seq<Key>, keys: seq<word>)
    requires |ks| == |keys| && IsLayout(ks, |entry|)
  {
    forall i | 0 <= i < |ks| && keys[i] != WILDCARD ::
      Value(entry[WordOf(ks[i])], ks[i]) == Prepared(ks[i], keys[i]) % Pow2(ks[i].lcle + 1)
  }

  /** What a search finds, from the target and the mask as `build_gen_prim_keys` leaves them: the
      entries that are not deleted, with the values asked for, and that agree on what the mask
      still asks for. */
  lemma EntryFound(entry: seq<word>, s: Search, target0: seq<word>, before: seq<word>, ks: seq<Key>, keys: seq<word>)
    requires Usable(s) && |entry| == s.width && |ks| == |keys| && |target0| == |before| == s.width - 2
    requires IsLayout(ks, s.width - 2)
    requires Packed(s.target[2..s.width], target0, ks, keys, |ks|)
    requires s.mask[..2] == [0, 0] && Masked(s.mask[2..s.width], before, ks, keys, |ks|)
    ensures EntryMatches(entry, s) <==>
      IdtypOf(entry[0]) < 127 && KeysFound(entry[2..], ks, keys) &&
        RestAgrees(entry[2..], s.target[2..s.width], before, ks)
    ensures RestCovered(before, ks, keys) ==>
      (EntryMatches(entry, s) <==> IdtypOf(entry[0]) < 127 && KeysFound(entry[2..], ks, keys))
  {
    hide And, Xor, Bits, Value, Masked, IsLayout, Packed, Prepared, Pow2, RestAgrees, RestCovered;
    var e, t, m := entry[2..], s.target[2..s.width], s.mask[2..s.width];
    MatchIff(e, t, m, before, ks, keys);
    LayoutFacts(ks, |e|);
    TargetKeys(e, t, target0, ks, keys);
    WholeEntry(entry, s);
    if RestCovered(before, ks, keys) && KeysAgree(e, t, ks, keys) { RestFollows(e, t, before, ks, keys); }
  }

  lemma WholeEntry(entry: seq<word>, s: Search)
    requires Usable(s) && |entry| == s.width && s.mask[..2] == [0, 0]
    ensures EntryMatches(entry, s) <==>
      IdtypOf(entry[0]) < 127 && AllAgree(entry[2..], s.target[2..s.width], s.mask[2..s.width])
  {
    hide Xor;
    var e, t, m := entry[2..], s.target[2..s.width], s.mask[2..s.width];
    assert s.mask[0] == s.mask[..2][0] == 0 && s.mask[1] == s.mask[..2][1] == 0;
    NothingAsked(Xor(entry[0], s.target[0]));
    NothingAsked(Xor(entry[1], s.target[1]));
    hide And;
    assert forall w | 0 <= w < |e| :: e[w] == entry[w + 2] && t[w] == s.target[w + 2] && m[w] == s.mask[w + 2];
    if AllAgree(e, t, m) {
      forall i | 0 <= i < s.width ensures And(Xor(entry[i], s.target[i]), s.mask[i]) == 0 {
        if i >= 2 { assert And(Xor(e[i - 2], t[i - 2]), m[i - 2]) == 0; }
      }
    }
    if EntryMatches(entry, s) {
      forall w | 0 <= w < |e| ensures And(Xor(e[w], t[w]), m[w]) == 0 {
        assert And(Xor(entry[w + 2], s.target[w + 2]), s.mask[w + 2]) == 0;
      }
    }
  }

  lemma NothingAsked(x: nat)
    ensures And(x, 0) == 0
  {
  }

  lemma TargetKeys(e: seq<word>, t: seq<word>, target0: seq<word>, ks: seq<Key>, keys: seq<word>)
    requires |e| == |t| == |target0| && |ks| == |keys| && IsLayout(ks, |e|) && Packed(t, target0, ks, keys, |ks|)
    ensures KeysAgree(e, t, ks, keys) <==> KeysFound(e, ks, keys)
  {
    hide Value, Prepared, Pow2;
    assert forall i | 0 <= i < |ks| :: PackedKey(t, target0, ks[i], keys[i], i < |ks|);
  }
}
