/** The artifact names of the interchange: `input_frame_<i>.txt` written for the
    simulator, `output_gray_<i>.txt`, `output_neg_<i>.txt` and `output_bin_<i>.txt`
    read back, each with an unpadded decimal index. */
module FileNames {
  import opened DecimalText

  const InputPrefix := "input_frame_"
  const GrayPrefix := "output_gray_"
  const NegPrefix := "output_neg_"
  const BinPrefix := "output_bin_"
  const TextSuffix := ".txt"

  predicate StartsWith(s: string, prefix: string) {
    |prefix| <= |s| && s[..|prefix|] == prefix
  }

  /** `f"{prefix}{index}.txt"`. */
  function IndexedName(prefix: string, index: nat): (name: string)
    ensures StartsWith(name, prefix)
  {
    prefix + Decimal(index) + TextSuffix
  }

  function InputFrameName(index: nat): string { IndexedName(InputPrefix, index) }
  function GrayName(index: nat): string { IndexedName(GrayPrefix, index) }
  function NegName(index: nat): string { IndexedName(NegPrefix, index) }
  function BinName(index: nat): string { IndexedName(BinPrefix, index) }

  /** Names built from the same prefix and different indices are different files. */
  lemma IndexedNameInjective(prefix: string, a: nat, b: nat)
    ensures IndexedName(prefix, a) == IndexedName(prefix, b) ==> a == b
  {
    var na, nb := IndexedName(prefix, a), IndexedName(prefix, b);
    if na == nb {
      assert Decimal(a) == na[|prefix|..|na| - |TextSuffix|];
      assert Decimal(b) == nb[|prefix|..|nb| - |TextSuffix|];
      DecimalInjective(a, b);
    }
  }

  /** Every gray output name is counted by the `output_gray_` prefix test, and
      no negative, binary or input name is. */
  lemma PrefixClasses(i: nat, j: nat)
    ensures StartsWith(GrayName(i), GrayPrefix)
    ensures !StartsWith(NegName(j), GrayPrefix)
    ensures !StartsWith(BinName(j), GrayPrefix)
    ensures !StartsWith(InputFrameName(j), GrayPrefix)
  {
    assert NegName(j)[7] != GrayPrefix[7];
    assert BinName(j)[7] != GrayPrefix[7];
    assert InputFrameName(j)[0] != GrayPrefix[0];
  }
}
