/**
  The even-split percentage allocator of the expense ledger's front end.

  Percentages are counted in exact hundredths of a percent, so 100% is
  `Whole` (10000) and "truncated to two decimal places" is integer division.
  Given the number of trip members, the allocator gives every member the same
  truncated share and hands the leftover of the truncation to the first member,
  so that the list always totals exactly 100%.
*/
module Utils {

  /** 100% in hundredths of a percent. */
  const Whole: nat := 10000

  /** Total of a list of percentages. */
  function Sum(s: seq<int>): int
  {
    if s == [] then 0 else s[0] + Sum(s[1..])
  }

  /** A list of `length` copies of `value`. */
  function Repeat(value: int, length: nat): (s: seq<int>)
    ensures |s| == length
    ensures forall i :: 0 <= i < length ==> s[i] == value
  {
    seq(length, _ => value)
  }

  /**
    The share every member gets before the leftover is handed out:
    100% / memberCount, truncated to two decimal places. It is the largest
    share that memberCount members can all receive without exceeding 100%.
  */
  function BasePercentage(memberCount: nat): (base: nat)
    requires memberCount >= 1
    ensures base * memberCount <= Whole < (base + 1) * memberCount
  {
    Whole / memberCount
  }

  /**
    What the truncation leaves of 100% once every member has the base share.
    It is less than one hundredth of a percent per member.
  */
  function Remainder(memberCount: nat): (rem: nat)
    requires memberCount >= 1
    ensures rem < memberCount
  {
    Whole - BasePercentage(memberCount) * memberCount
  }

  /**
    One percentage per member: a non-positive count gives no entries; otherwise
    every entry after the first is 100% / memberCount truncated to hundredths,
    and the first entry carries the truncation leftover on top of that share,
    exceeding it by less than one hundredth of a percent per member, so no
    entry is larger than the first.
  */
  function CalculateEvenSplit(memberCount: int): (split: seq<int>)
    ensures memberCount <= 0 ==> split == []
    ensures memberCount >= 1 ==> |split| == memberCount
    ensures forall i :: 1 <= i < |split| ==>
      split[i] * memberCount <= Whole < (split[i] + 1) * memberCount
    ensures forall i :: 1 <= i < |split| ==> 0 <= split[0] - split[i] < memberCount
    ensures forall i :: 0 <= i < |split| ==> 0 <= split[i] <= split[0] <= Whole
  {
    if memberCount <= 0 then []
    else
      var base := BasePercentage(memberCount);
      var split := [base + Remainder(memberCount)] + Repeat(base, memberCount - 1);
      assert forall i :: 1 <= i < |split| ==> split[i] == base;
      split
  }

  /**
    What an even split of 100% among memberCount members is, stated without
    reference to how it is computed: one entry per member, every entry after
    the first is 100% / memberCount truncated to hundredths, and the entries
    total exactly 100%.
  */
  ghost predicate IsEvenSplit(memberCount: nat, s: seq<int>)
  {
    && |s| == memberCount
    && (forall i :: 1 <= i < |s| ==> s[i] * memberCount <= Whole < (s[i] + 1) * memberCount)
    && Sum(s) == Whole
  }

  /** A list whose entries all equal `value` totals length times value. */
  lemma {:induction false} SumOfConstant(s: seq<int>, value: int)
    requires forall i :: 0 <= i < |s| ==> s[i] == value
    ensures Sum(s) == |s| * value
  {
    if s != [] {
      SumOfConstant(s[1..], value);
    }
  }

  /** The entries of an even split total exactly 100%. */
  lemma SplitTotalsWhole(memberCount: int)
    requires memberCount >= 1
    ensures Sum(CalculateEvenSplit(memberCount)) == Whole
  {
    var split := CalculateEvenSplit(memberCount);
    var base := BasePercentage(memberCount);
    assert split[1..] == Repeat(base, memberCount - 1);
    SumOfConstant(split[1..], base);
  }

  /** A single member is given the whole 100%. */
  lemma SingleMemberGetsWhole()
    ensures CalculateEvenSplit(1) == [Whole]
  {
  }

  /** When the count divides 100% in hundredths, every member gets the same share. */
  lemma DivisibleCountIsUniform(memberCount: int)
    requires memberCount >= 1 && Whole % memberCount == 0
    ensures CalculateEvenSplit(memberCount) == Repeat(Whole / memberCount, memberCount)
  {
  }

  /**
    With more members than hundredths of a percent, the truncated share is 0
    and the first member is given all of the 100%.
  */
  lemma MoreMembersThanHundredths(memberCount: int)
    requires memberCount > Whole
    ensures CalculateEvenSplit(memberCount)[0] == Whole
    ensures forall i :: 1 <= i < memberCount ==> CalculateEvenSplit(memberCount)[i] == 0
  {
  }

  /** At most one share satisfies the truncation inequalities for a given count. */
  lemma TruncatedShareUnique(memberCount: nat, a: int, b: int)
    requires memberCount >= 1
    requires a * memberCount <= Whole < (a + 1) * memberCount
    requires b * memberCount <= Whole < (b + 1) * memberCount
    ensures a == b
  {
  }

  /**
    The computed split is exactly the even split: for a positive count a list
    is an even split if and only if it is the one the allocator returns.
  */
  lemma EvenSplitCharacterised(memberCount: nat, s: seq<int>)
    requires memberCount >= 1
    ensures IsEvenSplit(memberCount, s) <==> s == CalculateEvenSplit(memberCount)
  {
    var split := CalculateEvenSplit(memberCount);
    var base := BasePercentage(memberCount);
    SplitTotalsWhole(memberCount);
    if IsEvenSplit(memberCount, s) {
      forall i | 1 <= i < memberCount
        ensures s[i] == base
      {
        TruncatedShareUnique(memberCount, s[i], base);
      }
      SumOfConstant(s[1..], base);
      assert split[1..] == Repeat(base, memberCount - 1);
      SumOfConstant(split[1..], base);
      assert s[0] == split[0];
      assert s == split;
    }
  }
}
