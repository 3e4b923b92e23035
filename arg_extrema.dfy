/** numpy's argmin and argmax over a one-dimensional sequence: the FIRST index of the extreme value. */
module ArgExtrema {

  /** k is the first index at which s is largest. */
  predicate IsFirstMax(s: seq<int>, k: int) {
    && 0 <= k < |s|
    && (forall j :: 0 <= j < |s| ==> s[j] <= s[k])
    && (forall j :: 0 <= j < k ==> s[j] < s[k])
  }

  /** k is the first index at which s is smallest. */
  predicate IsFirstMin(s: seq<int>, k: int) {
    && 0 <= k < |s|
    && (forall j :: 0 <= j < |s| ==> s[k] <= s[j])
    && (forall j :: 0 <= j < k ==> s[k] < s[j])
  }

  /** np.argmax: a left-to-right scan that only moves on a strictly larger value. */
  function FirstArgMax(s: seq<int>): (k: nat)
    requires |s| > 0
    ensures IsFirstMax(s, k)
  {
    if |s| == 1 then 0
    else
      var k := FirstArgMax(s[..|s| - 1]);
      if s[|s| - 1] > s[k] then |s| - 1 else k
  }

  /** np.argmin: a left-to-right scan that only moves on a strictly smaller value. */
  function FirstArgMin(s: seq<int>): (k: nat)
    requires |s| > 0
    ensures IsFirstMin(s, k)
  {
    if |s| == 1 then 0
    else
      var k := FirstArgMin(s[..|s| - 1]);
      if s[|s| - 1] < s[k] then |s| - 1 else k
  }

  /** There is exactly one first maximum, so any index with that property is the one argmax returns. */
  lemma FirstMaxIsUnique(s: seq<int>, k: int)
    requires IsFirstMax(s, k)
    ensures FirstArgMax(s) == k
  {
  }

  /** Likewise there is exactly one first minimum. */
  lemma FirstMinIsUnique(s: seq<int>, k: int)
    requires IsFirstMin(s, k)
    ensures FirstArgMin(s) == k
  {
  }

  /** A tie goes to the earlier index: the row [5, 5, 3] selects 0, not 1. */
  lemma TieGoesToFirst()
    ensures FirstArgMax([5, 5, 3]) == 0
  {
    FirstMaxIsUnique([5, 5, 3], 0);
  }

  /** A row that is constant (an unmarked row, all zero) selects index 0. */
  lemma ConstantRowSelectsFirst(s: seq<int>)
    requires |s| > 0
    requires forall j :: 0 <= j < |s| ==> s[j] == s[0]
    ensures FirstArgMax(s) == 0
  {
    FirstMaxIsUnique(s, 0);
  }

  /** A value strictly above all others in its row is the one selected. */
  lemma StrictMaximumIsSelected(s: seq<int>, k: nat)
    requires k < |s|
    requires forall j :: 0 <= j < |s| && j != k ==> s[j] < s[k]
    ensures FirstArgMax(s) == k
  {
    FirstMaxIsUnique(s, k);
  }
}
