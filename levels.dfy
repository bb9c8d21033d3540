/**
 * The level of the node each advance routine returns. The routines put
 * together sub-results without shrinking them, so the level grows with every
 * step instead of staying one below the input as in textbook Hashlife.
 */
module Levels {
  import opened Powers

  /** The level of AdvanceHashlife(node, 1) for a node of level k >= 2:
      Advance4x4Block keeps level 2, and AdvanceSingleGeneration on level
      k >= 3 puts nine results of level OneStepLevel(k - 1) two levels up. */
  function OneStepLevel(k: nat): nat {
    if k <= 2 then 2 else OneStepLevel(k - 1) + 2
  }

  /** A single generation doubles the level less two: a level-k node (k >= 2)
      becomes a level 2k - 2 node, which is k + 1 only for k = 3. */
  lemma {:induction false} OneStepLevelIsDouble(k: nat)
    requires k >= 2
    ensures OneStepLevel(k) == 2 * k - 2
    ensures OneStepLevel(k) == k + 1 <==> k == 3
  {
    if k > 2 {
      OneStepLevelIsDouble(k - 1);
    }
  }

  /** The level after n single steps taken one after the other. */
  function StepLevels(k: nat, n: nat): nat {
    if n == 0 then k else OneStepLevel(StepLevels(k, n - 1))
  }

  /** The level of AdvanceHashlife(node, g) for a node of level k, following its
      branches: nothing to do, a 4x4 block, one generation, the maximal advance
      of 2^(k-2) generations followed by the rest, or g single steps. */
  function AdvanceLevel(k: nat, g: nat): nat
    decreases g, 1
  {
    if g == 0 then k
    else if k <= 2 then 2
    else if g == 1 then OneStepLevel(k)
    else if g >= Pow2(k - 2) then
      var m := MaximalLevel(k);
      if g > Pow2(k - 2) then AdvanceLevel(m, g - Pow2(k - 2)) else m
    else StepLevels(k, g)
  }

  /** The level of AdvanceMaximal(node) for a node of level k >= 3: nine
      advances by 2^(k-3) of level k - 1 nodes, four advances by 2^(k-3) of the
      nodes they form, and one node above those. */
  function MaximalLevel(k: nat): nat
    requires k >= 3
    decreases Pow2(k - 2), 0
  {
    var h := Pow2(k - 3);
    assert Pow2(k - 2) == 2 * h;
    AdvanceLevel(AdvanceLevel(k - 1, h) + 1, h) + 1
  }

  lemma OneStepLevelAtLeast2(k: nat)
    ensures OneStepLevel(k) >= 2
  {
  }

  lemma {:induction false} StepLevelsAtLeast2(k: nat, n: nat)
    requires k >= 2 || n > 0
    ensures StepLevels(k, n) >= 2
  {
    if n > 0 {
      OneStepLevelAtLeast2(StepLevels(k, n - 1));
    }
  }

  /** Every advance by at least one generation yields a node of level at least
      2, and the maximal advance one of level at least 3. */
  lemma {:induction false} AdvanceLevelAtLeast2(k: nat, g: nat)
    requires g > 0 || k >= 2
    ensures AdvanceLevel(k, g) >= 2
    decreases g, 1
  {
    if g > 0 && k > 2 && g != 1 {
      if g >= Pow2(k - 2) {
        MaximalLevelAtLeast3(k);
        if g > Pow2(k - 2) {
          AdvanceLevelAtLeast2(MaximalLevel(k), g - Pow2(k - 2));
        }
      } else {
        StepLevelsAtLeast2(k, g);
      }
    }
  }

  lemma {:induction false} MaximalLevelAtLeast3(k: nat)
    requires k >= 3
    ensures MaximalLevel(k) >= 3
    decreases Pow2(k - 2), 0
  {
    var h := Pow2(k - 3);
    assert Pow2(k - 2) == 2 * h;
    AdvanceLevelAtLeast2(AdvanceLevel(k - 1, h) + 1, h);
  }

  /** One generation is the same as OneStepLevel, at every level. */
  lemma AdvanceLevelOne(k: nat)
    ensures AdvanceLevel(k, 1) == OneStepLevel(k)
  {
  }
}
