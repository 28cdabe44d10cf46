/** Rendering the source catalog within a character budget: whole blocks, first come first served. */
module SourceBudget {
  import opened Decimal

  /** One flag a block, chosen or not. */
  type Choice = seq<bool>

  function Selected(blocks: seq<string>, chosen: Choice): seq<string>
    requires |chosen| == |blocks|
  {
    if blocks == [] then []
    else
      var n := |blocks| - 1;
      Selected(blocks[..n], chosen[..n]) + if chosen[n] then [blocks[n]] else []
  }

  function Weight(blocks: seq<string>, chosen: Choice): nat
    requires |chosen| == |blocks|
  {
    if blocks == [] then 0
    else
      var n := |blocks| - 1;
      Weight(blocks[..n], chosen[..n]) + if chosen[n] then |blocks[n]| else 0
  }

  function Omitted(chosen: Choice): nat {
    if chosen == [] then 0 else Omitted(chosen[..|chosen| - 1]) + if chosen[|chosen| - 1] then 0 else 1
  }

  /** Each block is taken when it still fits beside those taken before it. */
  function FirstFit(blocks: seq<string>, maxChars: int): (chosen: Choice)
    ensures |chosen| == |blocks|
  {
    if blocks == [] then []
    else
      var n := |blocks| - 1;
      var before := FirstFit(blocks[..n], maxChars);
      before + [Weight(blocks[..n], before) + |blocks[n]| <= maxChars]
  }

  /** Blocks joined by an empty line. */
  function Join(blocks: seq<string>): string {
    if blocks == [] then ""
    else if |blocks| == 1 then blocks[0]
    else Join(blocks[..|blocks| - 1]) + "\n\n" + blocks[|blocks| - 1]
  }

  function Suffix(omitted: nat): string {
    if omitted == 0 then "" else "\n\n" + Itoa(omitted) + " source(s) omitted because of token budget."
  }

  const UNAVAILABLE := "(source catalog unavailable — return assessmentVersion 1 only)"

  method FmtSources(blocks: seq<string>, maxChars: int) returns (text: string)
    ensures blocks == [] ==> text == UNAVAILABLE
    ensures blocks != [] ==>
              var chosen := FirstFit(blocks, maxChars);
              text == Join(Selected(blocks, chosen)) + Suffix(Omitted(chosen))
  {
    if blocks == [] {
      return UNAVAILABLE;
    }
    hide Join, Suffix;
    var kept: seq<string> := [];
    var used, omitted := 0, 0;
    for i := 0 to |blocks|
      invariant kept == Selected(blocks[..i], FirstFit(blocks[..i], maxChars))
      invariant used == Weight(blocks[..i], FirstFit(blocks[..i], maxChars))
      invariant omitted == Omitted(FirstFit(blocks[..i], maxChars))
    {
      OneMoreBlock(blocks[..i], blocks[i], maxChars);
      assert blocks[..i + 1] == blocks[..i] + [blocks[i]];
      if used + |blocks[i]| > maxChars {
        omitted := omitted + 1;
        continue;
      }
      kept := kept + [blocks[i]];
      used := used + |blocks[i]|;
    }
    assert blocks[..|blocks|] == blocks;
    text := Join(kept) + Suffix(omitted);
  }

  lemma OneMoreBlock(blocks: seq<string>, block: string, maxChars: int)
    ensures var before, after := FirstFit(blocks, maxChars), FirstFit(blocks + [block], maxChars);
            var fits := Weight(blocks, before) + |block| <= maxChars;
            && after == before + [fits]
            && Selected(blocks + [block], after) == Selected(blocks, before) + (if fits then [block] else [])
            && Weight(blocks + [block], after) == Weight(blocks, before) + (if fits then |block| else 0)
            && Omitted(after) == Omitted(before) + (if fits then 0 else 1)
  {
    var all := blocks + [block];
    assert all[..|all| - 1] == blocks;
    var before, after := FirstFit(blocks, maxChars), FirstFit(all, maxChars);
    assert after[..|after| - 1] == before;
  }

  // ---- What the choice guarantees -------------------------------------------------------

  lemma {:induction false} WithinBudget(blocks: seq<string>, maxChars: int)
    ensures Weight(blocks, FirstFit(blocks, maxChars)) <= if maxChars < 0 then 0 else maxChars
  {
    if blocks != [] {
      WithinBudget(blocks[..|blocks| - 1], maxChars);
    }
  }

  lemma {:induction false} EveryBlockIsCounted(blocks: seq<string>, chosen: Choice)
    requires |chosen| == |blocks|
    ensures |Selected(blocks, chosen)| + Omitted(chosen) == |blocks|
  {
    if blocks != [] {
      EveryBlockIsCounted(blocks[..|blocks| - 1], chosen[..|chosen| - 1]);
    }
  }

  lemma {:induction false} OmittedDoNotFit(blocks: seq<string>, maxChars: int, i: nat)
    requires i < |blocks| && !FirstFit(blocks, maxChars)[i]
    ensures Weight(blocks, FirstFit(blocks, maxChars)) + |blocks[i]| > maxChars
  {
    var n := |blocks| - 1;
    if i < n {
      OmittedDoNotFit(blocks[..n], maxChars, i);
    }
  }

  /** The kept blocks fit, every block is kept or counted as omitted, and no omitted block
      would fit beside all that were kept. */
  lemma {:induction false} BudgetHolds(blocks: seq<string>, maxChars: int)
    ensures var chosen := FirstFit(blocks, maxChars);
            && Weight(blocks, chosen) <= (if maxChars < 0 then 0 else maxChars)
            && |Selected(blocks, chosen)| + Omitted(chosen) == |blocks|
            && forall i :: 0 <= i < |blocks| && !chosen[i] ==> Weight(blocks, chosen) + |blocks[i]| > maxChars
  {
    WithinBudget(blocks, maxChars);
    EveryBlockIsCounted(blocks, FirstFit(blocks, maxChars));
    hide FirstFit, Weight, Selected, Omitted;
    forall i | 0 <= i < |blocks| && !FirstFit(blocks, maxChars)[i]
      ensures Weight(blocks, FirstFit(blocks, maxChars)) + |blocks[i]| > maxChars
    {
      OmittedDoNotFit(blocks, maxChars, i);
    }
  }

  lemma {:induction false} PrefixWeighsLess(blocks: seq<string>, chosen: Choice, n: nat)
    requires |chosen| == |blocks| && n <= |blocks|
    ensures Weight(blocks[..n], chosen[..n]) <= Weight(blocks, chosen)
  {
    if n == |blocks| {
      assert blocks[..n] == blocks && chosen[..n] == chosen;
    } else {
      var m := |blocks| - 1;
      PrefixWeighsLess(blocks[..m], chosen[..m], n);
      assert blocks[..m][..n] == blocks[..n] && chosen[..m][..n] == chosen[..n];
    }
  }

  lemma {:induction false} FirstFitOfPrefix(blocks: seq<string>, maxChars: int, n: nat)
    requires n <= |blocks|
    ensures FirstFit(blocks[..n], maxChars) == FirstFit(blocks, maxChars)[..n]
  {
    if n == |blocks| {
      assert blocks[..n] == blocks;
    } else {
      var m := |blocks| - 1;
      FirstFitOfPrefix(blocks[..m], maxChars, n);
      assert blocks[..m][..n] == blocks[..n];
    }
  }

  /** No choice that fits prefers an earlier block: where one first differs, it is by leaving
      out a block that was kept. */
  lemma EarliestFirst(blocks: seq<string>, maxChars: int, other: Choice, i: nat)
    requires |other| == |blocks| && Weight(blocks, other) <= maxChars && i < |blocks|
    requires other[..i] == FirstFit(blocks, maxChars)[..i] && other[i] != FirstFit(blocks, maxChars)[i]
    ensures FirstFit(blocks, maxChars)[i] && !other[i]
  {
    FirstFitOfPrefix(blocks, maxChars, i);
    FirstFitOfPrefix(blocks, maxChars, i + 1);
    PrefixWeighsLess(blocks, other, i + 1);
    OneMoreBlock(blocks[..i], blocks[i], maxChars);
    assert blocks[..i + 1] == blocks[..i] + [blocks[i]];
    hide FirstFit;
    assert blocks[..i + 1][..i] == blocks[..i] && other[..i + 1][..i] == other[..i];
  }

  lemma {:induction false} JoinLength(blocks: seq<string>)
    ensures |Join(blocks)| == TotalLength(blocks) + if |blocks| > 1 then 2 * (|blocks| - 1) else 0
  {
    if blocks != [] {
      JoinLength(blocks[..|blocks| - 1]);
    }
  }

  function TotalLength(blocks: seq<string>): nat {
    if blocks == [] then 0 else TotalLength(blocks[..|blocks| - 1]) + |blocks[|blocks| - 1]|
  }

  lemma {:induction false} WeightIsTotalLength(blocks: seq<string>, chosen: Choice)
    requires |chosen| == |blocks|
    ensures Weight(blocks, chosen) == TotalLength(Selected(blocks, chosen))
  {
    if blocks != [] {
      var n := |blocks| - 1;
      WeightIsTotalLength(blocks[..n], chosen[..n]);
      var before := Selected(blocks[..n], chosen[..n]);
      assert (before + [blocks[n]])[..|before|] == before;
      assert before + [] == before;
    }
  }

  /** The joined blocks have at most the budget and two characters for each gap. */
  lemma RenderedLength(blocks: seq<string>, maxChars: int)
    requires maxChars >= 0
    ensures var kept := Selected(blocks, FirstFit(blocks, maxChars));
            |Join(kept)| <= maxChars + if |kept| > 1 then 2 * (|kept| - 1) else 0
  {
    var chosen := FirstFit(blocks, maxChars);
    BudgetHolds(blocks, maxChars);
    WeightIsTotalLength(blocks, chosen);
    JoinLength(Selected(blocks, chosen));
  }

  // ---- The text, in full -----------------------------------------------------------------

  /** The text of all blocks together. */
  function Whole(blocks: seq<string>): string {
    if blocks == [] then "" else Whole(blocks[..|blocks| - 1]) + blocks[|blocks| - 1]
  }

  lemma {:induction false} WeightIsWhole(blocks: seq<string>, chosen: Choice)
    requires |chosen| == |blocks|
    ensures Weight(blocks, chosen) == |Whole(Selected(blocks, chosen))|
  {
    if blocks != [] {
      var n := |blocks| - 1;
      WeightIsWhole(blocks[..n], chosen[..n]);
      var before := Selected(blocks[..n], chosen[..n]);
      assert (before + [blocks[n]])[..|before|] == before;
      assert before + [] == before;
    }
  }

  /** A block is kept exactly when it and everything kept before it fit the budget. */
  lemma KeptExactly(blocks: seq<string>, maxChars: int, i: nat)
    requires i < |blocks|
    ensures FirstFit(blocks, maxChars)[i] <==>
              |Whole(Selected(blocks[..i], FirstFit(blocks, maxChars)[..i]))| + |blocks[i]| <= maxChars
  {
    FirstFitOfPrefix(blocks, maxChars, i);
    FirstFitOfPrefix(blocks, maxChars, i + 1);
    WeightIsWhole(blocks[..i], FirstFit(blocks[..i], maxChars));
    OneMoreBlock(blocks[..i], blocks[i], maxChars);
    assert blocks[..i + 1] == blocks[..i] + [blocks[i]];
    assert FirstFit(blocks, maxChars)[..i + 1][i] == FirstFit(blocks, maxChars)[i];
    hide FirstFit, Selected, Weight, Whole;
  }

  /** The chosen blocks stand in the order of the catalog. */
  lemma {:induction false} SelectedInOrder(blocks: seq<string>, chosen: Choice) returns (at: seq<int>)
    requires |chosen| == |blocks|
    ensures forall a, b :: 0 <= a < b < |at| ==> at[a] < at[b]
    ensures forall i :: i in at <==> 0 <= i < |blocks| && chosen[i]
    ensures |Selected(blocks, chosen)| == |at|
    ensures forall k :: 0 <= k < |at| ==> 0 <= at[k] < |blocks| && Selected(blocks, chosen)[k] == blocks[at[k]]
  {
    at := [];
    if blocks != [] {
      var n := |blocks| - 1;
      at := SelectedInOrder(blocks[..n], chosen[..n]);
      assert forall a :: 0 <= a < |at| ==> at[a] in at;
      if chosen[n] {
        at := at + [n];
      }
    }
  }

  /** Joining puts an empty line between two texts and nothing else. */
  lemma {:induction false} JoinInOrder(a: seq<string>, b: seq<string>)
    requires a != [] && b != []
    ensures Join(a + b) == Join(a) + "\n\n" + Join(b)
    decreases |b|
  {
    var all := a + b;
    assert all[..|all| - 1] == a + b[..|b| - 1];
    if |b| == 1 {
      assert a + b[..0] == a;
    } else {
      JoinInOrder(a, b[..|b| - 1]);
      assert Join(a) + "\n\n" + Join(b[..|b| - 1]) + "\n\n" + b[|b| - 1] == Join(a) + "\n\n" + (Join(b[..|b| - 1]) + "\n\n" + b[|b| - 1]);
    }
  }

  lemma JoinOne(block: string)
    ensures Join([block]) == block && Join([]) == ""
  {
  }

  /** Nothing is said of omissions exactly when nothing was omitted; otherwise their number is written
      in decimal. */
  lemma OmissionsAreSaid(blocks: seq<string>, maxChars: int)
    ensures var chosen := FirstFit(blocks, maxChars);
      Suffix(Omitted(chosen)) == "" <==> forall i :: 0 <= i < |blocks| ==> chosen[i]
    ensures var chosen := FirstFit(blocks, maxChars);
      (exists i :: 0 <= i < |blocks| && !chosen[i]) ==>
        exists digits: string :: IsIndex(digits) && Value(digits) == |blocks| - |Selected(blocks, chosen)|
          && Suffix(Omitted(chosen)) == "\n\n" + digits + " source(s) omitted because of token budget."
  {
    var chosen := FirstFit(blocks, maxChars);
    EveryBlockIsCounted(blocks, chosen);
    var at := SelectedInOrder(blocks, chosen);
    OmittedNone(chosen);
    ItoaRoundTrip(Omitted(chosen));
    hide FirstFit, Selected, Omitted, Itoa;
  }

  lemma {:induction false} OmittedNone(chosen: Choice)
    ensures Omitted(chosen) == 0 <==> forall i :: 0 <= i < |chosen| ==> chosen[i]
  {
    if chosen != [] {
      OmittedNone(chosen[..|chosen| - 1]);
    }
  }
}
