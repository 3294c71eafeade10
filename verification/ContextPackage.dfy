/** `MemoryContextBuilder.build_context_package`: greedy packing of three record lists beside a
    goal under a token budget. The percentage caps are functions of the budget. */
module ContextPackage {
  import opened Basics

  /** About four characters a token, at least one for a non-empty text. */
  function EstimateTokens(text: string): (tokens: nat)
    ensures tokens == 0 <==> text == ""
    ensures 0 < |text| < 4 ==> tokens == 1
    ensures 4 <= |text| ==> 4 * tokens <= |text| < 4 * tokens + 4
  {
    if text == "" then 0 else if |text| / 4 < 1 then 1 else |text| / 4
  }

  /** Which records of a list are kept. */
  type Choice = seq<bool>

  /** The kept texts, in their order. */
  ghost function Kept(texts: seq<string>, keep: Choice): seq<string>
    requires |texts| == |keep|
  {
    if texts == [] then []
    else Kept(texts[..|texts| - 1], keep[..|texts| - 1]) + if keep[|texts| - 1] then [texts[|texts| - 1]] else []
  }

  ghost function Tokens(texts: seq<string>): nat {
    if texts == [] then 0 else EstimateTokens(texts[0]) + Tokens(texts[1..])
  }

  lemma {:induction false} TokensAppend(texts: seq<string>, text: string)
    ensures Tokens(texts + [text]) == Tokens(texts) + EstimateTokens(text)
  {
    if texts == [] {
      assert texts + [text] == [text];
    } else {
      assert (texts + [text])[1..] == texts[1..] + [text];
      TokensAppend(texts[1..], text);
    }
  }

  ghost function Spent(texts: seq<string>, keep: Choice): nat
    requires |texts| == |keep|
  {
    if texts == [] then 0
    else
      Spent(texts[..|texts| - 1], keep[..|texts| - 1])
        + if keep[|texts| - 1] then EstimateTokens(texts[|texts| - 1]) else 0
  }

  /** A record is kept iff it still fits beside those kept before it. */
  ghost predicate IsGreedy(texts: seq<string>, keep: Choice, cap: int) {
    && |keep| == |texts|
    && forall k :: 0 <= k < |texts| ==>
         (keep[k] <==> Spent(texts[..k], keep[..k]) + EstimateTokens(texts[k]) <= cap)
  }

  lemma {:induction false} PrefixSpendsLess(texts: seq<string>, keep: Choice, k: nat)
    requires |texts| == |keep| && k <= |texts|
    ensures Spent(texts[..k], keep[..k]) <= Spent(texts, keep)
    decreases |texts|
  {
    var n := |texts| - 1;
    if k == |texts| {
      assert texts[..k] == texts && keep[..k] == keep;
    } else {
      assert texts[..n][..k] == texts[..k] && keep[..n][..k] == keep[..k];
      PrefixSpendsLess(texts[..n], keep[..n], k);
    }
  }

  /** A segment stays within its cap. */
  lemma {:induction false} GreedyWithinCap(texts: seq<string>, keep: Choice, cap: int)
    requires IsGreedy(texts, keep, cap)
    ensures Spent(texts, keep) <= if cap < 0 then 0 else cap
  {
    if texts == [] {
    } else {
      var n := |texts| - 1;
      GreedyPrefix(texts, keep, cap, n);
      GreedyWithinCap(texts[..n], keep[..n], cap);
    }
  }

  /** The tokens a greedy choice spends, from the records and the cap alone. */
  function GreedyTokens(texts: seq<string>, cap: int): nat {
    if texts == [] then 0
    else
      var before, next := GreedyTokens(texts[..|texts| - 1], cap), EstimateTokens(texts[|texts| - 1]);
      if before + next <= cap then before + next else before
  }

  /** There is one greedy choice for a list and a cap, so what it spends is known beforehand. */
  lemma {:induction false} GreedyDetermined(texts: seq<string>, keep: Choice, other: Choice, cap: int)
    requires IsGreedy(texts, keep, cap) && IsGreedy(texts, other, cap)
    ensures keep == other && Spent(texts, keep) == GreedyTokens(texts, cap)
  {
    hide EstimateTokens;
    if texts == [] {
    } else {
      var n := |texts| - 1;
      GreedyPrefix(texts, keep, cap, n);
      GreedyPrefix(texts, other, cap, n);
      GreedyDetermined(texts[..n], keep[..n], other[..n], cap);
      assert keep == keep[..n] + [keep[n]] && other == other[..n] + [other[n]];
    }
  }

  lemma GreedyPrefix(texts: seq<string>, keep: Choice, cap: int, n: nat)
    requires IsGreedy(texts, keep, cap) && n <= |texts|
    ensures IsGreedy(texts[..n], keep[..n], cap)
  {
    forall k | 0 <= k < n ensures texts[..n][..k] == texts[..k] && keep[..n][..k] == keep[..k] {
    }
  }

  /** Maximality: no skipped record fits beside the finished segment. */
  lemma NoSkippedRecordFits(texts: seq<string>, keep: Choice, cap: int, k: nat)
    requires IsGreedy(texts, keep, cap) && k < |texts| && !keep[k]
    ensures Spent(texts, keep) + EstimateTokens(texts[k]) > cap
  {
    PrefixSpendsLess(texts, keep, k);
  }

  /** Priority: where another choice within the cap first differs, it is the one that skips. */
  lemma EarlierRecordsFirst(texts: seq<string>, keep: Choice, other: Choice, cap: int, k: nat)
    requires IsGreedy(texts, keep, cap) && |other| == |texts| && Spent(texts, other) <= cap
    requires k < |texts| && keep[..k] == other[..k] && keep[k] != other[k]
    ensures keep[k] && !other[k]
  {
    assert texts[..k + 1][..k] == texts[..k] && other[..k + 1][..k] == other[..k];
    if other[k] {
      PrefixSpendsLess(texts, other, k + 1);
    }
  }

  ghost function Reverse<T>(s: seq<T>): (r: seq<T>)
    ensures |r| == |s|
  {
    seq(|s|, i requires 0 <= i < |s| => s[|s| - 1 - i])
  }

  lemma {:induction false} KeptCons(text: string, texts: seq<string>, b: bool, keep: Choice)
    requires |texts| == |keep|
    ensures Kept([text] + texts, [b] + keep) == (if b then [text] else []) + Kept(texts, keep)
  {
    var n := |texts| - 1;
    if texts == [] {
      assert ([text] + texts)[..0] == [];
    } else {
      KeptCons(text, texts[..n], b, keep[..n]);
      assert ([text] + texts)[..n + 1] == [text] + texts[..n] && ([b] + keep)[..n + 1] == [b] + keep[..n];
    }
  }

  lemma KeptSnoc(texts: seq<string>, text: string, keep: Choice, b: bool)
    requires |texts| == |keep|
    ensures Kept(texts + [text], keep + [b]) == Kept(texts, keep) + if b then [text] else []
  {
    assert (texts + [text])[..|texts|] == texts && (keep + [b])[..|texts|] == keep;
  }

  lemma SpentSnoc(texts: seq<string>, text: string, keep: Choice, b: bool)
    requires |texts| == |keep|
    ensures Spent(texts + [text], keep + [b]) == Spent(texts, keep) + if b then EstimateTokens(text) else 0
  {
    assert (texts + [text])[..|texts|] == texts && (keep + [b])[..|texts|] == keep;
  }

  lemma ReverseCons<T>(x: T, s: seq<T>)
    ensures Reverse([x] + s) == Reverse(s) + [x]
  {
  }

  /** The finished package: kept texts and tokens of each segment, and the choices behind them. */
  datatype Package = Package(history: seq<string>, personal: seq<string>, knowledge: seq<string>,
                             goalTokens: nat, historyTokens: nat, personalTokens: nat, knowledgeTokens: nat,
                             tokensUsed: nat, budgetLimit: int)

  class MemoryContextBuilder {
    const defaultMaxTokens: int
    const historyCap: int -> int
    const personalCap: int -> int

    constructor (defaultMaxTokens: int, historyCap: int -> int, personalCap: int -> int)
      ensures this.defaultMaxTokens == defaultMaxTokens
      ensures this.historyCap == historyCap && this.personalCap == personalCap
    {
      this.defaultMaxTokens, this.historyCap, this.personalCap := defaultMaxTokens, historyCap, personalCap;
    }

    /** Scan from the first record to the last. */
    method Pack(texts: seq<string>, cap: int) returns (kept: seq<string>, tokens: nat, ghost keep: Choice)
      ensures IsGreedy(texts, keep, cap) && kept == Kept(texts, keep) && tokens == Spent(texts, keep)
      ensures tokens == Tokens(kept)
    {
      hide EstimateTokens, IsGreedy, Kept, Spent;
      kept, tokens, keep := [], 0, [];
      NothingGreedy(cap);
      for i := 0 to |texts|
        invariant |keep| == i && IsGreedy(texts[..i], keep, cap)
        invariant kept == Kept(texts[..i], keep) && tokens == Spent(texts[..i], keep) == Tokens(kept)
      {
        var recTokens := EstimateTokens(texts[i]);
        ghost var fits := tokens + recTokens <= cap;
        GreedyExtend(texts[..i], keep, cap, texts[i], fits);
        SpentSnoc(texts[..i], texts[i], keep, fits);
        KeptSnoc(texts[..i], texts[i], keep, fits);
        assert texts[..i + 1] == texts[..i] + [texts[i]];
        keep := keep + [fits];
        if tokens + recTokens > cap {
          continue;
        }
        TokensAppend(kept, texts[i]);
        kept := kept + [texts[i]];
        tokens := tokens + recTokens;
      }
      assert texts[..|texts|] == texts;
    }

    /** Scan from the last record to the first, keeping the original order. */
    method PackRecent(texts: seq<string>, cap: int) returns (kept: seq<string>, tokens: nat, ghost keep: Choice)
      ensures |keep| == |texts| && kept == Kept(texts, keep)
      ensures IsGreedy(Reverse(texts), Reverse(keep), cap) && tokens == Spent(Reverse(texts), Reverse(keep))
      ensures tokens == Tokens(kept)
    {
      hide Kept, Spent, IsGreedy, Reverse, EstimateTokens;
      kept, tokens, keep := [], 0, [];
      var i := |texts|;
      NothingYet(texts, cap);
      while i > 0
        invariant 0 <= i <= |texts| && |keep| == |texts| - i
        invariant kept == Kept(texts[i..], keep) && tokens == Tokens(kept)
        invariant IsGreedy(Reverse(texts[i..]), Reverse(keep), cap)
            && tokens == Spent(Reverse(texts[i..]), Reverse(keep))
      {
        i := i - 1;
        var recTokens := EstimateTokens(texts[i]);
        ghost var fits := tokens + recTokens <= cap;
        RecentExtend(texts[i], texts[i + 1..], keep, cap, fits);
        assert texts[i..] == [texts[i]] + texts[i + 1..];
        keep := [fits] + keep;
        if tokens + recTokens > cap {
          continue;
        }
        kept := [texts[i]] + kept;
        tokens := tokens + recTokens;
      }
      assert texts[0..] == texts;
    }

    /** The package fits the budget exactly when the goal does beside the greedy choices of history and
        personal facts, and an overrun is all theirs: never more than the goal and the two caps. */
    method BuildContextPackage(goal: string, history: seq<string>, personal: seq<string>, knowledge: seq<string>,
                               maxTokens: Option<int>)
      returns (p: Package, ghost keepHistory: Choice, ghost keepPersonal: Choice, ghost keepKnowledge: Choice)
      ensures p.budgetLimit == if maxTokens.None? || maxTokens.value == 0 then defaultMaxTokens else maxTokens.value
      ensures |keepHistory| == |history| && p.history == Kept(history, keepHistory)
      ensures IsGreedy(Reverse(history), Reverse(keepHistory), historyCap(p.budgetLimit))
      ensures p.historyTokens == Spent(Reverse(history), Reverse(keepHistory))
      ensures IsGreedy(personal, keepPersonal, personalCap(p.budgetLimit)) && p.personal == Kept(personal, keepPersonal)
      ensures p.personalTokens == Spent(personal, keepPersonal)
      ensures IsGreedy(knowledge, keepKnowledge, p.budgetLimit - p.goalTokens - p.historyTokens - p.personalTokens)
      ensures p.knowledge == Kept(knowledge, keepKnowledge) && p.knowledgeTokens == Spent(knowledge, keepKnowledge)
      ensures p.goalTokens == EstimateTokens(goal)
      ensures p.historyTokens == Tokens(p.history) && p.personalTokens == Tokens(p.personal)
      ensures p.knowledgeTokens == Tokens(p.knowledge)
      ensures p.tokensUsed == p.goalTokens + p.historyTokens + p.personalTokens + p.knowledgeTokens
      ensures p.tokensUsed <= p.budgetLimit <==>
                EstimateTokens(goal) + GreedyTokens(Reverse(history), historyCap(p.budgetLimit))
                  + GreedyTokens(personal, personalCap(p.budgetLimit)) <= p.budgetLimit
      ensures p.tokensUsed > p.budgetLimit ==> p.tokensUsed == p.goalTokens + p.historyTokens + p.personalTokens
      ensures p.tokensUsed <= Max(p.budgetLimit,
                p.goalTokens + Max(0, historyCap(p.budgetLimit)) + Max(0, personalCap(p.budgetLimit)))
    {
      hide IsGreedy, Kept, Spent, Reverse, GreedyTokens, Tokens;
      var limit := if maxTokens.None? || maxTokens.value == 0 then defaultMaxTokens else maxTokens.value;
      var goalTokens := if goal != "" then EstimateTokens(goal) else 0;
      var budgetRemaining := limit - goalTokens;
      var formattedHistory, historyTokens;
      formattedHistory, historyTokens, keepHistory := PackRecent(history, historyCap(limit));
      budgetRemaining := budgetRemaining - historyTokens;
      var formattedPersonal, personalTokens;
      formattedPersonal, personalTokens, keepPersonal := Pack(personal, personalCap(limit));
      budgetRemaining := budgetRemaining - personalTokens;
      var formattedKnowledge, knowledgeTokens;
      formattedKnowledge, knowledgeTokens, keepKnowledge := Pack(knowledge, budgetRemaining);
      GreedyWithinCap(Reverse(history), Reverse(keepHistory), historyCap(limit));
      GreedyWithinCap(personal, keepPersonal, personalCap(limit));
      GreedyWithinCap(knowledge, keepKnowledge, budgetRemaining);
      GreedyDetermined(Reverse(history), Reverse(keepHistory), Reverse(keepHistory), historyCap(limit));
      GreedyDetermined(personal, keepPersonal, keepPersonal, personalCap(limit));
      p := Package(formattedHistory, formattedPersonal, formattedKnowledge, goalTokens, historyTokens, personalTokens,
                   knowledgeTokens, goalTokens + historyTokens + personalTokens + knowledgeTokens, limit);
    }
  }

  ghost function Max(a: int, b: int): int { if a < b then b else a }

  lemma NothingGreedy(cap: int)
    ensures IsGreedy([], [], cap) && Kept([], []) == [] && Spent([], []) == 0
  {
  }

  lemma GreedyExtend(texts: seq<string>, keep: Choice, cap: int, text: string, fits: bool)
    requires IsGreedy(texts, keep, cap) && |keep| == |texts|
    requires fits <==> Spent(texts, keep) + EstimateTokens(text) <= cap
    ensures IsGreedy(texts + [text], keep + [fits], cap)
  {
    hide Spent, EstimateTokens;
    var texts', keep' := texts + [text], keep + [fits];
    forall k | 0 <= k <= |texts| ensures texts'[..k] == texts[..k] && keep'[..k] == keep[..k] {
    }
    assert texts[..|texts|] == texts && keep[..|texts|] == keep;
  }

  lemma NothingYet(texts: seq<string>, cap: int)
    ensures Kept(texts[|texts|..], []) == [] && IsGreedy(Reverse(texts[|texts|..]), Reverse([]), cap)
    ensures Spent(Reverse(texts[|texts|..]), Reverse([])) == 0
  {
  }

  /** One more record at the front of a list scanned from its end. */
  lemma RecentExtend(text: string, rest: seq<string>, keep: Choice, cap: int, fits: bool)
    requires |keep| == |rest| && IsGreedy(Reverse(rest), Reverse(keep), cap)
    requires fits <==> Spent(Reverse(rest), Reverse(keep)) + EstimateTokens(text) <= cap
    ensures Kept([text] + rest, [fits] + keep) == (if fits then [text] else []) + Kept(rest, keep)
    ensures IsGreedy(Reverse([text] + rest), Reverse([fits] + keep), cap)
    ensures Spent(Reverse([text] + rest), Reverse([fits] + keep))
         == Spent(Reverse(rest), Reverse(keep)) + if fits then EstimateTokens(text) else 0
  {
    hide Kept, Spent, IsGreedy, Reverse, EstimateTokens;
    KeptCons(text, rest, fits, keep);
    ReverseCons(text, rest);
    ReverseCons(fits, keep);
    GreedyExtend(Reverse(rest), Reverse(keep), cap, text, fits);
    SpentSnoc(Reverse(rest), text, Reverse(keep), fits);
  }

  /** A goal of two tokens overruns a budget of one by itself. */
  method OverrunExample(historyCap: int -> int, personalCap: int -> int) returns (p: Package)
    ensures p.budgetLimit == 1 && p.tokensUsed == p.goalTokens == 2
  {
    hide IsGreedy;
    var builder := new MemoryContextBuilder(1, historyCap, personalCap);
    ghost var history, personal, knowledge;
    p, history, personal, knowledge := builder.BuildContextPackage("aaaaaaaa", [], [], [], None);
    assert p.tokensUsed > p.budgetLimit;
  }
}
