/** DecideHandoff: who gets a card next once it hits a cap, and what a chain of such handoffs can do. */
module Handoff {
  import opened Options

  datatype Config = Config(enabled: bool, startCap: int, turnCap: int, compactionCap: int, banner: string)

  datatype Rules = Rules(defaultAssignee: Option<string>, fallbackChain: seq<string>)

  datatype Facts = Facts(starts: int, turns: int, compactions: int, current: string, visited: seq<string>)

  datatype Outcome = NoHandoff | Handoff | Exhausted

  datatype Decision = Decision(outcome: Outcome, capName: string, recipient: string, banner: string)

  const DEFAULT_BANNER := "Handoff"

  // ----- keys -----

  /** Unicode's White_Space characters. */
  predicate IsSpace(ch: char) {
    || '\t' <= ch <= '\r' || ch == ' ' || ch == '\U{0085}' || ch == '\U{00A0}' || ch == '\U{1680}'
    || '\U{2000}' <= ch <= '\U{200A}' || ch == '\U{2028}' || ch == '\U{2029}' || ch == '\U{202F}'
    || ch == '\U{205F}' || ch == '\U{3000}'
  }

  function TrimSpace(s: string): string {
    if s != "" && IsSpace(s[0]) then TrimSpace(s[1..])
    else if s != "" && IsSpace(s[|s| - 1]) then TrimSpace(s[..|s| - 1])
    else s
  }

  function MapChars(lower: char -> char, s: string): string {
    seq(|s|, i requires 0 <= i < |s| => lower(s[i]))
  }

  /** An assignee reference for comparison; `lower` is the case mapping of one character. */
  function Key(lower: char -> char, s: string): string {
    var t := MapChars(lower, TrimSpace(s));
    if "agent:" <= t then t[|"agent:"|..] else t
  }

  lemma {:induction false} TrailingSpaceIsTrimmed(s: string, ch: char)
    requires IsSpace(ch)
    ensures TrimSpace(s + [ch]) == TrimSpace(s)
    decreases |s|
  {
    if s != "" && IsSpace(s[0]) {
      assert (s + [ch])[1..] == s[1..] + [ch];
      TrailingSpaceIsTrimmed(s[1..], ch);
    } else if s != "" {
      assert (s + [ch])[..|s|] == s;
    }
  }

  /** Space around a reference does not change its key. */
  lemma KeyIgnoresSpace(lower: char -> char, s: string, ch: char)
    requires IsSpace(ch)
    ensures Key(lower, [ch] + s) == Key(lower, s) && Key(lower, s + [ch]) == Key(lower, s)
  {
    assert ([ch] + s)[1..] == s;
    TrailingSpaceIsTrimmed(s, ch);
  }

  /** A bare reference and the same one behind "agent:" have one key. */
  lemma KeyIgnoresPrefix(lower: char -> char, s: string)
    requires s != "" && TrimSpace(s) == s && !("agent:" <= MapChars(lower, s))
    requires MapChars(lower, "agent:") == "agent:"
    ensures Key(lower, "agent:" + s) == Key(lower, s)
  {
    var t := "agent:" + s;
    LastIsNoSpace(s);
    assert TrimSpace(t) == t;
    assert MapChars(lower, t) == MapChars(lower, "agent:") + MapChars(lower, s);
    assert MapChars(lower, t)[|"agent:"|..] == MapChars(lower, s);
  }

  lemma LastIsNoSpace(s: string)
    requires s != "" && TrimSpace(s) == s
    ensures !IsSpace(s[|s| - 1])
  {
    TrimShortens(s[1..]);
    TrimShortens(s[..|s| - 1]);
  }

  lemma {:induction false} TrimShortens(s: string)
    ensures |TrimSpace(s)| <= |s|
    decreases |s|
  {
    if s != "" {
      TrimShortens(s[1..]);
      TrimShortens(s[..|s| - 1]);
    }
  }

  // ----- one decision -----

  function ReachedCap(c: Config, f: Facts): (cap: string)
    ensures cap == "" <==> !(0 < c.startCap <= f.starts || 0 < c.turnCap <= f.turns || 0 < c.compactionCap <= f.compactions)
    ensures cap == "start" <==> 0 < c.startCap <= f.starts
    ensures cap == "turn" ==> 0 < c.turnCap <= f.turns
    ensures cap == "compaction" ==> 0 < c.compactionCap <= f.compactions && !(0 < c.turnCap <= f.turns)
  {
    if c.startCap > 0 && f.starts >= c.startCap then "start"
    else if c.turnCap > 0 && f.turns >= c.turnCap then "turn"
    else if c.compactionCap > 0 && f.compactions >= c.compactionCap then "compaction"
    else ""
  }

  function Candidates(rules: Option<Rules>): seq<string> {
    match rules
    case None => []
    case Some(r) =>
      (if r.defaultAssignee.Some? && r.defaultAssignee.value != "" then [r.defaultAssignee.value] else []) + r.fallbackChain
  }

  /** The keys of everyone who has, or has had, the card. */
  function Used(lower: char -> char, f: Facts): set<string> {
    {Key(lower, f.current)} + set v | v in f.visited :: Key(lower, v)
  }

  predicate Free(lower: char -> char, f: Facts, candidate: string) {
    Key(lower, candidate) != "" && Key(lower, candidate) !in Used(lower, f)
  }

  /** The card is due: the policy is on and some cap is reached. */
  predicate Due(cfg: Option<Config>, f: Facts) {
    cfg.Some? && cfg.value.enabled && ReachedCap(cfg.value, f) != ""
  }

  /** What the answer must be: the first free candidate gets a due card. */
  ghost predicate IsDecision(lower: char -> char, cfg: Option<Config>, rules: Option<Rules>, f: Facts, d: Decision) {
    var candidates := Candidates(rules);
    match d.outcome
    case NoHandoff => !Due(cfg, f) && d == Decision(NoHandoff, "", "", "")
    case Handoff =>
      && DueAs(cfg, f, d)
      && exists i :: 0 <= i < |candidates| && candidates[i] == d.recipient && FirstFree(lower, f, candidates, i)
    case Exhausted =>
      DueAs(cfg, f, d) && d.recipient == "" && forall c | c in candidates :: !Free(lower, f, c)
  }

  ghost predicate FirstFree(lower: char -> char, f: Facts, candidates: seq<string>, i: nat)
    requires i < |candidates|
  {
    Free(lower, f, candidates[i]) && forall j | 0 <= j < i :: !Free(lower, f, candidates[j])
  }

  predicate DueAs(cfg: Option<Config>, f: Facts, d: Decision) {
    && Due(cfg, f) && d.capName == ReachedCap(cfg.value, f)
    && d.banner == if cfg.value.banner == "" then DEFAULT_BANNER else cfg.value.banner
  }

  method DecideHandoff(lower: char -> char, cfg: Option<Config>, rules: Option<Rules>, f: Facts) returns (d: Decision)
    ensures IsDecision(lower, cfg, rules, f, d)
  {
    hide Key;
    if cfg.None? || !cfg.value.enabled {
      return Decision(NoHandoff, "", "", "");
    }
    var capHit := ReachedCap(cfg.value, f);
    if capHit == "" {
      return Decision(NoHandoff, "", "", "");
    }
    var banner := cfg.value.banner;
    if banner == "" {
      banner := DEFAULT_BANNER;
    }
    d := Decision(Exhausted, capHit, "", banner);
    var skip := {Key(lower, f.current)};
    for i := 0 to |f.visited|
      invariant skip == {Key(lower, f.current)} + set v | v in f.visited[..i] :: Key(lower, v)
    {
      assert f.visited[..i + 1] == f.visited[..i] + [f.visited[i]];
      skip := skip + {Key(lower, f.visited[i])};
    }
    assert f.visited[..|f.visited|] == f.visited;
    var candidates: seq<string> := [];
    if rules.Some? {
      if rules.value.defaultAssignee.Some? && rules.value.defaultAssignee.value != "" {
        candidates := candidates + [rules.value.defaultAssignee.value];
      }
      candidates := candidates + rules.value.fallbackChain;
    }
    assert candidates == Candidates(rules) && skip == Used(lower, f);
    for i := 0 to |candidates|
      invariant forall j | 0 <= j < i :: !Free(lower, f, candidates[j])
    {
      var k := Key(lower, candidates[i]);
      if k == "" || k in skip {
        continue;
      }
      d := d.(outcome := Handoff, recipient := candidates[i]);
      assert Free(lower, f, candidates[i]) && FirstFree(lower, f, candidates, i);
      assert DueAs(cfg, f, d);
      return d;
    }
  }

  /** The answer is a function of the input. */
  lemma DecisionIsUnique(lower: char -> char, cfg: Option<Config>, rules: Option<Rules>, f: Facts, d: Decision, e: Decision)
    requires IsDecision(lower, cfg, rules, f, d) && IsDecision(lower, cfg, rules, f, e)
    ensures d == e
  {}

  // ----- chains -----

  function CandidateKeys(lower: char -> char, rules: Option<Rules>): set<string> {
    set c | c in Candidates(rules) && Key(lower, c) != "" :: Key(lower, c)
  }

  /** One handoff: the old assignee joins the visited ones, the recipient becomes current, the counts may be anything. */
  ghost predicate HandsOver(lower: char -> char, cfg: Option<Config>, rules: Option<Rules>, f: Facts, g: Facts) {
    && g.visited == f.visited + [f.current]
    && exists d :: IsDecision(lower, cfg, rules, f, d) && d.outcome == Handoff && g.current == d.recipient
  }

  ghost predicate IsChain(lower: char -> char, cfg: Option<Config>, rules: Option<Rules>, chain: seq<Facts>) {
    chain != [] && forall i, j | 0 <= i < |chain| && j == i + 1 < |chain| :: HandsOver(lower, cfg, rules, chain[i], chain[j])
  }

  lemma OneHandoffUsesOneKey(lower: char -> char, cfg: Option<Config>, rules: Option<Rules>, f: Facts, g: Facts)
    requires HandsOver(lower, cfg, rules, f, g)
    ensures Key(lower, g.current) in CandidateKeys(lower, rules) - Used(lower, f)
    ensures Used(lower, g) == Used(lower, f) + {Key(lower, g.current)}
  {}

  /** The keys in use grow by one fresh candidate key a handoff. */
  lemma {:induction false} ChainUsesFreshKeys(lower: char -> char, cfg: Option<Config>, rules: Option<Rules>, chain: seq<Facts>)
    requires IsChain(lower, cfg, rules, chain)
    ensures var first, last := Used(lower, chain[0]), Used(lower, chain[|chain| - 1]);
            first <= last && last - first <= CandidateKeys(lower, rules) && |last - first| == |chain| - 1
  {
    hide Key, HandsOver, Used, CandidateKeys;
    if |chain| > 1 {
      var front := chain[..|chain| - 1];
      assert IsChain(lower, cfg, rules, front);
      ChainUsesFreshKeys(lower, cfg, rules, front);
      var f, g := chain[|chain| - 2], chain[|chain| - 1];
      assert HandsOver(lower, cfg, rules, f, g) && f == front[|front| - 1];
      OneHandoffUsesOneKey(lower, cfg, rules, f, g);
      var first, key := Used(lower, chain[0]), Key(lower, g.current);
      assert Used(lower, g) - first == (Used(lower, f) - first) + {key};
    }
  }

  /** A chain makes at most one handoff per distinct candidate key not in use at the start. */
  lemma ChainIsBounded(lower: char -> char, cfg: Option<Config>, rules: Option<Rules>, chain: seq<Facts>)
    requires IsChain(lower, cfg, rules, chain)
    ensures |chain| - 1 <= |CandidateKeys(lower, rules) - Used(lower, chain[0])|
  {
    hide Used, CandidateKeys;
    ChainUsesFreshKeys(lower, cfg, rules, chain);
    var first, last := Used(lower, chain[0]), Used(lower, chain[|chain| - 1]);
    SubsetIsSmaller(last - first, CandidateKeys(lower, rules) - first);
  }

  lemma {:induction false} SubsetIsSmaller<T>(a: set<T>, b: set<T>)
    requires a <= b
    ensures |a| <= |b|
    decreases a
  {
    if a != {} {
      var x :| x in a;
      SubsetIsSmaller(a - {x}, b - {x});
    }
  }

  /** No one gets the card back: the assignee at any later point is new to the chain and to whoever came before it. */
  lemma ChainNeverReturns(lower: char -> char, cfg: Option<Config>, rules: Option<Rules>, chain: seq<Facts>, i: nat, j: nat)
    requires IsChain(lower, cfg, rules, chain) && i < j < |chain|
    ensures Key(lower, chain[j].current) !in Used(lower, chain[i])
  {
    hide Key, HandsOver, Used, CandidateKeys;
    assert HandsOver(lower, cfg, rules, chain[j - 1], chain[j]);
    OneHandoffUsesOneKey(lower, cfg, rules, chain[j - 1], chain[j]);
    assert IsChain(lower, cfg, rules, chain[i..j]) by {
      forall k, l | 0 <= k < |chain[i..j]| && l == k + 1 < |chain[i..j]| ensures HandsOver(lower, cfg, rules, chain[i..j][k], chain[i..j][l]) {
        assert HandsOver(lower, cfg, rules, chain[i + k], chain[i + l]);
      }
    }
    ChainUsesFreshKeys(lower, cfg, rules, chain[i..j]);
    assert chain[i..j][0] == chain[i] && chain[i..j][|chain[i..j]| - 1] == chain[j - 1];
  }

  /** A due card is exhausted exactly when every non-empty candidate key is in use. */
  lemma ExhaustedIff(lower: char -> char, cfg: Option<Config>, rules: Option<Rules>, f: Facts, d: Decision)
    requires IsDecision(lower, cfg, rules, f, d) && Due(cfg, f)
    ensures d.outcome == Exhausted <==> CandidateKeys(lower, rules) <= Used(lower, f)
  {}

  /** A chain as long as its bound can only end: the next due report is exhausted. */
  lemma FullChainIsExhausted(lower: char -> char, cfg: Option<Config>, rules: Option<Rules>, chain: seq<Facts>, d: Decision)
    requires IsChain(lower, cfg, rules, chain)
    requires IsDecision(lower, cfg, rules, chain[|chain| - 1], d) && Due(cfg, chain[|chain| - 1])
    ensures d.outcome == Exhausted <==> |chain| - 1 == |CandidateKeys(lower, rules) - Used(lower, chain[0])|
  {
    hide Key, HandsOver, Used, CandidateKeys, Due, IsDecision;
    var first, last, keys := Used(lower, chain[0]), Used(lower, chain[|chain| - 1]), CandidateKeys(lower, rules);
    ExhaustedIff(lower, cfg, rules, chain[|chain| - 1], d);
    ChainUsesFreshKeys(lower, cfg, rules, chain);
    if keys <= last {
      assert last - first == keys - first;
    } else {
      var k :| k in keys && k !in last;
      SubsetIsSmaller((last - first) + {k}, keys - first);
    }
  }

  // ----- told in the report and the rules -----

  /** No space at either end. */
  predicate Bare(s: string) {
    s == "" || (!IsSpace(s[0]) && !IsSpace(s[|s| - 1]))
  }

  lemma {:induction false} SpaceIsTrimmed(before: string, core: string, after: string)
    requires Bare(core) && (forall i | 0 <= i < |before| :: IsSpace(before[i])) && forall i | 0 <= i < |after| :: IsSpace(after[i])
    ensures TrimSpace(before + core + after) == core
    decreases |before| + |after|
  {
    var s := before + core + after;
    if before != [] {
      assert s[1..] == before[1..] + core + after && s[0] == before[0];
      SpaceIsTrimmed(before[1..], core, after);
    } else if after != [] {
      var n := |after| - 1;
      var front := [] + core + after[..n];
      assert s == front + [after[n]];
      SpaceIsTrimmed([], core, after[..n]);
      hide TrimSpace;
      TrailingSpaceIsTrimmed(front, after[n]);
    } else {
      assert s == core;
    }
  }

  /** The key of a reference: without the space around it, each character in lower case, and without "agent:" in front. */
  lemma KeyInWords(lower: char -> char, before: string, core: string, after: string)
    requires Bare(core) && (forall i | 0 <= i < |before| :: IsSpace(before[i])) && forall i | 0 <= i < |after| :: IsSpace(after[i])
    ensures var low := seq(|core|, i requires 0 <= i < |core| => lower(core[i]));
            Key(lower, before + core + after) == if |low| >= 6 && low[..6] == "agent:" then low[6..] else low
  {
    SpaceIsTrimmed(before, core, after);
    hide TrimSpace;
    var low := MapChars(lower, core);
    assert "agent:" <= low <==> |low| >= 6 && low[..6] == "agent:";
  }

  /** Whoever has had the card, or has it. */
  predicate Had(lower: char -> char, f: Facts, key: string) {
    key == Key(lower, f.current) || exists v | v in f.visited :: Key(lower, v) == key
  }

  /** A candidate can take the card. */
  predicate CanTake(lower: char -> char, f: Facts, c: string) {
    Key(lower, c) != "" && !Had(lower, f, Key(lower, c))
  }

  /** The first of start, turn and compaction whose positive cap is reached. */
  predicate Hits(c: Config, f: Facts, cap: string) {
    match cap
    case "start" => 0 < c.startCap <= f.starts
    case "turn" => 0 < c.turnCap <= f.turns && !(0 < c.startCap <= f.starts)
    case "compaction" =>
      0 < c.compactionCap <= f.compactions && !(0 < c.startCap <= f.starts) && !(0 < c.turnCap <= f.turns)
    case _ => false
  }

  /** The default assignee, when one is named. */
  predicate IsLead(rules: Option<Rules>, c: string) {
    rules.Some? && rules.value.defaultAssignee == Some(c) && c != ""
  }

  /** A decision in the words of the rules: a lead who can take the card gets it, else the first in the chain who can, else
      nobody is left; only a card at a cap under an enabled policy is decided, with the cap and the banner. */
  lemma DecisionInWords(lower: char -> char, cfg: Option<Config>, rules: Option<Rules>, f: Facts, d: Decision)
    requires IsDecision(lower, cfg, rules, f, d)
    ensures d.outcome == NoHandoff <==> !(cfg.Some? && cfg.value.enabled && exists cap :: Hits(cfg.value, f, cap))
    ensures d.outcome == NoHandoff ==> d.capName == "" && d.recipient == "" && d.banner == ""
    ensures d.outcome != NoHandoff ==>
              cfg.Some? && Hits(cfg.value, f, d.capName)
              && d.banner == if cfg.value.banner != "" then cfg.value.banner else "Handoff"
    ensures d.outcome == Exhausted ==>
              d.recipient == "" && (forall c | IsLead(rules, c) :: !CanTake(lower, f, c))
              && (rules.Some? ==> forall c | c in rules.value.fallbackChain :: !CanTake(lower, f, c))
    ensures d.outcome == Handoff ==>
              && CanTake(lower, f, d.recipient) && rules.Some?
              && (IsLead(rules, d.recipient) || FirstInChain(lower, f, rules.value.fallbackChain, d.recipient))
              && (forall c | IsLead(rules, c) && CanTake(lower, f, c) :: d.recipient == c)
  {
    hide Key;
    forall c ensures CanTake(lower, f, c) <==> Free(lower, f, c) { FreeCanTake(lower, f, c); }
    if cfg.Some? { CapInWords(cfg.value, f); }
    hide Free, CanTake, ReachedCap, Hits;
    var candidates := Candidates(rules);
    if d.outcome == Handoff {
      var i :| 0 <= i < |candidates| && candidates[i] == d.recipient && FirstFree(lower, f, candidates, i);
      ChainPosition(lower, f, rules, i);
    }
    if rules.Some? {
      assert forall c | c in rules.value.fallbackChain :: c in candidates;
      assert forall c | IsLead(rules, c) :: c in candidates;
    }
  }

  ghost predicate FirstInChain(lower: char -> char, f: Facts, chain: seq<string>, c: string) {
    exists i :: 0 <= i < |chain| && chain[i] == c && forall j | 0 <= j < i :: !CanTake(lower, f, chain[j])
  }

  lemma FreeCanTake(lower: char -> char, f: Facts, c: string)
    ensures CanTake(lower, f, c) <==> Free(lower, f, c)
  {
    hide Key;
  }

  lemma CapInWords(c: Config, f: Facts)
    ensures ReachedCap(c, f) != "" ==> Hits(c, f, ReachedCap(c, f))
    ensures forall cap :: Hits(c, f, cap) ==> ReachedCap(c, f) == cap
  {
    forall cap | Hits(c, f, cap) ensures ReachedCap(c, f) == cap && cap != "" {}
  }

  lemma ChainPosition(lower: char -> char, f: Facts, rules: Option<Rules>, i: nat)
    requires i < |Candidates(rules)| && FirstFree(lower, f, Candidates(rules), i)
    ensures rules.Some?
    ensures var c := Candidates(rules)[i];
            && (IsLead(rules, c) || FirstInChain(lower, f, rules.value.fallbackChain, c))
            && (forall lead | IsLead(rules, lead) && CanTake(lower, f, lead) :: c == lead)
  {
    forall c ensures CanTake(lower, f, c) <==> Free(lower, f, c) { FreeCanTake(lower, f, c); }
    hide Free, CanTake;
    var candidates, chain := Candidates(rules), rules.value.fallbackChain;
    if candidates == chain {
      assert FirstInChain(lower, f, chain, candidates[i]);
    } else if i > 0 {
      InChainBehindLead(lower, f, rules, i);
    }
  }

  lemma InChainBehindLead(lower: char -> char, f: Facts, rules: Option<Rules>, i: nat)
    requires 0 < i < |Candidates(rules)| && rules.Some? && Candidates(rules) != rules.value.fallbackChain
    requires forall j | 0 <= j < i :: !CanTake(lower, f, Candidates(rules)[j])
    ensures FirstInChain(lower, f, rules.value.fallbackChain, Candidates(rules)[i])
    ensures forall lead | IsLead(rules, lead) :: !CanTake(lower, f, lead)
  {
    hide CanTake;
    var candidates, chain := Candidates(rules), rules.value.fallbackChain;
    assert candidates == [candidates[0]] + chain;
    assert chain[i - 1] == candidates[i];
    forall j | 0 <= j < i - 1 ensures !CanTake(lower, f, chain[j]) { assert candidates[j + 1] == chain[j]; }
  }
}
