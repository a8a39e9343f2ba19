/**
 * The Bedrock-to-Java block translation table: one group per base block name
 * (a sparse table indexed by legacy value, an insertion-ordered anchor list
 * and a quick-match index by canonical key), and the convertor that routes
 * each base name to its group and creates groups lazily.
 *
 * The pure functions on `GroupState` say what every operation does; the two
 * classes hold the state in place and are proved against them.
 */
module ToJava {
  import opened Wrappers
  import opened Ints
  import opened Describe

  /** One (property set, Java block) association; the property set may be nil. */
  datatype Anchor = Anchor(states: Option<PropsForSearch>, javaBlock: JavaBlockString)

  /** The content of one group: legacy table (None = unset slot), anchors, quick-match index. */
  datatype GroupState = GroupState(
    legacy: seq<Option<JavaBlockString>>,
    anchors: seq<Anchor>,
    quickMatch: map<string, JavaBlockString>)

  const EmptyGroup: GroupState := GroupState([], [], map[])

  function GroupOrEmpty(groups: map<string, GroupState>, name: string): GroupState {
    if name in groups then groups[name] else EmptyGroup
  }

  // ---------------------------------------------------------------------------
  // Legacy-value table

  /** `n` unset slots. */
  function Unset(n: nat): (r: seq<Option<JavaBlockString>>)
    ensures |r| == n && forall i :: 0 <= i < n ==> r[i].None?
  {
    seq(n, _ => None)
  }

  /**
   * `addAnchorByLegacyValue` on the table: returns the new table and `exist`.
   * The table grows to cover the index and never shrinks; only slot `v` may change.
   */
  function LegacyInsert(table: seq<Option<JavaBlockString>>, v: uint16, javaBlock: JavaBlockString, overwrite: bool)
    : (r: (seq<Option<JavaBlockString>>, bool))
    ensures |r.0| == if v < |table| then |table| else v + 1
    ensures r.1 <==> v < |table| && table[v].Some? && !overwrite
    ensures r.1 ==> r.0 == table
    ensures !r.1 ==> r.0[v] == Some(javaBlock)
    ensures forall i :: 0 <= i < |r.0| && i != v ==> r.0[i] == if i < |table| then table[i] else None
  {
    if v < |table| then
      if table[v].None? || overwrite then (table[v := Some(javaBlock)], false) else (table, true)
    else
      (table + Unset(v - |table|) + [Some(javaBlock)], false)
  }

  function GroupAddLegacy(g: GroupState, v: uint16, javaBlock: JavaBlockString, overwrite: bool): (r: (GroupState, bool))
    ensures r.0.anchors == g.anchors && r.0.quickMatch == g.quickMatch
  {
    var (t, exist) := LegacyInsert(g.legacy, v, javaBlock, overwrite);
    (g.(legacy := t), exist)
  }

  /** `preciseMatchByLegacyValue`: the set slot, else the group's air block with false. */
  function PreciseLegacy(g: GroupState, v: uint16, air: JavaBlockString): (r: (JavaBlockString, bool))
    ensures r.1 <==> v < |g.legacy| && g.legacy[v].Some?
    ensures r.1 ==> r.0 == g.legacy[v].value
    ensures !r.1 ==> r.0 == air
  {
    if v < |g.legacy| then
      if g.legacy[v].None? then (air, false) else (g.legacy[v].value, true)
    else (air, false)
  }

  /**
   * `fuzzySearchByLegacyValue`: the precise result if found; else the anchor at
   * position `v`, else the first anchor; air with false only when both fail.
   */
  function BestLegacy(g: GroupState, v: uint16, air: JavaBlockString): (r: (JavaBlockString, bool))
    ensures PreciseLegacy(g, v, air).1 ==> r == PreciseLegacy(g, v, air)
    ensures r.1 <==> PreciseLegacy(g, v, air).1 || |g.anchors| > 0
    ensures !PreciseLegacy(g, v, air).1 && v < |g.anchors| ==> r.0 == g.anchors[v].javaBlock
    ensures !PreciseLegacy(g, v, air).1 && |g.anchors| <= v && |g.anchors| > 0 ==> r.0 == g.anchors[0].javaBlock
    ensures !r.1 ==> r.0 == air
  {
    if v < |g.legacy| && g.legacy[v].Some? then (g.legacy[v].value, true)
    else if v < |g.anchors| then (g.anchors[v].javaBlock, true)
    else if |g.anchors| > 0 then (g.anchors[0].javaBlock, true)
    else (air, false)
  }

  /**
   * After a legacy insert that reports not-present, the precise lookup finds
   * the new target, and every other legacy value looks up as before.
   */
  lemma InsertThenPreciseLegacy(g: GroupState, v: uint16, javaBlock: JavaBlockString, overwrite: bool, air: JavaBlockString)
    ensures var (g', exist) := GroupAddLegacy(g, v, javaBlock, overwrite);
            (!exist ==> PreciseLegacy(g', v, air) == (javaBlock, true))
            && (exist ==> g' == g && PreciseLegacy(g, v, air) == (g.legacy[v].value, true))
            && (forall u: uint16 :: u != v ==> PreciseLegacy(g', u, air) == PreciseLegacy(g, u, air))
            && |g'.legacy| >= |g.legacy|
  {
    var (g', exist) := GroupAddLegacy(g, v, javaBlock, overwrite);
    forall u: uint16 | u != v
      ensures PreciseLegacy(g', u, air) == PreciseLegacy(g, u, air)
    {
      if u < |g'.legacy| {
        assert g'.legacy[u] == if u < |g.legacy| then g.legacy[u] else None;
      }
    }
  }

  // ---------------------------------------------------------------------------
  // The bounds test as written (see README, Findings)

  /** `int(legacyValue+1) <= len(table)` with the addition done in uint16, as in to_java.go. */
  predicate GuardAsWritten(v: uint16, len: nat) {
    ToUint16(v + 1) <= len
  }

  /** `preciseMatchByLegacyValue` as written; `None` stands for the index-out-of-range panic. */
  function PreciseLegacyAsWritten(g: GroupState, v: uint16, air: JavaBlockString): (r: Option<(JavaBlockString, bool)>)
    ensures r.Some? ==> r.value == PreciseLegacy(g, v, air)
  {
    if GuardAsWritten(v, |g.legacy|) then
      if v < |g.legacy| then
        Some(if g.legacy[v].None? then (air, false) else (g.legacy[v].value, true))
      else None
    else Some((air, false))
  }

  /**
   * As written, legacy value 65535 passes the guard (65535+1 wraps to 0) and
   * then indexes past the end of every table the code can build, which never
   * grows beyond 65535 slots; below 65535 the written code agrees with
   * `PreciseLegacy`.
   */
  lemma AsWrittenPanicsAtMaxLegacyValue(g: GroupState, v: uint16, air: JavaBlockString)
    requires |g.legacy| <= 65535
    ensures v == 65535 ==> PreciseLegacyAsWritten(g, v, air) == None
    ensures v < 65535 ==> PreciseLegacyAsWritten(g, v, air) == Some(PreciseLegacy(g, v, air))
  {
  }

  /**
   * `addAnchorByLegacyValue` as written: the in-place branch behind the
   * written guard, then the grow loop `for int(legacyValue+1) > len`;
   * `None` stands for the index-out-of-range panic.
   */
  function LegacyInsertAsWritten(table: seq<Option<JavaBlockString>>, v: uint16, javaBlock: JavaBlockString, overwrite: bool)
    : (r: Option<(seq<Option<JavaBlockString>>, bool)>)
    ensures r.Some? ==> r.value == LegacyInsert(table, v, javaBlock, overwrite)
  {
    if GuardAsWritten(v, |table|) then
      if v < |table| then
        Some(if table[v].None? || overwrite then (table[v := Some(javaBlock)], false) else (table, true))
      else None
    else
      Some((table + Unset(v - |table|) + [Some(javaBlock)], false))
  }

  /**
   * As written, inserting legacy value 65535 panics on every table the code
   * can build, and so never grows the table past 65535 slots; below 65535 the
   * written code agrees with `LegacyInsert`.
   */
  lemma AsWrittenInsertPanicsAtMaxLegacyValue(table: seq<Option<JavaBlockString>>, v: uint16, javaBlock: JavaBlockString, overwrite: bool)
    requires |table| <= 65535
    ensures v == 65535 ==> LegacyInsertAsWritten(table, v, javaBlock, overwrite) == None
    ensures v < 65535 ==> LegacyInsertAsWritten(table, v, javaBlock, overwrite) == Some(LegacyInsert(table, v, javaBlock, overwrite))
    ensures v < 65535 ==> |LegacyInsert(table, v, javaBlock, overwrite).0| <= 65535
  {
  }

  /**
   * `fuzzySearchByLegacyValue` as written, with the uint16 guard before the
   * legacy slot and before the anchor at position `v`; `None` stands for the
   * index-out-of-range panic.
   */
  function BestLegacyAsWritten(g: GroupState, v: uint16, air: JavaBlockString): (r: Option<(JavaBlockString, bool)>)
    ensures r.Some? ==> r.value == BestLegacy(g, v, air)
  {
    if GuardAsWritten(v, |g.legacy|) && v >= |g.legacy| then None
    else if GuardAsWritten(v, |g.legacy|) && g.legacy[v].Some? then Some((g.legacy[v].value, true))
    else if GuardAsWritten(v, |g.anchors|) then
      if v < |g.anchors| then Some((g.anchors[v].javaBlock, true)) else None
    else if |g.anchors| > 0 then Some((g.anchors[0].javaBlock, true))
    else Some((air, false))
  }

  /**
   * As written, the best-effort lookup of legacy value 65535 panics on every
   * table the code can build, whatever the anchors; below 65535 it agrees
   * with `BestLegacy`.
   */
  lemma AsWrittenFuzzyPanicsAtMaxLegacyValue(g: GroupState, v: uint16, air: JavaBlockString)
    requires |g.legacy| <= 65535
    ensures v == 65535 ==> BestLegacyAsWritten(g, v, air) == None
    ensures v < 65535 ==> BestLegacyAsWritten(g, v, air) == Some(BestLegacy(g, v, air))
  {
  }

  // ---------------------------------------------------------------------------
  // State anchors and the quick-match index

  /** The key an insert files a property set under: `"{}"` for nil, else its canonical key. */
  function AnchorKey(lib: PropsLib, states: Option<PropsForSearch>): string {
    if states.None? then "{}" else lib.inPreciseSNBT(states)
  }

  /** The position of the last anchor filed under `key`, or -1 when there is none. */
  function LastWithKey(lib: PropsLib, anchors: seq<Anchor>, key: string): (k: int)
    ensures -1 <= k < |anchors|
    ensures k == -1 <==> forall i :: 0 <= i < |anchors| ==> AnchorKey(lib, anchors[i].states) != key
    ensures k >= 0 ==> AnchorKey(lib, anchors[k].states) == key
    ensures k >= 0 ==> forall i :: k < i < |anchors| ==> AnchorKey(lib, anchors[i].states) != key
    decreases |anchors|
  {
    if |anchors| == 0 then -1
    else if AnchorKey(lib, anchors[|anchors| - 1].states) == key then |anchors| - 1
    else LastWithKey(lib, anchors[..|anchors| - 1], key)
  }

  /** The quick-match index an anchor list determines: each key maps to its last anchor's target. */
  function QuickMatchIndex(lib: PropsLib, anchors: seq<Anchor>): map<string, JavaBlockString>
    decreases |anchors|
  {
    if |anchors| == 0 then map[]
    else
      var last := anchors[|anchors| - 1];
      QuickMatchIndex(lib, anchors[..|anchors| - 1])[AnchorKey(lib, last.states) := last.javaBlock]
  }

  /** The index holds exactly the anchors' keys, each with the target of the last anchor filed under it. */
  lemma {:induction false} QuickMatchIndexAgrees(lib: PropsLib, anchors: seq<Anchor>, key: string)
    ensures key in QuickMatchIndex(lib, anchors) <==> LastWithKey(lib, anchors, key) >= 0
    ensures key in QuickMatchIndex(lib, anchors) ==>
              QuickMatchIndex(lib, anchors)[key] == anchors[LastWithKey(lib, anchors, key)].javaBlock
    decreases |anchors|
  {
    if |anchors| > 0 {
      QuickMatchIndexAgrees(lib, anchors[..|anchors| - 1], key);
    }
  }

  /**
   * `addAnchorByState` on the anchors and index. Present with an equal target
   * (same value or same `String()`), or present and no overwrite: nothing
   * changes and `exist` is true. Otherwise the anchor is appended and the key
   * (re)indexed. The index stays the one the anchor list determines.
   */
  function StateInsert(lib: PropsLib, g: GroupState, states: Option<PropsForSearch>,
                       javaBlock: JavaBlockString, overwrite: bool): (r: (GroupState, bool))
    ensures r.0.legacy == g.legacy
    ensures var key := AnchorKey(lib, states);
            r.1 <==> key in g.quickMatch && (g.quickMatch[key].ToString() == javaBlock.ToString() || !overwrite)
    ensures r.1 ==> r.0 == g
    ensures !r.1 ==> r.0.anchors == g.anchors + [Anchor(states, javaBlock)]
                     && r.0.quickMatch == g.quickMatch[AnchorKey(lib, states) := javaBlock]
    ensures g.quickMatch == QuickMatchIndex(lib, g.anchors) ==> r.0.quickMatch == QuickMatchIndex(lib, r.0.anchors)
  {
    var key := AnchorKey(lib, states);
    if key in g.quickMatch && (g.quickMatch[key] == javaBlock || g.quickMatch[key].ToString() == javaBlock.ToString()) then
      (g, true)
    else if key in g.quickMatch && !overwrite then
      (g, true)
    else
      var anchors' := g.anchors + [Anchor(states, javaBlock)];
      assert anchors'[..|anchors'| - 1] == g.anchors;
      (g.(anchors := anchors', quickMatch := g.quickMatch[key := javaBlock]), false)
  }

  /** `preciseMatchByState`: the indexed target of the canonical key, or nil with false. */
  function PreciseState(lib: PropsLib, g: GroupState, states: Option<PropsForSearch>): (r: (Option<JavaBlockString>, bool))
    ensures r.1 <==> r.0.Some?
    ensures g.quickMatch == QuickMatchIndex(lib, g.anchors) ==>
              var k := LastWithKey(lib, g.anchors, lib.inPreciseSNBT(states));
              (r.1 <==> k >= 0) && (r.1 ==> r.0.value == g.anchors[k].javaBlock)
  {
    QuickMatchIndexAgrees(lib, g.anchors, lib.inPreciseSNBT(states));
    var key := lib.inPreciseSNBT(states);
    if key in g.quickMatch then (Some(g.quickMatch[key]), true) else (None, false)
  }

  /**
   * Inserting a non-nil property set that reports not-present makes the
   * precise lookup of that set return the new target.
   */
  lemma InsertThenPreciseState(lib: PropsLib, g: GroupState, states: PropsForSearch,
                               javaBlock: JavaBlockString, overwrite: bool)
    ensures var (g', exist) := StateInsert(lib, g, Some(states), javaBlock, overwrite);
            !exist ==> PreciseState(lib, g', Some(states)) == (Some(javaBlock), true)
  {
  }

  // ---------------------------------------------------------------------------
  // Best match by state

  /** `Different + Redundant + Missing`, added in uint8 as the Go fields are. */
  function Penalty(s: ComparedOutput): uint8 {
    ToUint8(s.different + s.redundant + s.missing)
  }

  /** The replacement rule of `fuzzySearchByState`: more `Same`, or as many and a smaller penalty. */
  predicate Better(a: ComparedOutput, b: ComparedOutput) {
    a.same > b.same || (a.same == b.same && Penalty(a) < Penalty(b))
  }

  function ScoreOf(lib: PropsLib, anchors: seq<Anchor>, i: nat, query: Option<PropsForSearch>): ComparedOutput
    requires i < |anchors|
  {
    lib.compare(anchors[i].states, query)
  }

  /**
   * Anchor `k` is the one the scan keeps: strictly better than every earlier
   * anchor, and no later anchor is strictly better (so the earliest of equally
   * good anchors wins).
   */
  ghost predicate IsBestAnchor(lib: PropsLib, anchors: seq<Anchor>, query: Option<PropsForSearch>, k: int) {
    && 0 <= k < |anchors|
    && (forall j :: 0 <= j < k ==> Better(ScoreOf(lib, anchors, k, query), ScoreOf(lib, anchors, j, query)))
    && (forall j :: k < j < |anchors| ==> !Better(ScoreOf(lib, anchors, j, query), ScoreOf(lib, anchors, k, query)))
  }

  /** `Better` is a strict order: never both ways. */
  lemma BetterAsymmetric(a: ComparedOutput, b: ComparedOutput)
    ensures !(Better(a, b) && Better(b, a))
  {
  }

  /** The best anchor is unique, and no anchor at all scores strictly better than it. */
  lemma BestAnchorUnique(lib: PropsLib, anchors: seq<Anchor>, query: Option<PropsForSearch>, k1: int, k2: int)
    requires IsBestAnchor(lib, anchors, query, k1) && IsBestAnchor(lib, anchors, query, k2)
    ensures k1 == k2
    ensures forall j :: 0 <= j < |anchors| ==> !Better(ScoreOf(lib, anchors, j, query), ScoreOf(lib, anchors, k1, query))
  {
    var s1, s2 := ScoreOf(lib, anchors, k1, query), ScoreOf(lib, anchors, k2, query);
    BetterAsymmetric(s1, s2);
  }

  /** The score an exact hit reports: `Same` is the property count as uint8, 0 for nil. */
  function ExactScore(lib: PropsLib, states: Option<PropsForSearch>): ComparedOutput {
    ComparedOutput(if states.None? then 0 else ToUint8(lib.numProps(states.value)), 0, 0, 0)
  }

  /** What `fuzzySearchByState` may return for group `g`. */
  ghost predicate FuzzyStateResult(lib: PropsLib, g: GroupState, air: JavaBlockString, states: Option<PropsForSearch>,
                                   javaBlock: JavaBlockString, score: ComparedOutput, matchAny: bool)
  {
    var key := lib.inPreciseSNBT(states);
    if key in g.quickMatch then
      javaBlock == g.quickMatch[key] && score == ExactScore(lib, states) && matchAny
    else if |g.anchors| == 0 then
      javaBlock == air && score == ZeroScore && !matchAny
    else
      matchAny && exists k :: IsBestAnchor(lib, g.anchors, states, k)
                              && javaBlock == g.anchors[k].javaBlock && score == ScoreOf(lib, g.anchors, k, states)
  }

  /** The best-match result is determined by the group and the query. */
  lemma FuzzyStateResultUnique(lib: PropsLib, g: GroupState, air: JavaBlockString, states: Option<PropsForSearch>,
                               j1: JavaBlockString, s1: ComparedOutput, m1: bool,
                               j2: JavaBlockString, s2: ComparedOutput, m2: bool)
    requires FuzzyStateResult(lib, g, air, states, j1, s1, m1)
    requires FuzzyStateResult(lib, g, air, states, j2, s2, m2)
    ensures j1 == j2 && s1 == s2 && m1 == m2
  {
    var key := lib.inPreciseSNBT(states);
    if key !in g.quickMatch && |g.anchors| > 0 {
      var k1 :| IsBestAnchor(lib, g.anchors, states, k1) && j1 == g.anchors[k1].javaBlock
                && s1 == ScoreOf(lib, g.anchors, k1, states);
      var k2 :| IsBestAnchor(lib, g.anchors, states, k2) && j2 == g.anchors[k2].javaBlock
                && s2 == ScoreOf(lib, g.anchors, k2, states);
      BestAnchorUnique(lib, g.anchors, states, k1, k2);
    }
  }

  // ---------------------------------------------------------------------------
  // One base-name group

  /** `ToJavaBaseNames`: the table, anchors and index of one base name. */
  class ToJavaBaseNames {
    const lib: PropsLib
    const airBlock: JavaBlockString
    const unknownBlock: JavaBlockString
    var legacyValuesMapping: seq<Option<JavaBlockString>>
    var statesWithBlock: seq<Anchor>
    var statesQuickMatch: map<string, JavaBlockString>

    /** The quick-match index never diverges from the anchor list. */
    ghost predicate Valid()
      reads this
    {
      statesQuickMatch == QuickMatchIndex(lib, statesWithBlock)
    }

    ghost function State(): GroupState
      reads this
    {
      GroupState(legacyValuesMapping, statesWithBlock, statesQuickMatch)
    }

    constructor (lib: PropsLib, airBlock: JavaBlockString, unknownBlock: JavaBlockString)
      ensures Valid() && State() == EmptyGroup
      ensures this.lib == lib && this.airBlock == airBlock && this.unknownBlock == unknownBlock
    {
      this.lib := lib;
      this.airBlock := airBlock;
      this.unknownBlock := unknownBlock;
      legacyValuesMapping := [];
      statesWithBlock := [];
      statesQuickMatch := map[];
    }

    /** `addAnchorByLegacyValue`: grows the table slot by slot, then writes; never reports an error. */
    method AddAnchorByLegacyValue(legacyValue: uint16, javaBlock: JavaBlockString, overwrite: bool)
      returns (exist: bool, conflictErr: Option<string>)
      requires Valid()
      modifies this`legacyValuesMapping
      ensures Valid()
      ensures (State(), exist) == GroupAddLegacy(old(State()), legacyValue, javaBlock, overwrite)
      ensures conflictErr == None
    {
      if legacyValue + 1 <= |legacyValuesMapping| {
        if legacyValuesMapping[legacyValue].None? || overwrite {
          legacyValuesMapping := legacyValuesMapping[legacyValue := Some(javaBlock)];
          return false, None;
        } else {
          return true, None;
        }
      }
      while legacyValue + 1 > |legacyValuesMapping|
        invariant |old(legacyValuesMapping)| <= |legacyValuesMapping| <= legacyValue + 1
        invariant legacyValuesMapping == old(legacyValuesMapping) + Unset(|legacyValuesMapping| - |old(legacyValuesMapping)|)
        decreases legacyValue + 1 - |legacyValuesMapping|
      {
        legacyValuesMapping := legacyValuesMapping + [None];
      }
      ghost var grown := old(legacyValuesMapping) + Unset(legacyValue - |old(legacyValuesMapping)|) + [Some(javaBlock)];
      legacyValuesMapping := legacyValuesMapping[legacyValue := Some(javaBlock)];
      assert |legacyValuesMapping| == |grown|;
      assert forall i :: 0 <= i < |grown| ==> legacyValuesMapping[i] == grown[i];
      assert legacyValuesMapping == grown;
      assert (grown, false) == LegacyInsert(old(legacyValuesMapping), legacyValue, javaBlock, overwrite);
      return false, None;
    }

    /** `preciseMatchByLegacyValue`. */
    function PreciseMatchByLegacyValue(legacyValue: uint16): (r: (JavaBlockString, bool))
      reads this
      ensures r == PreciseLegacy(State(), legacyValue, airBlock)
    {
      if legacyValue + 1 <= |legacyValuesMapping| then
        if legacyValuesMapping[legacyValue].None? then (airBlock, false)
        else (legacyValuesMapping[legacyValue].value, true)
      else (airBlock, false)
    }

    /** `fuzzySearchByLegacyValue`. */
    function FuzzySearchByLegacyValue(legacyValue: uint16): (r: (JavaBlockString, bool))
      reads this
      ensures r == BestLegacy(State(), legacyValue, airBlock)
    {
      if legacyValue + 1 <= |legacyValuesMapping| && legacyValuesMapping[legacyValue].Some? then
        (legacyValuesMapping[legacyValue].value, true)
      else if legacyValue + 1 <= |statesWithBlock| then (statesWithBlock[legacyValue].javaBlock, true)
      else if |statesWithBlock| > 0 then (statesWithBlock[0].javaBlock, true)
      else (airBlock, false)
    }

    /** `addAnchorByState`: appends and indexes unless the key is present; never reports an error. */
    method AddAnchorByState(states: Option<PropsForSearch>, javaBlock: JavaBlockString, overwrite: bool)
      returns (exist: bool, conflictErr: Option<string>)
      requires Valid()
      modifies this`statesWithBlock, this`statesQuickMatch
      ensures Valid()
      ensures (State(), exist) == StateInsert(lib, old(State()), states, javaBlock, overwrite)
      ensures conflictErr == None
    {
      var quickMatchStr := "{}";
      if states.Some? {
        quickMatchStr := lib.inPreciseSNBT(states);
      }
      if quickMatchStr in statesQuickMatch {
        var currentJavaBlock := statesQuickMatch[quickMatchStr];
        if currentJavaBlock == javaBlock || currentJavaBlock.ToString() == javaBlock.ToString() {
          return true, None;
        } else if !overwrite {
          return true, None;
        }
      }
      ghost var before := State();
      statesWithBlock := statesWithBlock + [Anchor(states, javaBlock)];
      statesQuickMatch := statesQuickMatch[quickMatchStr := javaBlock];
      assert statesWithBlock[..|statesWithBlock| - 1] == before.anchors;
      return false, None;
    }

    /** `preciseMatchByState`. */
    function PreciseMatchByState(states: Option<PropsForSearch>): (r: (Option<JavaBlockString>, bool))
      reads this
      ensures r == PreciseState(lib, State(), states)
    {
      var quickMatchStr := lib.inPreciseSNBT(states);
      if quickMatchStr in statesQuickMatch then (Some(statesQuickMatch[quickMatchStr]), true) else (None, false)
    }

    /** `fuzzySearchByState`: an exact key hit, else a scan of the anchors keeping the first best one. */
    method FuzzySearchByState(states: Option<PropsForSearch>)
      returns (javaBlock: JavaBlockString, score: ComparedOutput, matchAny: bool)
      ensures FuzzyStateResult(lib, State(), airBlock, states, javaBlock, score, matchAny)
    {
      var quickMatchStr := lib.inPreciseSNBT(states);
      if quickMatchStr in statesQuickMatch {
        var sameCount: uint8 := 0;
        if states.Some? {
          sameCount := ToUint8(lib.numProps(states.value));
        }
        return statesQuickMatch[quickMatchStr], ComparedOutput(sameCount, 0, 0, 0), true;
      }
      javaBlock := airBlock;
      score := ZeroScore;
      matchAny := false;
      ghost var best := 0;
      var i := 0;
      while i < |statesWithBlock|
        invariant 0 <= i <= |statesWithBlock|
        invariant matchAny <==> i > 0
        invariant !matchAny ==> javaBlock == airBlock && score == ZeroScore
        invariant matchAny ==> 0 <= best < i && javaBlock == statesWithBlock[best].javaBlock
                               && score == ScoreOf(lib, statesWithBlock, best, states)
        invariant matchAny ==> forall j :: 0 <= j < best ==>
                    Better(ScoreOf(lib, statesWithBlock, best, states), ScoreOf(lib, statesWithBlock, j, states))
        invariant matchAny ==> forall j :: best < j < i ==>
                    !Better(ScoreOf(lib, statesWithBlock, j, states), ScoreOf(lib, statesWithBlock, best, states))
      {
        var anchor := statesWithBlock[i];
        var newScore := lib.compare(anchor.states, states);
        if !matchAny || newScore.same > score.same
           || (newScore.same == score.same
               && ToUint8(newScore.different + newScore.redundant + newScore.missing)
                  < ToUint8(score.different + score.redundant + score.missing)) {
          score := newScore;
          javaBlock := anchor.javaBlock;
          best := i;
        }
        matchAny := true;
        i := i + 1;
      }
      assert matchAny ==> IsBestAnchor(lib, statesWithBlock, states, best);
    }
  }

  // ---------------------------------------------------------------------------
  // The convertor

  /** `m'` is `m` with key `b` set to `v`, stated point by point. */
  ghost predicate UpdatedAt(m': map<string, GroupState>, m: map<string, GroupState>, b: string, v: GroupState) {
    && b in m' && m'[b] == v
    && (forall n :: n != b ==> (n in m' <==> n in m))
    && (forall n :: n in m' && n != b ==> m'[n] == m[n])
  }

  /** `ToJavaConvertor`: base name -> group, created on first insert; air/unknown defaults. */
  class ToJavaConvertor {
    const lib: PropsLib
    const airBlock: JavaBlockString
    const unknownBlock: JavaBlockString
    var baseNames: map<string, ToJavaBaseNames>
    /** The content of every group, by base name. */
    ghost var Groups: map<string, GroupState>
    ghost var Repr: set<object>

    /** Each group is valid, seeded from this convertor, and owned by no other base name. */
    ghost predicate Valid()
      reads this, Repr
    {
      Shape() && GroupsMirrored()
    }

    /** The groups belong to `Repr`, carry this convertor's library and blocks, and are distinct. */
    ghost predicate Shape()
      reads this`baseNames, this`Repr
    {
      && this in Repr
      && (forall n :: n in baseNames ==> baseNames[n] in Repr)
      && (forall n :: n in baseNames ==>
            && baseNames[n].lib == lib
            && baseNames[n].airBlock == airBlock
            && baseNames[n].unknownBlock == unknownBlock)
      && (forall n, m :: n in baseNames && m in baseNames && n != m ==> baseNames[n] != baseNames[m])
    }

    /** `Groups` holds exactly the content of every (valid) group. */
    ghost predicate GroupsMirrored()
      reads this, Repr
    {
      && Groups.Keys == baseNames.Keys
      && (forall n :: n in baseNames && baseNames[n] in Repr ==>
            baseNames[n].Valid() && Groups[n] == baseNames[n].State())
    }

    /** `NewToJavaConverter`: a nil air or unknown block defaults to `air` with an empty state. */
    constructor (lib: PropsLib, airBlock: Option<JavaBlockString>, unknownBlock: Option<JavaBlockString>)
      ensures Valid() && fresh(Repr)
      ensures this.lib == lib
      ensures this.airBlock == if airBlock.Some? then airBlock.value else JavaBlockOf(lib, "air", "")
      ensures this.unknownBlock == if unknownBlock.Some? then unknownBlock.value else JavaBlockOf(lib, "air", "")
      ensures Groups == map[]
    {
      var air, unknown;
      if airBlock.None? {
        air := NewJavaBlockString(lib, "air", "");
      } else {
        air := airBlock.value;
      }
      if unknownBlock.None? {
        unknown := NewJavaBlockString(lib, "air", "");
      } else {
        unknown := unknownBlock.value;
      }
      this.lib := lib;
      this.airBlock := air;
      this.unknownBlock := unknown;
      baseNames := map[];
      Groups := map[];
      new;
      Repr := {this};
    }

    /** `ensureBaseNameGroup`: the existing group, or a new empty one seeded with air/unknown. */
    method EnsureBaseNameGroup(name: string) returns (g: ToJavaBaseNames)
      requires Valid()
      modifies this
      ensures Valid() && fresh(Repr - old(Repr))
      ensures name in baseNames && g == baseNames[name]
      ensures name in old(baseNames) ==> baseNames == old(baseNames)
      ensures name !in old(baseNames) ==> fresh(g) && baseNames == old(baseNames)[name := g]
      ensures UpdatedAt(Groups, old(Groups), name, GroupOrEmpty(old(Groups), name))
    {
      if name in baseNames {
        g := baseNames[name];
        return;
      }
      g := new ToJavaBaseNames(lib, airBlock, unknownBlock);
      baseNames := baseNames[name := g];
      Groups := Groups[name := EmptyGroup];
      Repr := Repr + {g};
      forall n | n in baseNames
        ensures && baseNames[n] in Repr
                && baseNames[n].lib == lib && baseNames[n].airBlock == airBlock && baseNames[n].unknownBlock == unknownBlock
                && baseNames[n].Valid() && Groups[n] == baseNames[n].State()
      {
        if n != name {
          assert baseNames[n] == old(baseNames)[n] && Groups[n] == old(Groups)[n];
        }
      }
      forall n, m | n in baseNames && m in baseNames && n != m
        ensures baseNames[n] != baseNames[m]
      {
        if n != name && m != name {
          assert baseNames[n] == old(baseNames)[n] && baseNames[m] == old(baseNames)[m];
        }
      }
    }

    /** `AddAnchorByLegacyValue`: creates the group if needed and inserts into it. */
    method AddAnchorByLegacyValue(name: string, legacyValue: uint16, javaBlock: JavaBlockString, overwrite: bool)
      returns (exist: bool, conflictErr: Option<string>)
      requires Valid()
      modifies this, Repr
      ensures Valid() && fresh(Repr - old(Repr))
      ensures var b := lib.baseName(name);
              UpdatedAt(Groups, old(Groups), b, GroupAddLegacy(GroupOrEmpty(old(Groups), b), legacyValue, javaBlock, overwrite).0)
      ensures exist == GroupAddLegacy(GroupOrEmpty(old(Groups), lib.baseName(name)), legacyValue, javaBlock, overwrite).1
      ensures conflictErr == None
    {
      var b := lib.baseName(name);
      var g := EnsureBaseNameGroup(b);
      exist, conflictErr := AddLegacyToGroup(b, g, legacyValue, javaBlock, overwrite);
    }

    /** Inserts into `g`, the existing group of base name `b`. */
    method AddLegacyToGroup(b: string, g: ToJavaBaseNames, legacyValue: uint16, javaBlock: JavaBlockString, overwrite: bool)
      returns (exist: bool, conflictErr: Option<string>)
      requires Valid() && b in baseNames && g == baseNames[b]
      modifies this`Groups, g
      ensures Valid() && Repr == old(Repr)
      ensures UpdatedAt(Groups, old(Groups), b, GroupAddLegacy(old(Groups)[b], legacyValue, javaBlock, overwrite).0)
      ensures exist == GroupAddLegacy(old(Groups)[b], legacyValue, javaBlock, overwrite).1
      ensures conflictErr == None
    {
      exist, conflictErr := g.AddAnchorByLegacyValue(legacyValue, javaBlock, overwrite);
      Groups := Groups[b := g.State()];
      forall n | n in baseNames && n != b
        ensures baseNames[n] != g && baseNames[n].Valid() && Groups[n] == baseNames[n].State()
      {
        assert baseNames[n] != g;
      }
    }

    /** `AddAnchorByState`: creates the group if needed and inserts into it. */
    method AddAnchorByState(name: string, states: Option<PropsForSearch>, javaBlock: JavaBlockString, overwrite: bool)
      returns (exist: bool, conflictErr: Option<string>)
      requires Valid()
      modifies this, Repr
      ensures Valid() && fresh(Repr - old(Repr))
      ensures var b := lib.baseName(name);
              UpdatedAt(Groups, old(Groups), b, StateInsert(lib, GroupOrEmpty(old(Groups), b), states, javaBlock, overwrite).0)
      ensures exist == StateInsert(lib, GroupOrEmpty(old(Groups), lib.baseName(name)), states, javaBlock, overwrite).1
      ensures conflictErr == None
    {
      var b := lib.baseName(name);
      var g := EnsureBaseNameGroup(b);
      exist, conflictErr := AddStateToGroup(b, g, states, javaBlock, overwrite);
    }

    /** Inserts into `g`, the existing group of base name `b`. */
    method AddStateToGroup(b: string, g: ToJavaBaseNames, states: Option<PropsForSearch>, javaBlock: JavaBlockString, overwrite: bool)
      returns (exist: bool, conflictErr: Option<string>)
      requires Valid() && b in baseNames && g == baseNames[b]
      modifies this`Groups, g
      ensures Valid() && Repr == old(Repr)
      ensures UpdatedAt(Groups, old(Groups), b, StateInsert(lib, old(Groups)[b], states, javaBlock, overwrite).0)
      ensures exist == StateInsert(lib, old(Groups)[b], states, javaBlock, overwrite).1
      ensures conflictErr == None
    {
      exist, conflictErr := g.AddAnchorByState(states, javaBlock, overwrite);
      Groups := Groups[b := g.State()];
      forall n | n in baseNames && n != b
        ensures baseNames[n] != g && baseNames[n].Valid() && Groups[n] == baseNames[n].State()
      {
        assert baseNames[n] != g;
      }
    }

    /** `PreciseMatchByLegacyValue`: the convertor's air block with false when the base name has no group. */
    function PreciseMatchByLegacyValue(name: string, legacyValue: uint16): (r: (JavaBlockString, bool))
      requires Valid()
      reads this, Repr
      ensures var b := lib.baseName(name);
              r == if b in Groups then PreciseLegacy(Groups[b], legacyValue, airBlock) else (airBlock, false)
    {
      var b := lib.baseName(name);
      if b in baseNames then baseNames[b].PreciseMatchByLegacyValue(legacyValue) else (airBlock, false)
    }

    /** `TryBestSearchByLegacyValue`. */
    function TryBestSearchByLegacyValue(name: string, legacyValue: uint16): (r: (JavaBlockString, bool))
      requires Valid()
      reads this, Repr
      ensures var b := lib.baseName(name);
              r == if b in Groups then BestLegacy(Groups[b], legacyValue, airBlock) else (airBlock, false)
    {
      var b := lib.baseName(name);
      if b in baseNames then baseNames[b].FuzzySearchByLegacyValue(legacyValue) else (airBlock, false)
    }

    /** `PreciseMatchByState`: a missing group gives the air block; a missing key gives nil. */
    function PreciseMatchByState(name: string, states: Option<PropsForSearch>): (r: (Option<JavaBlockString>, bool))
      requires Valid()
      reads this, Repr
      ensures var b := lib.baseName(name);
              r == if b in Groups then PreciseState(lib, Groups[b], states) else (Some(airBlock), false)
    {
      var b := lib.baseName(name);
      if b in baseNames then baseNames[b].PreciseMatchByState(states) else (Some(airBlock), false)
    }

    /** `TryBestSearchByState`. */
    method TryBestSearchByState(name: string, states: Option<PropsForSearch>)
      returns (javaBlock: JavaBlockString, score: ComparedOutput, matchAny: bool)
      requires Valid()
      ensures var b := lib.baseName(name);
              if b in Groups then FuzzyStateResult(lib, Groups[b], airBlock, states, javaBlock, score, matchAny)
              else javaBlock == airBlock && score == ZeroScore && !matchAny
    {
      var b := lib.baseName(name);
      if b !in baseNames {
        return airBlock, ZeroScore, false;
      }
      javaBlock, score, matchAny := baseNames[b].FuzzySearchByState(states);
    }
  }
}
