/**
 * Generation of Bedrock-to-Java translation records from (in name, in state,
 * out name, out state) quadruples: a first pass that keeps precise matches
 * and postpones the rest, and a second pass that retries the postponed ones
 * with a best-effort match
 * (gen_map_neo/step2_add_standard_mc_converts/translate_to_java.go).
 */
module TranslateToJava {
  import opened Wrappers
  import opened Describe
  import opened JavaRecord

  /** One `[4]string` input: Bedrock name and state, Java name and state. */
  datatype Quad = Quad(inName: string, inState: string, outName: string, outState: string)

  /**
   * The parts of the NEMC convertor and of the input rewriting that are not
   * part of this model: `AlterInOutSnbtBlock`, and whether
   * `PreciseMatchByState` / `TryBestSearchByState` find a block name and state.
   */
  datatype NemcQueries = NemcQueries(
    alter: Quad -> Quad,
    preciseFound: (string, Option<PropsForSearch>) -> bool,
    bestFound: (string, Option<PropsForSearch>) -> bool)

  /** `(record, ok, notMatched)` as `TryAddJavaConvert` returns them; `None` is a nil record. */
  datatype Attempt = Attempt(record: Option<JavaConvertRecord>, ok: bool, notMatched: bool)

  /** An output that names air. */
  predicate IsAir(name: string) {
    name == "air" || name == "minecraft:air"
  }

  /** The record built for quadruple `q` whose input state parsed to `props`. */
  predicate RecordFor(lib: PropsLib, q: Quad, props: Option<PropsForSearch>, rec: JavaConvertRecord) {
    && rec.name == lib.baseName(q.inName)
    && rec.snbtStateOrValue == lib.inPreciseSNBT(props)
    && rec.javaBlockName == q.outName
    && rec.javaBlockSNBT == (if q.outState == "" || q.outState == "{}" then "" else q.outState)
  }

  /**
   * `TryAddJavaConvert` on an already rewritten quadruple. An unparsable input
   * state panics (`Failure`). Without `mustMatch` a block the NEMC table does
   * not know exactly is reported not matched; with it, a best-effort match is
   * tried and an unknown block is ignored. Air outputs are ignored.
   */
  function TryAddJavaConvert(lib: PropsLib, nemc: NemcQueries, q: Quad, mustMatch: bool): (r: Result<Attempt, string>)
    ensures r.Failure? <==> lib.fromStr(q.inState).Failure?
    ensures r.Success? ==> (r.value.notMatched <==> !mustMatch && !nemc.preciseFound(q.inName, lib.fromStr(q.inState).value))
    ensures r.Success? ==> (r.value.ok <==> !r.value.notMatched)
    ensures r.Success? && IsAir(q.outName) ==> r.value.record.None?
    ensures r.Success? ==>
              (r.value.record.Some? <==>
                 && !IsAir(q.outName)
                 && (|| nemc.preciseFound(q.inName, lib.fromStr(q.inState).value)
                     || (mustMatch && nemc.bestFound(q.inName, lib.fromStr(q.inState).value))))
    ensures r.Success? && r.value.record.Some? ==>
              && !IsAir(q.outName)
              && RecordFor(lib, q, lib.fromStr(q.inState).value, r.value.record.value)
  {
    var parsed := lib.fromStr(q.inState);
    if parsed.Failure? then Failure(parsed.error)
    else
      var props := parsed.value;
      if !nemc.preciseFound(q.inName, props) && !mustMatch then Success(Attempt(None, false, true))
      else if !nemc.preciseFound(q.inName, props) && !nemc.bestFound(q.inName, props) then Success(Attempt(None, true, false))
      else if IsAir(q.outName) then Success(Attempt(None, true, false))
      else
        var outState := if q.outState == "" || q.outState == "{}" then "" else q.outState;
        Success(Attempt(Some(JavaConvertRecord(lib.baseName(q.inName), lib.inPreciseSNBT(props), q.outName, outState)), true, false))
  }

  /** With `mustMatch`, a known block that is not air always yields a record. */
  lemma MustMatchKnownBlockGivesRecord(lib: PropsLib, nemc: NemcQueries, q: Quad)
    requires lib.fromStr(q.inState).Success?
    requires nemc.preciseFound(q.inName, lib.fromStr(q.inState).value) || nemc.bestFound(q.inName, lib.fromStr(q.inState).value)
    requires !IsAir(q.outName)
    ensures TryAddJavaConvert(lib, nemc, q, true).Success?
    ensures TryAddJavaConvert(lib, nemc, q, true).value.record.Some?
  {
  }

  // ---------------------------------------------------------------------------
  // The two passes

  /** The loop state of `GenBedrockToJavaTranslateRecords`. */
  datatype Tally = Tally(records: seq<JavaConvertRecord>, postponed: seq<Quad>, translated: int, ignored: int, conflicted: int)

  const NoTally := Tally([], [], 0, 0, 0)

  /** One loop iteration on input `q` (as given, before rewriting) and its attempt `a`. */
  function Step(t: Tally, q: Quad, a: Attempt, mustMatch: bool): Tally {
    if !mustMatch && a.notMatched then t.(postponed := t.postponed + [q])
    else if !a.ok then t.(conflicted := t.conflicted + 1)
    else if a.record.None? then t.(ignored := t.ignored + 1)
    else t.(translated := t.translated + 1, records := t.records + [a.record.value])
  }

  /** One pass over `qs` starting from `start`; the first panic ends it. */
  function RunPass(lib: PropsLib, nemc: NemcQueries, qs: seq<Quad>, mustMatch: bool, start: Tally): Result<Tally, string>
    decreases |qs|
  {
    if |qs| == 0 then Success(start)
    else
      match RunPass(lib, nemc, qs[..|qs| - 1], mustMatch, start)
      case Failure(e) => Failure(e)
      case Success(t) =>
        match TryAddJavaConvert(lib, nemc, nemc.alter(qs[|qs| - 1]), mustMatch)
        case Failure(e) => Failure(e)
        case Success(a) => Success(Step(t, qs[|qs| - 1], a, mustMatch))
  }

  /** Both passes: the second retries the first pass's postponed inputs, continuing its counters. */
  function Generate(lib: PropsLib, nemc: NemcQueries, qs: seq<Quad>): Result<Tally, string> {
    match RunPass(lib, nemc, qs, false, NoTally)
    case Failure(e) => Failure(e)
    case Success(t) => RunPass(lib, nemc, t.postponed, true, t)
  }

  /** `GenBedrockToJavaTranslateRecords`: the records, and the counters it prints; `panic` for a panic. */
  method GenBedrockToJavaTranslateRecords(lib: PropsLib, nemc: NemcQueries, snbtInOut: seq<Quad>)
    returns (records: seq<JavaConvertRecord>, translated: int, ignored: int, conflicted: int, panic: Option<string>)
    ensures Generate(lib, nemc, snbtInOut).Failure? <==> panic.Some?
    ensures panic.Some? ==> panic.value == Generate(lib, nemc, snbtInOut).error
    ensures panic.None? ==> Generate(lib, nemc, snbtInOut).value == Tally(records, Generate(lib, nemc, snbtInOut).value.postponed, translated, ignored, conflicted)
  {
    records, translated, ignored, conflicted, panic := [], 0, 0, 0, None;
    var postponeSnbtInOut: seq<Quad> := [];
    var i := 0;
    while i < |snbtInOut|
      invariant 0 <= i <= |snbtInOut|
      invariant RunPass(lib, nemc, snbtInOut[..i], false, NoTally)
                == Success(Tally(records, postponeSnbtInOut, translated, ignored, conflicted))
    {
      var s := snbtInOut[i];
      assert snbtInOut[..i + 1][..i] == snbtInOut[..i];
      var attempt := TryAddJavaConvert(lib, nemc, nemc.alter(s), false);
      if attempt.Failure? {
        PassStopsAtPanic(lib, nemc, snbtInOut, i + 1, false, NoTally);
        return records, translated, ignored, conflicted, Some(attempt.error);
      }
      var a := attempt.value;
      i := i + 1;
      if a.notMatched {
        postponeSnbtInOut := postponeSnbtInOut + [s];
        continue;
      }
      if !a.ok {
        conflicted := conflicted + 1;
        continue;
      }
      if a.record.None? {
        ignored := ignored + 1;
        continue;
      }
      translated := translated + 1;
      records := records + [a.record.value];
    }
    assert snbtInOut[..i] == snbtInOut;
    ghost var first := Tally(records, postponeSnbtInOut, translated, ignored, conflicted);
    var j := 0;
    while j < |postponeSnbtInOut|
      invariant 0 <= j <= |postponeSnbtInOut|
      invariant RunPass(lib, nemc, postponeSnbtInOut[..j], true, first)
                == Success(Tally(records, postponeSnbtInOut, translated, ignored, conflicted))
    {
      var s := postponeSnbtInOut[j];
      assert postponeSnbtInOut[..j + 1][..j] == postponeSnbtInOut[..j];
      var attempt := TryAddJavaConvert(lib, nemc, nemc.alter(s), true);
      if attempt.Failure? {
        PassStopsAtPanic(lib, nemc, postponeSnbtInOut, j + 1, true, first);
        return records, translated, ignored, conflicted, Some(attempt.error);
      }
      var a := attempt.value;
      j := j + 1;
      if !a.ok {
        conflicted := conflicted + 1;
        continue;
      }
      if a.record.None? {
        ignored := ignored + 1;
        continue;
      }
      translated := translated + 1;
      records := records + [a.record.value];
    }
    assert postponeSnbtInOut[..j] == postponeSnbtInOut;
  }

  /** A pass that panics on a prefix panics on the whole input, with the same error. */
  lemma {:induction false} PassStopsAtPanic(lib: PropsLib, nemc: NemcQueries, qs: seq<Quad>, k: nat, mustMatch: bool, start: Tally)
    requires k <= |qs|
    requires RunPass(lib, nemc, qs[..k], mustMatch, start).Failure?
    ensures RunPass(lib, nemc, qs, mustMatch, start) == RunPass(lib, nemc, qs[..k], mustMatch, start)
    decreases |qs| - k
  {
    if k < |qs| {
      assert qs[..k + 1][..k] == qs[..k];
      PassStopsAtPanic(lib, nemc, qs, k + 1, mustMatch, start);
    } else {
      assert qs[..k] == qs;
    }
  }

  // ---------------------------------------------------------------------------
  // What the passes produce

  /** The input state of `q`, once rewritten, parses. */
  predicate Parses(lib: PropsLib, nemc: NemcQueries, q: Quad) {
    lib.fromStr(nemc.alter(q).inState).Success?
  }

  /** The record, if any, one input contributes to a pass. */
  function Contribution(lib: PropsLib, nemc: NemcQueries, q: Quad, mustMatch: bool): seq<JavaConvertRecord> {
    match TryAddJavaConvert(lib, nemc, nemc.alter(q), mustMatch)
    case Failure(_) => []
    case Success(a) => if a.record.Some? && a.ok && !(!mustMatch && a.notMatched) then [a.record.value] else []
  }

  /** The records a pass produces, in input order. */
  function PassRecords(lib: PropsLib, nemc: NemcQueries, qs: seq<Quad>, mustMatch: bool): seq<JavaConvertRecord>
    decreases |qs|
  {
    if |qs| == 0 then []
    else PassRecords(lib, nemc, qs[..|qs| - 1], mustMatch) + Contribution(lib, nemc, qs[|qs| - 1], mustMatch)
  }

  /** The inputs the first pass postpones, in input order: those the NEMC table does not match exactly. */
  function Postponed(lib: PropsLib, nemc: NemcQueries, qs: seq<Quad>): seq<Quad>
    decreases |qs|
  {
    if |qs| == 0 then []
    else
      var q := qs[|qs| - 1];
      var a := TryAddJavaConvert(lib, nemc, nemc.alter(q), false);
      Postponed(lib, nemc, qs[..|qs| - 1]) + (if a.Success? && a.value.notMatched then [q] else [])
  }

  /**
   * A pass appends its records and (first pass only) its postponed inputs in
   * input order, never counts a conflict, and accounts for every input once.
   */
  lemma {:induction false} PassEffect(lib: PropsLib, nemc: NemcQueries, qs: seq<Quad>, mustMatch: bool, start: Tally, t: Tally)
    requires RunPass(lib, nemc, qs, mustMatch, start) == Success(t)
    ensures t.records == start.records + PassRecords(lib, nemc, qs, mustMatch)
    ensures t.postponed == start.postponed + (if mustMatch then [] else Postponed(lib, nemc, qs))
    ensures t.conflicted == start.conflicted
    ensures t.translated - |t.records| == start.translated - |start.records|
    ensures t.translated + t.ignored + |t.postponed| == start.translated + start.ignored + |start.postponed| + |qs|
    decreases |qs|
  {
    if |qs| > 0 {
      var init := qs[..|qs| - 1];
      var q := qs[|qs| - 1];
      var t0 := RunPass(lib, nemc, init, mustMatch, start).value;
      PassEffect(lib, nemc, init, mustMatch, start, t0);
      var a := TryAddJavaConvert(lib, nemc, nemc.alter(q), mustMatch).value;
      assert t == Step(t0, q, a, mustMatch);
      if !mustMatch {
        var a' := TryAddJavaConvert(lib, nemc, nemc.alter(q), false);
        assert a' == Success(a);
      }
    }
  }

  /** A pass panics exactly when some input state does not parse. */
  lemma {:induction false} PassSucceedsIff(lib: PropsLib, nemc: NemcQueries, qs: seq<Quad>, mustMatch: bool, start: Tally)
    ensures RunPass(lib, nemc, qs, mustMatch, start).Success? <==> forall i :: 0 <= i < |qs| ==> Parses(lib, nemc, qs[i])
    decreases |qs|
  {
    if |qs| > 0 {
      var init := qs[..|qs| - 1];
      PassSucceedsIff(lib, nemc, init, mustMatch, start);
      assert forall i :: 0 <= i < |init| ==> init[i] == qs[i];
    }
  }

  /** Every postponed input is one of the inputs. */
  lemma {:induction false} PostponedFromInput(lib: PropsLib, nemc: NemcQueries, qs: seq<Quad>)
    ensures forall q :: q in Postponed(lib, nemc, qs) ==> q in qs
    decreases |qs|
  {
    if |qs| > 0 {
      var init := qs[..|qs| - 1];
      PostponedFromInput(lib, nemc, init);
      assert forall q :: q in init ==> q in qs;
    }
  }

  /**
   * Both passes together: every input is translated or ignored (none is ever
   * counted as a conflict), there is one record per translation, and the
   * records are the first pass's followed by the second pass's, each in
   * input order.
   */
  lemma GenerateResult(lib: PropsLib, nemc: NemcQueries, qs: seq<Quad>)
    requires Generate(lib, nemc, qs).Success?
    ensures var t := Generate(lib, nemc, qs).value;
            && t.translated + t.ignored == |qs|
            && t.conflicted == 0
            && |t.records| == t.translated
            && t.records == PassRecords(lib, nemc, qs, false) + PassRecords(lib, nemc, Postponed(lib, nemc, qs), true)
  {
    var t1 := RunPass(lib, nemc, qs, false, NoTally).value;
    PassEffect(lib, nemc, qs, false, NoTally, t1);
    var t := Generate(lib, nemc, qs).value;
    PassEffect(lib, nemc, t1.postponed, true, t1, t);
    var r1, r2 := PassRecords(lib, nemc, qs, false), PassRecords(lib, nemc, Postponed(lib, nemc, qs), true);
    assert t1.records == r1 && t1.postponed == Postponed(lib, nemc, qs);
    assert t.records == r1 + r2;
  }

  /**
   * The generator panics exactly when some input state does not parse; in
   * particular the second pass never panics, since it only sees inputs the
   * first pass has parsed.
   */
  lemma GenerateSucceedsIff(lib: PropsLib, nemc: NemcQueries, qs: seq<Quad>)
    ensures Generate(lib, nemc, qs).Success? <==> forall i :: 0 <= i < |qs| ==> Parses(lib, nemc, qs[i])
  {
    PassSucceedsIff(lib, nemc, qs, false, NoTally);
    var r1 := RunPass(lib, nemc, qs, false, NoTally);
    if r1.Success? {
      var t1 := r1.value;
      PassEffect(lib, nemc, qs, false, NoTally, t1);
      PostponedFromInput(lib, nemc, qs);
      PassSucceedsIff(lib, nemc, t1.postponed, true, t1);
      forall i | 0 <= i < |t1.postponed|
        ensures Parses(lib, nemc, t1.postponed[i])
      {
        assert t1.postponed[i] in qs;
      }
    }
  }
}
