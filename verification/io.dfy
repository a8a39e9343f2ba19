/**
 * The block-string front door of the blocks package: splitting a textual
 * block into a name and a state, routing a block string to a legacy-value or
 * a state search, and the fixed answers every lookup wrapper gives for a
 * block it cannot find.
 *
 * The runtime-ID palette (`MC_CURRENT`) and the NEMC convertor
 * (`DefaultAnyToNemcConvertor`) are not part of this model: they are the
 * function-valued fields of `Runtime`. The Java side uses the modelled
 * `ToJavaConvertor`.
 */
module BlockIO {
  import opened Wrappers
  import opened Ints
  import opened Text
  import opened Nbt
  import opened Describe
  import opened ToJava

  /** What the palette knows of one Bedrock block (`*describe.Block`). */
  datatype BedrockBlock = BedrockBlock(
    shortName: string,                        // ShortName()
    statesNbt: map<string, Nbt.Value>,        // States().ToNBT()
    bedrockString: string,                    // BedrockString()
    statesString: string,                     // States().BedrockString(true)
    nameForSearch: string,                    // the name behind NameForSearch()
    statesForSearch: Option<PropsForSearch>)  // StatesForSearch()

  /** The lookups the wrappers delegate to. */
  datatype Runtime = Runtime(
    /** `MC_CURRENT.BlockByRtid`: nil for an unknown runtime ID. */
    blockByRtid: uint32 -> Option<BedrockBlock>,
    /** `DefaultAnyToNemcConvertor.TryBestSearchByLegacyValue(BlockNameForSearch(name), data)`. */
    nemcLegacy: (string, uint16) -> (uint32, bool),
    /** `DefaultAnyToNemcConvertor.TryBestSearchByState(BlockNameForSearch(name), props)` without its score. */
    nemcState: (string, Option<PropsForSearch>) -> (uint32, bool),
    /** `AIR_RUNTIMEID`. */
    airRuntimeId: uint32)

  // ---------------------------------------------------------------------------
  // Splitting a block string

  /** Drops one trailing `]` or `}`. */
  function DropCloser(st: string): string {
    if |st| > 0 && (st[|st| - 1] == ']' || st[|st| - 1] == '}') then st[..|st| - 1] else st
  }

  /**
   * `st` is the state text of `rest`, the text after the first bracket: the
   * part before the next `[`, with one closing `]` or `}` removed if it ends
   * with one.
   */
  predicate StateSegment(rest: string, st: string) {
    && '[' !in st && |st| <= |rest| && rest[..|st|] == st
    && (|| ((|st| == |rest| || rest[|st|] == '[') && (|st| == 0 || (st[|st| - 1] != ']' && st[|st| - 1] != '}')))
        || (|st| < |rest| && (rest[|st|] == ']' || rest[|st|] == '}') && (|st| + 1 == |rest| || rest[|st| + 1] == '[')))
  }

  /** A shorter state segment leaves no room for a longer one. */
  lemma StateSegmentShortest(rest: string, a: string, b: string)
    requires StateSegment(rest, a) && StateSegment(rest, b) && |a| <= |b|
    ensures a == b
  {
    if |a| < |b| {
      assert false;
    } else {
      assert a == rest[..|a|];
    }
  }

  /** At most one text is the state segment of `rest`. */
  lemma StateSegmentUnique(rest: string, a: string, b: string)
    requires StateSegment(rest, a) && StateSegment(rest, b)
    ensures a == b
  {
    if |a| <= |b| {
      StateSegmentShortest(rest, a, b);
    } else {
      StateSegmentShortest(rest, b, a);
    }
  }

  /**
   * The text part of `ConvertStringToBlockNameAndPropsForSearch`: every `{`
   * becomes `[`, the name is the first `[`-separated piece and the state the
   * second, less one closing bracket.
   */
  function BlockStringParts(s: string): (string, string) {
    var frags := Split(ReplaceChar(s, '{', '['), '[');
    (frags[0], DropCloser(if |frags| > 1 then frags[1] else ""))
  }

  /** The state is the text up to the next `[`, less one closing bracket. */
  lemma SegmentOfFirstPiece(rest: string)
    ensures StateSegment(rest, DropCloser(Split(rest, '[')[0]))
  {
    var f := Split(rest, '[')[0];
    SplitHead(rest, '[');
    var st := DropCloser(f);
    if st != f {
      assert st == f[..|f| - 1] && rest[|st|] == f[|f| - 1];
    }
  }

  /**
   * What `BlockStringParts` means: the name is the text before the first `[`
   * or `{` (all of it when there is none), and the state is the state
   * segment of what follows that bracket.
   */
  lemma BlockStringPartsSpec(s: string)
    ensures var t := ReplaceChar(s, '{', '[');
            var r := BlockStringParts(s);
            && '[' !in r.0 && '{' !in r.0
            && |r.0| <= |t| && t[..|r.0|] == r.0
            && (|r.0| == |t| ==> r.1 == "")
            && (|r.0| < |t| ==> t[|r.0|] == '[' && StateSegment(t[|r.0| + 1..], r.1))
  {
    var t := ReplaceChar(s, '{', '[');
    var frags := Split(t, '[');
    SplitHead(t, '[');
    assert '{' !in frags[0] by {
      assert forall i :: 0 <= i < |frags[0]| ==> frags[0][i] == t[i];
    }
    if |frags| > 1 {
      var rest := t[|frags[0]| + 1..];
      assert Split(rest, '[') == frags[1..];
      SegmentOfFirstPiece(rest);
    }
  }

  /** A name and a bracket-free state written `name[state]` come back apart. */
  lemma BlockStringPartsRoundTrip(name: string, state: string)
    requires '[' !in name && '{' !in name && '[' !in state && '{' !in state
    ensures BlockStringParts(name + "[" + state + "]") == (name, state)
  {
    var s := name + "[" + state + "]";
    ReplaceAbsent(s);
    assert s == name + ['['] + (state + "]");
    SplitWithoutSep(state + "]", '[');
    SplitPrefix(name, '[', state + "]");
    assert (state + "]")[..|state|] == state;
  }

  /** Replacing `{` changes nothing in a text without one. */
  lemma ReplaceAbsent(s: string)
    requires '{' !in s
    ensures ReplaceChar(s, '{', '[') == s
  {
  }

  /** A string without brackets is all name, with an empty state. */
  lemma BlockStringPartsBare(name: string)
    requires '[' !in name && '{' !in name
    ensures BlockStringParts(name) == (name, "")
  {
    ReplaceAbsent(name);
    SplitWithoutSep(name, '[');
  }

  /**
   * `ConvertStringToBlockNameAndPropsForSearch`: the name for search, and the
   * state parsed into a property set; a state that does not parse leaves it
   * nil.
   */
  function ConvertStringToBlockNameAndPropsForSearch(lib: PropsLib, s: string): (r: (string, Option<PropsForSearch>))
    ensures r.0 == BlockStringParts(s).0
    ensures lib.fromStr(BlockStringParts(s).1).Failure? ==> r.1 == None
    ensures lib.fromStr(BlockStringParts(s).1).Success? ==> r.1 == lib.fromStr(BlockStringParts(s).1).value
  {
    var (name, state) := BlockStringParts(s);
    match lib.fromStr(state)
    case Failure(_) => (name, None)
    case Success(props) => (name, props)
  }

  // ---------------------------------------------------------------------------
  // Routing a block string

  /** The non-empty strings of `ss`, in order. */
  function NonEmpty(ss: seq<string>): (r: seq<string>)
    ensures |r| <= |ss|
    ensures forall i :: 0 <= i < |r| ==> r[i] != "" && r[i] in ss
    decreases |ss|
  {
    if |ss| == 0 then []
    else
      var init := NonEmpty(ss[..|ss| - 1]);
      assert forall x :: x in ss[..|ss| - 1] ==> x in ss;
      init + (if ss[|ss| - 1] == "" then [] else [ss[|ss| - 1]])
  }

  /** A list with no empty string is its own filter. */
  lemma {:induction false} NonEmptyKeepsAll(ss: seq<string>)
    requires forall i :: 0 <= i < |ss| ==> ss[i] != ""
    ensures NonEmpty(ss) == ss
    decreases |ss|
  {
    if |ss| > 0 {
      NonEmptyKeepsAll(ss[..|ss| - 1]);
      assert ss[..|ss| - 1] + [ss[|ss| - 1]] == ss;
    }
  }

  /** The space-separated words of a string, ignoring runs of spaces. */
  function Words(s: string): seq<string> {
    NonEmpty(Split(s, ' '))
  }

  /** Words written with single spaces between them come back unchanged. */
  lemma WordsOfJoin(words: seq<string>)
    requires |words| >= 1
    requires forall i :: 0 <= i < |words| ==> words[i] != "" && ' ' !in words[i]
    ensures Words(Join(words, ' ')) == words
  {
    SplitJoin(words, ' ');
    NonEmptyKeepsAll(words);
  }

  /**
   * The legacy query a trimmed block string asks for, if it is one: exactly
   * two words, the second an integer, which is truncated to 16 bits.
   */
  function LegacyQuery(s: string): (r: Option<(string, uint16)>)
    ensures r.Some? <==> |Words(s)| == 2 && Atoi(Words(s)[1]).Some?
    ensures r.Some? ==> r.value.0 == Words(s)[0] && r.value.0 != "" && ' ' !in r.value.0
    ensures r.Some? ==> r.value.1 == ToUint16(Atoi(Words(s)[1]).value)
  {
    var ws := Words(s);
    if |ws| == 2 && Atoi(ws[1]).Some? then
      assert ws[0] in Split(s, ' ');
      Some((ws[0], ToUint16(Atoi(ws[1]).value)))
    else None
  }

  /** `name value` with a word for a name and an in-range integer value is a legacy query. */
  lemma LegacyQueryOf(name: string, value: int)
    requires name != "" && forall i :: 0 <= i < |name| ==> !IsSpace(name[i])
    requires INT64_MIN <= value <= INT64_MAX
    ensures LegacyQuery(TrimSpace(name + " " + DecimalString(value))) == Some((name, ToUint16(value)))
  {
    var digits := DecimalString(value);
    var s := name + " " + digits;
    assert ' ' !in name by {
      assert IsSpace(' ');
    }
    assert ' ' !in digits && digits != "" by {
      DecimalDigits(value);
    }
    assert Trimmed(s) by {
      DecimalDigits(value);
      assert s[0] == name[0];
      assert s[|s| - 1] == digits[|digits| - 1];
    }
    TrimSpaceOfTrimmed(s);
    assert Join([name, digits], ' ') == s;
    WordsOfJoin([name, digits]);
    DecimalRoundTrip(value);
  }

  /** `DecimalString` writes an optional sign and digits, never a space. */
  lemma DecimalDigits(n: int)
    ensures ' ' !in DecimalString(n) && !IsSpace(DecimalString(n)[0])
    ensures !IsSpace(DecimalString(n)[|DecimalString(n)| - 1])
  {
    var r := DecimalString(n);
    if n < 0 {
      assert r == "-" + NatDigits(-n);
    } else {
      assert r == NatDigits(n);
    }
  }

  /**
   * `BlockStrToRuntimeID` (and `JavaBlockStrToRuntimeID`, the same function):
   * a trimmed `name value` string is a legacy search; anything else is a
   * state search on the split name and state.
   */
  method BlockStrToRuntimeID(rt: Runtime, lib: PropsLib, blockStr: string) returns (runtimeID: uint32, found: bool)
    ensures var t := TrimSpace(blockStr);
            LegacyQuery(t).Some? ==> (runtimeID, found) == rt.nemcLegacy(LegacyQuery(t).value.0, LegacyQuery(t).value.1)
    ensures var t := TrimSpace(blockStr);
            var parts := ConvertStringToBlockNameAndPropsForSearch(lib, t);
            LegacyQuery(t).None? ==> (runtimeID, found) == rt.nemcState(parts.0, parts.1)
  {
    var trimmed := TrimSpace(blockStr);
    var ss := Split(trimmed, ' ');
    if |ss| > 1 {
      var cleaned: seq<string> := [];
      for k := 0 to |ss|
        invariant cleaned == NonEmpty(ss[..k])
      {
        assert ss[..k + 1][..k] == ss[..k];
        if ss[k] == "" {
          continue;
        }
        cleaned := cleaned + [ss[k]];
      }
      assert ss[..|ss|] == ss;
      if |cleaned| == 2 {
        var val := Atoi(cleaned[1]);
        if val.Some? {
          var answer := rt.nemcLegacy(cleaned[0], ToUint16(val.value));
          return answer.0, answer.1;
        }
      }
    }
    var (name, props) := ConvertStringToBlockNameAndPropsForSearch(lib, trimmed);
    var answer := rt.nemcState(name, props);
    runtimeID, found := answer.0, answer.1;
  }

  // ---------------------------------------------------------------------------
  // Bedrock lookups and their fallbacks

  /** `RuntimeIDToState`: `"air"` and nil properties for an unknown runtime ID. */
  function RuntimeIDToState(rt: Runtime, runtimeID: uint32): (r: (string, Option<map<string, Nbt.Value>>, bool))
    ensures r.2 <==> rt.blockByRtid(runtimeID).Some?
    ensures !r.2 ==> r.0 == "air" && r.1 == None
    ensures r.2 ==> r.0 == rt.blockByRtid(runtimeID).value.shortName && r.1 == Some(rt.blockByRtid(runtimeID).value.statesNbt)
  {
    match rt.blockByRtid(runtimeID)
    case None => ("air", None, false)
    case Some(block) => (block.shortName, Some(block.statesNbt), true)
  }

  /** `RuntimeIDToBlockNameWithStateStr`: `"air []"` for an unknown runtime ID. */
  function RuntimeIDToBlockNameWithStateStr(rt: Runtime, runtimeID: uint32): (r: (string, bool))
    ensures r.1 <==> rt.blockByRtid(runtimeID).Some?
    ensures !r.1 ==> r.0 == "air []"
    ensures r.1 ==> r.0 == rt.blockByRtid(runtimeID).value.bedrockString
  {
    match rt.blockByRtid(runtimeID)
    case None => ("air []", false)
    case Some(block) => (block.bedrockString, true)
  }

  /** `RuntimeIDToBlockNameAndStateStr`: `"air"` and `"[]"` for an unknown runtime ID. */
  function RuntimeIDToBlockNameAndStateStr(rt: Runtime, runtimeID: uint32): (r: (string, string, bool))
    ensures r.2 <==> rt.blockByRtid(runtimeID).Some?
    ensures !r.2 ==> r.0 == "air" && r.1 == "[]"
    ensures r.2 ==> r.0 == rt.blockByRtid(runtimeID).value.shortName && r.1 == rt.blockByRtid(runtimeID).value.statesString
  {
    match rt.blockByRtid(runtimeID)
    case None => ("air", "[]", false)
    case Some(block) => (block.shortName, block.statesString, true)
  }

  /** `BlockNameAndStateToRuntimeID`: properties that do not convert give air, not found. */
  function BlockNameAndStateToRuntimeID(rt: Runtime, lib: PropsLib, name: string, properties: map<string, Nbt.Value>): (r: (uint32, bool))
    ensures lib.fromNbt(properties).Failure? ==> r == (rt.airRuntimeId, false)
    ensures lib.fromNbt(properties).Success? ==> r == rt.nemcState(name, lib.fromNbt(properties).value)
  {
    match lib.fromNbt(properties)
    case Failure(_) => (rt.airRuntimeId, false)
    case Success(props) => rt.nemcState(name, props)
  }

  /** `BlockNameAndStateStrToRuntimeID`: a state string that does not parse gives air, not found. */
  function BlockNameAndStateStrToRuntimeID(rt: Runtime, lib: PropsLib, name: string, stateStr: string): (r: (uint32, bool))
    ensures lib.fromStr(stateStr).Failure? ==> r == (rt.airRuntimeId, false)
    ensures lib.fromStr(stateStr).Success? ==> r == rt.nemcState(name, lib.fromStr(stateStr).value)
  {
    match lib.fromStr(stateStr)
    case Failure(_) => (rt.airRuntimeId, false)
    case Success(props) => rt.nemcState(name, props)
  }

  // ---------------------------------------------------------------------------
  // Java lookups and their fallbacks

  /** What `BedrockToJavaConvertor.TryBestSearchByState(name, states)` returns, without its score. */
  ghost predicate JavaSearchResult(c: ToJavaConvertor, name: string, states: Option<PropsForSearch>,
                                   javaBlock: JavaBlockString, found: bool)
    reads c
  {
    var b := c.lib.baseName(name);
    if b in c.Groups then exists score :: FuzzyStateResult(c.lib, c.Groups[b], c.airBlock, states, javaBlock, score, found)
    else javaBlock == c.airBlock && !found
  }

  /** `RuntimeIDToJavaBlockStr`: the Java block string, or `"minecraft:air"` when either lookup fails. */
  method RuntimeIDToJavaBlockStr(rt: Runtime, c: ToJavaConvertor, runtimeID: uint32) returns (javaBlockStr: string, found: bool)
    requires c.Valid()
    ensures rt.blockByRtid(runtimeID).None? ==> javaBlockStr == "minecraft:air" && !found
    ensures rt.blockByRtid(runtimeID).Some? ==>
              var block := rt.blockByRtid(runtimeID).value;
              exists javaBlock :: JavaSearchResult(c, block.nameForSearch, block.statesForSearch, javaBlock, found)
                                  && javaBlockStr == (if found then javaBlock.ToString() else "minecraft:air")
  {
    var block := rt.blockByRtid(runtimeID);
    if block.None? {
      return "minecraft:air", false;
    }
    var javaBlock, score, matchAny := c.TryBestSearchByState(block.value.nameForSearch, block.value.statesForSearch);
    found := matchAny;
    javaBlockStr := if found then javaBlock.ToString() else "minecraft:air";
    assert JavaSearchResult(c, block.value.nameForSearch, block.value.statesForSearch, javaBlock, found);
  }

  /** `RuntimeIDToJavaBlockNameAndState`: the Java name and NBT properties, or `"air"` and nil. */
  method RuntimeIDToJavaBlockNameAndState(rt: Runtime, c: ToJavaConvertor, runtimeID: uint32)
    returns (name: string, properties: Option<map<string, Nbt.Value>>, found: bool)
    requires c.Valid()
    ensures rt.blockByRtid(runtimeID).None? ==> name == "air" && properties == None && !found
    ensures rt.blockByRtid(runtimeID).Some? ==>
              var block := rt.blockByRtid(runtimeID).value;
              exists javaBlock :: JavaSearchResult(c, block.nameForSearch, block.statesForSearch, javaBlock, found)
                                  && (found ==> name == javaBlock.name && properties == Some(c.lib.toNbt(javaBlock.props)))
                                  && (!found ==> name == "air" && properties == None)
  {
    var block := rt.blockByRtid(runtimeID);
    if block.None? {
      return "air", None, false;
    }
    var javaBlock, score, matchAny := c.TryBestSearchByState(block.value.nameForSearch, block.value.statesForSearch);
    assert JavaSearchResult(c, block.value.nameForSearch, block.value.statesForSearch, javaBlock, matchAny);
    if !matchAny {
      return "air", None, false;
    }
    return javaBlock.name, Some(c.lib.toNbt(javaBlock.props)), true;
  }

  /** `BedrockBlockStrToJavaBlockStr`: splits the Bedrock string, then searches; `"minecraft:air"` when not found. */
  method BedrockBlockStrToJavaBlockStr(c: ToJavaConvertor, bedrockBlockStr: string) returns (javaBlockStr: string, found: bool)
    requires c.Valid()
    ensures var parts := ConvertStringToBlockNameAndPropsForSearch(c.lib, bedrockBlockStr);
            exists javaBlock :: JavaSearchResult(c, parts.0, parts.1, javaBlock, found)
                                && javaBlockStr == (if found then javaBlock.ToString() else "minecraft:air")
  {
    var (name, props) := ConvertStringToBlockNameAndPropsForSearch(c.lib, bedrockBlockStr);
    var javaBlock, score, matchAny := c.TryBestSearchByState(name, props);
    found := matchAny;
    javaBlockStr := if found then javaBlock.ToString() else "minecraft:air";
    assert JavaSearchResult(c, name, props, javaBlock, found);
  }

  /** `BedrockBlockNameAndStateToJavaBlock`: properties that do not convert, or no match, give `"air"` and nil. */
  method BedrockBlockNameAndStateToJavaBlock(c: ToJavaConvertor, name: string, properties: map<string, Nbt.Value>)
    returns (javaName: string, javaProperties: Option<map<string, Nbt.Value>>, found: bool)
    requires c.Valid()
    ensures c.lib.fromNbt(properties).Failure? ==> javaName == "air" && javaProperties == None && !found
    ensures c.lib.fromNbt(properties).Success? ==>
              exists javaBlock :: JavaSearchResult(c, name, c.lib.fromNbt(properties).value, javaBlock, found)
                                  && (found ==> javaName == javaBlock.name && javaProperties == Some(c.lib.toNbt(javaBlock.props)))
                                  && (!found ==> javaName == "air" && javaProperties == None)
  {
    var props := c.lib.fromNbt(properties);
    if props.Failure? {
      return "air", None, false;
    }
    var javaBlock, score, matchAny := c.TryBestSearchByState(name, props.value);
    assert JavaSearchResult(c, name, props.value, javaBlock, matchAny);
    if !matchAny {
      return "air", None, false;
    }
    return javaBlock.name, Some(c.lib.toNbt(javaBlock.props)), true;
  }

  /** `RuntimeIDToJavaBlockNameAndStateStr`: the Java name and SNBT, or `"air"` and `"[]"`. */
  method RuntimeIDToJavaBlockNameAndStateStr(rt: Runtime, c: ToJavaConvertor, runtimeID: uint32)
    returns (blockName: string, blockState: string, found: bool)
    requires c.Valid()
    ensures rt.blockByRtid(runtimeID).None? ==> blockName == "air" && blockState == "[]" && !found
    ensures rt.blockByRtid(runtimeID).Some? ==>
              var block := rt.blockByRtid(runtimeID).value;
              exists javaBlock :: JavaSearchResult(c, block.nameForSearch, block.statesForSearch, javaBlock, found)
                                  && (found ==> blockName == javaBlock.name && blockState == javaBlock.snbt)
                                  && (!found ==> blockName == "air" && blockState == "[]")
  {
    var block := rt.blockByRtid(runtimeID);
    if block.None? {
      return "air", "[]", false;
    }
    var javaBlock, score, matchAny := c.TryBestSearchByState(block.value.nameForSearch, block.value.statesForSearch);
    assert JavaSearchResult(c, block.value.nameForSearch, block.value.statesForSearch, javaBlock, matchAny);
    if !matchAny {
      return "air", "[]", false;
    }
    return javaBlock.name, javaBlock.snbt, true;
  }
}
