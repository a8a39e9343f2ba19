/**
 * Translation records in their text form (convertor/to_java_record.go):
 * four lines per record, and the loading of one record into a convertor.
 */
module JavaRecord {
  import opened Wrappers
  import opened Ints
  import opened Text
  import opened Describe
  import opened ToJava

  /**
   * `JavaConvertRecord`: a Bedrock base name, either an SNBT state or a
   * decimal legacy value, and the target Java block's name and SNBT state.
   */
  datatype JavaConvertRecord = JavaConvertRecord(
    name: string,
    snbtStateOrValue: string,
    javaBlockName: string,
    javaBlockSNBT: string)
  {
    /** `String()`: the four fields, each followed by a newline. */
    function ToString(): string {
      name + "\n" + snbtStateOrValue + "\n" + javaBlockName + "\n" + javaBlockSNBT + "\n"
    }

    /** No field holds a newline. */
    predicate Fields() {
      '\n' !in name && '\n' !in snbtStateOrValue && '\n' !in javaBlockName && '\n' !in javaBlockSNBT
    }

    /** A record `ReadJavaRecordsFromString` can produce: trimmed, single-line fields and a name. */
    predicate WellFormed() {
      && Fields()
      && name != ""
      && Trimmed(name) && Trimmed(snbtStateOrValue) && Trimmed(javaBlockName) && Trimmed(javaBlockSNBT)
    }

    /**
     * `GetLegacyValue`: the second field read with `strconv.Atoi` and
     * truncated to uint16; `(0, false)` when it is not a 64-bit decimal.
     */
    function GetLegacyValue(): (r: (uint16, bool))
      ensures r.1 <==> Atoi(snbtStateOrValue).Some?
      ensures !r.1 ==> r.0 == 0
      ensures r.1 ==> (Atoi(snbtStateOrValue).value - r.0) % 0x1_0000 == 0
    {
      match Atoi(snbtStateOrValue)
      case None => (0, false)
      case Some(v) => (ToUint16(v), true)
    }
  }

  /** Splitting `a\nb\nc\nd\n` + rest at newlines gives the four lines, then the lines of rest. */
  lemma SplitLines4(a: string, b: string, c: string, d: string, rest: string)
    requires '\n' !in a && '\n' !in b && '\n' !in c && '\n' !in d
    ensures Split(a + "\n" + b + "\n" + c + "\n" + d + "\n" + rest, '\n') == [a, b, c, d] + Split(rest, '\n')
  {
    var s := a + "\n" + b + "\n" + c + "\n" + d + "\n" + rest;
    var r3 := d + "\n" + rest;
    var r2 := c + "\n" + r3;
    var r1 := b + "\n" + r2;
    assert s == a + ['\n'] + r1;
    assert r1 == b + ['\n'] + r2;
    assert r2 == c + ['\n'] + r3;
    assert r3 == d + ['\n'] + rest;
    SplitPrefix(a, '\n', r1);
    SplitPrefix(b, '\n', r2);
    SplitPrefix(c, '\n', r3);
    SplitPrefix(d, '\n', rest);
  }

  /** The text form of a record splits back into its four fields and an empty last line. */
  lemma ToStringLines(r: JavaConvertRecord)
    requires r.Fields()
    ensures Split(r.ToString(), '\n') == [r.name, r.snbtStateOrValue, r.javaBlockName, r.javaBlockSNBT, ""]
  {
    SplitLines4(r.name, r.snbtStateOrValue, r.javaBlockName, r.javaBlockSNBT, "");
    assert r.ToString() == r.ToString() + "";
    assert Split("", '\n') == [""];
  }

  /** Any 64-bit decimal, negative or beyond 65535 included, is a legacy value taken modulo 2^16. */
  lemma LegacyValueOfDecimal(n: int, r: JavaConvertRecord)
    requires INT64_MIN <= n <= INT64_MAX
    requires r.snbtStateOrValue == DecimalString(n)
    ensures r.GetLegacyValue() == (ToUint16(n), true)
  {
    DecimalRoundTrip(n);
  }

  /** An SNBT state (`{…}` or `[…]`) or an empty field is never taken for a legacy value. */
  lemma StateIsNotLegacyValue(r: JavaConvertRecord)
    requires |r.snbtStateOrValue| == 0 || r.snbtStateOrValue[0] == '{' || r.snbtStateOrValue[0] == '['
    ensures r.GetLegacyValue() == (0, false)
  {
  }

  // ---------------------------------------------------------------------------
  // Reading records

  /**
   * The records a list of lines holds: consecutive groups of four trimmed
   * lines, a group whose name is empty skipped, a trailing group of fewer
   * than four lines ignored.
   */
  function RecordsOf(lines: seq<string>): seq<JavaConvertRecord>
    decreases |lines|
  {
    if |lines| < 4 then []
    else
      var name := TrimSpace(lines[0]);
      var here := if name == "" then []
                  else [JavaConvertRecord(name, TrimSpace(lines[1]), TrimSpace(lines[2]), TrimSpace(lines[3]))];
      here + RecordsOf(lines[4..])
  }

  /** The record a group of four lines starting at `i` contributes: none when the trimmed name is empty. */
  function RecordAt(lines: seq<string>, i: nat): seq<JavaConvertRecord>
    requires i + 3 < |lines|
  {
    var name := TrimSpace(lines[i]);
    if name == "" then []
    else [JavaConvertRecord(name, TrimSpace(lines[i + 1]), TrimSpace(lines[i + 2]), TrimSpace(lines[i + 3]))]
  }

  /** One step of the reader: the group at `i` is read, then the groups after it. */
  lemma ReadStep(lines: seq<string>, i: nat, records: seq<JavaConvertRecord>)
    requires i + 3 < |lines|
    requires records + RecordsOf(lines[i..]) == RecordsOf(lines)
    ensures (records + RecordAt(lines, i)) + RecordsOf(lines[i + 4..]) == RecordsOf(lines)
  {
    assert lines[i..][4..] == lines[i + 4..];
    assert RecordsOf(lines[i..]) == RecordAt(lines, i) + RecordsOf(lines[i + 4..]);
    AppendAssoc(records, RecordAt(lines, i), RecordsOf(lines[i + 4..]));
  }

  /** The body of the reader's loop: the group of four lines at `i`, trimmed, unless its name is empty. */
  method ReadGroup(lines: seq<string>, i: nat) returns (here: seq<JavaConvertRecord>)
    requires i + 3 < |lines|
    ensures here == RecordAt(lines, i)
  {
    here := [];
    var name := TrimSpace(lines[i]);
    if name != "" {
      here := [JavaConvertRecord(name, TrimSpace(lines[i + 1]), TrimSpace(lines[i + 2]), TrimSpace(lines[i + 3]))];
    }
  }

  /** `ReadJavaRecordsFromString`: never fails; the records of the text's lines. */
  method ReadJavaRecordsFromString(s: string) returns (records: seq<JavaConvertRecord>, err: Option<string>)
    ensures records == RecordsOf(Split(s, '\n'))
    ensures err == None
  {
    var lines := Split(s, '\n');
    records := ReadLines(lines);
    err := None;
  }

  /** The reader's loop over the lines, four at a time. */
  method ReadLines(lines: seq<string>) returns (records: seq<JavaConvertRecord>)
    ensures records == RecordsOf(lines)
  {
    records := [];
    var i := 0;
    assert lines[0..] == lines;
    while i + 3 < |lines|
      invariant 0 <= i <= |lines|
      invariant records + RecordsOf(lines[i..]) == RecordsOf(lines)
      decreases |lines| - i
    {
      var here := ReadGroup(lines, i);
      ReadStep(lines, i, records);
      records := records + here;
      i := i + 4;
    }
  }

  /** The text form of a list of records: their `String()`s one after the other. */
  function Serialize(rs: seq<JavaConvertRecord>): (s: string)
    ensures |s| >= 4 * |rs|
  {
    if |rs| == 0 then "" else rs[0].ToString() + Serialize(rs[1..])
  }

  /** A well-formed record in front of any text is read back first, then the text's records. */
  lemma ReadOneRecord(r: JavaConvertRecord, rest: string)
    requires r.WellFormed()
    ensures RecordsOf(Split(r.ToString() + rest, '\n')) == [r] + RecordsOf(Split(rest, '\n'))
  {
    SplitLines4(r.name, r.snbtStateOrValue, r.javaBlockName, r.javaBlockSNBT, rest);
    assert r.ToString() + rest == r.name + "\n" + r.snbtStateOrValue + "\n" + r.javaBlockName + "\n" + r.javaBlockSNBT + "\n" + rest;
    var lines := [r.name, r.snbtStateOrValue, r.javaBlockName, r.javaBlockSNBT] + Split(rest, '\n');
    assert lines[4..] == Split(rest, '\n');
    TrimSpaceOfTrimmed(r.name);
    TrimSpaceOfTrimmed(r.snbtStateOrValue);
    TrimSpaceOfTrimmed(r.javaBlockName);
    TrimSpaceOfTrimmed(r.javaBlockSNBT);
  }

  /** Reading back the text form of well-formed records gives the same records. */
  lemma {:induction false} ReadSerialized(rs: seq<JavaConvertRecord>)
    requires forall i :: 0 <= i < |rs| ==> rs[i].WellFormed()
    ensures RecordsOf(Split(Serialize(rs), '\n')) == rs
  {
    if |rs| == 0 {
      assert Split("", '\n') == [""];
    } else {
      ReadOneRecord(rs[0], Serialize(rs[1..]));
      ReadSerialized(rs[1..]);
      assert rs == [rs[0]] + rs[1..];
    }
  }

  /** Every record read from lines without newlines (as `Split` returns them) is well formed. */
  lemma {:induction false} RecordsOfWellFormed(lines: seq<string>)
    requires forall i :: 0 <= i < |lines| ==> '\n' !in lines[i]
    ensures forall i :: 0 <= i < |RecordsOf(lines)| ==> RecordsOf(lines)[i].WellFormed()
    decreases |lines|
  {
    if |lines| >= 4 {
      var rest := RecordsOf(lines[4..]);
      RecordsOfWellFormed(lines[4..]);
      var here := RecordAt(lines, 0);
      var all := RecordsOf(lines);
      assert all == here + rest;
      if here != [] {
        TrimSpaceKeeps(lines[0]);
        TrimSpaceKeeps(lines[1]);
        TrimSpaceKeeps(lines[2]);
        TrimSpaceKeeps(lines[3]);
        assert here[0].WellFormed();
      }
      forall k | 0 <= k < |all|
        ensures all[k].WellFormed()
      {
        if k < |here| {
          assert all[k] == here[k];
        } else {
          assert all[k] == rest[k - |here|];
        }
      }
    }
  }

  /** Every record `ReadJavaRecordsFromString` returns is well formed. */
  lemma ReadRecordsWellFormed(s: string)
    ensures forall i :: 0 <= i < |RecordsOf(Split(s, '\n'))| ==> RecordsOf(Split(s, '\n'))[i].WellFormed()
  {
    RecordsOfWellFormed(Split(s, '\n'));
  }

  // ---------------------------------------------------------------------------
  // Loading a record into a convertor

  /** The text of the strict-mode panic: the record's name, its value or state key, and the target. */
  function ConflictMessage(name: string, key: string, javaBlock: JavaBlockString): string {
    "fail to add java translation: " + name + " " + key + " " + javaBlock.ToString()
  }

  /**
   * `(*ToJavaConvertor).LoadJavaConvertRecord`. A decimal second field adds a
   * legacy-value anchor, anything else a state anchor. An unparsable state
   * panics (`Fail`) before anything changes; in strict mode an anchor that was
   * already present panics too, after the (no-op) insert.
   */
  method LoadJavaConvertRecord(c: ToJavaConvertor, r: JavaConvertRecord, overwrite: bool, strict: bool)
    returns (outcome: Outcome<string>)
    requires c.Valid()
    modifies c, c.Repr
    ensures c.Valid() && fresh(c.Repr - old(c.Repr))
    ensures r.GetLegacyValue().1 ==>
              var v := r.GetLegacyValue().0;
              var javaBlock := JavaBlockOf(c.lib, r.javaBlockName, r.javaBlockSNBT);
              var b := c.lib.baseName(r.name);
              var ins := GroupAddLegacy(GroupOrEmpty(old(c.Groups), b), v, javaBlock, overwrite);
              && UpdatedAt(c.Groups, old(c.Groups), b, ins.0)
              && outcome == if ins.1 && strict then Fail(ConflictMessage(r.name, DecimalString(v), javaBlock)) else Pass
    ensures !r.GetLegacyValue().1 && c.lib.fromStr(r.snbtStateOrValue).Failure? ==>
              c.Groups == old(c.Groups) && outcome == Fail(c.lib.fromStr(r.snbtStateOrValue).error)
    ensures !r.GetLegacyValue().1 && c.lib.fromStr(r.snbtStateOrValue).Success? ==>
              var props := c.lib.fromStr(r.snbtStateOrValue).value;
              var javaBlock := JavaBlockOf(c.lib, r.javaBlockName, r.javaBlockSNBT);
              var b := c.lib.baseName(r.name);
              var ins := StateInsert(c.lib, GroupOrEmpty(old(c.Groups), b), props, javaBlock, overwrite);
              && UpdatedAt(c.Groups, old(c.Groups), b, ins.0)
              && outcome == if ins.1 && strict then Fail(ConflictMessage(r.name, c.lib.inPreciseSNBT(props), javaBlock)) else Pass
  {
    var javaBlock := NewJavaBlockString(c.lib, r.javaBlockName, r.javaBlockSNBT);
    var (val, ok) := r.GetLegacyValue();
    if ok {
      outcome := LoadLegacyAnchor(c, r.name, val, javaBlock, overwrite, strict);
      return;
    }
    var parsed := c.lib.fromStr(r.snbtStateOrValue);
    if parsed.Failure? {
      return Fail(parsed.error);
    }
    outcome := LoadStateAnchor(c, r.name, parsed.value, javaBlock, overwrite, strict);
  }

  /** The legacy-value branch of `LoadJavaConvertRecord`. */
  method LoadLegacyAnchor(c: ToJavaConvertor, name: string, val: uint16, javaBlock: JavaBlockString, overwrite: bool, strict: bool)
    returns (outcome: Outcome<string>)
    requires c.Valid()
    modifies c, c.Repr
    ensures c.Valid() && fresh(c.Repr - old(c.Repr))
    ensures var b := c.lib.baseName(name);
            var ins := GroupAddLegacy(GroupOrEmpty(old(c.Groups), b), val, javaBlock, overwrite);
            && UpdatedAt(c.Groups, old(c.Groups), b, ins.0)
            && outcome == if ins.1 && strict then Fail(ConflictMessage(name, DecimalString(val), javaBlock)) else Pass
  {
    var exist, err := c.AddAnchorByLegacyValue(name, val, javaBlock, overwrite);
    if (err.Some? || exist) && strict {
      return Fail(ConflictMessage(name, DecimalString(val), javaBlock));
    }
    return Pass;
  }

  /** The state branch of `LoadJavaConvertRecord`, once the state has parsed. */
  method LoadStateAnchor(c: ToJavaConvertor, name: string, props: Option<PropsForSearch>, javaBlock: JavaBlockString, overwrite: bool, strict: bool)
    returns (outcome: Outcome<string>)
    requires c.Valid()
    modifies c, c.Repr
    ensures c.Valid() && fresh(c.Repr - old(c.Repr))
    ensures var b := c.lib.baseName(name);
            var ins := StateInsert(c.lib, GroupOrEmpty(old(c.Groups), b), props, javaBlock, overwrite);
            && UpdatedAt(c.Groups, old(c.Groups), b, ins.0)
            && outcome == if ins.1 && strict then Fail(ConflictMessage(name, c.lib.inPreciseSNBT(props), javaBlock)) else Pass
  {
    var exist, err := c.AddAnchorByState(name, props, javaBlock, overwrite);
    if (err.Some? || exist) && strict {
      return Fail(ConflictMessage(name, c.lib.inPreciseSNBT(props), javaBlock));
    }
    return Pass;
  }
}
