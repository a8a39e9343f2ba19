/**
 * `parseSelectionBounds`: reading a selection written `@[x1,y1,z1]~[x2,y2,z2]`
 * into its least and greatest corners.
 *
 * The pattern `@\[(-?\d+),(-?\d+),(-?\d+)\]~\[(-?\d+),(-?\d+),(-?\d+)\]` is
 * matched by hand. Every `\d+` is followed by `,` or `]`, which are not
 * digits, so at a given start the only way to match takes each digit run
 * whole; the leftmost start that matches is the match `FindStringSubmatch`
 * reports.
 */
module Selection {
  import opened Wrappers
  import opened Ints
  import opened Text

  datatype BlockPos = BlockPos(x: int32, y: int32, z: int32)

  const Origin: BlockPos := BlockPos(0, 0, 0)

  /** `minInt32`. */
  function MinInt32(a: int32, b: int32): (r: int32)
    ensures r <= a && r <= b
    ensures r == a || r == b
  {
    if a < b then a else b
  }

  /** `maxInt32`. */
  function MaxInt32(a: int32, b: int32): (r: int32)
    ensures r >= a && r >= b
    ensures r == a || r == b
  {
    if a > b then a else b
  }

  // ---------------------------------------------------------------------------
  // The pattern

  /** `-?\d+` */
  predicate IsNumberToken(t: string) {
    || (|t| > 0 && AllDigits(t))
    || (|t| > 1 && t[0] == '-' && AllDigits(t[1..]))
  }

  /** The end of the run of digits that starts at `i`. */
  function DigitsEnd(s: string, i: nat): (k: nat)
    requires i <= |s|
    ensures i <= k <= |s|
    decreases |s| - i
  {
    if i < |s| && IsDigit(s[i]) then DigitsEnd(s, i + 1) else i
  }

  /** `DigitsEnd` reads a run of digits and stops at a non-digit. */
  lemma {:induction false} DigitsEndIsRun(s: string, i: nat)
    requires i <= |s|
    ensures AllDigits(s[i..DigitsEnd(s, i)])
    ensures DigitsEnd(s, i) == |s| || !IsDigit(s[DigitsEnd(s, i)])
    decreases |s| - i
  {
    if i < |s| && IsDigit(s[i]) {
      DigitsEndIsRun(s, i + 1);
      var k := DigitsEnd(s, i);
      assert s[i..k] == [s[i]] + s[i + 1..k];
    }
  }

  /** The end of the number token `-?\d+` that starts at `i`, if one does. */
  function NumberEnd(s: string, i: nat): (r: Option<nat>)
    requires i <= |s|
    ensures r.Some? ==> i < r.value <= |s|
  {
    var j := if i < |s| && s[i] == '-' then i + 1 else i;
    var k := DigitsEnd(s, j);
    if k == j then None else Some(k)
  }

  /** What `NumberEnd` reads is a number token, and it stops at a non-digit. */
  lemma NumberEndIsToken(s: string, i: nat)
    requires i <= |s| && NumberEnd(s, i).Some?
    ensures IsNumberToken(s[i..NumberEnd(s, i).value])
    ensures NumberEnd(s, i).value == |s| || !IsDigit(s[NumberEnd(s, i).value])
  {
    var j := if i < |s| && s[i] == '-' then i + 1 else i;
    var k := DigitsEnd(s, j);
    DigitsEndIsRun(s, j);
    if j == i + 1 {
      assert s[i..k][1..] == s[j..k];
    }
  }

  /** Whether `lit` is written at `i`. */
  predicate LiteralAt(s: string, i: nat, lit: string) {
    i + |lit| <= |s| && s[i..i + |lit|] == lit
  }

  /** Number tokens each followed by its separator, at the start of `s`; the tokens, in order. */
  function Fields(s: string, seps: seq<string>): (r: Option<seq<string>>)
    ensures r.Some? ==> |r.value| == |seps|
    decreases |seps|
  {
    if |seps| == 0 then Some([])
    else
      match NumberEnd(s, 0)
      case None => None
      case Some(k) =>
        if !LiteralAt(s, k, seps[0]) then None
        else
          match Fields(s[k + |seps[0]|..], seps[1..])
          case None => None
          case Some(rest) => Some([s[..k]] + rest)
  }

  /** Every field read is a number token. */
  lemma {:induction false} FieldsAreNumbers(s: string, seps: seq<string>)
    requires Fields(s, seps).Some?
    ensures forall t :: 0 <= t < |Fields(s, seps).value| ==> IsNumberToken(Fields(s, seps).value[t])
    decreases |seps|
  {
    if |seps| > 0 {
      var k := NumberEnd(s, 0).value;
      NumberEndIsToken(s, 0);
      var tail := s[k + |seps[0]|..];
      FieldsAreNumbers(tail, seps[1..]);
      assert Fields(s, seps).value == [s[..k]] + Fields(tail, seps[1..]).value;
      assert s[0..k] == s[..k];
    }
  }

  /** The separators after the six numbers. */
  const Separators: seq<string> := [",", ",", "]~[", ",", ",", "]"]

  /** The pattern matched at `i`: its six numbers. */
  function MatchAt(s: string, i: nat): (r: Option<seq<string>>)
    requires i <= |s|
    ensures r.Some? ==> |r.value| == 6
  {
    if LiteralAt(s, i, "@[") then Fields(s[i + 2..], Separators) else None
  }

  /** A match is six number tokens. */
  lemma MatchIsNumbers(s: string, i: nat)
    requires i <= |s| && MatchAt(s, i).Some?
    ensures forall t :: 0 <= t < 6 ==> IsNumberToken(MatchAt(s, i).value[t])
  {
    FieldsAreNumbers(s[i + 2..], Separators);
  }

  /** Where `FindStringSubmatch` finds the pattern from `i` on: the leftmost start where it matches. */
  function FirstMatchAt(s: string, i: nat): (r: Option<nat>)
    requires i <= |s|
    ensures r.Some? ==> i <= r.value <= |s| && MatchAt(s, r.value).Some?
    ensures r.Some? ==> forall q :: i <= q < r.value ==> MatchAt(s, q).None?
    ensures r.None? ==> forall p :: i <= p <= |s| ==> MatchAt(s, p).None?
    decreases |s| - i
  {
    if MatchAt(s, i).Some? then Some(i)
    else if i == |s| then None
    else FirstMatchAt(s, i + 1)
  }

  /** `FindStringSubmatch`: the six numbers of the leftmost match. */
  function FindSubmatch(s: string): (r: Option<seq<string>>)
    ensures r.Some? ==> |r.value| == 6
  {
    match FirstMatchAt(s, 0)
    case None => None
    case Some(p) => MatchAt(s, p)
  }

  // ---------------------------------------------------------------------------
  // parseSelectionBounds

  /** `strconv.ParseInt(s, 10, 32)`. */
  function ParseInt32(s: string): Option<int32> {
    match ParseIntInRange(s, INT32_MIN, INT32_MAX)
    case None => None
    case Some(v) => Some(v as int32)
  }

  /** The pattern is found and all six of its numbers fit in an int32. */
  predicate Selected(target: string) {
    var m := FindSubmatch(target);
    && m.Some?
    && ParseInt32(m.value[0]).Some? && ParseInt32(m.value[1]).Some? && ParseInt32(m.value[2]).Some?
    && ParseInt32(m.value[3]).Some? && ParseInt32(m.value[4]).Some? && ParseInt32(m.value[5]).Some?
  }

  /** The least and the greatest corner of the box two corners span. */
  function Corners(s: BlockPos, e: BlockPos): (r: (BlockPos, BlockPos))
    ensures r.0.x <= r.1.x && r.0.y <= r.1.y && r.0.z <= r.1.z
    ensures multiset{r.0.x, r.1.x} == multiset{s.x, e.x}
    ensures multiset{r.0.y, r.1.y} == multiset{s.y, e.y}
    ensures multiset{r.0.z, r.1.z} == multiset{s.z, e.z}
  {
    (BlockPos(MinInt32(s.x, e.x), MinInt32(s.y, e.y), MinInt32(s.z, e.z)),
     BlockPos(MaxInt32(s.x, e.x), MaxInt32(s.y, e.y), MaxInt32(s.z, e.z)))
  }

  /** The two corners a match writes. */
  function WrittenCorners(target: string): (BlockPos, BlockPos)
    requires Selected(target)
  {
    var m := FindSubmatch(target).value;
    (BlockPos(ParseInt32(m[0]).value, ParseInt32(m[1]).value, ParseInt32(m[2]).value),
     BlockPos(ParseInt32(m[3]).value, ParseInt32(m[4]).value, ParseInt32(m[5]).value))
  }

  /**
   * `parseSelectionBounds`: the least corner and the greatest corner of the
   * two written; zero positions and not ok when the pattern is absent or a
   * coordinate does not fit in an int32.
   */
  function ParseSelectionBounds(target: string): (r: (BlockPos, BlockPos, bool))
    ensures r.2 <==> Selected(target)
    ensures !r.2 ==> r.0 == Origin && r.1 == Origin
    ensures r.2 ==> (r.0, r.1) == Corners(WrittenCorners(target).0, WrittenCorners(target).1)
  {
    var matches := FindSubmatch(target);
    if matches.None? then (Origin, Origin, false)
    else
      var m := matches.value;
      var sx, sy, sz := ParseInt32(m[0]), ParseInt32(m[1]), ParseInt32(m[2]);
      var ex, ey, ez := ParseInt32(m[3]), ParseInt32(m[4]), ParseInt32(m[5]);
      if !(sx.Some? && sy.Some? && sz.Some? && ex.Some? && ey.Some? && ez.Some?) then
        (Origin, Origin, false)
      else
        var c := Corners(BlockPos(sx.value, sy.value, sz.value), BlockPos(ex.value, ey.value, ez.value));
        (c.0, c.1, true)
  }

  // ---------------------------------------------------------------------------
  // Writing a selection and reading it back

  /** Numbers interleaved with their separators. */
  function Interleave(tokens: seq<string>, seps: seq<string>): string
    requires |tokens| == |seps|
    decreases |seps|
  {
    if |seps| == 0 then "" else tokens[0] + seps[0] + Interleave(tokens[1..], seps[1..])
  }

  /** The six numbers of a selection, in the order they are written. */
  function Numbers(a: BlockPos, b: BlockPos): seq<int> {
    [a.x, a.y, a.z, b.x, b.y, b.z]
  }

  function Decimals(ns: seq<int>): (r: seq<string>)
    ensures |r| == |ns| && forall t :: 0 <= t < |ns| ==> r[t] == DecimalString(ns[t])
  {
    if |ns| == 0 then [] else [DecimalString(ns[0])] + Decimals(ns[1..])
  }

  /** How a selection is written: `@[x1,y1,z1]~[x2,y2,z2]`. */
  function SelectionText(a: BlockPos, b: BlockPos): string {
    "@[" + Interleave(Decimals(Numbers(a, b)), Separators)
  }

  /** A digit run that stops at a non-digit is read whole. */
  lemma {:induction false} DigitsEndOfRun(s: string, i: nat, k: nat)
    requires i <= k <= |s| && AllDigits(s[i..k]) && (k == |s| || !IsDigit(s[k]))
    ensures DigitsEnd(s, i) == k
    decreases k - i
  {
    if i < k {
      assert s[i] == s[i..k][0];
      assert s[i + 1..k] == s[i..k][1..];
      DigitsEndOfRun(s, i + 1, k);
    }
  }

  /** A written number followed by a non-digit is read as exactly that token. */
  lemma NumberEndOfDecimal(n: int, rest: string)
    requires |rest| > 0 && !IsDigit(rest[0])
    ensures NumberEnd(DecimalString(n) + rest, 0) == Some(|DecimalString(n)|)
  {
    var d := DecimalString(n);
    var s := d + rest;
    var k := |d|;
    assert s[..k] == d && s[k] == rest[0];
    if n < 0 {
      assert d == "-" + NatDigits(-n);
      assert s[1..k] == d[1..];
      DigitsEndOfRun(s, 1, k);
    } else {
      assert d == NatDigits(n);
      assert s[0..k] == d;
      DigitsEndOfRun(s, 0, k);
    }
  }

  /** One step of `Fields`: a number that ends where its separator starts. */
  lemma FieldsStep(s: string, k: nat, seps: seq<string>)
    requires k <= |s| && NumberEnd(s, 0) == Some(k)
    requires |seps| > 0 && LiteralAt(s, k, seps[0])
    requires Fields(s[k + |seps[0]|..], seps[1..]).Some?
    ensures Fields(s, seps) == Some([s[..k]] + Fields(s[k + |seps[0]|..], seps[1..]).value)
  {
  }

  /** Where the pieces of `d + sep + x` sit. */
  lemma ConcatPieces(d: string, sep: string, x: string)
    ensures var s := d + (sep + x);
            && s[..|d|] == d
            && LiteralAt(s, |d|, sep)
            && s[|d| + |sep|..] == x
  {
    var s := d + (sep + x);
    assert s[|d|..] == sep + x;
    assert s[|d|..][..|sep|] == sep;
    assert s[|d|..][|sep|..] == x;
  }

  /** The first number and separator at the front of an interleaving. */
  lemma InterleaveHead(tokens: seq<string>, seps: seq<string>, rest: string)
    requires |tokens| == |seps| > 0
    ensures Interleave(tokens, seps) + rest == tokens[0] + (seps[0] + (Interleave(tokens[1..], seps[1..]) + rest))
  {
  }

  /** Written numbers with their separators read back as the numbers. */
  lemma {:induction false} FieldsOfInterleave(ns: seq<int>, seps: seq<string>, rest: string)
    requires |ns| == |seps|
    requires forall t :: 0 <= t < |seps| ==> |seps[t]| > 0 && !IsDigit(seps[t][0])
    ensures Fields(Interleave(Decimals(ns), seps) + rest, seps) == Some(Decimals(ns))
    decreases |seps|
  {
    if |seps| > 0 {
      var tokens := Decimals(ns);
      var x := Interleave(tokens[1..], seps[1..]) + rest;
      InterleaveHead(tokens, seps, rest);
      ConcatPieces(tokens[0], seps[0], x);
      NumberEndOfDecimal(ns[0], seps[0] + x);
      assert tokens[1..] == Decimals(ns[1..]);
      FieldsOfInterleave(ns[1..], seps[1..], rest);
      FieldsStep(Interleave(tokens, seps) + rest, |tokens[0]|, seps);
      assert [tokens[0]] + tokens[1..] == tokens;
    }
  }

  /** The pattern is read at the start of a written selection. */
  lemma MatchOfSelectionText(a: BlockPos, b: BlockPos)
    ensures MatchAt(SelectionText(a, b), 0) == Some(Decimals(Numbers(a, b)))
  {
    var s := SelectionText(a, b);
    var w := Interleave(Decimals(Numbers(a, b)), Separators);
    assert s[2..] == w + "";
    FieldsOfInterleave(Numbers(a, b), Separators, "");
  }

  /** A written int32 reads back as itself. */
  lemma ParseInt32OfDecimal(n: int32)
    ensures ParseInt32(DecimalString(n)) == Some(n)
  {
    DecimalRoundTrip(n);
  }

  /** Six int32 coordinates found in the text are read as the box they span. */
  lemma BoundsOfTokens(s: string, m: seq<string>, a: BlockPos, b: BlockPos)
    requires FindSubmatch(s) == Some(m)
    requires ParseInt32(m[0]) == Some(a.x) && ParseInt32(m[1]) == Some(a.y) && ParseInt32(m[2]) == Some(a.z)
    requires ParseInt32(m[3]) == Some(b.x) && ParseInt32(m[4]) == Some(b.y) && ParseInt32(m[5]) == Some(b.z)
    ensures ParseSelectionBounds(s) == (Corners(a, b).0, Corners(a, b).1, true)
  {
    assert Selected(s);
    assert WrittenCorners(s) == (a, b);
  }

  /** The six written coordinates of a selection, found, read back as themselves. */
  lemma BoundsOfFoundNumbers(s: string, a: BlockPos, b: BlockPos)
    requires FindSubmatch(s) == Some(Decimals(Numbers(a, b)))
    ensures ParseSelectionBounds(s) == (Corners(a, b).0, Corners(a, b).1, true)
  {
    var m := Decimals(Numbers(a, b));
    assert m[0] == DecimalString(a.x) && m[1] == DecimalString(a.y) && m[2] == DecimalString(a.z);
    assert m[3] == DecimalString(b.x) && m[4] == DecimalString(b.y) && m[5] == DecimalString(b.z);
    ParseInt32OfDecimal(a.x);
    ParseInt32OfDecimal(a.y);
    ParseInt32OfDecimal(a.z);
    ParseInt32OfDecimal(b.x);
    ParseInt32OfDecimal(b.y);
    ParseInt32OfDecimal(b.z);
    BoundsOfTokens(s, m, a, b);
  }

  /** A selection written out reads back as its least and greatest corners. */
  lemma SelectionRoundTrip(a: BlockPos, b: BlockPos)
    ensures ParseSelectionBounds(SelectionText(a, b)) == (Corners(a, b).0, Corners(a, b).1, true)
  {
    var s := SelectionText(a, b);
    MatchOfSelectionText(a, b);
    assert FirstMatchAt(s, 0) == Some(0);
    BoundsOfFoundNumbers(s, a, b);
  }
}
