/**
 * Block descriptions: the search-side property set (whose parser, canonical
 * key and comparison are not part of this model and are given as functions),
 * and the Java block value with its typed properties and display form.
 */
module Describe {
  import opened Wrappers
  import opened Ints
  import opened Text
  import Nbt

  // ---------------------------------------------------------------------------
  // Search-side property sets

  /** The three kinds of property value a search property set holds. */
  datatype PropValForSearch =
    | Uint8Val(u: uint8)
    | Int32Val(i: int32)
    | StringVal(s: string)

  datatype PropForSearch = PropForSearch(name: string, value: PropValForSearch)

  /** `describe.PropsForSearch`: an ordered list of named values; a nil pointer is `None`. */
  type PropsForSearch = seq<PropForSearch>

  /** `describe.ComparedOutput`: the four uint8 counts of a comparison. */
  datatype ComparedOutput = ComparedOutput(same: uint8, different: uint8, redundant: uint8, missing: uint8)

  const ZeroScore := ComparedOutput(0, 0, 0, 0)

  /**
   * The operations of the describe package whose code is not part of this
   * model. Each is an arbitrary function: the model relies on nothing about
   * them beyond being deterministic.
   */
  datatype PropsLib = PropsLib(
    /** `BlockNameForSearch(name).BaseName()`: the grouping key of a block name. */
    baseName: string -> string,
    /** `(*PropsForSearch).InPreciseSNBT()`: the canonical key string (also called on nil). */
    inPreciseSNBT: Option<PropsForSearch> -> string,
    /** `(*PropsForSearch).NumProps()`. */
    numProps: PropsForSearch -> nat,
    /** `receiver.Compare(argument)`, both possibly nil. */
    compare: (Option<PropsForSearch>, Option<PropsForSearch>) -> ComparedOutput,
    /** `PropsForSearchFromStr`: a parse error, or a possibly nil property set. */
    fromStr: string -> Result<Option<PropsForSearch>, string>,
    /** `PropsForSearchFromNbt`. */
    fromNbt: map<string, Nbt.Value> -> Result<Option<PropsForSearch>, string>,
    /** `Props.ToNBT()` of the Java-side properties. */
    toNbt: seq<JavaProp> -> map<string, Nbt.Value>
  )

  // ---------------------------------------------------------------------------
  // Java-side typed properties

  /** `describe.PropVal`: a boolean-flavoured uint8, an int32 or a string. */
  datatype PropVal =
    | PropValUint8(b: bool)
    | PropValInt32(i: int32)
    | PropValString(s: string)

  datatype JavaProp = JavaProp(name: string, value: PropVal)

  /**
   * The property conversion of `NewJavaBlockString`: same count, order and
   * names; a uint8 becomes a boolean (true iff non-zero), an int32 stays an
   * int32, anything else becomes its string.
   */
  function ToProps(ps: PropsForSearch): (r: seq<JavaProp>)
    ensures |r| == |ps|
    ensures forall i :: 0 <= i < |ps| ==> r[i].name == ps[i].name
    ensures forall i :: 0 <= i < |ps| && ps[i].value.Uint8Val? ==> r[i].value == PropValUint8(ps[i].value.u != 0)
    ensures forall i :: 0 <= i < |ps| && ps[i].value.Int32Val? ==> r[i].value == PropValInt32(ps[i].value.i)
    ensures forall i :: 0 <= i < |ps| && ps[i].value.StringVal? ==> r[i].value == PropValString(ps[i].value.s)
    decreases |ps|
  {
    if |ps| == 0 then []
    else
      var p := ps[|ps| - 1];
      var v := match p.value
        case Uint8Val(u) => PropValUint8(u != 0)
        case Int32Val(i) => PropValInt32(i)
        case StringVal(s) => PropValString(s);
      ToProps(ps[..|ps| - 1]) + [JavaProp(p.name, v)]
  }

  /** The properties a Java block gets from its state string: empty on a parse error or nil result. */
  function PropsOf(lib: PropsLib, snbt: string): seq<JavaProp> {
    match lib.fromStr(snbt)
    case Success(Some(ps)) => ToProps(ps)
    case _ => []
  }

  // ---------------------------------------------------------------------------
  // The Java block value

  /**
   * `describe.JavaBlockString`. Its fields are the `Name()`, `SNBT()` and
   * `Props()` accessors.
   */
  datatype JavaBlockString = JavaBlockString(name: string, snbt: string, props: seq<JavaProp>) {

    /** `String()`: the bare name for an empty state, else `name[snbt]` with every quote removed. */
    function ToString(): (r: string)
      ensures snbt == "" || snbt == "{}" ==> r == name
      ensures !(snbt == "" || snbt == "{}") ==>
                r == RemoveChar(name, '"') + "[" + RemoveChar(snbt, '"') + "]" && '"' !in r
    {
      if snbt == "" || snbt == "{}" then name
      else
        RemoveCharConcat(name + "[" + snbt, "]", '"');
        RemoveCharConcat(name + "[", snbt, '"');
        RemoveCharConcat(name, "[", '"');
        RemoveCharAbsent("[", '"');
        RemoveCharAbsent("]", '"');
        RemoveChar(name + "[" + snbt + "]", '"')
    }
  }

  /** The Java block a (name, state string) pair describes. */
  function JavaBlockOf(lib: PropsLib, name: string, snbt: string): JavaBlockString {
    JavaBlockString(name, snbt, PropsOf(lib, snbt))
  }

  /** `NewJavaBlockString`: builds the typed property list with an append loop. */
  method NewJavaBlockString(lib: PropsLib, name: string, snbt: string) returns (b: JavaBlockString)
    ensures b.name == name && b.snbt == snbt
    ensures lib.fromStr(snbt).Failure? || lib.fromStr(snbt).value.None? ==> b.props == []
    ensures lib.fromStr(snbt).Success? && lib.fromStr(snbt).value.Some? ==>
              b.props == ToProps(lib.fromStr(snbt).value.value)
    ensures b == JavaBlockOf(lib, name, snbt)
  {
    var parsed := lib.fromStr(snbt);
    var props: seq<JavaProp> := [];
    if parsed.Success? && parsed.value.Some? {
      var ps := parsed.value.value;
      var i := 0;
      while i < |ps|
        invariant 0 <= i <= |ps|
        invariant props == ToProps(ps[..i])
      {
        var propVal: PropVal;
        if ps[i].value.Uint8Val? {
          propVal := PropValUint8(ps[i].value.u != 0);
        } else if ps[i].value.Int32Val? {
          propVal := PropValInt32(ps[i].value.i);
        } else {
          propVal := PropValString(ps[i].value.s);
        }
        props := props + [JavaProp(ps[i].name, propVal)];
        assert ps[..i + 1][..i] == ps[..i];
        i := i + 1;
      }
      assert ps[..|ps|] == ps;
    }
    b := JavaBlockString(name, snbt, props);
  }
}
