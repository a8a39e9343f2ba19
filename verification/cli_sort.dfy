/**
 * Go's string ordering and the nested-loop exchange sort the command-line
 * front end uses for its format list and its world-structure list.
 */
module StringSort {
  import opened Text

  /**
   * Go's `a < b` on strings: byte-wise lexicographic order on UTF-8, which is
   * the same as lexicographic order on code points.
   */
  predicate Less(a: string, b: string)
    decreases |a|
  {
    if |a| == 0 then |b| > 0
    else if |b| == 0 then false
    else a[0] < b[0] || (a[0] == b[0] && Less(a[1..], b[1..]))
  }

  /** `a <= b`, i.e. not `b < a`. */
  predicate LessEq(a: string, b: string) {
    !Less(b, a)
  }

  lemma {:induction false} LessIrreflexive(a: string)
    ensures !Less(a, a)
    decreases |a|
  {
    if |a| > 0 {
      LessIrreflexive(a[1..]);
    }
  }

  lemma {:induction false} LessTransitive(a: string, b: string, c: string)
    requires Less(a, b) && Less(b, c)
    ensures Less(a, c)
    decreases |a|
  {
    if |a| > 0 && a[0] == b[0] && b[0] == c[0] {
      LessTransitive(a[1..], b[1..], c[1..]);
    }
  }

  /** Any two strings are equal or ordered one way. */
  lemma {:induction false} LessTotal(a: string, b: string)
    ensures a == b || Less(a, b) || Less(b, a)
    decreases |a|
  {
    if |a| > 0 && |b| > 0 && a[0] == b[0] {
      LessTotal(a[1..], b[1..]);
      if a[1..] == b[1..] {
        assert a == [a[0]] + a[1..] && b == [b[0]] + b[1..];
      }
    }
  }

  lemma LessAsymmetric(a: string, b: string)
    requires Less(a, b)
    ensures !Less(b, a)
  {
    if Less(b, a) {
      LessTransitive(a, b, a);
      LessIrreflexive(a);
    }
  }

  /** `<=` is a total order: two strings below each other are equal. */
  lemma LessEqAntisymmetric(a: string, b: string)
    requires LessEq(a, b) && LessEq(b, a)
    ensures a == b
  {
    LessTotal(a, b);
  }

  /** `a < b <= c` gives `a <= c`. */
  lemma LessThenLessEq(a: string, b: string, c: string)
    requires Less(a, b) && LessEq(b, c)
    ensures LessEq(a, c)
  {
    if Less(c, a) {
      LessTransitive(c, a, b);
    }
  }

  /** Ascending order, repeats allowed. */
  predicate Sorted(s: seq<string>) {
    forall i, j :: 0 <= i < j < |s| ==> LessEq(s[i], s[j])
  }

  /**
   * There is one ascending arrangement of a collection of strings: the sorted
   * result does not depend on the order the input came in.
   */
  lemma {:induction false} SortedUnique(x: seq<string>, y: seq<string>)
    requires Sorted(x) && Sorted(y) && multiset(x) == multiset(y)
    ensures x == y
    decreases |x|
  {
    assert |x| == |multiset(x)| == |multiset(y)| == |y|;
    if |x| > 0 {
      assert x[0] in multiset(y);
      var k :| 0 <= k < |y| && y[k] == x[0];
      assert LessEq(y[0], x[0]) by {
        if k > 0 { assert LessEq(y[0], y[k]); }
        else { LessIrreflexive(y[0]); }
      }
      assert y[0] in multiset(x);
      var m :| 0 <= m < |x| && x[m] == y[0];
      assert LessEq(x[0], y[0]) by {
        if m > 0 { assert LessEq(x[0], x[m]); }
        else { LessIrreflexive(x[0]); }
      }
      LessEqAntisymmetric(x[0], y[0]);
      TailMultiset(x, y);
      SortedUnique(x[1..], y[1..]);
      assert x == [x[0]] + x[1..] && y == [y[0]] + y[1..];
    }
  }

  lemma TailMultiset(x: seq<string>, y: seq<string>)
    requires |x| > 0 && |y| > 0 && x[0] == y[0] && multiset(x) == multiset(y)
    ensures multiset(x[1..]) == multiset(y[1..])
  {
    assert x == [x[0]] + x[1..] && y == [y[0]] + y[1..];
    assert multiset(x) == multiset{x[0]} + multiset(x[1..]);
    assert multiset(y) == multiset{y[0]} + multiset(y[1..]);
    assert multiset(x[1..]) == multiset(x) - multiset{x[0]};
    assert multiset(y[1..]) == multiset(y) - multiset{y[0]};
  }

  /**
   * The exchange sort of `getSupportedFormats` and `listMCWorldStructures`:
   * for each position, swap in every later element that is smaller.
   */
  method ExchangeSort(a: array<string>)
    modifies a
    ensures Sorted(a[..])
    ensures multiset(a[..]) == multiset(old(a[..]))
  {
    var i := 0;
    while i < a.Length - 1
      invariant 0 <= i <= a.Length || a.Length == 0
      invariant forall p, q :: 0 <= p < i && p < q < a.Length ==> LessEq(a[p], a[q])
      invariant multiset(a[..]) == multiset(old(a[..]))
    {
      var j := i + 1;
      while j < a.Length
        invariant i + 1 <= j <= a.Length
        invariant forall q :: i < q < j ==> LessEq(a[i], a[q])
        invariant forall p, q :: 0 <= p < i && p < q < a.Length ==> LessEq(a[p], a[q])
        invariant multiset(a[..]) == multiset(old(a[..]))
      {
        if Less(a[j], a[i]) {
          forall q | i < q < j
            ensures LessEq(a[j], a[q])
          {
            LessThenLessEq(a[j], a[i], a[q]);
          }
          LessAsymmetric(a[j], a[i]);
          a[i], a[j] := a[j], a[i];
        }
        j := j + 1;
      }
      i := i + 1;
    }
  }

  /**
   * `getSupportedFormats`: the registered format names, in whatever order the
   * registry's map yields them, sorted ascending.
   */
  method GetSupportedFormats(registered: seq<string>) returns (formats: seq<string>)
    ensures Sorted(formats)
    ensures multiset(formats) == multiset(registered)
  {
    var a := new string[|registered|](k requires 0 <= k < |registered| => registered[k]);
    assert a[..] == registered;
    ExchangeSort(a);
    formats := a[..];
  }

  // ---------------------------------------------------------------------------
  // listMCWorldStructures

  /** One entry of the world's `structures` directory. */
  datatype DirEntry = DirEntry(name: string, isDir: bool)

  const StructureExt: string := ".mcstructure"

  /** An entry is listed when it is a file whose lower-cased name ends in `.mcstructure`. */
  predicate IsStructureEntry(e: DirEntry) {
    !e.isDir && HasSuffix(ToLowerAscii(e.name), StructureExt)
  }

  /** The listed names, in directory order: the suffix is trimmed only where it is written in lower case. */
  function StructureNames(entries: seq<DirEntry>): (r: seq<string>)
    ensures |r| <= |entries|
    decreases |entries|
  {
    if |entries| == 0 then []
    else
      var e := entries[|entries| - 1];
      StructureNames(entries[..|entries| - 1]) + (if IsStructureEntry(e) then [TrimSuffix(e.name, StructureExt)] else [])
  }

  /** A file `stem.mcstructure` is listed as `stem`. */
  lemma LowerCaseSuffixTrimmed(stem: string)
    ensures StructureNames([DirEntry(stem + StructureExt, false)]) == [stem]
  {
    var name := stem + StructureExt;
    assert ToLowerAscii(StructureExt) == StructureExt;
    assert ToLowerAscii(name)[|name| - |StructureExt|..] == ToLowerAscii(StructureExt);
    assert name[|name| - |StructureExt|..] == StructureExt;
    assert [DirEntry(name, false)][..0] == [];
  }

  /** A file `stem.MCSTRUCTURE` is listed, but with its suffix left on. */
  lemma UpperCaseSuffixKept(stem: string)
    ensures StructureNames([DirEntry(stem + ".MCSTRUCTURE", false)]) == [stem + ".MCSTRUCTURE"]
  {
    var name := stem + ".MCSTRUCTURE";
    assert ToLowerAscii(".MCSTRUCTURE") == StructureExt;
    assert ToLowerAscii(name)[|name| - |StructureExt|..] == ToLowerAscii(".MCSTRUCTURE");
    assert name[|name| - 1] != StructureExt[|StructureExt| - 1];
    assert [DirEntry(name, false)][..0] == [];
  }

  /** A directory is never listed, whatever its name. */
  lemma DirectoriesSkipped(name: string)
    ensures StructureNames([DirEntry(name, true)]) == []
  {
    assert [DirEntry(name, true)][..0] == [];
  }

  /** `listMCWorldStructures` once the directory is read: the structure names, sorted ascending. */
  method ListMCWorldStructures(entries: seq<DirEntry>) returns (structures: seq<string>)
    ensures Sorted(structures)
    ensures multiset(structures) == multiset(StructureNames(entries))
  {
    var found: seq<string> := [];
    for k := 0 to |entries|
      invariant found == StructureNames(entries[..k])
    {
      assert entries[..k + 1][..k] == entries[..k];
      var entry := entries[k];
      if !entry.isDir && HasSuffix(ToLowerAscii(entry.name), StructureExt) {
        var name := TrimSuffix(entry.name, StructureExt);
        found := found + [name];
      }
    }
    assert entries[..|entries|] == entries;
    var a := new string[|found|](k requires 0 <= k < |found| => found[k]);
    assert a[..] == found;
    ExchangeSort(a);
    structures := a[..];
  }
}
