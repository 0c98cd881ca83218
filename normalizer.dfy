/** What sqlboilerTypeToType (utils/parser.go:77-108) computes, as functions of its input:
    the rewritten type name and the import it records. Class Translator.Translator performs
    the same steps on its modelImports field. */
module Normalizer {
  import opened GoStrings

  /** The sqlboilerTypes alias table, keyed by lower-case names. */
  const SqlboilerTypes: map<string, string> :=
    map["time" := "time.Time", "json" := "any", "decimal" := "float64"]

  /** The import that normalising `s` records: one "time" exactly when `s` mentions "time". */
  function TimeImport(s: string): seq<string>
  {
    if Contains(s, "time") then ["time"] else []
  }

  /** The working value after the qualified-name collapse: for a dotted input, the lower-cased
      piece between its first and its second dot; otherwise the input itself. */
  function Collapsed(s: string): string
  {
    if Contains(s, ".") then
      SplitWithSep(s, ".");
      ToLower(Split(s, ".")[1])
    else
      s
  }

  /** The alias table applied to a working value. */
  function Aliased(w: string): string
  {
    if w in SqlboilerTypes then SqlboilerTypes[w] else w
  }

  /** A working value ending in "array" becomes the slice of what precedes that suffix. */
  function Listed(w: string): string
  {
    if HasSuffix(w, "array") then "[]" + TrimSuffix(w, "array") else w
  }

  /** sqlboilerTypeToType's result: the nullable wrapper rule reads the untouched input `s`. */
  function NormalizedName(s: string): string
  {
    var w := Listed(Aliased(Collapsed(s)));
    if HasPrefix(s, "null.") then "*" + w else w
  }

  // ---------------------------------------------------------------- lemmas

  /** An input without a dot is only looked up in the table and checked for the "array"
      suffix; it never gains a "*". */
  lemma NormalizeUnqualified(s: string)
    requires '.' !in s
    ensures NormalizedName(s) == Listed(Aliased(s))
    ensures s !in SqlboilerTypes && !HasSuffix(s, "array") ==> NormalizedName(s) == s
  {
    ContainsChar(s, '.');
    NullPrefixHasDot(s);
  }

  lemma NullPrefixHasDot(s: string)
    ensures HasPrefix(s, "null.") ==> s[4] == '.'
  {
  }

  /** For a qualified name `p.seg…`, only `seg` (lower-cased) and whether `p` is "null"
      decide the result: the pieces after the second dot are ignored. */
  lemma NormalizeQualified(s: string, p: string, seg: string, rest: string)
    requires '.' !in p && '.' !in seg
    requires rest == [] || rest[0] == '.'
    requires s == p + "." + seg + rest
    ensures NormalizedName(s) == (if p == "null" then "*" else "") + Listed(Aliased(ToLower(seg)))
  {
    CollapsedQualified(s, p, seg, rest);
    NullPrefix(s, p, seg, rest);
    NormalizedFrom(s, ToLower(seg), p == "null");
  }

  /** NormalizedName from its two inputs: the collapsed value and the nullable prefix. */
  lemma NormalizedFrom(s: string, collapsed: string, isNull: bool)
    requires Collapsed(s) == collapsed
    requires HasPrefix(s, "null.") <==> isNull
    ensures NormalizedName(s) == (if isNull then "*" else "") + Listed(Aliased(collapsed))
  {
    var w := Listed(Aliased(collapsed));
    assert [] + w == w;
  }

  /** The same for a name with exactly one dot. */
  lemma NormalizeSelector(s: string, pkg: string, seg: string)
    requires '.' !in pkg && '.' !in seg && s == pkg + "." + seg
    ensures NormalizedName(s) == (if pkg == "null" then "*" else "") + Listed(Aliased(ToLower(seg)))
  {
    NormalizeQualified(s, pkg, seg, "");
  }

  /** The collapse of `p.seg…` is `seg`, lower-cased. */
  lemma CollapsedQualified(s: string, p: string, seg: string, rest: string)
    requires '.' !in p && '.' !in seg
    requires rest == [] || rest[0] == '.'
    requires s == p + "." + seg + rest
    ensures Collapsed(s) == ToLower(seg)
  {
    QualifiedSecondPiece(s, p, seg, rest);
    assert s[|p|] == '.';
    ContainsChar(s, '.');
  }

  /** The piece after the first dot of `p.seg…` is `seg`. */
  lemma QualifiedSecondPiece(s: string, p: string, seg: string, rest: string)
    requires '.' !in p && '.' !in seg
    requires rest == [] || rest[0] == '.'
    requires s == p + "." + seg + rest
    ensures |Split(s, ".")| >= 2
    ensures Split(s, ".")[1] == seg
  {
    assert s == p + ['.'] + (seg + rest);
    SplitAtFirst(p, '.', seg + rest);
    FirstPiece(seg, rest);
  }

  /** The piece before the first dot of `seg…` is `seg`. */
  lemma FirstPiece(seg: string, rest: string)
    requires '.' !in seg
    requires rest == [] || rest[0] == '.'
    ensures Split(seg + rest, ".")[0] == seg
  {
    if rest == [] {
      assert seg + rest == seg;
      ContainsChar(seg, '.');
      SplitWithoutSep(seg, ".");
    } else {
      assert seg + rest == seg + ['.'] + rest[1..];
      SplitAtFirst(seg, '.', rest[1..]);
    }
  }

  /** A dotted name starts with "null." exactly when the part before its first dot is "null". */
  lemma NullPrefix(s: string, p: string, seg: string, rest: string)
    requires '.' !in p && s == p + "." + seg + rest
    ensures HasPrefix(s, "null.") <==> p == "null"
  {
    assert s[|p|] == '.';
    if HasPrefix(s, "null.") {
      assert forall i :: 0 <= i < 4 ==> s[i] != '.';
      assert |p| >= 4;
      assert s[4] == '.';
      assert |p| <= 4;
      assert p == s[..4];
    }
  }

  /** Any package's `Time` normalises to "time.Time", a pointer to it when the package is
      "null": so "time.Time" keeps its name, "null.Time" becomes "*time.Time", and
      "*time.Time" loses its star, since the nullable rule looks for "null." and nothing else. */
  lemma NormalizeTimeSelector(pkg: string)
    requires '.' !in pkg
    ensures NormalizedName(pkg + ".Time") == (if pkg == "null" then "*" else "") + "time.Time"
  {
    var seg := "Time";
    assert '.' !in seg;
    NormalizeSelector(pkg + ".Time", pkg, seg);
    TimeSegment(seg);
  }

  /** A `Decimal` of any package becomes "float64". */
  lemma NormalizeDecimalSelector(pkg: string)
    requires '.' !in pkg
    ensures NormalizedName(pkg + ".Decimal") == (if pkg == "null" then "*" else "") + "float64"
  {
    var seg := "Decimal";
    assert '.' !in seg;
    NormalizeSelector(pkg + ".Decimal", pkg, seg);
    DecimalSegment(seg);
  }

  /** A `JSON` of any package becomes "any". */
  lemma NormalizeJSONSelector(pkg: string)
    requires '.' !in pkg
    ensures NormalizedName(pkg + ".JSON") == (if pkg == "null" then "*" else "") + "any"
  {
    var seg := "JSON";
    assert '.' !in seg;
    NormalizeSelector(pkg + ".JSON", pkg, seg);
    JSONSegment(seg);
  }

  /** The "array" suffix is matched after lower-casing the selector: `<Elem>Array` of any
      package becomes "[]" and the lower-cased element, e.g. `types.StringArray` gives
      "[]string". */
  lemma NormalizeArraySelector(s: string, pkg: string, elem: string)
    requires '.' !in pkg && '.' !in elem && s == pkg + "." + (elem + "Array")
    ensures NormalizedName(s) == (if pkg == "null" then "*" else "") + ("[]" + ToLower(elem))
  {
    var seg := elem + "Array";
    assert '.' !in seg;
    NormalizeSelector(s, pkg, seg);
    ListedArray(elem);
  }

  /** The lower-cased `<Elem>Array` is not in the table and loses its suffix. */
  lemma ListedArray(elem: string)
    ensures Listed(Aliased(ToLower(elem + "Array"))) == "[]" + ToLower(elem)
  {
    LowerArray(elem);
    ListedOfArray(ToLower(elem));
  }

  lemma LowerArray(elem: string)
    ensures ToLower(elem + "Array") == ToLower(elem) + "array"
  {
    var arr := "Array";
    ToLowerAppend(elem, arr);
    ToLowerIs(arr, "array");
  }

  /** No key of the alias table ends in "array". */
  lemma ListedOfArray(low: string)
    ensures Listed(Aliased(low + "array")) == "[]" + low
  {
    var w := low + "array";
    assert w[|w| - 1] == 'y';
    assert w !in SqlboilerTypes;
    assert w[|w| - 5..] == "array";
    assert w[..|w| - 5] == low;
  }

  /** `types.StringArray` becomes "[]string". */
  lemma NormalizeStringArraySelector(pkg: string)
    requires '.' !in pkg
    ensures NormalizedName(pkg + ".StringArray") == (if pkg == "null" then "*" else "") + "[]string"
  {
    var elem := "String";
    var s := pkg + ".StringArray";
    assert s == pkg + "." + (elem + "Array");
    NormalizeArraySelector(s, pkg, elem);
    StringSlice(elem);
  }

  lemma StringSlice(elem: string)
    requires elem == "String"
    ensures "[]" + ToLower(elem) == "[]string"
  {
    ToLowerIs(elem, "string");
  }

  // The lemmas on fixed names receive the literal through a parameter fixed by `requires`,
  // so that the solver does not unroll the string functions on it everywhere.

  /** An unqualified name is not lowered, so "IntArray" keeps its "Array". */
  lemma NormalizeUnqualifiedArray(unqualified: string)
    requires unqualified == "IntArray"
    ensures NormalizedName(unqualified) == unqualified
  {
    assert !HasSuffix(unqualified, "array") by { assert unqualified[3] != 'a'; }
    NormalizeUnqualified(unqualified);
  }

  /** The alias rewriting of the selectors used above. */
  lemma TimeSegment(seg: string)
    requires seg == "Time"
    ensures Listed(Aliased(ToLower(seg))) == "time.Time"
  {
    ToLowerIs(seg, "time");
    var r := "time.Time";
    assert !HasSuffix(r, "array") by { assert r[|r| - 1] == 'e'; }
  }

  lemma DecimalSegment(seg: string)
    requires seg == "Decimal"
    ensures Listed(Aliased(ToLower(seg))) == "float64"
  {
    ToLowerIs(seg, "decimal");
    var r := "float64";
    assert !HasSuffix(r, "array") by { assert r[|r| - 1] == '4'; }
  }

  lemma JSONSegment(seg: string)
    requires seg == "JSON"
    ensures Listed(Aliased(ToLower(seg))) == "any"
  {
    ToLowerIs(seg, "json");
  }
}
