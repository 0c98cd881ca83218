/** convertGoTypeToTypescript (utils/parser.go:110-132): a normalised Go type name in
    TypeScript syntax. */
module Mapper {
  import opened GoStrings
  import opened Resolver

  /** The name with at most one leading "*" removed: optionality is not kept. */
  function Unstarred(t: SQLBoilerType): string
  {
    TrimPrefix(t.formattedName, "*")
  }

  /** Any name mentioning "int" or "float" (case-sensitive) is a number. */
  predicate IsNumeric(v: string)
  {
    Contains(v, "int") || Contains(v, "float")
  }

  /** The substitution steps: the numeric collapse, then "bool" and then "time.Time". */
  function Substituted(v: string): string
  {
    var numeric := if IsNumeric(v) then "number" else v;
    ReplaceAll(ReplaceAll(numeric, "bool", "boolean"), "time.Time", "Date")
  }

  /** The collection steps: a "Slice" suffix, checked first, or else a "[]" prefix, becomes
      a "[]" suffix. */
  function Collection(v: string): string
  {
    if HasSuffix(v, "Slice") then TrimSuffix(v, "Slice") + "[]"
    else if HasPrefix(v, "[]") then TrimPrefix(v, "[]") + "[]"
    else v
  }

  /** convertGoTypeToTypescript */
  function ConvertGoTypeToTypescript(t: SQLBoilerType): (r: string)
    ensures IsNumeric(Unstarred(t)) ==> r == "number"
  {
    var v := Unstarred(t);
    NumberIsFinal("number");
    Collection(Substituted(v))
  }

  /** "number" passes through the remaining steps unchanged. */
  lemma NumberIsFinal(n: string)
    requires n == "number"
    ensures ReplaceAll(ReplaceAll(n, "bool", "boolean"), "time.Time", "Date") == n
    ensures Collection(n) == n
  {
    MissingCharNotContained(n, "bool", 'o');
    MissingCharNotContained(n, "time.Time", 't');
    ReplaceAllAbsent(n, "bool", "boolean");
    ReplaceAllAbsent(n, "time.Time", "Date");
    assert !HasSuffix(n, "Slice") by { assert n[1] != 'S'; }
    assert !HasPrefix(n, "[]") by { assert n[0] != '['; }
  }

  // ---------------------------------------------------------------- lemmas

  /** A name free of every marker the mapper looks for comes out unchanged. */
  lemma ConvertPlain(t: SQLBoilerType)
    requires !HasPrefix(t.formattedName, "*")
    requires !IsNumeric(t.formattedName)
    requires !Contains(t.formattedName, "bool") && !Contains(t.formattedName, "time.Time")
    requires !HasSuffix(t.formattedName, "Slice") && !HasPrefix(t.formattedName, "[]")
    ensures ConvertGoTypeToTypescript(t) == t.formattedName
  {
    ReplaceAllAbsent(t.formattedName, "bool", "boolean");
    ReplaceAllAbsent(t.formattedName, "time.Time", "Date");
  }

  /** One leading "*" makes no difference: nullable and required map alike. */
  lemma ConvertDropsOptional(t: SQLBoilerType)
    requires !HasPrefix(t.formattedName, "*")
    ensures ConvertGoTypeToTypescript(t.(formattedName := "*" + t.formattedName))
      == ConvertGoTypeToTypescript(t)
  {
    var starred := "*" + t.formattedName;
    assert HasPrefix(starred, "*");
    assert starred[1..] == t.formattedName;
  }

  /** "[]" in front of a name free of the other markers becomes "[]" behind it. */
  lemma ConvertSliceSyntax(t: SQLBoilerType, elem: string)
    requires t.formattedName == "[]" + elem
    requires !IsNumeric(elem) && !Contains(elem, "bool") && !Contains(elem, "time.Time")
    requires !HasSuffix(elem, "Slice")
    ensures ConvertGoTypeToTypescript(t) == elem + "[]"
  {
    var v := t.formattedName;
    assert HasPrefix(v, "[]");
    assert !HasPrefix(v, "*") by { assert v[0] == '['; }
    assert v == ['['] + ([']'] + elem);
    ContainsCons(']', elem, "int");
    ContainsCons('[', [']'] + elem, "int");
    ContainsCons(']', elem, "float");
    ContainsCons('[', [']'] + elem, "float");
    ContainsCons(']', elem, "bool");
    ContainsCons('[', [']'] + elem, "bool");
    ContainsCons(']', elem, "time.Time");
    ContainsCons('[', [']'] + elem, "time.Time");
    ReplaceAllAbsent(v, "bool", "boolean");
    ReplaceAllAbsent(v, "time.Time", "Date");
    if |elem| >= 5 {
      assert v[|v| - 5..] == elem[|elem| - 5..];
    } else if |elem| == 4 {
      assert v[|v| - 5] == ']';
    } else if |elem| == 3 {
      assert v[|v| - 5] == '[';
    }
  }

  /** A "Slice" suffix becomes a "[]" suffix for any element free of the other markers. */
  lemma ConvertSliceSuffix(t: SQLBoilerType, elem: string)
    requires t.formattedName == elem + "Slice"
    requires !HasPrefix(t.formattedName, "*") && !IsNumeric(t.formattedName)
    requires !Contains(t.formattedName, "bool") && !Contains(t.formattedName, "time.Time")
    ensures ConvertGoTypeToTypescript(t) == elem + "[]"
  {
    var v := t.formattedName;
    ReplaceAllAbsent(v, "bool", "boolean");
    ReplaceAllAbsent(v, "time.Time", "Date");
    assert HasSuffix(v, "Slice");
    assert TrimSuffix(v, "Slice") == elem;
  }

  /** The "Slice" suffix is tested before the "[]" prefix: a name with both keeps its
      leading "[]" and gains a trailing one. */
  lemma SliceBeforeBrackets(t: SQLBoilerType, x: string)
    requires t.formattedName == "[]" + x + "Slice"
    requires !IsNumeric(t.formattedName)
    requires !Contains(t.formattedName, "bool") && !Contains(t.formattedName, "time.Time")
    ensures ConvertGoTypeToTypescript(t) == "[]" + x + "[]"
  {
    var v := t.formattedName;
    assert !HasPrefix(v, "*") by { assert v[0] == '['; }
    ReplaceAllAbsent(v, "bool", "boolean");
    ReplaceAllAbsent(v, "time.Time", "Date");
    assert HasSuffix(v, "Slice");
    assert TrimSuffix(v, "Slice") == "[]" + x;
  }

  /** A "Slice" suffix becomes "[]" after the substitutions have run, so the element name is
      matched as it was written: "IntSlice" gives "Int[]", not a numeric element. */
  lemma ConvertIntSlice(t: SQLBoilerType)
    requires t.formattedName == "IntSlice"
    ensures ConvertGoTypeToTypescript(t) == "Int[]"
  {
    NotStarred(t);
    IntSliceUnchanged(t.formattedName);
    ConvertVia(t, "IntSlice");
    IntSliceCollection("IntSlice");
  }

  /** A slice of a numeric type is a plain number, not a collection: the numeric check
      replaces the whole value. */
  lemma ConvertNumericSlice(t: SQLBoilerType)
    requires t.formattedName == "[]int64"
    ensures ConvertGoTypeToTypescript(t) == "number"
  {
    NotStarred(t);
    assert OccursAt(t.formattedName, "int", 2);
  }

  /** time.Time is a Date. */
  lemma ConvertTime(t: SQLBoilerType)
    requires t.formattedName == "time.Time"
    ensures ConvertGoTypeToTypescript(t) == "Date"
  {
    NotStarred(t);
    TimeIsDate(t.formattedName);
    ConvertVia(t, "Date");
    PlainCollection("Date");
  }

  /** The nullable time type is a Date as well: optionality is not shown. */
  lemma ConvertNullableTime(t: SQLBoilerType)
    requires t.formattedName == "*time.Time"
    ensures ConvertGoTypeToTypescript(t) == "Date"
  {
    var v := t.formattedName[1..];
    assert t.formattedName == "*" + v;
    StarredName(t, v);
    TimeIsDate(v);
    ConvertVia(t, "Date");
    PlainCollection("Date");
  }

  /** "bool" becomes "boolean". */
  lemma ConvertBool(t: SQLBoilerType)
    requires t.formattedName == "bool"
    ensures ConvertGoTypeToTypescript(t) == "boolean"
  {
    NotStarred(t);
    BoolIsBoolean(t.formattedName);
    ConvertVia(t, "boolean");
    PlainCollection("boolean");
  }

  /** "[]bool" becomes "boolean[]": the element is renamed before the brackets move. */
  lemma ConvertBoolSlice(t: SQLBoilerType)
    requires t.formattedName == "[]bool"
    ensures ConvertGoTypeToTypescript(t) == "boolean[]"
  {
    NotStarred(t);
    BoolSliceIsBooleanSlice(t.formattedName);
    ConvertVia(t, "[]boolean");
    BracketCollection("[]boolean");
  }

  // ------------------------------------------------ steps of the examples above
  // The literal under test arrives as a parameter fixed by `requires` so that the solver
  // does not unroll the string functions on it at every call site.

  /** A non-numeric name goes through the substitutions and then the collection step. */
  lemma ConvertVia(t: SQLBoilerType, w: string)
    requires !IsNumeric(Unstarred(t)) && Substituted(Unstarred(t)) == w
    ensures ConvertGoTypeToTypescript(t) == Collection(w)
  {
  }

  lemma StarredName(t: SQLBoilerType, v: string)
    requires t.formattedName == "*" + v
    ensures Unstarred(t) == v
  {
    assert HasPrefix(t.formattedName, "*");
  }

  lemma NotStarred(t: SQLBoilerType)
    requires t.formattedName != [] && t.formattedName[0] != '*'
    ensures Unstarred(t) == t.formattedName
  {
  }

  lemma IntSliceUnchanged(v: string)
    requires v == "IntSlice"
    ensures !IsNumeric(v) && Substituted(v) == v
  {
    forall i: nat ensures !OccursAt(v, "int", i) {
      if i + 3 <= |v| {
        assert v[i..i + 3][0] == v[i] && v[i..i + 3][1] == v[i + 1];
      }
    }
    MissingCharNotContained(v, "float", 'f');
    MissingCharNotContained(v, "bool", 'b');
    MissingCharNotContained(v, "time.Time", 'm');
    ReplaceAllAbsent(v, "bool", "boolean");
    ReplaceAllAbsent(v, "time.Time", "Date");
  }

  lemma IntSliceCollection(v: string)
    requires v == "IntSlice"
    ensures Collection(v) == "Int[]"
  {
    assert HasSuffix(v, "Slice");
    assert TrimSuffix(v, "Slice") == "Int";
  }

  lemma TimeIsDate(v: string)
    requires v == "time.Time"
    ensures !IsNumeric(v) && Substituted(v) == "Date"
  {
    MissingCharNotContained(v, "int", 'n');
    MissingCharNotContained(v, "float", 'f');
    MissingCharNotContained(v, "bool", 'b');
    ReplaceAllAbsent(v, "bool", "boolean");
    ReplaceAllWhole(v, "Date");
  }

  lemma BoolIsBoolean(b: string)
    requires b == "bool"
    ensures !IsNumeric(b) && Substituted(b) == "boolean"
  {
    MissingCharNotContained(b, "int", 'i');
    MissingCharNotContained(b, "float", 'f');
    var bn := "boolean";
    assert ReplaceAll(b, "bool", "boolean") == bn;
    MissingCharNotContained(bn, "time.Time", 't');
    ReplaceAllAbsent(bn, "time.Time", "Date");
  }

  lemma BoolSliceIsBooleanSlice(b: string)
    requires b == "[]bool"
    ensures !IsNumeric(b) && Substituted(b) == "[]boolean"
  {
    MissingCharNotContained(b, "int", 'i');
    MissingCharNotContained(b, "float", 'f');
    BoolSliceRenamed(b);
    NoTimeIn("[]boolean");
  }

  lemma BoolSliceRenamed(b: string)
    requires b == "[]bool"
    ensures ReplaceAll(b, "bool", "boolean") == "[]boolean"
  {
    var e := "bool";
    assert b == ['['] + ([']'] + e);
    ReplaceAllWhole(e, "boolean");
    ReplaceAllCons(']', e, "bool", "boolean");
    ReplaceAllCons('[', [']'] + e, "bool", "boolean");
  }

  lemma NoTimeIn(v: string)
    requires v == "[]boolean"
    ensures ReplaceAll(v, "time.Time", "Date") == v
  {
    MissingCharNotContained(v, "time.Time", 't');
    ReplaceAllAbsent(v, "time.Time", "Date");
  }

  /** A name that neither ends in "Slice" nor starts with "[" is left alone. */
  lemma PlainCollection(v: string)
    requires |v| >= 1 && v[0] != '[' && (|v| < 5 || v[|v| - 5] != 'S')
    ensures Collection(v) == v
  {
  }

  lemma BracketCollection(v: string)
    requires v == "[]boolean"
    ensures Collection(v) == "boolean[]"
  {
    assert v[|v| - 1] == 'n';
    assert HasPrefix(v, "[]");
    assert TrimPrefix(v, "[]") == "boolean";
  }
}
