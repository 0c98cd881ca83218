/** What getTypeFromFieldType (utils/parser.go:42-75) computes, as functions of the type
    expression: the descriptor it returns and the imports it appends on the way. Class
    Translator.Translator performs the same recursion. */
module Resolver {
  import opened GoStrings
  import opened GoAst
  import opened Normalizer

  /** SQLBoilerType: the name as written (pointer markers dropped), the normalised name that
      later stages read, and whether the name is a registered enum. */
  datatype SQLBoilerType = SQLBoilerType(originalName: string, formattedName: string, isEnum: bool)

  /** OriginalName: identifiers and selectors joined by dots; a pointer adds nothing. */
  function OriginalName(e: Expr): string
  {
    match e
    case Ident(name) => name
    case Star(x) => OriginalName(x)
    case Selector(x, sel) => OriginalName(x) + "." + sel
    case Other => ""
  }

  /** FormattedName as built at the top level of `e`, before it is normalised: a pointer is
      "*" in front of the inner OriginalName, not of the inner FormattedName. */
  function RawFormattedName(e: Expr): string
  {
    match e
    case Ident(name) => name
    case Star(x) => "*" + OriginalName(x)
    case Selector(x, sel) => OriginalName(x) + "." + sel
    case Other => ""
  }

  /** The descriptor getTypeFromFieldType returns for `e`, given the enum registry. */
  function Resolved(e: Expr, enums: set<string>): SQLBoilerType
  {
    var original := OriginalName(e);
    SQLBoilerType(original, NormalizedName(RawFormattedName(e)), original in enums)
  }

  /** What resolving `e` appends to modelImports: first what resolving the inner expression
      appends, then what normalising this level's name appends. */
  function ResolveImports(e: Expr): seq<string>
  {
    match e
    case Star(x) => ResolveImports(x) + TimeImport(RawFormattedName(e))
    case Selector(x, _) => ResolveImports(x) + TimeImport(RawFormattedName(e))
    case _ => TimeImport(RawFormattedName(e))
  }

  /** The identifier and the selectors of `e`, outermost last; a pointer adds none. */
  function Names(e: Expr): (r: seq<string>)
    ensures |r| >= 1
  {
    match e
    case Ident(name) => [name]
    case Star(x) => Names(x)
    case Selector(x, sel) => Names(x) + [sel]
    case Other => [""]
  }

  /** The number of levels of `e`, each of which normalises once. */
  function Depth(e: Expr): nat
  {
    match e
    case Star(x) => Depth(x) + 1
    case Selector(x, _) => Depth(x) + 1
    case _ => 1
  }

  // ---------------------------------------------------------------- lemmas

  /** OriginalName is the names of `e` joined by dots. */
  lemma {:induction false} OriginalNameJoinsNames(e: Expr)
    ensures OriginalName(e) == Join(Names(e), ".")
  {
    match e
    case Ident(_) =>
    case Star(x) => OriginalNameJoinsNames(x);
    case Selector(x, sel) =>
      OriginalNameJoinsNames(x);
      JoinAppend(Names(x), sel, ".");
    case Other =>
  }

  /** When no name holds a dot, splitting OriginalName on dots gives the names back. */
  lemma OriginalNameSplitsIntoNames(e: Expr)
    requires forall k :: 0 <= k < |Names(e)| ==> '.' !in Names(e)[k]
    ensures Split(OriginalName(e), ".") == Names(e)
  {
    OriginalNameJoinsNames(e);
    JoinSplit(Names(e), '.');
  }

  /** OriginalName never carries a pointer marker when the names themselves do not. */
  lemma {:induction false} OriginalNameHasNoStar(e: Expr)
    requires forall k :: 0 <= k < |Names(e)| ==> '*' !in Names(e)[k]
    ensures '*' !in OriginalName(e)
  {
    match e
    case Ident(_) => assert Names(e)[0] == OriginalName(e);
    case Star(x) =>
      assert Names(x) == Names(e);
      OriginalNameHasNoStar(x);
    case Selector(x, sel) =>
      assert forall k :: 0 <= k < |Names(x)| ==> Names(x)[k] == Names(e)[k];
      OriginalNameHasNoStar(x);
      assert sel == Names(e)[|Names(e)| - 1];
    case Other =>
  }

  /** Resolution by shape: each level reads only the inner OriginalName. A pointer keeps it
      and puts "*" in front of it before normalising, so the inner FormattedName is
      discarded; a selector appends "." and its name; any other node gives empty names.
      IsEnum looks up the OriginalName as it is, before normalisation. */
  lemma ResolveByShape(x: Expr, sel: string, enums: set<string>)
    ensures Resolved(Star(x), enums).originalName == Resolved(x, enums).originalName
    ensures Resolved(Star(x), enums).formattedName
      == NormalizedName("*" + Resolved(x, enums).originalName)
    ensures Resolved(Selector(x, sel), enums).originalName
      == Resolved(x, enums).originalName + "." + sel
    ensures Resolved(Other, enums) == SQLBoilerType("", "", "" in enums)
    ensures forall e :: Resolved(e, enums).isEnum <==> Resolved(e, enums).originalName in enums
  {
    assert !HasPrefix("", ".") && !HasSuffix("", "array") && !HasPrefix("", "null.");
  }

  /** A plain identifier that the table, the suffix rule and the dot rule leave alone
      resolves to itself. */
  lemma ResolvePlainIdent(name: string, enums: set<string>)
    requires '.' !in name && name !in SqlboilerTypes && !HasSuffix(name, "array")
    ensures Resolved(Ident(name), enums) == SQLBoilerType(name, name, name in enums)
  {
    NormalizeUnqualified(name);
  }

  /** A pointer to such an identifier keeps the bare name as OriginalName and "*" + name as
      FormattedName. */
  lemma ResolvePointerToPlainIdent(name: string, enums: set<string>)
    requires '.' !in name && !HasSuffix(name, "array")
    ensures Resolved(Star(Ident(name)), enums) == SQLBoilerType(name, "*" + name, name in enums)
  {
    var starred := "*" + name;
    assert starred !in SqlboilerTypes by { assert starred[0] == '*'; }
    assert '.' !in starred by { assert forall k :: 1 <= k < |starred| ==> starred[k] == name[k - 1]; }
    if |name| >= 5 {
      assert starred[|starred| - 5..] == name[|name| - 5..];
    } else if |name| == 4 {
      assert starred[|starred| - 5] == '*';
    }
    NormalizeUnqualified(starred);
  }

  /** A qualified type is normalised on its second name alone (lower-cased), plus whether
      its first name is "null"; the names after the second are dropped. */
  lemma {:induction false} ResolveQualified(x: Expr, sel: string, enums: set<string>)
    requires forall k :: 0 <= k < |Names(Selector(x, sel))| ==> '.' !in Names(Selector(x, sel))[k]
    ensures var names := Names(Selector(x, sel));
      Resolved(Selector(x, sel), enums).formattedName
        == (if names[0] == "null" then "*" else "") + Listed(Aliased(ToLower(names[1])))
  {
    var e := Selector(x, sel);
    var names := Names(e);
    OriginalNameJoinsNames(e);
    var rest := if |names| == 2 then "" else "." + Join(names[2..], ".");
    assert Join(names, ".") == names[0] + "." + names[1] + rest by {
      assert names[1..][0] == names[1];
      assert names[1..][1..] == names[2..];
    }
    assert '.' !in names[0] && '.' !in names[1];
    NormalizeQualified(RawFormattedName(e), names[0], names[1], rest);
  }

  /** Everything resolution appends is "time", at most once per level. */
  lemma {:induction false} ResolveImportsAreTime(e: Expr)
    ensures forall k :: 0 <= k < |ResolveImports(e)| ==> ResolveImports(e)[k] == "time"
    ensures |ResolveImports(e)| <= Depth(e)
  {
    match e
    case Star(x) => ResolveImportsAreTime(x);
    case Selector(x, _) => ResolveImportsAreTime(x);
    case _ =>
  }

  /** Normalisation runs at every level: once the inner name mentions "time", each enclosing
      pointer or selector appends one more "time". */
  lemma ImportsPerLevel(x: Expr, sel: string)
    requires Contains(OriginalName(x), "time")
    ensures ResolveImports(Selector(x, sel)) == ResolveImports(x) + ["time"]
    ensures ResolveImports(Star(x)) == ResolveImports(x) + ["time"]
  {
    ContainsAppendRight(OriginalName(x), "." + sel, "time");
    assert OriginalName(x) + "." + sel == OriginalName(x) + ("." + sel);
    ContainsAppendLeft("*", OriginalName(x), "time");
  }

  // The examples below receive their literals through parameters fixed by `requires`, so
  // that the solver does not unroll the string functions on the literals everywhere.

  /** Resolving time.Time appends "time" twice: "time" and "time.Time" both mention it. */
  lemma TimeTimeImportsTwice(e: Expr)
    requires e == Selector(Ident("time"), "Time")
    ensures ResolveImports(e) == ["time", "time"]
  {
    assert HasPrefix("time", "time");
    ImportsPerLevel(Ident("time"), "Time");
  }

  /** Resolving null.Time appends nothing: the check for "time" is case-sensitive. */
  lemma NullTimeImportsNothing(e: Expr)
    requires e == Selector(Ident("null"), "Time")
    ensures ResolveImports(e) == []
  {
    MissingCharNotContained("null", "time", 't');
    MissingCharNotContained("null" + "." + "Time", "time", 't');
  }

  /** `p.Time` records "time" twice when the package name mentions "time" and never
      otherwise: the capitalised selector never matches. */
  lemma SelectorTimeImports(p: string)
    ensures ResolveImports(Selector(Ident(p), "Time"))
      == if Contains(p, "time") then ["time", "time"] else []
  {
    var tm := "Time";
    var s := p + "." + tm;
    assert s == p + ['.'] + tm;
    TimeNotInTime(tm);
    ContainsAround(s, p, '.', tm, "time");
  }

  /** A pointer to `p.Time` adds a third "time" exactly when the first two are there. */
  lemma PointerTimeImports(p: string)
    ensures ResolveImports(Star(Selector(Ident(p), "Time")))
      == if Contains(p, "time") then ["time", "time", "time"] else []
  {
    SelectorTimeImports(p);
    PointerTimeMentions(p);
  }

  lemma PointerTimeMentions(p: string)
    ensures Contains("*" + (p + "." + "Time"), "time") <==> Contains(p, "time")
  {
    var tm := "Time";
    var s := "*" + (p + "." + tm);
    assert s == ("*" + p) + ['.'] + tm;
    TimeNotInTime(tm);
    ContainsAround(s, "*" + p, '.', tm, "time");
    ContainsCons('*', p, "time");
  }

  lemma TimeNotInTime(tm: string)
    requires tm == "Time"
    ensures !Contains(tm, "time")
  {
    MissingCharNotContained(tm, "time", 't');
  }
}
