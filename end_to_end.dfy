/** A model field taken through every stage of utils/parser.go: its column from the tag, its
    descriptor, the imports resolving it records, and its TypeScript type. */
module EndToEnd {
  import opened GoStrings
  import opened GoAst
  import opened Tags
  import opened Normalizer
  import opened Resolver
  import opened Mapper

  /** `p.Time` resolves to ("p.Time", "time.Time"), with a pointer marker when `p` is "null". */
  lemma SelectorTimeDescriptor(p: string, e: Expr, enums: set<string>)
    requires '.' !in p && e == Selector(Ident(p), "Time")
    ensures Resolved(e, enums)
      == SQLBoilerType(p + ".Time", (if p == "null" then "*" else "") + "time.Time", p + ".Time" in enums)
  {
    var tm := "Time";
    DotTime(p, tm);
    NormalizeSelector(RawFormattedName(e), p, tm);
    TimeSegment(tm);
    ResolvedParts(e, enums, p + ".Time", (if p == "null" then "*" else "") + "time.Time");
  }

  /** `*p.Time` resolves to ("p.Time", "time.Time") whatever `p` is: the pointer's "*" hides
      the package from the nullable rule, which looks for "null." at the very start. */
  lemma PointerTimeDescriptor(p: string, e: Expr, enums: set<string>)
    requires '.' !in p && e == Star(Selector(Ident(p), "Time"))
    ensures Resolved(e, enums) == SQLBoilerType(p + ".Time", "time.Time", p + ".Time" in enums)
  {
    var tm := "Time";
    DotTime(p, tm);
    StarDotTime(p, tm);
    var x := Selector(Ident(p), tm);
    assert OriginalName(x) == p + "." + tm;
    assert RawFormattedName(e) == "*" + OriginalName(x);
    NormalizeSelector(RawFormattedName(e), "*" + p, tm);
    TimeSegment(tm);
    assert NormalizedName(RawFormattedName(e)) == "" + "time.Time";
    assert OriginalName(e) == p + ".Time";
    ResolvedParts(e, enums, p + ".Time", "time.Time");
  }

  /** A descriptor from its two names. */
  lemma ResolvedParts(e: Expr, enums: set<string>, original: string, formatted: string)
    requires OriginalName(e) == original && NormalizedName(RawFormattedName(e)) == formatted
    ensures Resolved(e, enums) == SQLBoilerType(original, formatted, original in enums)
  {
  }

  lemma DotTime(p: string, tm: string)
    requires '.' !in p && tm == "Time"
    ensures '.' !in tm
    ensures p + "." + tm == p + ".Time"
  {
  }

  lemma StarDotTime(p: string, tm: string)
    requires '.' !in p && tm == "Time"
    ensures '.' !in "*" + p
    ensures "*" + p != "null"
    ensures "*" + (p + "." + tm) == "*" + p + "." + tm
  {
    var starred := "*" + p;
    assert starred[0] == '*';
  }

  /** The TypeScript type of any resolved `p.Time` is Date, nullable or not. */
  lemma SelectorTimeIsDate(p: string, t: SQLBoilerType)
    requires t.formattedName == (if p == "null" then "*" else "") + "time.Time"
    ensures ConvertGoTypeToTypescript(t) == "Date"
  {
    if p == "null" {
      ConvertNullableTime(t);
    } else {
      assert t.formattedName == "time.Time";
      ConvertTime(t);
    }
  }

  /** A field of type `p.Time` whose tag opens with `boil:"column"`: the column is `column`;
      the descriptor is ("p.Time", "time.Time"), a pointer when `p` is "null"; resolving it
      records "time" twice if `p` mentions "time" and otherwise nothing; and its TypeScript
      type is Date. With p = "null" and the tag `boil:"created_at" json:"created_at"`, this
      is the usual nullable timestamp column. */
  lemma TimeField(f: Field, p: string, column: string, rest: string, enums: set<string>)
    requires '.' !in p && f.typ == Selector(Ident(p), "Time")
    requires column != [] && ' ' !in column && '"' !in column
    requires rest != [] && rest[|rest| - 1] != '`'
    requires f.tag == Some("`" + BoilKey + "\"" + column + "\" " + rest + "`")
    ensures SnakeCaseFromTag(f) == column
    ensures Resolved(f.typ, enums)
      == SQLBoilerType(p + ".Time", (if p == "null" then "*" else "") + "time.Time", p + ".Time" in enums)
    ensures ResolveImports(f.typ) == if Contains(p, "time") then ["time", "time"] else []
    ensures ConvertGoTypeToTypescript(Resolved(f.typ, enums)) == "Date"
  {
    SnakeCaseOfLeadingBoil(f.typ, column, rest);
    SelectorTimeDescriptor(p, f.typ, enums);
    SelectorTimeImports(p);
    SelectorTimeIsDate(p, Resolved(f.typ, enums));
  }

  /** `*p.Time` loses its pointer: the descriptor is ("p.Time", "time.Time"), each of the
      three levels records "time" when `p` mentions it, and the TypeScript type is Date. */
  lemma PointerTimeField(e: Expr, p: string, enums: set<string>)
    requires '.' !in p && e == Star(Selector(Ident(p), "Time"))
    ensures Resolved(e, enums) == SQLBoilerType(p + ".Time", "time.Time", p + ".Time" in enums)
    ensures ResolveImports(e) == if Contains(p, "time") then ["time", "time", "time"] else []
    ensures ConvertGoTypeToTypescript(Resolved(e, enums)) == "Date"
  {
    PointerTimeDescriptor(p, e, enums);
    PointerTimeImports(p);
    ConvertTime(Resolved(e, enums));
  }
}
