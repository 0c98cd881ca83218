/** The stateful part of utils/parser.go: sqlboilerTypeToType appends to the package-level
    modelImports list, and getTypeFromFieldType inherits that effect through its recursion.
    The list is a field here; the enum registry is passed in and only read. */
module Translator {
  import opened GoStrings
  import opened GoAst
  import opened Normalizer
  import opened Resolver

  class Translator {
    /** modelImports: the imports recorded so far, in the order they were appended. */
    var modelImports: seq<string>

    constructor (imports: seq<string>)
      ensures modelImports == imports
    {
      modelImports := imports;
    }

    /** sqlboilerTypeToType: records "time" when `s` mentions it, then rewrites `s` by the
        dot, alias, "array" and "null." rules in that order. */
    method SqlboilerTypeToType(s: string) returns (r: string)
      modifies this
      ensures r == NormalizedName(s)
      ensures modelImports == old(modelImports) + TimeImport(s)
    {
      var formatted := s;
      if Contains(formatted, "time") {
        modelImports := modelImports + ["time"];
      }
      if Contains(s, ".") {
        SplitWithSep(s, ".");
        var splitted := Split(s, ".");
        formatted := ToLower(splitted[1]);
      }
      if formatted in SqlboilerTypes {
        formatted := SqlboilerTypes[formatted];
      }
      if HasSuffix(formatted, "array") {
        formatted := "[]" + TrimSuffix(formatted, "array");
      }
      if HasPrefix(s, "null.") {
        formatted := "*" + formatted;
      }
      r := formatted;
    }

    /** getTypeFromFieldType: resolves the inner expression first, builds this level's
        descriptor from the inner OriginalName, normalises its FormattedName and looks the
        OriginalName up in the registry. */
    method GetTypeFromFieldType(fieldType: Expr, enums: set<string>) returns (tp: SQLBoilerType)
      modifies this
      ensures tp == Resolved(fieldType, enums)
      ensures modelImports == old(modelImports) + ResolveImports(fieldType)
      decreases fieldType
    {
      tp := SQLBoilerType("", "", false);
      match fieldType {
        case Ident(name) =>
          tp := SQLBoilerType(name, name, false);
        case Star(x) =>
          var ft := GetTypeFromFieldType(x, enums);
          tp := SQLBoilerType(ft.originalName, "*" + ft.originalName, false);
        case Selector(x, sel) =>
          var ft := GetTypeFromFieldType(x, enums);
          tp := SQLBoilerType(ft.originalName + "." + sel, ft.originalName + "." + sel, false);
        case Other =>
      }
      assert tp.originalName == OriginalName(fieldType);
      assert tp.formattedName == RawFormattedName(fieldType);
      ghost var before := modelImports;
      ghost var inner: seq<string> :=
        match fieldType
        case Star(x) => ResolveImports(x)
        case Selector(x, _) => ResolveImports(x)
        case _ => [];
      assert before == old(modelImports) + inner;
      assert ResolveImports(fieldType) == inner + TimeImport(RawFormattedName(fieldType));
      var formatted := SqlboilerTypeToType(tp.formattedName);
      tp := tp.(formattedName := formatted);
      if tp.originalName in enums {
        tp := tp.(isEnum := true);
      }
      assert modelImports == old(modelImports) + inner + TimeImport(RawFormattedName(fieldType));
    }
  }
}
