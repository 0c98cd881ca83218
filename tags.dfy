/** Reading a struct field's tag: `hasTag` and `getSnakeCaseFromTag` (utils/parser.go). */
module Tags {
  import opened GoStrings
  import opened GoAst

  /** The key whose value names the database column. */
  const BoilKey: string := "boil:"

  /** hasTag: plain substring search in the raw tag text; keys are not parsed. */
  function HasTag(field: Field, tag: string): (r: bool)
    ensures r <==> field.tag.Some? && exists i: nat :: OccursAt(field.tag.value, tag, i)
  {
    field.tag.Some? && Contains(field.tag.value, tag)
  }

  /** The index of the first token that begins with `p`, if any (the search loop of
      getSnakeCaseFromTag, which returns at the first hit). */
  function FirstWithPrefix(parts: seq<string>, p: string): (r: Option<nat>)
    ensures r.Some? ==> r.value < |parts| && HasPrefix(parts[r.value], p)
    ensures r.Some? ==> forall j :: 0 <= j < r.value ==> !HasPrefix(parts[j], p)
    ensures r.None? <==> forall j :: 0 <= j < |parts| ==> !HasPrefix(parts[j], p)
    decreases |parts|
  {
    if parts == [] then None
    else if HasPrefix(parts[0], p) then Some(0)
    else
      match FirstWithPrefix(parts[1..], p)
      case None => None
      case Some(i) => Some(i + 1)
  }

  /** The tokens of a tag: backquotes trimmed, then split on single spaces. */
  function TagTokens(tagText: string): (r: seq<string>)
    ensures |r| >= 1
    ensures forall k :: 0 <= k < |r| ==> ' ' !in r[k]
  {
    var r := Split(Trim(tagText, '`'), " ");
    SplitPieces(Trim(tagText, '`'), " ");
    forall k | 0 <= k < |r| ensures ' ' !in r[k] {
      ContainsChar(r[k], ' ');
    }
    r
  }

  /** Token `i` is the first of `parts` that begins with `boil:`. */
  predicate IsFirstBoilToken(parts: seq<string>, i: nat)
  {
    i < |parts| && HasPrefix(parts[i], BoilKey) &&
    forall j :: 0 <= j < i ==> !HasPrefix(parts[j], BoilKey)
  }

  /** The column name carried by a `boil:` token: the rest of the token, double quotes trimmed. */
  function BoilValue(token: string): (r: string)
    requires HasPrefix(token, BoilKey)
    ensures ' ' in r ==> ' ' in token
    ensures r == [] || (r[0] != '"' && r[|r| - 1] != '"')
  {
    var value := token[|BoilKey|..];
    var r := Trim(value, '"');
    assert forall ch :: ch in value ==> ch in token;
    r
  }

  /** getSnakeCaseFromTag: the value of the first `boil:` token; "" when the field has no tag
      or no token begins with `boil:`. The value never holds a space, and it neither starts
      nor ends with a double quote. */
  function SnakeCaseFromTag(field: Field): (r: string)
    ensures ' ' !in r
    ensures r == [] || (r[0] != '"' && r[|r| - 1] != '"')
  {
    if field.tag.None? then ""
    else
      var parts := TagTokens(field.tag.value);
      match FirstWithPrefix(parts, BoilKey)
      case None => ""
      case Some(i) => BoilValue(parts[i])
  }

  /** No token of `parts` begins with `boil:`. */
  predicate NoBoilToken(parts: seq<string>)
  {
    forall k :: 0 <= k < |parts| ==> !HasPrefix(parts[k], BoilKey)
  }

  // ---------------------------------------------------------------- lemmas

  /** What getSnakeCaseFromTag returns, case by case: "" without a tag or without a `boil:`
      token, and otherwise the value of the first `boil:` token, whichever it is. */
  lemma SnakeCaseFromTagCases(field: Field)
    ensures field.tag.None? ==> SnakeCaseFromTag(field) == ""
    ensures field.tag.Some? && NoBoilToken(TagTokens(field.tag.value)) ==> SnakeCaseFromTag(field) == ""
    ensures forall i: nat :: field.tag.Some? && IsFirstBoilToken(TagTokens(field.tag.value), i) ==>
              SnakeCaseFromTag(field) == BoilValue(TagTokens(field.tag.value)[i])
  {
    if field.tag.Some? {
      var parts := TagTokens(field.tag.value);
      var first := FirstWithPrefix(parts, BoilKey);
      forall i: nat | IsFirstBoilToken(parts, i)
        ensures SnakeCaseFromTag(field) == BoilValue(parts[i])
      {
        assert first.Some? && first.value == i;
      }
    }
  }

  /** hasTag does not parse keys: a tag whose value mentions another key's name matches it. */
  lemma HasTagMatchesInsideValues()
    ensures HasTag(Field(Other, Some("`json:\"boil\"`")), "boil")
    ensures !HasTag(Field(Other, None), "boil")
  {
    assert OccursAt("`json:\"boil\"`", "boil", 7);
  }

  /** A tag that opens with a quoted `boil:` value yields that value, whatever follows it. */
  lemma SnakeCaseOfLeadingBoil(typ: Expr, column: string, rest: string)
    requires column != [] && ' ' !in column && '"' !in column
    requires rest != [] && rest[|rest| - 1] != '`'
    ensures SnakeCaseFromTag(Field(typ, Some("`" + BoilKey + "\"" + column + "\" " + rest + "`")))
      == column
  {
    var first := BoilKey + "\"" + column + "\"";
    var text := "`" + BoilKey + "\"" + column + "\" " + rest + "`";
    assert text == "`" + first + " " + rest + "`";
    LeadingTokenOfTag(first, rest);
    BoilValueOfQuoted(column);
    assert IsFirstBoilToken(TagTokens(text), 0);
    SnakeCaseFromTagCases(Field(typ, Some(text)));
  }

  /** The first token of a tag is what precedes its first space. */
  lemma LeadingTokenOfTag(first: string, rest: string)
    requires first != [] && first[0] != '`' && ' ' !in first
    requires rest != [] && rest[|rest| - 1] != '`'
    ensures TagTokens("`" + first + " " + rest + "`")[0] == first
  {
    var inner := first + " " + rest;
    assert "`" + first + " " + rest + "`" == ['`'] + inner + ['`'];
    TrimFramed('`', inner);
    SplitAtFirst(first, ' ', rest);
  }

  /** A `boil:` token whose value is a quoted name yields that name. */
  lemma BoilValueOfQuoted(column: string)
    requires column != [] && '"' !in column
    ensures HasPrefix(BoilKey + "\"" + column + "\"", BoilKey)
    ensures BoilValue(BoilKey + "\"" + column + "\"") == column
  {
    var value := "\"" + column + "\"";
    var token := BoilKey + "\"" + column + "\"";
    assert token == BoilKey + value;
    assert token[..|BoilKey|] == BoilKey;
    assert token[|BoilKey|..] == value;
    assert value == ['"'] + column + ['"'];
    TrimFramed('"', column);
  }
}
