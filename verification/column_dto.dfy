/** `ColumnDefinitionDto.toDomain`: the HTTP form of a column definition,
    whose type name is matched case-insensitively. */
module ColumnDto {
  import opened Results
  import opened ColumnModel
  import TableRepository

  datatype ColumnDefinitionDto = ColumnDefinitionDto(
    name: string, description: string, typeName: string, stringFormat: Option<string>, optional: bool)

  /** Upper case of one character, agreeing with `String.uppercase()` on
      the characters whose upper case spells part of `STRING` or `NUMBER`:
      `a`–`z`, dotless `ı` (to `I`), long `ſ` (to `S`) and the ligatures
      `ﬅ` and `ﬆ` (to `ST`).  Every other character is kept, so the length
      bound below holds of this approximation, not of full Unicode
      upper-casing. */
  function UpperChar(c: char): (u: string)
    ensures 1 <= |u| <= 2
    ensures 'a' <= c <= 'z' ==> u == [c - 'a' + 'A']
  {
    if 'a' <= c <= 'z' then [c - 'a' + 'A']
    else if c == 'ı' then "I"
    else if c == 'ſ' then "S"
    else if c == 'ﬅ' || c == 'ﬆ' then "ST"
    else [c]
  }

  /** `String.uppercase()`, character by character, with `UpperChar`'s
      approximation. */
  function Uppercase(s: string): (u: string)
    ensures |s| <= |u| <= 2 * |s|
  {
    if s == [] then [] else UpperChar(s[0]) + Uppercase(s[1..])
  }

  /** `toDomain`: `STRING` (in any case) with an optional format name, or
      `NUMBER` (in any case, format ignored); any other type name is an
      error naming the type as given. */
  function ToDomain(dto: ColumnDefinitionDto): (r: Result<Definition>)
    ensures r.Ok? ==> r.value.name == dto.name && r.value.description == dto.description && r.value.optional == dto.optional
    ensures Uppercase(dto.typeName) != "STRING" && Uppercase(dto.typeName) != "NUMBER" ==>
      r == Err(UnknownColumnType(dto.typeName))
    ensures Uppercase(dto.typeName) == "NUMBER" ==> r.Ok? && r.value.columnType == NumberType
    ensures Uppercase(dto.typeName) == "STRING" && dto.stringFormat.None? ==> r.Ok? && r.value.columnType == StringType(None)
    ensures Uppercase(dto.typeName) == "STRING" && dto.stringFormat.Some? ==>
      (r.Ok? <==> dto.stringFormat.value == "DATE") &&
      (r.Ok? ==> r.value.columnType == StringType(Some(Date))) &&
      (r.Err? ==> r.failure == UnknownStringFormat(dto.stringFormat.value))
  {
    var upper := Uppercase(dto.typeName);
    var columnType :-
      if upper == "STRING" then
        match dto.stringFormat
        case None => Ok(StringType(None))
        case Some(name) =>
          var f :- FormatValueOf(name);
          Ok(StringType(Some(f)))
      else if upper == "NUMBER" then Ok(NumberType)
      else Err(UnknownColumnType(dto.typeName));
    Ok(Definition(dto.name, dto.description, columnType, dto.optional))
  }

  /** The route's parse agrees with the store's decoding of the upper-cased
      type name: a column type accepted over HTTP is one the store can
      hold. */
  lemma ToDomainAgreesWithStore(dto: ColumnDefinitionDto)
    requires Uppercase(dto.typeName) == "STRING" || Uppercase(dto.typeName) == "NUMBER"
    ensures var r := ToDomain(dto);
      var d := TableRepository.FromDbType(Uppercase(dto.typeName), dto.stringFormat);
      (r.Ok? <==> d.Ok?) && (r.Ok? ==> r.value.columnType == d.value)
  {
  }

  /** Spellings differing only in case parse alike. */
  lemma ToDomainIgnoresCase(a: ColumnDefinitionDto, b: ColumnDefinitionDto)
    requires a.(typeName := b.typeName) == b
    requires Uppercase(a.typeName) == Uppercase(b.typeName)
    requires Uppercase(a.typeName) == "STRING" || Uppercase(a.typeName) == "NUMBER"
    ensures ToDomain(a) == ToDomain(b)
  {
  }

  /** A string of capital letters is its own upper case. */
  lemma {:induction false} UppercaseOfCapitals(s: string)
    requires forall i :: 0 <= i < |s| ==> 'A' <= s[i] <= 'Z'
    ensures Uppercase(s) == s
  {
    if s != [] {
      UppercaseOfCapitals(s[1..]);
    }
  }

  /** A string of small letters upper-cases letter by letter to `t`. */
  lemma {:induction false} UppercaseOfSmall(s: string, t: string)
    requires |s| == |t|
    requires forall i :: 0 <= i < |s| ==> 'a' <= s[i] <= 'z' && t[i] == s[i] - 'a' + 'A'
    ensures Uppercase(s) == t
  {
    if s != [] {
      UppercaseOfSmall(s[1..], t[1..]);
      assert t == [t[0]] + t[1..];
    }
  }

  /** Both spellings `"string"` and `"STRING"` upper-case to the name the
      route accepts. */
  lemma StringSpellings()
    ensures Uppercase("string") == "STRING" && Uppercase("STRING") == "STRING"
  {
    UppercaseOfSmall("string", "STRING");
    UppercaseOfCapitals("STRING");
  }

  /** Both spellings `"number"` and `"NUMBER"` upper-case to the name the
      route accepts. */
  lemma NumberSpellings()
    ensures Uppercase("number") == "NUMBER" && Uppercase("NUMBER") == "NUMBER"
  {
    UppercaseOfSmall("number", "NUMBER");
    UppercaseOfCapitals("NUMBER");
  }

  /** `"string"` and `"STRING"` parse alike, and so do `"number"` and
      `"NUMBER"`; the latter always to the number type. */
  lemma LowerCaseTypeNamesParse(dto: ColumnDefinitionDto)
    ensures ToDomain(dto.(typeName := "string")) == ToDomain(dto.(typeName := "STRING"))
    ensures ToDomain(dto.(typeName := "number")) == ToDomain(dto.(typeName := "NUMBER"))
    ensures ToDomain(dto.(typeName := "number")) == Ok(Definition(dto.name, dto.description, NumberType, dto.optional))
  {
    StringSpellings();
    NumberSpellings();
    ToDomainIgnoresCase(dto.(typeName := "string"), dto.(typeName := "STRING"));
    ToDomainIgnoresCase(dto.(typeName := "number"), dto.(typeName := "NUMBER"));
  }
}
