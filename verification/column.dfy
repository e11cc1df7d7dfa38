/** Column schema: the two-variant column type, the `DATE` string format, the
    structural column definition and the identified column. */
module ColumnModel {
  import opened Results
  import opened Ids

  /** `StringFormat`: `DATE` is its only constant. */
  datatype StringFormat = Date

  /** `ColumnType`: a string with an optional format (absent by default), or
      a number. */
  datatype ColumnType = StringType(format: Option<StringFormat>) | NumberType

  /** `ColumnType.StringType()` with its default argument. */
  const PlainString: ColumnType := StringType(None)

  /** `Column.Definition`: compared structurally, field by field, as a Kotlin
      data class; Dafny's datatype equality is exactly that comparison. */
  datatype Definition = Definition(name: string, description: string, columnType: ColumnType, optional: bool)

  /** `Column`: an identity plus a definition.  Two columns with equal
      definitions but different ids are different values. */
  datatype Column = Column(id: Uuid, definition: Definition)

  /** `StringFormat.name`. */
  function FormatName(f: StringFormat): string {
    match f
    case Date => "DATE"
  }

  /** `StringFormat.valueOf`: accepts exactly the name of a constant and
      throws for every other string. */
  function FormatValueOf(name: string): (r: Result<StringFormat>)
    ensures r.Ok? <==> name == "DATE"
    ensures r.Ok? ==> FormatName(r.value) == name
    ensures r.Err? ==> r.failure == UnknownStringFormat(name)
  {
    if name == "DATE" then Ok(Date) else Err(UnknownStringFormat(name))
  }

  lemma FormatValueOfName(f: StringFormat)
    ensures FormatValueOf(FormatName(f)) == Ok(f)
  {
  }

  /** Two definitions are equal iff all four fields are; in particular a
      difference in any single field makes them unequal. */
  lemma DefinitionEquality(a: Definition, b: Definition)
    ensures a == b <==>
      a.name == b.name && a.description == b.description &&
      a.columnType == b.columnType && a.optional == b.optional
  {
  }

  /** The type variants are pairwise distinct: a formatted string is not a
      plain string, and a number is no string at all. */
  lemma ColumnTypesDiffer(f: Option<StringFormat>)
    ensures StringType(Some(Date)) != PlainString
    ensures NumberType != StringType(f)
    ensures PlainString.format == None
  {
  }

  /** A definition does not carry the column's identity: equal definitions
      under different ids are different columns. */
  lemma IdentityIsNotDefinition(a: Column, b: Column)
    requires a.definition == b.definition
    ensures a == b <==> a.id == b.id
  {
  }
}
