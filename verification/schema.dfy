/** `generateSchema`: the JSON Schema object handed to the extraction
    model, one property per column, every property required.  Its `type`
    sets and `required` list follow sections 6.1.1 and 6.5.3 of JSON Schema
    Validation (draft 2020-12): a `type` array and a `required` array hold
    unique strings, which sets guarantee. */
module SchemaGenerator {
  import opened Results
  import opened Collections
  import opened ColumnModel
  import opened Reconciliation

  /** `Schema.Property`. */
  datatype Property = Property(types: set<string>, description: string)

  /** `Schema`; `additionalProperties` defaults to false. */
  datatype Schema = Schema(name: string, schemaType: string, properties: map<string, Property>,
                           additionalProperties: bool, required: set<string>)

  /** `Definition.toProperty`: the column's name paired with its property,
      whose type set names the column's JSON type and admits `null` exactly
      when the column is optional. */
  function ToProperty(d: Definition): (p: (string, Property))
    ensures p.0 == d.name && p.1.description == d.description
    ensures p.1.types <= {"string", "number", "null"}
    ensures "string" in p.1.types <==> d.columnType.StringType?
    ensures "number" in p.1.types <==> d.columnType.NumberType?
    ensures "null" in p.1.types <==> d.optional
  {
    var base := match d.columnType
      case StringType(_) => {"string"}
      case NumberType => {"number"};
    (d.name, Property(if d.optional then base + {"null"} else base, d.description))
  }

  /** A required (non-optional) column admits exactly one JSON type. */
  lemma RequiredColumnHasOneType(d: Definition)
    requires !d.optional
    ensures |ToProperty(d).1.types| == 1
  {
    var t := ToProperty(d).1.types;
    if d.columnType.StringType? {
      assert t == {"string"};
    } else {
      assert t == {"number"};
    }
  }

  /** An optional column admits its JSON type and `null`. */
  lemma OptionalColumnHasTwoTypes(d: Definition)
    requires d.optional
    ensures |ToProperty(d).1.types| == 2
  {
    var t := ToProperty(d).1.types;
    if d.columnType.StringType? {
      assert t == {"string", "null"};
    } else {
      assert t == {"number", "null"};
    }
  }

  /** The column names. */
  function Names(columns: seq<Column>): set<string> {
    set c | c in columns :: c.definition.name
  }

  /** `columns.associate { it.definition.toProperty() }` pairs, in order. */
  function PropertyEntries(columns: seq<Column>): (e: seq<(string, Property)>)
    ensures |e| == |columns|
    ensures forall i :: 0 <= i < |e| ==> e[i] == ToProperty(columns[i].definition)
  {
    seq(|columns|, i requires 0 <= i < |columns| => ToProperty(columns[i].definition))
  }

  /** No column after `columns[i]` has its name. */
  predicate LastOfItsName(columns: seq<Column>, i: nat)
    requires i < |columns|
  {
    forall j :: i < j < |columns| ==> columns[j].definition.name != columns[i].definition.name
  }

  /** `generateSchema`: an unnamed `object` schema whose properties are keyed
      by column name (a later column replaces an earlier one of the same
      name, as `associate` does) and whose `required` set lists every column
      name, optional or not. */
  function GenerateSchema(columns: seq<Column>): (s: Schema)
    ensures s.name == "" && s.schemaType == "object" && !s.additionalProperties
    ensures s.required == Names(columns)
    ensures s.properties.Keys == s.required
    ensures forall name :: name in s.properties ==>
      exists c :: c in columns && c.definition.name == name && s.properties[name] == ToProperty(c.definition).1
    ensures forall i :: 0 <= i < |columns| && LastOfItsName(columns, i) ==>
      s.properties[columns[i].definition.name] == ToProperty(columns[i].definition).1
  {
    var properties := Upsert(map[], PropertyEntries(columns));
    PropertyKeys(columns);
    PropertiesFromColumns(columns);
    PropertiesAreLastNamed(columns);
    Schema("", "object", properties, false, Names(columns))
  }

  /** The `associate` fold writes one key per column name. */
  lemma PropertyKeys(columns: seq<Column>)
    ensures KeysOf(PropertyEntries(columns)) == Names(columns)
  {
    var e := PropertyEntries(columns);
    forall name | name in Names(columns) ensures name in KeysOf(e) {
      var c :| c in columns && c.definition.name == name;
      var i :| 0 <= i < |columns| && columns[i] == c;
      assert e[i].0 == name;
    }
  }

  /** Each property written by the `associate` fold is that of some column
      with its name. */
  lemma PropertiesFromColumns(columns: seq<Column>)
    ensures var properties := Upsert(map[], PropertyEntries(columns));
      forall name :: name in properties ==>
        exists c :: c in columns && c.definition.name == name && properties[name] == ToProperty(c.definition).1
  {
    var e := PropertyEntries(columns);
    var properties := Upsert(map[], e);
    forall name | name in properties
      ensures exists c :: c in columns && c.definition.name == name && properties[name] == ToProperty(c.definition).1
    {
      var i := LastIndex(e, name);
      assert columns[i] in columns;
    }
  }

  /** A later column replaces an earlier one of the same name: the property
      under a name is that of the last column with it. */
  lemma PropertiesAreLastNamed(columns: seq<Column>)
    ensures var properties := Upsert(map[], PropertyEntries(columns));
      forall i :: 0 <= i < |columns| && LastOfItsName(columns, i) ==>
        columns[i].definition.name in properties &&
        properties[columns[i].definition.name] == ToProperty(columns[i].definition).1
  {
    var e := PropertyEntries(columns);
    forall i | 0 <= i < |columns| && LastOfItsName(columns, i)
      ensures columns[i].definition.name in Upsert(map[], e)
      ensures Upsert(map[], e)[columns[i].definition.name] == ToProperty(columns[i].definition).1
    {
      var name := columns[i].definition.name;
      assert e[i].0 == name;
      assert LastIndex(e, name) == i;
    }
  }

  /** With unique column names, every column's property is its own. */
  lemma SchemaDescribesEveryColumn(columns: seq<Column>, c: Column)
    requires forall a, b :: a in columns && b in columns && a.definition.name == b.definition.name ==> a == b
    requires c in columns
    ensures var s := GenerateSchema(columns);
      c.definition.name in s.required && c.definition.name in s.properties &&
      s.properties[c.definition.name] == ToProperty(c.definition).1
  {
  }
}
