/**
 The conversion of one layer payload into CSV records, `convertJsonFile` in
 main.go. The payload is taken as already parsed: the "fields" array as a
 sequence of (name, type) descriptors, and "features.#.attributes" as a
 sequence of attribute maps. The first record is the header of field names;
 every feature then yields one record holding one cell per field, in field
 order, each cell serialized according to the field's declared ESRI type and
 then trimmed.
 */
module Conversion {
  import opened GoText
  import opened GoNumbers
  import opened SeqFacts

  /** One element of the payload's "fields" array: its "name" and "type"
      strings (empty when the key is absent). */
  datatype Field = Field(name: string, typeName: string)

  /** An attribute value as the converter reads it, through the three views it
      uses: `str` is the JSON string value (empty for non-strings), `number` the
      value read as a 64-bit integer, and `fixed` its float value written with
      five digits after the decimal point. */
  datatype Value = Value(str: string, number: int64, fixed: string)

  /** What looking up an absent key yields: no string, the number zero. */
  const Missing: Value := Value("", 0, "0.00000")

  type Attributes = map<string, Value>

  /** The value of a field in a feature's attributes; an absent key is not an
      error, it reads as `Missing`. */
  function Lookup(attributes: Attributes, name: string): (v: Value)
    ensures name !in attributes ==> v == Missing
    ensures name in attributes ==> v == attributes[name]
  {
    if name in attributes then attributes[name] else Missing
  }

  /** The ESRI field types the converter distinguishes, plus Unknown for every
      other type string. */
  datatype EsriType =
    | String | Date | GUID
    | Integer | SmallInteger | OID | GlobalID
    | Double | Single
    | Blob | Raster | XML | Geometry
    | Unknown

  /** The type string the service uses for each type. */
  function TypeName(t: EsriType): string
  {
    match t
    case String => "esriFieldTypeString"
    case Date => "esriFieldTypeDate"
    case GUID => "esriFieldTypeGUID"
    case Integer => "esriFieldTypeInteger"
    case SmallInteger => "esriFieldTypeSmallInteger"
    case OID => "esriFieldTypeOID"
    case GlobalID => "esriFieldTypeGlobalID"
    case Double => "esriFieldTypeDouble"
    case Single => "esriFieldTypeSingle"
    case Blob => "esriFieldTypeBlob"
    case Raster => "esriFieldTypeRaster"
    case XML => "esriFieldTypeXML"
    case Geometry => "esriFieldTypeGeometry"
    case Unknown => ""
  }

  /** The case labels of the serialization switch: a type string is matched
      exactly against the known names, and anything else is Unknown. */
  function ParseType(s: string): (t: EsriType)
    ensures t != Unknown ==> TypeName(t) == s
    ensures t == Unknown ==> forall u :: u != Unknown ==> TypeName(u) != s
  {
    if s == "esriFieldTypeString" then String
    else if s == "esriFieldTypeDate" then Date
    else if s == "esriFieldTypeGUID" then GUID
    else if s == "esriFieldTypeInteger" then Integer
    else if s == "esriFieldTypeSmallInteger" then SmallInteger
    else if s == "esriFieldTypeOID" then OID
    else if s == "esriFieldTypeGlobalID" then GlobalID
    else if s == "esriFieldTypeDouble" then Double
    else if s == "esriFieldTypeSingle" then Single
    else if s == "esriFieldTypeBlob" then Blob
    else if s == "esriFieldTypeRaster" then Raster
    else if s == "esriFieldTypeXML" then XML
    else if s == "esriFieldTypeGeometry" then Geometry
    else Unknown
  }

  /** Every type is recognised from its own name, and Unknown from the empty
      string. */
  lemma ParseTypeName(t: EsriType)
    ensures ParseType(TypeName(t)) == t
  {
    match t
    case String =>
    case Date =>
    case GUID =>
    case Integer =>
    case SmallInteger =>
    case OID =>
    case GlobalID =>
    case Double =>
    case Single =>
    case Blob =>
    case Raster =>
    case XML =>
    case Geometry =>
    case Unknown =>
  }

  /** Serialization classes of the declared types. */
  predicate IsText(t: EsriType) { t == String || t == Date || t == GUID }
  predicate IsInteger(t: EsriType) { t == Integer || t == SmallInteger || t == OID || t == GlobalID }
  predicate IsReal(t: EsriType) { t == Double || t == Single }
  predicate IsOpaque(t: EsriType) { t == Blob || t == Raster || t == XML || t == Geometry || t == Unknown }

  /** The four classes partition the types: every type is in exactly one. */
  lemma ClassesPartition(t: EsriType)
    ensures IsText(t) || IsInteger(t) || IsReal(t) || IsOpaque(t)
    ensures !(IsText(t) && IsInteger(t)) && !(IsText(t) && IsReal(t)) && !(IsText(t) && IsOpaque(t))
    ensures !(IsInteger(t) && IsReal(t)) && !(IsInteger(t) && IsOpaque(t)) && !(IsReal(t) && IsOpaque(t))
  {
  }

  /** A type string is rendered opaquely exactly when it is not one of the
      nine names of a text, integer or real type. */
  lemma OpaqueTypeNames(s: string)
    ensures IsOpaque(ParseType(s)) <==>
      s !in {"esriFieldTypeString", "esriFieldTypeDate", "esriFieldTypeGUID",
             "esriFieldTypeInteger", "esriFieldTypeSmallInteger", "esriFieldTypeOID", "esriFieldTypeGlobalID",
             "esriFieldTypeDouble", "esriFieldTypeSingle"}
  {
  }

  /** The serialization switch of main.go, before trimming: text types give
      the string value, integer types the base-10 integer, real types the
      five-decimal float text, and every other type nothing. */
  function Render(t: EsriType, v: Value): (r: string)
    ensures IsText(t) ==> r == v.str
    ensures IsInteger(t) ==> ParseInt(r) == v.number && Trimmed(r)
    ensures IsReal(t) ==> r == v.fixed
    ensures IsOpaque(t) ==> r == []
  {
    if IsText(t) then v.str
    else if IsInteger(t) then
      var numeral := FormatInt(v.number);
      assert ParseInt(numeral) == v.number && Trimmed(numeral) by {
        FormatParseInt(v.number);
        FormatIntTrimmed(v.number);
      }
      numeral
    else if IsReal(t) then v.fixed
    else ""
  }

  /** One CSV cell: the rendering, trimmed. A cell never starts or ends with
      white space and is never longer than the rendering it comes from. */
  function Cell(t: EsriType, v: Value): (c: string)
    ensures Trimmed(c)
    ensures |c| <= |Render(t, v)|
  {
    TrimSpace(Render(t, v))
  }

  /** Opaque types (Blob, Raster, XML, Geometry and every unrecognised type
      string) give the empty cell, whatever the value. */
  lemma OpaqueCell(t: EsriType, v: Value)
    requires IsOpaque(t)
    ensures Cell(t, v) == ""
  {
    assert Render(t, v) == [];
    TrimSpaceEmpty();
  }

  /** Text types (String, Date, GUID) give the string value, trimmed. */
  lemma TextCell(t: EsriType, v: Value)
    requires IsText(t)
    ensures Cell(t, v) == TrimSpace(v.str)
  {
    assert Render(t, v) == v.str;
  }

  /** Real types (Double, Single) give the five-decimal text, trimmed. */
  lemma RealCell(t: EsriType, v: Value)
    requires IsReal(t)
    ensures Cell(t, v) == TrimSpace(v.fixed)
  {
    assert Render(t, v) == v.fixed;
  }

  /** Integer types (Integer, SmallInteger, OID, GlobalID) give the integer's
      base-10 numeral untouched by trimming: it holds no decimal point and
      reads back as the same integer. */
  lemma IntegerCell(t: EsriType, v: Value)
    requires IsInteger(t)
    ensures Cell(t, v) == FormatInt(v.number)
    ensures '.' !in Cell(t, v)
    ensures ParseInt(Cell(t, v)) == v.number
  {
    assert Cell(t, v) == FormatInt(v.number) by {
      assert Render(t, v) == FormatInt(v.number);
      FormatIntTrimmed(v.number);
    }
    FormatIntNoDot(v.number);
    FormatParseInt(v.number);
  }

  /** Trimming a cell again changes nothing. */
  lemma CellIdempotent(t: EsriType, v: Value)
    ensures TrimSpace(Cell(t, v)) == Cell(t, v)
  {
    TrimSpaceIdempotent(Render(t, v));
  }

  /** An absent attribute reads as the number zero, so an integer field
      without a value gives the cell "0", not an empty cell. */
  lemma MissingInteger(t: EsriType)
    requires IsInteger(t)
    ensures Cell(t, Missing) == "0"
  {
    IntegerCell(t, Missing);
    assert FormatInt(0) == "0";
  }

  /** A real field without a value gives "0.00000". */
  lemma MissingReal(t: EsriType)
    requires IsReal(t)
    ensures Cell(t, Missing) == "0.00000"
  {
    assert Trimmed(Missing.fixed);
    TrimmedRealCell(t, Missing);
  }

  lemma TrimmedRealCell(t: EsriType, v: Value)
    requires IsReal(t) && Trimmed(v.fixed)
    ensures Cell(t, v) == v.fixed
  {
    assert Render(t, v) == v.fixed;
    TrimSpaceFixedPoints(v.fixed);
  }

  /** A text field without a value gives the empty cell. */
  lemma MissingText(t: EsriType)
    requires IsText(t)
    ensures Cell(t, Missing) == ""
  {
    TextCell(t, Missing);
    TrimSpaceEmpty();
  }

  /** Position i holds the last descriptor named `name`. */
  predicate LastNamed(fields: seq<Field>, name: string, i: int)
  {
    0 <= i < |fields| && fields[i].name == name && forall j :: i < j < |fields| ==> fields[j].name != name
  }

  /** The type the name-to-type map holds for `name` once every descriptor has
      been entered in order: later descriptors overwrite earlier ones, so it is
      the type of the last descriptor with that name, and "" (the map's zero
      value) when no descriptor has it. */
  function DeclaredType(fields: seq<Field>, name: string): (r: string)
    ensures (forall i :: 0 <= i < |fields| ==> fields[i].name != name) ==> r == ""
    ensures forall i :: LastNamed(fields, name, i) ==> r == fields[i].typeName
    decreases |fields|
  {
    if |fields| == 0 then ""
    else if fields[|fields| - 1].name == name then fields[|fields| - 1].typeName
    else
      LastNamedPrefix(fields, fields[..|fields| - 1], name);
      DeclaredType(fields[..|fields| - 1], name)
  }

  /** Dropping a last descriptor with another name keeps every position's
      standing as the last one named `name`, and keeps a missing name missing. */
  lemma LastNamedPrefix(fields: seq<Field>, prefix: seq<Field>, name: string)
    requires |fields| > 0 && prefix == fields[..|fields| - 1] && fields[|fields| - 1].name != name
    ensures forall i :: LastNamed(fields, name, i) ==> LastNamed(prefix, name, i)
    ensures (forall i :: 0 <= i < |fields| ==> fields[i].name != name) ==>
      forall i :: 0 <= i < |prefix| ==> prefix[i].name != name
  {
  }

  /** Field names are pairwise distinct. */
  predicate UniqueNames(fields: seq<Field>)
  {
    forall i, j :: 0 <= i < j < |fields| ==> fields[i].name != fields[j].name
  }

  /** With distinct names every field keeps its own declared type. */
  lemma {:induction false} UniqueNamesOwnType(fields: seq<Field>, i: nat)
    requires UniqueNames(fields) && i < |fields|
    ensures DeclaredType(fields, fields[i].name) == fields[i].typeName
    decreases |fields|
  {
    var n := |fields| - 1;
    if i < n {
      assert fields[n].name != fields[i].name;
      assert fields[..n][i] == fields[i];
      UniqueNamesOwnType(fields[..n], i);
    }
  }

  /** With a repeated name, every column of that name is serialized with the
      type of the last descriptor carrying it: the name-to-type map keeps only
      the last type entered. */
  lemma DuplicateNameLastTypeWins(fields: seq<Field>, attributes: Attributes, i: nat, j: nat)
    requires i < |fields| && LastNamed(fields, fields[i].name, j)
    ensures Row(fields, attributes)[i] == Cell(ParseType(fields[j].typeName), Lookup(attributes, fields[i].name))
  {
    RowCell(fields, attributes, i);
  }

  /** A name declared first as an OID and then as a String: both columns
      render the string value. */
  lemma OidThenString(name: string, v: Value)
    ensures var fields := [Field(name, TypeName(OID)), Field(name, TypeName(String))];
      Row(fields, map[name := v]) == [TrimSpace(v.str), TrimSpace(v.str)]
  {
    var fields := [Field(name, TypeName(OID)), Field(name, TypeName(String))];
    var a := map[name := v];
    assert LastNamed(fields, name, 1);
    ParseTypeName(String);
    TextCell(String, v);
    DuplicateNameLastTypeWins(fields, a, 0, 1);
    DuplicateNameLastTypeWins(fields, a, 1, 1);
    PairIs(Row(fields, a), TrimSpace(v.str), TrimSpace(v.str));
  }

  /** The header record: the field names in descriptor order. */
  function Header(fields: seq<Field>): (h: seq<string>)
    ensures |h| == |fields|
    ensures forall i :: 0 <= i < |h| ==> h[i] == fields[i].name
  {
    seq(|fields|, i requires 0 <= i < |fields| => fields[i].name)
  }

  /** The record of one feature: for each field in descriptor order, its
      attribute serialized with the type the map holds for its name. */
  function Row(fields: seq<Field>, attributes: Attributes): (r: seq<string>)
    ensures |r| == |fields|
    ensures forall i :: 0 <= i < |r| ==> Trimmed(r[i])
  {
    seq(|fields|, i requires 0 <= i < |fields| =>
      Cell(ParseType(DeclaredType(fields, fields[i].name)), Lookup(attributes, fields[i].name)))
  }

  /** Cell i of a feature's record: field i's attribute, serialized with the
      type the map holds for field i's name. */
  lemma RowCell(fields: seq<Field>, attributes: Attributes, i: nat)
    requires i < |fields|
    ensures Row(fields, attributes)[i] == Cell(ParseType(DeclaredType(fields, fields[i].name)), Lookup(attributes, fields[i].name))
  {
  }

  /** All records of a layer: the header, then one record per feature in
      feature order. */
  function Records(fields: seq<Field>, features: seq<Attributes>): (r: seq<seq<string>>)
    ensures |r| == 1 + |features| && r[0] == Header(fields)
  {
    seq(1 + |features|, j requires 0 <= j <= |features| => if j == 0 then Header(fields) else Row(fields, features[j - 1]))
  }

  /** Two columns with the same name hold the same cell: the type comes from
      the name-to-type map and the value from a lookup by name, so nothing
      tells the columns apart. */
  lemma SameNameSameCell(fields: seq<Field>, attributes: Attributes, i: nat, j: nat)
    requires i < |fields| && j < |fields| && fields[i].name == fields[j].name
    ensures Row(fields, attributes)[i] == Row(fields, attributes)[j]
  {
  }

  /** A record depends only on the attributes named by fields: keys outside
      the schema are ignored, and two features agreeing on the field names give
      the same record. */
  lemma RowIgnoresOtherKeys(fields: seq<Field>, a: Attributes, b: Attributes)
    requires forall i :: 0 <= i < |fields| ==> Lookup(a, fields[i].name) == Lookup(b, fields[i].name)
    ensures Row(fields, a) == Row(fields, b)
  {
    assert forall i :: 0 <= i < |fields| ==> Row(fields, a)[i] == Row(fields, b)[i];
  }

  /** The schema pass of main.go:192-214: the list of field names, the
      name-to-type map, the index-to-name map and the list of indices. The
      index list is 0, 1, ..., F-1 in ascending order, so sorting it changes
      nothing; the index-to-name map agrees with the name list; the
      name-to-type map is defined exactly on the field names and holds, for
      each, the type of the last descriptor with that name. */
  method ExtractSchema(descriptors: seq<Field>)
    returns (names: seq<string>, types: map<string, string>, index: map<int, string>, keys: seq<int>)
    ensures names == Header(descriptors)
    ensures types.Keys == set i | 0 <= i < |descriptors| :: descriptors[i].name
    ensures forall name :: name in types ==> types[name] == DeclaredType(descriptors, name)
    ensures forall i :: i in index <==> 0 <= i < |descriptors|
    ensures forall i :: 0 <= i < |descriptors| ==> index[i] == descriptors[i].name
    ensures |keys| == |descriptors| && forall i :: 0 <= i < |keys| ==> keys[i] == i
  {
    names, types, index, keys := [], map[], map[], [];
    var fieldIndex := 0;
    while fieldIndex < |descriptors|
      invariant fieldIndex <= |descriptors|
      invariant names == Header(descriptors[..fieldIndex])
      invariant types.Keys == set i | 0 <= i < fieldIndex :: descriptors[i].name
      invariant forall name :: name in types ==> types[name] == DeclaredType(descriptors[..fieldIndex], name)
      invariant forall i :: i in index <==> 0 <= i < fieldIndex
      invariant forall i :: 0 <= i < fieldIndex ==> index[i] == descriptors[i].name
      invariant |keys| == fieldIndex && forall i :: 0 <= i < fieldIndex ==> keys[i] == i
    {
      var result := descriptors[fieldIndex];
      assert descriptors[..fieldIndex + 1][..fieldIndex] == descriptors[..fieldIndex];
      names := names + [result.name];
      types := types[result.name := result.typeName];
      index := index[fieldIndex := result.name];
      keys := keys + [fieldIndex];
      fieldIndex := fieldIndex + 1;
    }
    assert descriptors[..fieldIndex] == descriptors;
  }

  /** The record of one feature as main.go:223-253 builds it: walk the indices,
      fetch the name, its type from the map and its value from the feature,
      dispatch on the type, trim, append. */
  method ProjectFeature(types: map<string, string>, index: map<int, string>, keys: seq<int>,
                        ghost descriptors: seq<Field>, attributes: Attributes)
    returns (record: seq<string>)
    requires |keys| == |descriptors|
    requires forall i :: 0 <= i < |descriptors| ==> i in index && index[i] == descriptors[i].name
    requires forall name :: name in types ==> types[name] == DeclaredType(descriptors, name)
    requires forall i :: 0 <= i < |descriptors| ==> descriptors[i].name in types
    ensures record == Row(descriptors, attributes)
    ensures |record| == |descriptors|
    ensures forall i :: 0 <= i < |record| ==> Trimmed(record[i])
  {
    record := [];
    for i := 0 to |keys|
      invariant record == Row(descriptors, attributes)[..i]
    {
      var k := index[i];
      var v := types[k];
      var value := Lookup(attributes, k);
      var valueString := Render(ParseType(v), value);
      assert TrimSpace(valueString) == Row(descriptors, attributes)[i];
      record := record + [TrimSpace(valueString)];
      PrefixExtend(Row(descriptors, attributes), i);
    }
    PrefixWhole(Row(descriptors, attributes));
  }

  /** The record pass of `convertJsonFile`: the header of field names, then
      one record per feature in feature order, each with exactly one cell per
      field whatever keys the feature carries, cell i serialized with the type
      of field i's name, and no cell with white space at either end. */
  method ConvertRecords(descriptors: seq<Field>, features: seq<Attributes>) returns (records: seq<seq<string>>)
    ensures records == Records(descriptors, features)
    ensures |records| == 1 + |features|
    ensures |records[0]| == |descriptors| && forall i :: 0 <= i < |descriptors| ==> records[0][i] == descriptors[i].name
    ensures forall j :: 1 <= j < |records| ==> |records[j]| == |descriptors|
    ensures forall j, i :: 1 <= j < |records| && 0 <= i < |descriptors| ==>
      records[j][i] == Cell(ParseType(DeclaredType(descriptors, descriptors[i].name)), Lookup(features[j - 1], descriptors[i].name))
    ensures forall j, i :: 1 <= j < |records| && 0 <= i < |records[j]| ==> Trimmed(records[j][i])
  {
    var fields, fieldTypes, fieldTypesIndex, fieldKeys := ExtractSchema(descriptors);
    records := [fields];
    for j := 0 to |features|
      invariant records == Records(descriptors, features[..j])
    {
      var record := ProjectFeature(fieldTypes, fieldTypesIndex, fieldKeys, descriptors, features[j]);
      RecordsSnoc(descriptors, features, j);
      records := records + [record];
    }
    assert features[..|features|] == features;
    RecordsShape(descriptors, features);
    RecordCells(descriptors, features);
    RecordsTrimmed(descriptors, features);
  }

  /** Cell i of a feature's record comes from field i: its attribute,
      serialized with the type declared for its name, and trimmed. */
  lemma RecordCells(descriptors: seq<Field>, features: seq<Attributes>)
    ensures var records := Records(descriptors, features);
      forall j, i :: 1 <= j < |records| && 0 <= i < |descriptors| ==>
        records[j][i] == Cell(ParseType(DeclaredType(descriptors, descriptors[i].name)), Lookup(features[j - 1], descriptors[i].name))
  {
    forall j, i | 1 <= j <= |features| && 0 <= i < |descriptors|
      ensures Records(descriptors, features)[j][i]
        == Cell(ParseType(DeclaredType(descriptors, descriptors[i].name)), Lookup(features[j - 1], descriptors[i].name))
    {
      RecordIsRow(descriptors, features, j);
      RowCell(descriptors, features[j - 1], i);
    }
  }

  /** No cell of a feature's record starts or ends with white space. */
  lemma RecordsTrimmed(descriptors: seq<Field>, features: seq<Attributes>)
    ensures var records := Records(descriptors, features);
      forall j, i :: 1 <= j < |records| && 0 <= i < |records[j]| ==> Trimmed(records[j][i])
  {
    forall j, i | 1 <= j <= |features| && 0 <= i < |descriptors|
      ensures Trimmed(Records(descriptors, features)[j][i])
    {
      RecordIsRow(descriptors, features, j);
    }
  }

  /** The records form a table: the header, one record per feature, and the
      same number of cells, one per field, in every record. */
  lemma RecordsShape(descriptors: seq<Field>, features: seq<Attributes>)
    ensures var records := Records(descriptors, features);
      && |records| == 1 + |features|
      && |records[0]| == |descriptors| && (forall i :: 0 <= i < |descriptors| ==> records[0][i] == descriptors[i].name)
      && forall j :: 0 <= j < |records| ==> |records[j]| == |descriptors|
  {
    forall j | 1 <= j <= |features|
      ensures |Records(descriptors, features)[j]| == |descriptors|
    {
      RecordIsRow(descriptors, features, j);
    }
  }

  /** Record j after the header is the record of feature j - 1. */
  lemma RecordIsRow(descriptors: seq<Field>, features: seq<Attributes>, j: nat)
    requires 1 <= j <= |features|
    ensures Records(descriptors, features)[j] == Row(descriptors, features[j - 1])
  {
  }

  /** One more feature adds its record at the end. */
  lemma RecordsSnoc(descriptors: seq<Field>, features: seq<Attributes>, j: nat)
    requires j < |features|
    ensures Records(descriptors, features[..j + 1]) == Records(descriptors, features[..j]) + [Row(descriptors, features[j])]
  {
    var longer, shorter := Records(descriptors, features[..j + 1]), Records(descriptors, features[..j]) + [Row(descriptors, features[j])];
    assert |longer| == |shorter|;
    forall k | 0 <= k < |longer| ensures longer[k] == shorter[k] {
      if 0 < k <= j {
        assert features[..j + 1][k - 1] == features[..j][k - 1];
      }
    }
  }

  /** A two-field layer of an integer field (an object id, say) and a text
      field (a name): a feature carrying both gives the id's numeral and the
      name. */
  lemma IdNameRow(idField: string, nameField: string, idType: string, nameType: string, id: Value, name: Value)
    requires idField != nameField && IsInteger(ParseType(idType)) && IsText(ParseType(nameType)) && Trimmed(name.str)
    ensures Row([Field(idField, idType), Field(nameField, nameType)], map[idField := id, nameField := name])
         == [FormatInt(id.number), name.str]
  {
    var fields := [Field(idField, idType), Field(nameField, nameType)];
    var a := map[idField := id, nameField := name];
    assert LastNamed(fields, idField, 0) && LastNamed(fields, nameField, 1);
    var row := Row(fields, a);
    assert row[0] == FormatInt(id.number) by {
      DuplicateNameLastTypeWins(fields, a, 0, 0);
      assert Lookup(a, idField) == id;
      IntegerCell(ParseType(idType), id);
    }
    assert row[1] == name.str by {
      DuplicateNameLastTypeWins(fields, a, 1, 1);
      assert Lookup(a, nameField) == name;
      TextCell(ParseType(nameType), name);
      TrimSpaceFixedPoints(name.str);
    }
    PairIs(row, FormatInt(id.number), name.str);
  }

  /** The same layer with a feature that lacks the text field: the record is
      still complete, with an empty last cell. */
  lemma IdNameRowMissingName(idField: string, nameField: string, idType: string, nameType: string, id: Value)
    requires idField != nameField && IsInteger(ParseType(idType)) && IsText(ParseType(nameType))
    ensures Row([Field(idField, idType), Field(nameField, nameType)], map[idField := id])
         == [FormatInt(id.number), ""]
  {
    var fields := [Field(idField, idType), Field(nameField, nameType)];
    var a := map[idField := id];
    assert LastNamed(fields, idField, 0) && LastNamed(fields, nameField, 1);
    var row := Row(fields, a);
    assert row[0] == FormatInt(id.number) by {
      DuplicateNameLastTypeWins(fields, a, 0, 0);
      assert Lookup(a, idField) == id;
      IntegerCell(ParseType(idType), id);
    }
    AbsentTextCell(fields, a, 1);
    PairIs(row, FormatInt(id.number), "");
  }

  /** A field of a text type that the feature does not carry gives an empty
      cell, wherever it stands in the record. */
  lemma AbsentTextCell(fields: seq<Field>, attributes: Attributes, i: nat)
    requires i < |fields| && fields[i].name !in attributes
    requires IsText(ParseType(DeclaredType(fields, fields[i].name)))
    ensures Row(fields, attributes)[i] == ""
  {
    MissingText(ParseType(DeclaredType(fields, fields[i].name)));
  }
}
