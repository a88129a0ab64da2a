/**
 `convertJsonFile` end to end, from the parsed payload to the text of the
 CSV file: the records of the layer, written one line each.
 */
module LayerFile {
  import opened Conversion
  import opened GoText
  import opened GoNumbers
  import CsvText
  import Wrappers
  import opened SeqFacts

  /** The text of the CSV file written for a layer payload. */
  function CsvFile(descriptors: seq<Field>, features: seq<Attributes>): string
  {
    CsvText.WriteAll(Records(descriptors, features))
  }

  /** The conversion of main.go:187-279: build the records, then write them.
      When the layer has at least one field, reading the file back gives the
      header and every feature's record, in order; a layer without fields
      gives one blank line per record. */
  method ConvertJsonFile(descriptors: seq<Field>, features: seq<Attributes>) returns (csv: string)
    ensures csv == CsvFile(descriptors, features)
    ensures |descriptors| > 0 ==> CsvText.ReadAll(csv) == Wrappers.Some(Records(descriptors, features))
    ensures |descriptors| == 0 ==> csv == seq(1 + |features|, _ => '\n')
  {
    var records := ConvertRecords(descriptors, features);
    csv := CsvText.WriteRecords(records);
    if |descriptors| > 0 {
      CsvText.ReadWriteAll(records);
    } else {
      CsvText.EmptyRecordsBlankLines(records);
    }
  }

  /** A numeral is never quoted: it holds only digits and a leading minus. */
  lemma NumeralUnquoted(n: int)
    ensures !CsvText.NeedsQuotes(FormatInt(n))
  {
    var r := FormatInt(n);
    assert forall k :: 0 <= k < |r| ==> r[k] != ',' && r[k] != '"' && r[k] != '\r' && r[k] != '\n';
    assert r != ['\\', '.'] by {
      assert r[0] == '-' || IsDigit(r[0]);
    }
  }

  /** A layer with one feature gives exactly two records. */
  lemma OneFeatureRecords(descriptors: seq<Field>, feature: Attributes)
    ensures Records(descriptors, [feature]) == [Header(descriptors), Row(descriptors, feature)]
  {
    var records := Records(descriptors, [feature]);
    assert records[0] == Header(descriptors);
    assert records[1] == Row(descriptors, feature);
  }

  /** Two records whose fields need no quoting are two comma-separated lines. */
  lemma TwoPlainLines(a: string, b: string, c: string, d: string)
    requires !CsvText.NeedsQuotes(a) && !CsvText.NeedsQuotes(b)
    requires !CsvText.NeedsQuotes(c) && !CsvText.NeedsQuotes(d)
    ensures CsvText.WriteAll([[a, b], [c, d]]) == a + [','] + b + ['\n'] + c + [','] + d + ['\n']
  {
    var first, second := CsvText.WriteRecord([a, b]), CsvText.WriteRecord([c, d]);
    assert first == a + [','] + b + ['\n'] by {
      assert CsvText.EncodeFields([b]) == b;
    }
    assert second == c + [','] + d + ['\n'] by {
      assert CsvText.EncodeFields([d]) == d;
    }
    assert CsvText.WriteAll([[a, b], [c, d]]) == first + second by {
      assert [[a, b], [c, d]][1..] == [[c, d]];
      assert [[c, d]][1..] == [];
      assert CsvText.WriteAll([[c, d]]) == second + [];
      assert second + [] == second;
    }
  }

  /** The file of a two-field layer of an id and a name with one feature
      carrying both: the header line of the two field names, then the line of
      the id's numeral and the name. */
  lemma IdNameFile(idField: string, nameField: string, idType: string, nameType: string, id: Value, name: Value)
    requires idField != nameField && IsInteger(ParseType(idType)) && IsText(ParseType(nameType)) && Trimmed(name.str)
    requires !CsvText.NeedsQuotes(idField) && !CsvText.NeedsQuotes(nameField) && !CsvText.NeedsQuotes(name.str)
    ensures CsvFile([Field(idField, idType), Field(nameField, nameType)], [map[idField := id, nameField := name]])
         == idField + [','] + nameField + ['\n'] + FormatInt(id.number) + [','] + name.str + ['\n']
  {
    var fields := [Field(idField, idType), Field(nameField, nameType)];
    OneFeatureRecords(fields, map[idField := id, nameField := name]);
    assert Header(fields) == [idField, nameField];
    IdNameRow(idField, nameField, idType, nameType, id, name);
    NumeralUnquoted(id.number);
    TwoPlainLines(idField, nameField, FormatInt(id.number), name.str);
  }

  /** The same file for a feature without the name: the second line still
      has both fields, the last one empty. */
  lemma IdNameFileMissingName(idField: string, nameField: string, idType: string, nameType: string, id: Value)
    requires idField != nameField && IsInteger(ParseType(idType)) && IsText(ParseType(nameType))
    requires !CsvText.NeedsQuotes(idField) && !CsvText.NeedsQuotes(nameField)
    ensures CsvFile([Field(idField, idType), Field(nameField, nameType)], [map[idField := id]])
         == idField + [','] + nameField + ['\n'] + FormatInt(id.number) + [',', '\n']
  {
    var fields := [Field(idField, idType), Field(nameField, nameType)];
    OneFeatureRecords(fields, map[idField := id]);
    assert Header(fields) == [idField, nameField];
    IdNameRowMissingName(idField, nameField, idType, nameType, id);
    var n := FormatInt(id.number);
    NumeralUnquoted(id.number);
    TwoPlainLines(idField, nameField, n, []);
    var line := idField + [','] + nameField + ['\n'] + n;
    AppendEmpty(line + [',']);
    AppendPair(line, ',', '\n');
  }
}
