/**
 Layer selection in `getLayers` (main.go): the configured layer list, a
 comma-separated string such as "0,2-4,7", is expanded into the ordered list of
 layer identifiers to request, and each identifier picks the display name its
 raw payload file is named after.
 */
module LayerSelection {
  import opened GoText
  import opened GoNumbers
  import opened Wrappers
  import opened SeqFacts

  /** The numerals of `start`, `start + 1`, ..., `end` in ascending order;
      empty when `start > end`, as a counting loop whose guard fails at once. */
  function RangeNumerals(start: int, end: int): (r: seq<string>)
    ensures |r| == if start <= end then end - start + 1 else 0
    ensures forall k :: 0 <= k < |r| ==> r[k] == FormatInt(start + k)
    decreases end - start
  {
    if start > end then [] else [FormatInt(start)] + RangeNumerals(start + 1, end)
  }

  /** The bounds of a token holding a '-': the text before the first '-' and
      the text between the first and the second, each read with ParseInt
      (errors discarded, so malformed bounds read as 0). Text after a second
      '-' is ignored. */
  function RangeBounds(token: string): (r: (int64, int64))
    requires '-' in token
    ensures var dash := IndexOf(token, '-');
      var rest := token[dash + 1..];
      && r.0 == ParseInt(token[..dash])
      && r.1 == ParseInt(if '-' in rest then rest[..IndexOf(rest, '-')] else rest)
  {
    var bounds := Split(token, '-');
    SplitHead(token, '-');
    SplitSecond(token, '-');
    SplitHead(token[IndexOf(token, '-') + 1..], '-');
    (ParseInt(bounds[0]), ParseInt(bounds[1]))
  }

  /** The identifiers one token contributes: the numerals of its range when it
      holds a '-', otherwise the token itself, unchanged. */
  function ExpandToken(token: string): (r: seq<string>)
    ensures '-' !in token ==> r == [token]
    ensures |r| == ExpansionSize(token)
    ensures '-' in token ==> forall k :: 0 <= k < |r| ==> r[k] == FormatInt(RangeBounds(token).0 + k)
  {
    if '-' in token then
      var (start, end) := RangeBounds(token);
      RangeNumerals(start, end)
    else
      [token]
  }

  /** The concatenation of `f` applied to each element, in order. */
  function FlatMap<T, U>(xs: seq<T>, f: T -> seq<U>): seq<U>
  {
    if |xs| == 0 then [] else FlatMap(xs[..|xs| - 1], f) + f(xs[|xs| - 1])
  }

  /** The layer list denoted by a layer specification string. */
  function ExpandSpec(spec: string): seq<string>
  {
    FlatMap(Split(spec, ','), ExpandToken)
  }

  /** The number of identifiers a token contributes, computed from its bounds
      alone: end - start + 1 for a non-empty range, 0 for a descending one, 1
      for a plain token. */
  function ExpansionSize(token: string): nat
  {
    if '-' in token then
      var (start, end) := RangeBounds(token);
      if start <= end then end - start + 1 else 0
    else 1
  }

  function TotalSize(tokens: seq<string>): nat
  {
    if |tokens| == 0 then 0
    else TotalSize(tokens[..|tokens| - 1]) + ExpansionSize(tokens[|tokens| - 1])
  }

  /** The inner loop of `getLayers` (main.go:108-113): count from `start` up
      to `end`, appending each number's numeral. */
  method AppendRange(layers: seq<string>, start: int64, end: int64) returns (out: seq<string>)
    ensures out == layers + RangeNumerals(start, end)
  {
    out := layers;
    var layer: int := start;
    while layer <= end
      invariant start <= layer
      invariant start <= end ==> layer <= end + 1
      invariant start > end ==> layer == start
      invariant out == layers + RangeNumerals(start, layer - 1)
      decreases end - layer
    {
      RangeNumeralsSnoc(start, layer);
      out := out + [FormatInt(layer)];
      layer := layer + 1;
    }
  }

  /** Go's `layer++` on an int64 counter: the largest value wraps around to
      the smallest. */
  function WrapIncrement(x: int64): int64
  {
    if x == MaxInt64 then MinInt64 else x + 1
  }

  /** The counting loop of main.go:109 as the program has it, with an int64
      counter, stopped after at most `fuel` iterations: the numerals it
      appends. */
  function RangeAsWritten(layer: int64, end: int64, fuel: nat): (r: seq<string>)
    ensures |r| <= fuel
    ensures |r| > 0 ==> r[0] == FormatInt(layer)
    decreases fuel
  {
    if fuel == 0 || layer > end then [] else [FormatInt(layer)] + RangeAsWritten(WrapIncrement(layer), end, fuel - 1)
  }

  /** With the end bound at the largest int64 the guard `layer <= end` holds
      for every counter value, so the loop never stops: whatever number of
      iterations is allowed, all of them are taken. */
  lemma {:induction false} RangeAsWrittenNeverEnds(layer: int64, fuel: nat)
    ensures |RangeAsWritten(layer, MaxInt64, fuel)| == fuel
    decreases fuel
  {
    if fuel > 0 {
      RangeAsWrittenNeverEnds(WrapIncrement(layer), fuel - 1);
    }
  }

  /** Right after the largest int64 the loop appends the numeral of the
      smallest one, a negative layer identifier. */
  lemma RangeAsWrittenWraps(end: int64, fuel: nat)
    requires end == MaxInt64 && fuel >= 2
    ensures var r := RangeAsWritten(end, end, fuel);
      |r| >= 2 && r[0] == FormatInt(end) && r[1] == FormatInt(MinInt64)
  {
    var next := WrapIncrement(end);
    assert next == MinInt64;
    RangeAsWrittenStep(end, end, fuel);
    RangeAsWrittenStep(next, end, fuel - 1);
  }

  /** One turn of the loop as written: the guard holds, so the counter's
      numeral is appended and the counter moves on. */
  lemma RangeAsWrittenStep(layer: int64, end: int64, fuel: nat)
    requires fuel > 0 && layer <= end
    ensures RangeAsWritten(layer, end, fuel) == [FormatInt(layer)] + RangeAsWritten(WrapIncrement(layer), end, fuel - 1)
  {
  }

  /** For every end bound below the largest int64, and enough iterations, the
      loop as written appends exactly the numerals of the range. */
  lemma {:induction false} RangeAsWrittenAgrees(start: int64, end: int64, fuel: nat)
    requires end < MaxInt64 && (start > end || fuel > end - start)
    ensures RangeAsWritten(start, end, fuel) == RangeNumerals(start, end)
    decreases fuel
  {
    if start <= end {
      RangeAsWrittenAgrees(start + 1, end, fuel - 1);
    }
  }

  /** An end bound too large for an int64 is clamped to the largest int64, so
      a layer list such as "0-99999999999999999999" reaches the loop that
      never stops. */
  lemma HugeEndBound(digits: string)
    requires |digits| > 0 && AllDigits(digits) && DigitsValue(digits) > MaxInt64
    ensures RangeBounds("0-" + digits) == (0, MaxInt64)
  {
    var token := "0-" + digits;
    assert '-' !in digits by {
      assert forall k :: 0 <= k < |digits| ==> IsDigit(digits[k]);
    }
    assert Join(["0", digits], '-') == token by {
      JoinCons("0", [digits], '-');
    }
    SplitJoin(["0", digits], '-');
    ParseDecimal(digits);
    assert ParseInt("0") == 0 by {
      FormatParseInt(0);
      assert FormatInt(0) == "0";
    }
  }

  /** A range one longer ends in one more numeral. */
  lemma {:induction false} RangeNumeralsSnoc(start: int, end: int)
    requires start <= end
    ensures RangeNumerals(start, end) == RangeNumerals(start, end - 1) + [FormatInt(end)]
    decreases end - start
  {
    if start < end {
      RangeNumeralsSnoc(start + 1, end);
    }
  }

  /** The expansion loop of `getLayers` (main.go:96-117): split the list at
      commas, and for each token either append the numerals of its range or
      append the token itself. */
  method GetLayers(layerNumbers: string) returns (layers: seq<string>)
    ensures layers == ExpandSpec(layerNumbers)
    ensures |layers| == TotalSize(Split(layerNumbers, ','))
  {
    var layerConfigs := Split(layerNumbers, ',');
    layers := [];
    for i := 0 to |layerConfigs|
      invariant layers == FlatMap(layerConfigs[..i], ExpandToken)
    {
      var lyrConfig := layerConfigs[i];
      if '-' in lyrConfig {
        var rangeLayers := Split(lyrConfig, '-');
        var start := ParseInt(rangeLayers[0]);
        var end := ParseInt(rangeLayers[1]);
        assert ExpandToken(lyrConfig) == RangeNumerals(start, end);
        layers := AppendRange(layers, start, end);
      } else {
        layers := layers + [lyrConfig];
      }
      assert layerConfigs[..i + 1][..i] == layerConfigs[..i];
    }
    assert layerConfigs[..|layerConfigs|] == layerConfigs;
    ExpansionLength(layerConfigs);
  }

  /** The length of an expansion is the sum of the per-token sizes. */
  lemma {:induction false} ExpansionLength(tokens: seq<string>)
    ensures |FlatMap(tokens, ExpandToken)| == TotalSize(tokens)
  {
    if |tokens| > 0 {
      ExpansionLength(tokens[..|tokens| - 1]);
    }
  }

  /** Flat-mapping a concatenation flat-maps each part in turn. */
  lemma {:induction false} FlatMapAppend<T, U>(xs: seq<T>, ys: seq<T>, f: T -> seq<U>)
    ensures FlatMap(xs + ys, f) == FlatMap(xs, f) + FlatMap(ys, f)
    decreases |ys|
  {
    if |ys| == 0 {
      assert xs + ys == xs;
    } else {
      var n := |ys| - 1;
      var all := xs + ys;
      assert all[..|all| - 1] == xs + ys[..n];
      assert all[|all| - 1] == ys[n];
      FlatMapAppend(xs, ys[..n], f);
    }
  }

  /** Token order is preserved: the layers of "a,b" are the layers of "a"
      followed by the layers of "b". */
  lemma ExpandSpecAppend(a: string, b: string)
    ensures ExpandSpec(a + [','] + b) == ExpandSpec(a) + ExpandSpec(b)
  {
    SplitAppend(a, b, ',');
    FlatMapAppend(Split(a, ','), Split(b, ','), ExpandToken);
  }

  /** A list without a comma is a single token, expanded on its own. */
  lemma SingleToken(token: string)
    requires ',' !in token
    ensures ExpandSpec(token) == ExpandToken(token)
  {
    SplitJoin([token], ',');
    assert Split(token, ',') == [token];
    assert [token][..0] == [];
    assert FlatMap([token], ExpandToken) == FlatMap([], ExpandToken) + ExpandToken(token);
  }

  /** A token without a '-' is passed through verbatim, whatever it holds
      (including text that is not a number). */
  lemma PlainToken(token: string)
    requires '-' !in token && ',' !in token
    ensures ExpandSpec(token) == [token]
  {
    SingleToken(token);
  }

  /** The bounds of the token "a-b" written from two non-negative numbers are
      those numbers. */
  lemma RangeTokenBounds(a: int64, b: int64)
    requires 0 <= a && 0 <= b
    ensures var token := FormatInt(a) + "-" + FormatInt(b);
      '-' in token && ',' !in token && RangeBounds(token) == (a, b)
  {
    var x, y := FormatInt(a), FormatInt(b);
    var token := x + "-" + y;
    assert token[|x|] == '-';
    assert '-' !in x && '-' !in y;
    assert Join([x, y], '-') == token by {
      JoinCons(x, [y], '-');
    }
    SplitJoin([x, y], '-');
    FormatParseInt(a);
    FormatParseInt(b);
    assert ',' !in token by {
      assert forall k :: 0 <= k < |token| ==> token[k] == '-' || IsDigit(token[k]);
    }
  }

  /** A range token "a-b" over non-negative numerals expands to the numerals of
      a, a + 1, ..., b in ascending order, and to nothing when a > b. */
  lemma RangeToken(a: int64, b: int64)
    requires 0 <= a && 0 <= b
    ensures var layers := ExpandSpec(FormatInt(a) + "-" + FormatInt(b));
      && |layers| == (if a <= b then b - a + 1 else 0)
      && forall k :: 0 <= k < |layers| ==> layers[k] == FormatInt(a + k)
  {
    var token := FormatInt(a) + "-" + FormatInt(b);
    RangeTokenBounds(a, b);
    SingleToken(token);
    assert ExpandToken(token) == RangeNumerals(a, b);
  }

  /** The index into the display-name list for a layer identifier (main.go:136-140):
      identifier 0 uses the first name, and every other identifier n uses the
      n-th name, at index n - 1. */
  function NameIndex(id: int): (i: int)
    ensures 0 <= i <==> 0 <= id
    ensures i < id || i == id == 0
    ensures id != 0 ==> i + 1 == id
  {
    if id == 0 then 0 else id - 1
  }

  /** The display name a layer's raw payload file is named after, or None where
      the Go program would index outside the name list and panic. The layer
      text is read with ParseInt, so a token that is not a number selects the
      first name. */
  function LayerName(names: seq<string>, layer: string): (r: Option<string>)
    ensures r.Some? ==> r.value in names
  {
    var i := NameIndex(ParseInt(layer));
    if 0 <= i < |names| then Some(names[i]) else None
  }

  /** The name index is in bounds exactly for identifier 0 (given at least one
      name) and for identifiers 1 to the number of names. */
  lemma NameIndexInBounds(id: int, count: nat)
    ensures 0 <= NameIndex(id) < count <==> (id == 0 && count > 0) || (1 <= id <= count)
  {
  }

  /** Identifiers 0 and 1 are the only two that share a display name: every
      other pair of distinct identifiers selects distinct names. */
  lemma NameIndexCollision(a: int, b: int)
    requires a != b
    ensures NameIndex(a) == NameIndex(b) <==> (a == 0 && b == 1) || (a == 1 && b == 0)
  {
  }

  /** A layer numbered n by the expansion names its file after name n - 1, or
      name 0 when n is 0, and the lookup fails past the end of the name list. */
  lemma NumberedLayerName(names: seq<string>, n: int64)
    requires n >= 0
    ensures n == 0 && |names| > 0 ==> LayerName(names, FormatInt(n)) == Some(names[0])
    ensures 1 <= n <= |names| ==> LayerName(names, FormatInt(n)) == Some(names[n - 1])
    ensures n > |names| ==> LayerName(names, FormatInt(n)) == None
  {
    FormatParseInt(n);
  }

  /** The range token "2-4" selects layers 2, 3 and 4. */
  lemma ExampleRange()
    ensures ExpandSpec("2-4") == ["2", "3", "4"]
  {
    RangeToken(2, 4);
    assert FormatInt(2) + "-" + FormatInt(4) == "2-4";
    var m := ExpandSpec("2-4");
    assert m[0] == FormatInt(2) && m[1] == FormatInt(3) && m[2] == FormatInt(4);
    assert FormatInt(2) == "2" && FormatInt(3) == "3" && FormatInt(4) == "4";
    TripleIs(m, "2", "3", "4");
  }

  /** The layer list "0,2-4,7" selects layers 0, 2, 3, 4 and 7, in that order. */
  lemma ExampleList()
    ensures ExpandSpec("0" + [','] + "2-4" + [','] + "7") == ["0", "2", "3", "4", "7"]
  {
    assert ["0"] + ["2", "3", "4"] + ["7"] == ["0", "2", "3", "4", "7"];
    PlainToken("0");
    PlainToken("7");
    ExampleRange();
    ExampleConcat("0", "2-4", "7");
  }

  /** The layers of "a,b,c" are those of a, b and c in turn. */
  lemma ExampleConcat(a: string, b: string, c: string)
    ensures ExpandSpec(a + [','] + b + [','] + c) == ExpandSpec(a) + ExpandSpec(b) + ExpandSpec(c)
  {
    ExpandSpecAppend(a, b);
    ExpandSpecAppend(a + [','] + b, c);
  }

  /** A descending range selects nothing. */
  lemma ExampleDescending()
    ensures ExpandSpec("5-3") == []
  {
    assert FormatInt(5) + "-" + FormatInt(3) == "5-3";
    RangeToken(5, 3);
  }

  /** An empty layer list is one empty token, passed through as one layer. */
  lemma ExampleEmpty()
    ensures ExpandSpec("") == [""]
  {
    PlainToken("");
  }
}
