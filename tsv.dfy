/** `writeRow`: a row of tab-separated values ended by a newline, written to a stream. */
module Tsv {
  import opened Wrappers
  import opened ImportErrors
  import opened JsValues

  /** The host conversions a row is made with, left uninterpreted: JSON.stringify, and the
      Number-to-String conversion Array.prototype.join applies to a number. */
  datatype Serialiser = Serialiser(stringify: JsValue -> string, numberToString: real -> string)

  const Tab: char := '\t'
  const Newline: char := '\n'

  /** The `typeof` classes a row may hold. */
  predicate Serialisable(v: JsValue)
  {
    TypeOf(v) == "object" || TypeOf(v) == "string" || TypeOf(v) == "number"
  }

  /** The text one value becomes: an object (null included) as JSON, a string as it is,
      a number as `join` prints it; any other type throws. */
  function Cell(ser: Serialiser, v: JsValue): Result<string, ImportError>
  {
    var t := TypeOf(v);
    if t == "object" then Ok(ser.stringify(v))
    else if t == "string" then Ok(v.s)
    else if t == "number" then Ok(ser.numberToString(v.n))
    else Err(CannotSerialise(t))
  }

  /** `values.map(...)`: the cells in order, or the error of the first value that throws. */
  function Cells(ser: Serialiser, values: seq<JsValue>): Result<seq<string>, ImportError>
    decreases |values|
  {
    if values == [] then Ok([])
    else
      match Cell(ser, values[0])
      case Err(e) => Err(e)
      case Ok(c) =>
        match Cells(ser, values[1..])
        case Err(e) => Err(e)
        case Ok(cs) => Ok([c] + cs)
  }

  /** `cells.join('\t')`. */
  function JoinTabs(cells: seq<string>): string
    decreases |cells|
  {
    if |cells| == 0 then ""
    else if |cells| == 1 then cells[0]
    else cells[0] + [Tab] + JoinTabs(cells[1..])
  }

  /** The text `writeRow(stream, values)` writes, or the error it throws. */
  function FormatRow(ser: Serialiser, values: seq<JsValue>): Result<string, ImportError>
  {
    match Cells(ser, values)
    case Err(e) => Err(e)
    case Ok(cells) => Ok(JoinTabs(cells) + [Newline])
  }

  /** A line cut at its tabs, as a reader of the file cuts it. */
  function SplitTabs(s: string): (r: seq<string>)
    ensures |r| >= 1
    decreases |s|
  {
    if |s| == 0 then [""]
    else
      var rest := SplitTabs(s[1..]);
      if s[0] == Tab then [""] + rest else [[s[0]] + rest[0]] + rest[1..]
  }

  /** The number of occurrences of `c` in `s`. */
  function Count(s: string, c: char): nat
    decreases |s|
  {
    if |s| == 0 then 0 else (if s[0] == c then 1 else 0) + Count(s[1..], c)
  }

  /** The value's cell holds neither a tab nor a newline, so it reads back as one cell. */
  predicate PlainCell(ser: Serialiser, v: JsValue)
  {
    Cell(ser, v).Ok? && Tab !in Cell(ser, v).value && Newline !in Cell(ser, v).value
  }

  lemma CellOk(ser: Serialiser, v: JsValue)
    ensures Cell(ser, v).Ok? <==> Serialisable(v)
    ensures Cell(ser, v).Err? ==> Cell(ser, v).error == CannotSerialise(TypeOf(v))
  {
  }

  /** `map` throws exactly when some value has an unsupported type, and then with the type of
      the first such value; otherwise the i-th cell is the i-th value's text. */
  lemma {:induction false} CellsOutcome(ser: Serialiser, values: seq<JsValue>)
    ensures Cells(ser, values).Ok? <==> forall i :: 0 <= i < |values| ==> Serialisable(values[i])
    ensures Cells(ser, values).Ok? ==>
              |Cells(ser, values).value| == |values| &&
              forall i :: 0 <= i < |values| ==> Cells(ser, values).value[i] == Cell(ser, values[i]).value
    ensures Cells(ser, values).Err? ==>
              exists i :: 0 <= i < |values| && !Serialisable(values[i]) &&
                (forall j :: 0 <= j < i ==> Serialisable(values[j])) &&
                Cells(ser, values).error == CannotSerialise(TypeOf(values[i]))
    decreases |values|
  {
    if values != [] {
      CellOk(ser, values[0]);
      CellsOutcome(ser, values[1..]);
      var rest := values[1..];
      assert forall i :: 1 <= i < |values| ==> values[i] == rest[i - 1];
      if Cell(ser, values[0]).Ok? && Cells(ser, rest).Err? {
        var i :| 0 <= i < |rest| && !Serialisable(rest[i]) &&
          (forall j :: 0 <= j < i ==> Serialisable(rest[j])) &&
          Cells(ser, rest).error == CannotSerialise(TypeOf(rest[i]));
        assert values[i + 1] == rest[i];
        assert forall j :: 0 <= j < i + 1 ==> Serialisable(values[j]) by {
          forall j | 0 <= j < i + 1 ensures Serialisable(values[j]) {
            if j > 0 { assert values[j] == rest[j - 1]; }
          }
        }
      }
    }
  }

  /** `writeRow` throws exactly when some value's `typeof` is none of object, string and
      number, with the type of the first such value; otherwise it writes a line. */
  lemma FormatRowOutcome(ser: Serialiser, values: seq<JsValue>)
    ensures FormatRow(ser, values).Ok? <==> forall i :: 0 <= i < |values| ==> Serialisable(values[i])
    ensures FormatRow(ser, values).Err? ==>
              exists i :: 0 <= i < |values| && !Serialisable(values[i]) &&
                (forall j :: 0 <= j < i ==> Serialisable(values[j])) &&
                FormatRow(ser, values).error == CannotSerialise(TypeOf(values[i]))
  {
    CellsOutcome(ser, values);
  }

  lemma {:induction false} SplitPlainPrefix(a: string, b: string)
    requires Tab !in a
    ensures SplitTabs(a + b) == [a + SplitTabs(b)[0]] + SplitTabs(b)[1..]
    decreases |a|
  {
    if |a| == 0 {
      assert a + b == b;
      assert a + SplitTabs(b)[0] == SplitTabs(b)[0];
      assert [SplitTabs(b)[0]] + SplitTabs(b)[1..] == SplitTabs(b);
    } else {
      assert (a + b)[1..] == a[1..] + b;
      SplitPlainPrefix(a[1..], b);
      assert [a[0]] + (a[1..] + SplitTabs(b)[0]) == a + SplitTabs(b)[0];
    }
  }

  /** Joining tab-free cells with tabs and cutting the result at its tabs gives the cells back. */
  lemma {:induction false} SplitJoin(cells: seq<string>)
    requires |cells| >= 1
    requires forall i :: 0 <= i < |cells| ==> Tab !in cells[i]
    ensures SplitTabs(JoinTabs(cells)) == cells
    decreases |cells|
  {
    if |cells| == 1 {
      SplitPlainPrefix(cells[0], "");
      assert cells[0] + "" == cells[0];
    } else {
      var rest := cells[1..];
      SplitJoin(rest);
      assert JoinTabs(cells) == cells[0] + ([Tab] + JoinTabs(rest));
      var tail := [Tab] + JoinTabs(rest);
      SplitPlainPrefix(cells[0], tail);
      assert tail[1..] == JoinTabs(rest);
      assert SplitTabs(tail) == [""] + rest;
      assert cells[0] + "" == cells[0];
      assert cells == [cells[0]] + rest;
    }
  }

  lemma {:induction false} CountAppend(a: string, b: string, c: char)
    ensures Count(a + b, c) == Count(a, c) + Count(b, c)
    decreases |a|
  {
    if |a| == 0 {
      assert a + b == b;
    } else {
      assert (a + b)[1..] == a[1..] + b;
      CountAppend(a[1..], b, c);
    }
  }

  lemma {:induction false} CountAbsent(s: string, c: char)
    requires c !in s
    ensures Count(s, c) == 0
    decreases |s|
  {
    if |s| > 0 {
      CountAbsent(s[1..], c);
    }
  }

  /** Joining n cells that hold no tab and no newline puts exactly n - 1 tabs and no newline. */
  lemma {:induction false} JoinTabsCounts(cells: seq<string>)
    requires |cells| >= 1
    requires forall i :: 0 <= i < |cells| ==> Tab !in cells[i] && Newline !in cells[i]
    ensures Count(JoinTabs(cells), Tab) == |cells| - 1
    ensures Newline !in JoinTabs(cells)
    decreases |cells|
  {
    if |cells| == 1 {
      CountAbsent(cells[0], Tab);
    } else {
      var rest := cells[1..];
      JoinTabsCounts(rest);
      CountAbsent(cells[0], Tab);
      CountAppend(cells[0], [Tab] + JoinTabs(rest), Tab);
      CountAppend([Tab], JoinTabs(rest), Tab);
      assert JoinTabs(cells) == cells[0] + ([Tab] + JoinTabs(rest));
    }
  }

  /** A row of n values whose texts hold no tab and no newline is one line: n - 1 tabs, a single
      newline at the end, and cut at its tabs it gives back each value's text in order, a string
      as it is, a number as `numberToString` prints it and an object as its JSON. */
  lemma FormatRowReadsBack(ser: Serialiser, values: seq<JsValue>)
    requires |values| >= 1
    requires forall i :: 0 <= i < |values| ==> PlainCell(ser, values[i])
    ensures FormatRow(ser, values).Ok?
    ensures var line := FormatRow(ser, values).value;
            |line| >= 1 && line[|line| - 1] == Newline && Newline !in line[..|line| - 1] &&
            Count(line, Tab) == |values| - 1 &&
            var cells := SplitTabs(line[..|line| - 1]);
            |cells| == |values| &&
            forall i :: 0 <= i < |values| ==>
              (values[i].Str? ==> cells[i] == values[i].s) &&
              (values[i].Num? ==> cells[i] == ser.numberToString(values[i].n)) &&
              (TypeOf(values[i]) == "object" ==> cells[i] == ser.stringify(values[i]))
  {
    CellsOutcome(ser, values);
    var cells := Cells(ser, values).value;
    var body := JoinTabs(cells);
    var line := body + [Newline];
    assert FormatRow(ser, values) == Ok(line);
    assert line[..|line| - 1] == body;
    assert forall i :: 0 <= i < |cells| ==> Tab !in cells[i] && Newline !in cells[i] by {
      forall i | 0 <= i < |cells| ensures Tab !in cells[i] && Newline !in cells[i] {
        assert cells[i] == Cell(ser, values[i]).value;
        assert PlainCell(ser, values[i]);
      }
    }
    JoinTabsCounts(cells);
    SplitJoin(cells);
    CountAppend(body, [Newline], Tab);
    assert Count(line, Tab) == |values| - 1;
    assert SplitTabs(body) == cells;
    forall i | 0 <= i < |values|
      ensures (values[i].Str? ==> cells[i] == values[i].s) &&
              (values[i].Num? ==> cells[i] == ser.numberToString(values[i].n)) &&
              (TypeOf(values[i]) == "object" ==> cells[i] == ser.stringify(values[i]))
    {
      CellText(ser, values[i]);
    }
  }

  lemma CellText(ser: Serialiser, v: JsValue)
    requires Serialisable(v)
    ensures v.Str? ==> Cell(ser, v).value == v.s
    ensures v.Num? ==> Cell(ser, v).value == ser.numberToString(v.n)
    ensures TypeOf(v) == "object" ==> Cell(ser, v).value == ser.stringify(v)
  {
  }
}
