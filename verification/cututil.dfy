/**
 * The cut utility (develop/dev06/task.go): the `-f` field list parser, the
 * split of each input line on the delimiter, the `-s` filter that keeps
 * only lines the delimiter actually divided, and the printer that writes
 * the chosen columns. The printer returns the text it would write to
 * standard output instead of writing it.
 */
module Cut {
  import opened Results
  import opened GoStrconv
  import opened GoStrings

  /** The `-f` value: column numbers as given; printing reads them as 0-based indexes. */
  type FieldList = seq<int>

  // ------------------------------------------------------- field list (-f)

  /** `vals` are the values of the leading pieces, one for one. */
  predicate ValuesOf(vals: seq<int>, pieces: seq<string>) {
    |vals| <= |pieces| && forall i :: 0 <= i < |vals| ==> Atoi(pieces[i]) == Ok(vals[i])
  }

  lemma ValuesCons(v: int, vals: seq<int>, pieces: seq<string>)
    requires |pieces| > 0 && Atoi(pieces[0]) == Ok(v) && ValuesOf(vals, pieces[1..])
    ensures ValuesOf([v] + vals, pieces)
  {
    forall i | 0 < i < |vals| + 1
      ensures Atoi(pieces[i]) == Ok(([v] + vals)[i])
    {
      assert pieces[i] == pieces[1..][i - 1];
    }
  }

  /**
   * Append the value of each piece in turn. The first piece Atoi rejects
   * stops the walk with that piece's error, and the values appended before
   * it stay appended.
   */
  function AppendFields(f: FieldList, pieces: seq<string>): (r: (FieldList, Option<NumError>))
    ensures AppendedFrom(f, pieces, r)
    decreases |pieces|
  {
    if |pieces| == 0 then
      assert f[|f|..] == [];
      (f, None)
    else
      match Atoi(pieces[0])
      case Err(e) =>
        assert f[|f|..] == [];
        (f, Some(e))
      case Ok(v) =>
        var r := AppendFields(f + [v], pieces[1..]);
        AppendFieldsCons(f, v, pieces, r);
        r
  }

  /**
   * `r` is what appending the values of `pieces` to `f` leaves: `f` kept
   * as its prefix, followed by the values of the leading pieces; no error
   * exactly when every piece was appended, and otherwise the error of the
   * first piece Atoi rejects.
   */
  predicate AppendedFrom(f: FieldList, pieces: seq<string>, r: (FieldList, Option<NumError>)) {
    && |f| <= |r.0| <= |f| + |pieces| && r.0[..|f|] == f
    && ValuesOf(r.0[|f|..], pieces)
    && (r.1.None? <==> |r.0| == |f| + |pieces|)
    && (r.1.Some? ==> var k := |r.0| - |f|;
                      k < |pieces| && r.1.value == NumError(pieces[k]) && Atoi(pieces[k]).Err?)
  }

  /** What the walk leaves after `v` was appended is what it leaves for the pieces from `v`'s on. */
  lemma AppendFieldsCons(f: FieldList, v: int, pieces: seq<string>, r: (FieldList, Option<NumError>))
    requires |pieces| > 0 && Atoi(pieces[0]) == Ok(v)
    requires AppendedFrom(f + [v], pieces[1..], r)
    ensures AppendedFrom(f, pieces, r)
  {
    assert r.0[..|f|] == r.0[..|f| + 1][..|f|] == (f + [v])[..|f|] == f;
    assert r.0[|f|..] == [v] + r.0[|f| + 1..];
    ValuesCons(v, r.0[|f| + 1..], pieces);
    if r.1.Some? {
      var k := |r.0| - |f| - 1;
      assert pieces[1..][k] == pieces[k + 1];
    }
  }

  /** fieldList.Set: the comma-separated integers of `s`, appended to `f`. */
  function Set(f: FieldList, s: string): (r: (FieldList, Option<NumError>))
    ensures |f| <= |r.0| && r.0[..|f|] == f
    ensures r.1.Some? ==> r.1.value.input in Split(s, ",")
  {
    AppendFields(f, Split(s, ","))
  }

  /** Set succeeds exactly when every comma-separated piece is an integer Atoi accepts. */
  lemma SetSucceedsIff(f: FieldList, s: string, pieces: seq<string>)
    requires pieces == Split(s, ",")
    ensures Set(f, s).1.None? <==> forall i :: 0 <= i < |pieces| ==> Atoi(pieces[i]).Ok?
  {
    var r := AppendFields(f, pieces);
    assert Set(f, s) == r;
    if r.1.None? {
      forall i | 0 <= i < |pieces|
        ensures Atoi(pieces[i]).Ok?
      {
        assert Atoi(pieces[i]) == Ok(r.0[|f|..][i]);
      }
    } else {
      var k := |r.0| - |f|;
      assert 0 <= k < |pieces| && !Atoi(pieces[k]).Ok?;
      assert !(forall i :: 0 <= i < |pieces| ==> Atoi(pieces[i]).Ok?);
    }
  }

  /** The decimal forms of some integers. */
  function Formatted(xs: seq<int>): (r: seq<string>)
    ensures |r| == |xs|
    ensures forall i :: 0 <= i < |r| ==> r[i] == FormatInt(xs[i])
  {
    seq(|xs|, i requires 0 <= i < |xs| => FormatInt(xs[i]))
  }

  /** Setting a list written as comma-separated integers appends exactly those integers, in order. */
  lemma SetFormatted(f: FieldList, xs: seq<int>)
    requires |xs| > 0
    requires forall i :: 0 <= i < |xs| ==> MinInt <= xs[i] <= MaxInt
    ensures Set(f, Join(Formatted(xs), ",")) == (f + xs, None)
  {
    var parts := Formatted(xs);
    forall i | 0 <= i < |parts|
      ensures ',' !in parts[i]
    {
      assert forall k :: 0 <= k < |parts[i]| ==> IsDigit(parts[i][k]) || parts[i][k] == '-';
    }
    SplitJoin(parts, ',');
    assert Split(Join(parts, ","), ",") == parts;
    forall i | 0 <= i < |xs|
      ensures Atoi(parts[i]) == Ok(xs[i])
    {
      AtoiFormatInt(xs[i]);
    }
    AppendFieldsAllOk(f, parts, xs);
  }

  /** When every piece is an integer, all of their values are appended and there is no error. */
  lemma AppendFieldsAllOk(f: FieldList, pieces: seq<string>, vals: seq<int>)
    requires |vals| == |pieces|
    requires forall i :: 0 <= i < |pieces| ==> Atoi(pieces[i]) == Ok(vals[i])
    ensures AppendFields(f, pieces) == (f + vals, None)
  {
    var r := AppendFields(f, pieces);
    assert r.1.None?;
    var tail := r.0[|f|..];
    forall i | 0 <= i < |vals|
      ensures tail[i] == vals[i]
    {
      assert Atoi(pieces[i]) == Ok(tail[i]);
    }
    assert tail == vals;
    assert r.0 == r.0[..|f|] + tail == f + vals;
  }

  /** An empty piece (an empty value, or a doubled, leading or trailing comma) is an error. */
  lemma SetEmptyPiece(f: FieldList, s: string)
    requires "" in Split(s, ",")
    ensures Set(f, s).1.Some?
  {
    var pieces := Split(s, ",");
    var k :| 0 <= k < |pieces| && pieces[k] == "";
    assert Atoi(pieces[k]).Err?;
  }

  /** `-f 1,2,3` gives the fields 1, 2 and 3. */
  lemma SetOneTwoThree(s: string)
    requires s == "1,2,3"
    ensures Set([], s) == ([1, 2, 3], None)
  {
    var parts := Formatted([1, 2, 3]);
    assert parts[0] == FormatInt(1) == "1" by {
      assert FormatNat(1) == [DigitChar(1)];
    }
    assert parts[1] == FormatInt(2) == "2" by {
      assert FormatNat(2) == [DigitChar(2)];
    }
    assert parts[2] == FormatInt(3) == "3" by {
      assert FormatNat(3) == [DigitChar(3)];
    }
    assert Join(parts, ",") == "1" + "," + ("2" + "," + "3");
    assert Join(parts, ",") == s;
    SetFormatted([], [1, 2, 3]);
  }

  // ------------------------------------------------------ splitting (-d, -s)

  /** delimStrings: each line split on the delimiter, lines kept in number and order. */
  function DelimStrings(lines: seq<string>, d: string): (r: seq<seq<string>>)
    ensures |r| == |lines|
    ensures forall i :: 0 <= i < |r| ==> r[i] == Split(lines[i], d)
  {
    seq(|lines|, i requires 0 <= i < |lines| => Split(lines[i], d))
  }

  /**
   * For a non-empty delimiter, joining a row with the delimiter gives the
   * line back, and a row has several fields exactly when the line contains
   * the delimiter.
   */
  lemma DelimRows(lines: seq<string>, d: string)
    requires |d| > 0
    ensures var r := DelimStrings(lines, d);
            forall i :: 0 <= i < |r| ==> Join(r[i], d) == lines[i] && (|r[i]| > 1 <==> Contains(lines[i], d))
  {
    var r := DelimStrings(lines, d);
    forall i | 0 <= i < |r|
      ensures Join(r[i], d) == lines[i]
      ensures |r[i]| > 1 <==> Contains(lines[i], d)
    {
      JoinSplit(lines[i], d);
      SplitCount(lines[i], d);
    }
  }

  /** getOnlyDelimeted: the rows with other than exactly one field, in order. */
  function OnlyDelimited(rows: seq<seq<string>>): (r: seq<seq<string>>)
    ensures |r| <= |rows|
    ensures forall i :: 0 <= i < |r| ==> |r[i]| != 1
  {
    if |rows| == 0 then []
    else (if |rows[0]| != 1 then [rows[0]] else []) + OnlyDelimited(rows[1..])
  }

  /** A row is kept exactly when it is one of the input rows and has other than one field. */
  lemma {:induction false} OnlyDelimitedMembers(rows: seq<seq<string>>)
    ensures forall v :: v in OnlyDelimited(rows) <==> v in rows && |v| != 1
  {
    if |rows| > 0 {
      OnlyDelimitedMembers(rows[1..]);
      assert forall v :: v in rows <==> v == rows[0] || v in rows[1..];
    }
  }

  /** Filtering distributes over concatenation, so it keeps the order of the rows. */
  lemma {:induction false} OnlyDelimitedAppend(a: seq<seq<string>>, b: seq<seq<string>>)
    ensures OnlyDelimited(a + b) == OnlyDelimited(a) + OnlyDelimited(b)
  {
    if |a| == 0 {
      assert a + b == b;
    } else {
      var ab := a + b;
      assert ab[0] == a[0] && ab[1..] == a[1..] + b;
      OnlyDelimitedAppend(a[1..], b);
      var head := if |a[0]| != 1 then [a[0]] else [];
      assert OnlyDelimited(ab) == head + OnlyDelimited(a[1..] + b);
      assert OnlyDelimited(a) == head + OnlyDelimited(a[1..]);
    }
  }

  /** The lines in which the delimiter occurs. */
  function LinesWith(lines: seq<string>, d: string): seq<string> {
    if |lines| == 0 then []
    else (if Contains(lines[0], d) then [lines[0]] else []) + LinesWith(lines[1..], d)
  }

  /** `-s` keeps exactly the lines that contain the delimiter: filtering rows equals splitting the kept lines. */
  lemma {:induction false} SeparatedKeepsDelimited(lines: seq<string>, d: string)
    requires |d| > 0
    ensures OnlyDelimited(DelimStrings(lines, d)) == DelimStrings(LinesWith(lines, d), d)
  {
    if |lines| > 0 {
      SeparatedKeepsDelimited(lines[1..], d);
      DelimStringsCons(lines, d);
      SplitCount(lines[0], d);
      OnlyDelimitedCons(Split(lines[0], d), DelimStrings(lines[1..], d));
      if Contains(lines[0], d) {
        assert LinesWith(lines, d) == [lines[0]] + LinesWith(lines[1..], d);
        DelimStringsCons(LinesWith(lines, d), d);
        assert LinesWith(lines, d)[1..] == LinesWith(lines[1..], d);
      } else {
        assert LinesWith(lines, d) == LinesWith(lines[1..], d);
      }
    }
  }

  lemma DelimStringsCons(lines: seq<string>, d: string)
    requires |lines| > 0
    ensures DelimStrings(lines, d) == [Split(lines[0], d)] + DelimStrings(lines[1..], d)
  {
    assert DelimStrings(lines, d)[1..] == DelimStrings(lines[1..], d);
  }

  lemma OnlyDelimitedCons(row: seq<string>, rest: seq<seq<string>>)
    ensures OnlyDelimited([row] + rest) == (if |row| != 1 then [row] else []) + OnlyDelimited(rest)
  {
    assert ([row] + rest)[1..] == rest;
  }

  // ------------------------------------------------------------ printing (-f)

  /** Column `j` is printed: the list names it, or the list is empty and every column is printed. */
  predicate Wanted(fl: FieldList, j: int) {
    |fl| == 0 || j in fl
  }

  /** The printed columns among the first `n` of the row, in column order. */
  function Picked(row: seq<string>, fl: FieldList, n: nat): seq<string>
    requires n <= |row|
  {
    if n == 0 then []
    else Picked(row, fl, n - 1) + (if Wanted(fl, n - 1) then [row[n - 1]] else [])
  }

  /** The printed columns of a row. */
  function Selected(row: seq<string>, fl: FieldList): seq<string> {
    Picked(row, fl, |row|)
  }

  /** The indexes below `n` of the printed columns, ascending. */
  function WantedIndexes(n: nat, fl: FieldList): (r: seq<nat>)
    ensures forall j: int :: j in r <==> 0 <= j < n && Wanted(fl, j)
    ensures forall a, b :: 0 <= a < b < |r| ==> r[a] < r[b]
    ensures forall a :: 0 <= a < |r| ==> r[a] < n
  {
    if n == 0 then []
    else WantedIndexes(n - 1, fl) + (if Wanted(fl, n - 1) then [n - 1] else [])
  }

  /**
   * The printed columns are exactly the row's columns at the wanted
   * indexes, in ascending column order.
   */
  lemma {:induction false} PickedAt(row: seq<string>, fl: FieldList, n: nat)
    requires n <= |row|
    ensures var ix := WantedIndexes(n, fl);
            |Picked(row, fl, n)| == |ix| &&
            forall k :: 0 <= k < |ix| ==> Picked(row, fl, n)[k] == row[ix[k]]
  {
    if n > 0 {
      PickedAt(row, fl, n - 1);
    }
  }

  /** With no -f every column is printed. */
  lemma {:induction false} PickedAll(row: seq<string>, fl: FieldList, n: nat)
    requires |fl| == 0 && n <= |row|
    ensures Picked(row, fl, n) == row[..n]
  {
    if n > 0 {
      PickedAll(row, fl, n - 1);
      assert row[..n] == row[..n - 1] + [row[n - 1]];
    }
  }

  /** The order of the -f list and any repeats in it make no difference. */
  lemma {:induction false} PickedSameFields(row: seq<string>, f1: FieldList, f2: FieldList, n: nat)
    requires n <= |row|
    requires |f1| == 0 <==> |f2| == 0
    requires forall j :: j in f1 <==> j in f2
    ensures Picked(row, f1, n) == Picked(row, f2, n)
  {
    if n > 0 {
      PickedSameFields(row, f1, f2, n - 1);
      assert Wanted(f1, n - 1) == Wanted(f2, n - 1);
    }
  }

  /** What one row prints: the columns joined by the delimiter, then a newline if any column was printed. */
  function RowText(row: seq<string>, fl: FieldList, delim: string): string {
    var cols := Selected(row, fl);
    if |cols| == 0 then "" else Join(cols, delim) + "\n"
  }

  lemma {:induction false} JoinSnoc<T>(parts: seq<seq<T>>, x: seq<T>, sep: seq<T>)
    ensures Join(parts + [x], sep) == if |parts| == 0 then x else Join(parts, sep) + sep + x
    decreases |parts|
  {
    if |parts| > 1 {
      assert (parts + [x])[1..] == parts[1..] + [x];
      JoinSnoc(parts[1..], x, sep);
    } else if |parts| == 1 {
      assert (parts + [x])[1..] == [x];
    }
  }

  /** One more column: it is appended, after the delimiter unless it is the first, exactly when it is wanted. */
  lemma PickedStep(row: seq<string>, fl: FieldList, delim: string, j: nat)
    requires j < |row|
    ensures |Picked(row, fl, j + 1)| == 0 <==> |Picked(row, fl, j)| == 0 && !Wanted(fl, j)
    ensures Join(Picked(row, fl, j + 1), delim) ==
              if !Wanted(fl, j) then Join(Picked(row, fl, j), delim)
              else if |Picked(row, fl, j)| == 0 then row[j]
              else Join(Picked(row, fl, j), delim) + delim + row[j]
  {
    assert Picked(row, fl, j + 1) == Picked(row, fl, j) + if Wanted(fl, j) then [row[j]] else [];
    JoinSnoc(Picked(row, fl, j), row[j], delim);
    if !Wanted(fl, j) {
      assert Picked(row, fl, j + 1) == Picked(row, fl, j);
    }
  }

  /** The row loop of printStrings: a flag tells whether a column was printed yet. */
  method PrintRow(row: seq<string>, fl: FieldList, delim: string) returns (out: string)
    ensures out == RowText(row, fl, delim)
  {
    var m: set<int> := set j | j in fl;
    out := "";
    var first := true;
    for j := 0 to |row|
      invariant first <==> |Picked(row, fl, j)| == 0
      invariant out == Join(Picked(row, fl, j), delim)
    {
      PickedStep(row, fl, delim, j);
      assert j in m <==> j in fl;
      if j in m || |fl| == 0 {
        if first {
          first := false;
        } else {
          out := out + delim;
        }
        out := out + row[j];
      }
    }
    if !first {
      out := out + "\n";
    }
  }

  /** All rows' text, in order. */
  function Output(rows: seq<seq<string>>, fl: FieldList, delim: string): string {
    if |rows| == 0 then ""
    else RowText(rows[0], fl, delim) + Output(rows[1..], fl, delim)
  }

  lemma {:induction false} OutputSnoc(rows: seq<seq<string>>, row: seq<string>, fl: FieldList, delim: string)
    ensures Output(rows + [row], fl, delim) == Output(rows, fl, delim) + RowText(row, fl, delim)
  {
    if |rows| > 0 {
      assert (rows + [row])[1..] == rows[1..] + [row];
      OutputSnoc(rows[1..], row, fl, delim);
    } else {
      assert rows + [row] == [row];
    }
  }

  /** printStrings: every row printed in turn. */
  method PrintStrings(rows: seq<seq<string>>, fl: FieldList, delim: string) returns (out: string)
    ensures out == Output(rows, fl, delim)
  {
    out := "";
    for i := 0 to |rows|
      invariant out == Output(rows[..i], fl, delim)
    {
      var text := PrintRow(rows[i], fl, delim);
      assert rows[..i + 1] == rows[..i] + [rows[i]];
      OutputSnoc(rows[..i], rows[i], fl, delim);
      out := out + text;
    }
    assert rows[..|rows|] == rows;
  }

  /**
   * A row prints nothing when none of its columns is wanted; otherwise it
   * starts with the first wanted column, with no delimiter before it, and
   * ends with a newline.
   */
  lemma RowTextShape(row: seq<string>, fl: FieldList, delim: string)
    ensures var ix := WantedIndexes(|row|, fl);
            var t := RowText(row, fl, delim);
            (|ix| == 0 ==> t == "") &&
            (|ix| > 0 ==> |t| > 0 && t[|t| - 1] == '\n' && row[ix[0]] <= t)
  {
    PickedAt(row, fl, |row|);
    var cols := Selected(row, fl);
    if |cols| > 0 {
      if |cols| > 1 {
        assert Join(cols, delim) == cols[0] + (delim + Join(cols[1..], delim));
      }
    }
  }

  // ---------------------------------------------------------------- one line

  /** The cut options: -f, -d and -s. */
  datatype Options = Options(fields: FieldList, delim: string, separated: bool)

  /** One pass of main's loop: the scanned text split into lines, then split, filtered and printed. */
  function CutText(text: string, opts: Options): string {
    var rows := DelimStrings(Split(text, "\n"), opts.delim);
    var kept := if opts.separated then OnlyDelimited(rows) else rows;
    Output(kept, opts.fields, opts.delim)
  }

  /** With no -f a row prints its whole line. */
  lemma RowAllFields(line: string, fl: FieldList, d: string, nl: string)
    requires |d| > 0 && |fl| == 0 && nl == "\n"
    ensures RowText(Split(line, d), fl, d) == line + nl
  {
    var row := Split(line, d);
    PickedAll(row, fl, |row|);
    assert row[..|row|] == row;
    JoinSplit(line, d);
  }

  /** Every line followed by a newline (`nl`). */
  lemma {:induction false} OutputAllFields(lines: seq<string>, fl: FieldList, d: string, nl: string)
    requires |d| > 0 && |lines| > 0 && |fl| == 0 && nl == "\n"
    ensures Output(DelimStrings(lines, d), fl, d) == Join(lines, nl) + nl
    decreases |lines|
  {
    var rows := DelimStrings(lines, d);
    RowAllFields(lines[0], fl, d, nl);
    if |lines| > 1 {
      assert rows[1..] == DelimStrings(lines[1..], d);
      OutputAllFields(lines[1..], fl, d, nl);
    }
  }

  /** Without -f and -s, cut copies its input and ends it with a newline. */
  lemma CutCopies(text: string, d: string)
    requires |d| > 0
    ensures CutText(text, Options([], d, false)) == text + "\n"
  {
    var nl := "\n";
    var lines := Split(text, nl);
    OutputAllFields(lines, [], d, nl);
    JoinSplit(text, nl);
  }

  /** With -s, a text without the delimiter prints nothing. */
  lemma SeparatedDropsPlain(text: string, fl: FieldList, d: string)
    requires |d| > 0 && !Contains(text, d) && '\n' !in text
    ensures CutText(text, Options(fl, d, true)) == ""
  {
    ContainsSingle(text, '\n');
    var lines := Split(text, "\n");
    SplitCount(text, "\n");
    assert lines == [text];
    var rows := DelimStrings(lines, d);
    assert OnlyDelimited(rows) == [];
  }
}
