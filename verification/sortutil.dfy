/**
 * The helpers of the `sort` utility (develop/dev03/task.go): reading a file
 * into lines and writing it back, the comparison keys (whole line or one
 * whitespace-separated column), byte-wise lexicographic order, sorting,
 * reversal, removal of repeated lines, and how the -k/-n/-r/-u options
 * compose.
 */
module SortUtil {
  import opened Results
  import opened GoStrings
  import opened Sorting

  newtype uint8 = x: int | 0 <= x < 256

  /** One line of the file, without its newline. */
  type Line = seq<uint8>

  const NewLine: uint8 := 10

  // ------------------------------------------------------- lines of a file

  /** readFileBytes: the content cut at every newline byte (a final newline leaves an empty last line). */
  function ReadLines(content: seq<uint8>): (r: seq<Line>)
    ensures |r| > 0
    ensures forall i :: 0 <= i < |r| ==> NewLine !in r[i]
  {
    SplitSingleLacks(content, NewLine);
    Split(content, [NewLine])
  }

  /** writeFileBytes: the lines with a newline between consecutive ones. */
  function WriteLines(lines: seq<Line>): seq<uint8> {
    Join(lines, [NewLine])
  }

  /** Writing what was read gives the file back byte for byte. */
  lemma WriteRead(content: seq<uint8>)
    ensures WriteLines(ReadLines(content)) == content
  {
    JoinSplit(content, [NewLine]);
  }

  /** Reading what was written gives the lines back, as long as none holds a newline. */
  lemma ReadWrite(lines: seq<Line>)
    requires |lines| > 0
    requires forall i :: 0 <= i < |lines| ==> NewLine !in lines[i]
    ensures ReadLines(WriteLines(lines)) == lines
  {
    SplitJoin(lines, NewLine);
  }

  // ------------------------------------------------- lexicographic order

  /** bytes.Compare: -1, 0 or 1 as `a` sorts before, equal to, or after `b`. */
  function Compare(a: Line, b: Line): (r: int)
    ensures r == -1 || r == 0 || r == 1
    ensures r == 0 <==> a == b
  {
    if |a| == 0 && |b| == 0 then 0
    else if |a| == 0 then -1
    else if |b| == 0 then 1
    else if a[0] < b[0] then -1
    else if a[0] > b[0] then 1
    else
      assert a == [a[0]] + a[1..] && b == [b[0]] + b[1..];
      Compare(a[1..], b[1..])
  }

  /** Swapping the operands negates the comparison. */
  lemma CompareSwap(a: Line, b: Line)
    ensures Compare(b, a) == -Compare(a, b)
  {
  }

  /** buildCompF: `a` sorts strictly before `b`. */
  function LexLess(a: Line, b: Line): bool {
    Compare(a, b) == -1
  }

  /** `a` is a proper prefix of `b`. */
  predicate ProperPrefix(a: Line, b: Line) {
    |a| < |b| && a == b[..|a|]
  }

  /** `a` and `b` agree before position `k`, where `a` holds the smaller byte. */
  predicate SmallerAt(a: Line, b: Line, k: int) {
    0 <= k < |a| && k < |b| && a[..k] == b[..k] && a[k] < b[k]
  }

  /** A proper prefix sorts first; otherwise the first differing byte decides. */
  lemma {:induction false} LexLessMeaning(a: Line, b: Line)
    ensures LexLess(a, b) <==> ProperPrefix(a, b) || exists k :: SmallerAt(a, b, k)
    decreases |a|
  {
    if |a| > 0 && |b| > 0 && a[0] == b[0] {
      LexLessMeaning(a[1..], b[1..]);
      ShiftPrefix(a, b);
      if exists k :: SmallerAt(a[1..], b[1..], k) {
        var k :| SmallerAt(a[1..], b[1..], k);
        ShiftSmaller(a, b, k);
      }
      if exists k :: SmallerAt(a, b, k) {
        var k :| SmallerAt(a, b, k);
        assert k > 0;
        ShiftSmaller(a, b, k - 1);
      }
    } else if |a| > 0 && |b| > 0 && a[0] < b[0] {
      assert SmallerAt(a, b, 0);
    } else if |a| > 0 && |b| > 0 {
      assert forall k :: !SmallerAt(a, b, k);
    } else if |a| == 0 && |b| > 0 {
      assert b[..0] == a;
    }
  }

  lemma ShiftPrefix(a: Line, b: Line)
    requires |a| > 0 && |b| > 0 && a[0] == b[0]
    ensures ProperPrefix(a[1..], b[1..]) <==> ProperPrefix(a, b)
  {
    if ProperPrefix(a, b) {
      assert a[1..] == b[1..][..|a| - 1];
    }
    if ProperPrefix(a[1..], b[1..]) {
      assert a == [a[0]] + a[1..] && b[..|a|] == [b[0]] + b[1..][..|a| - 1];
    }
  }

  lemma ShiftSmaller(a: Line, b: Line, k: int)
    requires |a| > 0 && |b| > 0 && a[0] == b[0] && k >= 0
    ensures SmallerAt(a[1..], b[1..], k) <==> SmallerAt(a, b, k + 1)
  {
    if k < |a| - 1 && k < |b| - 1 {
      if a[1..][..k] == b[1..][..k] {
        assert a[..k + 1] == [a[0]] + a[1..][..k] && b[..k + 1] == [b[0]] + b[1..][..k];
      }
      if a[..k + 1] == b[..k + 1] {
        assert a[1..][..k] == a[..k + 1][1..] && b[1..][..k] == b[..k + 1][1..];
      }
    }
  }

  lemma {:induction false} LexLessTrans(a: Line, b: Line, c: Line)
    requires LexLess(a, b) && LexLess(b, c)
    ensures LexLess(a, c)
    decreases |a|
  {
    if |a| > 0 && |b| > 0 && |c| > 0 && a[0] == b[0] && b[0] == c[0] {
      LexLessTrans(a[1..], b[1..], c[1..]);
    }
  }

  /** Byte-wise lexicographic order is a strict total order, so sort.Slice can use it. */
  lemma LexOrder()
    ensures StrictWeakOrder(LexLess)
  {
    forall a, b, c | LexLess(a, b) && LexLess(b, c)
      ensures LexLess(a, c)
    {
      LexLessTrans(a, b, c);
    }
    forall a, b, c | !LexLess(a, b) && !LexLess(b, c)
      ensures !LexLess(a, c)
    {
      CompareSwap(a, b);
      CompareSwap(b, c);
      CompareSwap(a, c);
      if a != b && b != c {
        LexLessTrans(c, b, a);
      }
    }
  }

  // --------------------------------------------------------------- columns

  /** The ASCII bytes unicode.IsSpace accepts: tab, newline, vertical tab, form feed, carriage return, space. */
  predicate IsSpace(b: uint8) {
    b == 9 || b == 10 || b == 11 || b == 12 || b == 13 || b == 32
  }

  /** The longest prefix without a space byte. */
  function Word(s: Line): (r: Line)
    ensures |r| <= |s| && r == s[..|r|]
    ensures forall i :: 0 <= i < |r| ==> !IsSpace(r[i])
    ensures |r| == |s| || IsSpace(s[|r|])
  {
    if |s| == 0 || IsSpace(s[0]) then []
    else
      var w := Word(s[1..]);
      assert s[1..][..|w|] == s[1..|w| + 1];
      [s[0]] + w
  }

  /** strings.Fields: the maximal runs of non-space bytes, in order. */
  function Fields(s: Line): (r: seq<Line>)
    ensures forall i :: 0 <= i < |r| ==> |r[i]| > 0 && forall j :: 0 <= j < |r[i]| ==> !IsSpace(r[i][j])
    decreases |s|
  {
    if |s| == 0 then []
    else if IsSpace(s[0]) then Fields(s[1..])
    else
      var w := Word(s);
      [w] + Fields(s[|w|..])
  }

  /** The longest space-free prefix stops at the first space, whatever follows it. */
  lemma {:induction false} WordBeforeSpace(a: Line, sp: uint8, b: Line)
    requires IsSpace(sp)
    ensures Word(a + [sp] + b) == Word(a)
    decreases |a|
  {
    if |a| > 0 && !IsSpace(a[0]) {
      assert (a + [sp] + b)[1..] == a[1..] + [sp] + b;
      WordBeforeSpace(a[1..], sp, b);
    }
  }

  /**
   * Fields are cut at every space byte: the fields of `a`, a space, and `b`
   * are the fields of `a` followed by those of `b`. With FieldsWord this
   * fixes the fields of every line.
   */
  lemma {:induction false} FieldsAtSpace(a: Line, sp: uint8, b: Line)
    requires IsSpace(sp)
    ensures Fields(a + [sp] + b) == Fields(a) + Fields(b)
    decreases |a|
  {
    if |a| == 0 {
      FieldsAfterLeadingSpace([], sp, b);
    } else if IsSpace(a[0]) {
      FieldsAfterLeadingSpace(a, sp, b);
      FieldsAtSpace(a[1..], sp, b);
    } else {
      FieldsAfterWord(a, sp, b);
      FieldsAtSpace(a[|Word(a)|..], sp, b);
    }
  }

  /** A leading space contributes no field. */
  lemma FieldsAfterLeadingSpace(a: Line, sp: uint8, b: Line)
    requires IsSpace(sp) && (|a| == 0 || IsSpace(a[0]))
    ensures |a| == 0 ==> Fields(a + [sp] + b) == Fields(b)
    ensures |a| > 0 ==> Fields(a + [sp] + b) == Fields(a[1..] + [sp] + b) && Fields(a) == Fields(a[1..])
  {
    var s := a + [sp] + b;
    if |a| == 0 {
      assert s[1..] == b;
    } else {
      assert s[1..] == a[1..] + [sp] + b;
    }
  }

  /** The first field of `a`, a space, and `b` is the first word of `a`. */
  lemma FieldsAfterWord(a: Line, sp: uint8, b: Line)
    requires IsSpace(sp) && |a| > 0 && !IsSpace(a[0])
    ensures 0 < |Word(a)| <= |a|
    ensures Fields(a + [sp] + b) == [Word(a)] + Fields(a[|Word(a)|..] + [sp] + b)
    ensures Fields(a) == [Word(a)] + Fields(a[|Word(a)|..])
  {
    var s := a + [sp] + b;
    WordBeforeSpace(a, sp, b);
    var w := Word(a);
    assert s[0] == a[0];
    assert Fields(s) == [w] + Fields(s[|w|..]);
    assert s[|w|..] == a[|w|..] + [sp] + b;
  }

  /** A non-empty run of non-space bytes is a single field. */
  lemma FieldsWord(w: Line)
    requires |w| > 0 && forall i :: 0 <= i < |w| ==> !IsSpace(w[i])
    ensures Fields(w) == [w]
  {
    WordWhole(w);
  }

  lemma WordWhole(w: Line)
    requires forall i :: 0 <= i < |w| ==> !IsSpace(w[i])
    ensures Word(w) == w
  {
  }

  /** Fields joined by single spaces read back as the same fields. */
  lemma {:induction false} FieldsJoin(ws: seq<Line>)
    requires forall i :: 0 <= i < |ws| ==> |ws[i]| > 0 && forall j :: 0 <= j < |ws[i]| ==> !IsSpace(ws[i][j])
    ensures Fields(Join(ws, [32])) == ws
    decreases |ws|
  {
    if |ws| == 1 {
      FieldsWord(ws[0]);
    } else if |ws| > 1 {
      var rest := Join(ws[1..], [32]);
      assert Join(ws, [32]) == ws[0] + [32] + rest;
      FieldsAtSpace(ws[0], 32, rest);
      FieldsWord(ws[0]);
      FieldsJoin(ws[1..]);
    }
  }

  /** The fields together hold exactly the non-space bytes. */
  function NonSpace(s: Line): Line {
    if |s| == 0 then [] else (if IsSpace(s[0]) then [] else [s[0]]) + NonSpace(s[1..])
  }

  lemma NonSpaceWord(s: Line)
    ensures NonSpace(s) == Word(s) + NonSpace(s[|Word(s)|..])
    decreases |s|
  {
    if |s| > 0 && !IsSpace(s[0]) {
      NonSpaceWord(s[1..]);
      var w := Word(s[1..]);
      assert s[1..][|w|..] == s[|w| + 1..];
    }
  }

  lemma {:induction false} ConcatFields(s: Line)
    ensures Concat(Fields(s)) == NonSpace(s)
    decreases |s|
  {
    if |s| > 0 {
      if IsSpace(s[0]) {
        ConcatFields(s[1..]);
      } else {
        var w := Word(s);
        ConcatFields(s[|w|..]);
        NonSpaceWord(s);
        ConcatCons(w, Fields(s[|w|..]));
      }
    }
  }

  /** The key buildGetFColumn compares: the `column`-th field, or nothing when the line has too few. */
  function Column(line: Line, column: nat): (r: Line)
    ensures column < |Fields(line)| ==> r == Fields(line)[column]
    ensures column >= |Fields(line)| ==> r == []
    ensures forall i :: 0 <= i < |r| ==> !IsSpace(r[i])
  {
    var words := Fields(line);
    if |words| > column then words[column] else []
  }

  // ------------------------------------------------------------ comparison

  /** What a comparison looks at: the whole line (buildGetF) or one column (buildGetFColumn). */
  datatype KeySpec = WholeLine | ColumnKey(column: nat)

  function Key(spec: KeySpec, line: Line): Line {
    match spec
    case WholeLine => line
    case ColumnKey(n) => Column(line, n)
  }

  /** The less function sortBytes hands to sort.Slice: `compF` applied to the two keys. */
  function ByKey(spec: KeySpec, compF: (Line, Line) -> bool): (Line, Line) -> bool {
    (a: Line, b: Line) => compF(Key(spec, a), Key(spec, b))
  }

  lemma ByKeyOrder(spec: KeySpec, compF: (Line, Line) -> bool)
    requires StrictWeakOrder(compF)
    ensures StrictWeakOrder(ByKey(spec, compF))
  {
    var lt := ByKey(spec, compF);
    forall a: Line
      ensures !lt(a, a)
    {
      assert lt(a, a) == compF(Key(spec, a), Key(spec, a));
    }
    forall a: Line, b: Line, c: Line | lt(a, b) && lt(b, c)
      ensures lt(a, c)
    {
      assert compF(Key(spec, a), Key(spec, b)) && compF(Key(spec, b), Key(spec, c));
    }
    forall a: Line, b: Line, c: Line | !lt(a, b) && !lt(b, c)
      ensures !lt(a, c)
    {
      assert !compF(Key(spec, a), Key(spec, b)) && !compF(Key(spec, b), Key(spec, c));
    }
  }

  /** sortBytes: the lines in an order where no line's key is less than an earlier line's key. */
  function SortBytes(lines: seq<Line>, spec: KeySpec, compF: (Line, Line) -> bool): (r: seq<Line>)
    requires StrictWeakOrder(compF)
    ensures multiset(r) == multiset(lines)
    ensures forall i, j :: 0 <= i < j < |r| ==> !compF(Key(spec, r[j]), Key(spec, r[i]))
  {
    ByKeyOrder(spec, compF);
    var r := Sort(lines, ByKey(spec, compF));
    assert forall i, j :: 0 <= i < j < |r| ==> !ByKey(spec, compF)(r[j], r[i]);
    r
  }

  // --------------------------------------------------------------- reverse

  /** The lines in the opposite order. */
  function Reverse<T>(s: seq<T>): (r: seq<T>)
    ensures |r| == |s|
    ensures forall i :: 0 <= i < |s| ==> r[i] == s[|s| - 1 - i]
  {
    if |s| == 0 then [] else Reverse(s[1..]) + [s[0]]
  }

  lemma ReverseTwice<T>(s: seq<T>)
    ensures Reverse(Reverse(s)) == s
  {
  }

  /** reverse: swap from both ends towards the middle. */
  method ReverseInPlace<T>(s: seq<T>) returns (r: seq<T>)
    ensures r == Reverse(s)
  {
    r := s;
    var i, j := 0, |s| - 1;
    while i < j
      invariant 0 <= i <= |s| && j == |s| - 1 - i
      invariant |r| == |s|
      invariant forall k :: 0 <= k < i ==> r[k] == s[|s| - 1 - k] && r[|s| - 1 - k] == s[k]
      invariant forall k :: i <= k <= j ==> r[k] == s[k]
      decreases j - i
    {
      r := r[i := r[j]][j := r[i]];
      i, j := i + 1, j - 1;
    }
  }

  // --------------------------------------------------------- removeRepeats

  /** The lines that occur nowhere before their own position, in order. */
  function FirstOccurrences<T(==,!new)>(s: seq<T>): (r: seq<T>)
    ensures forall x :: x in r <==> x in s
    ensures forall i, j :: 0 <= i < j < |r| ==> r[i] != r[j]
  {
    if |s| == 0 then []
    else
      var init := FirstOccurrences(s[..|s| - 1]);
      var last := s[|s| - 1];
      assert s == s[..|s| - 1] + [last];
      if last in s[..|s| - 1] then init else init + [last]
  }

  /** A sequence without repeats is its own first occurrences. */
  lemma {:induction false} FirstOccurrencesDistinct<T(!new)>(s: seq<T>)
    requires forall i, j :: 0 <= i < j < |s| ==> s[i] != s[j]
    ensures FirstOccurrences(s) == s
  {
    if |s| > 0 {
      FirstOccurrencesDistinct(s[..|s| - 1]);
      assert s[|s| - 1] !in s[..|s| - 1];
      assert s[..|s| - 1] + [s[|s| - 1]] == s;
    }
  }

  /** Removing repeats twice is removing them once. */
  lemma RemoveRepeatsIdempotent<T(!new)>(s: seq<T>)
    ensures FirstOccurrences(FirstOccurrences(s)) == FirstOccurrences(s)
  {
    FirstOccurrencesDistinct(FirstOccurrences(s));
  }

  /** removeRepeats: keep a line when it has not been seen yet, and remember it. */
  method RemoveRepeats<T(==,!new)>(s: seq<T>) returns (result: seq<T>)
    ensures result == FirstOccurrences(s)
  {
    result := [];
    var seen: set<T> := {};
    for n := 0 to |s|
      invariant result == FirstOccurrences(s[..n])
      invariant forall x :: x in seen <==> x in s[..n]
    {
      assert s[..n + 1][..n] == s[..n];
      if s[n] !in seen {
        result := result + [s[n]];
        seen := seen + {s[n]};
      }
      assert s[..n + 1] == s[..n] + [s[n]];
    }
    assert s[..|s|] == s;
  }

  // ---------------------------------------------------- option composition

  /** -k (-1 when absent), -n, -r and -u. */
  datatype Options = Options(column: int, numeric: bool, reverse: bool, unique: bool)

  /**
   * The key main chooses: the -k column when given, column 0 for -n
   * without -k, the whole line otherwise. A -k below -1 makes every
   * comparison index a negative column and panic.
   */
  function KeyOf(opts: Options): (r: Option<KeySpec>)
    ensures r.None? <==> opts.column < -1
    ensures opts.column >= 0 ==> r == Some(ColumnKey(opts.column))
    ensures opts.column == -1 && opts.numeric ==> r == Some(ColumnKey(0))
    ensures opts.column == -1 && !opts.numeric ==> r == Some(WholeLine)
  {
    if opts.column < -1 then None
    else if opts.column != -1 then Some(ColumnKey(opts.column))
    else if opts.numeric then Some(ColumnKey(0))
    else Some(WholeLine)
  }

  /**
   * main after the file is read: sort with the chosen key and comparison
   * (`numLess` stands for buildCompFloat's float order), then reverse, then
   * remove repeats. None is the panic of a negative column, which happens as
   * soon as sort.Slice compares two lines.
   */
  function SortFile(opts: Options, lines: seq<Line>, numLess: (Line, Line) -> bool): (r: Option<seq<Line>>)
    requires opts.numeric ==> StrictWeakOrder(numLess)
    ensures r.None? <==> opts.column < -1 && |lines| >= 2
  {
    LexOrder();
    var compF: (Line, Line) -> bool := if opts.numeric then numLess else LexLess;
    match KeyOf(opts)
    case None => if |lines| < 2 then Some(lines) else None
    case Some(spec) =>
      var sorted := SortBytes(lines, spec, compF);
      var reversed := if opts.reverse then Reverse(sorted) else sorted;
      Some(if opts.unique then FirstOccurrences(reversed) else reversed)
  }

  /** Without -u the output is a permutation of the input; with -u it holds each input line once. */
  lemma SortFileContents(opts: Options, lines: seq<Line>, numLess: (Line, Line) -> bool)
    requires opts.numeric ==> StrictWeakOrder(numLess)
    requires opts.column >= -1
    ensures var r := SortFile(opts, lines, numLess).value;
            (!opts.unique ==> multiset(r) == multiset(lines)) &&
            (forall x :: x in r <==> x in lines) &&
            (opts.unique ==> forall i, j :: 0 <= i < j < |r| ==> r[i] != r[j])
  {
    LexOrder();
    var compF: (Line, Line) -> bool := if opts.numeric then numLess else LexLess;
    var spec := KeyOf(opts).value;
    var sorted := SortBytes(lines, spec, compF);
    var reversed := if opts.reverse then Reverse(sorted) else sorted;
    if opts.reverse {
      ReverseMultiset(sorted);
    }
    forall x
      ensures x in reversed <==> x in lines
    {
      assert x in reversed <==> x in multiset(reversed);
      assert x in lines <==> x in multiset(lines);
    }
  }

  lemma ReverseMultiset<T>(s: seq<T>)
    ensures multiset(Reverse(s)) == multiset(s)
  {
    if |s| > 0 {
      assert Reverse(s) == Reverse(s[1..]) + [s[0]];
      ReverseMultiset(s[1..]);
      assert s == [s[0]] + s[1..];
    }
  }

  /** The chosen order: ascending by key, or descending under -r (before any -u). */
  lemma SortFileOrder(opts: Options, lines: seq<Line>, numLess: (Line, Line) -> bool)
    requires opts.numeric ==> StrictWeakOrder(numLess)
    requires opts.column >= -1 && !opts.unique
    ensures var r := SortFile(opts, lines, numLess).value;
            var compF: (Line, Line) -> bool := if opts.numeric then numLess else LexLess;
            var spec := KeyOf(opts).value;
            forall i, j :: 0 <= i < j < |r| ==>
              if opts.reverse then !compF(Key(spec, r[i]), Key(spec, r[j]))
              else !compF(Key(spec, r[j]), Key(spec, r[i]))
  {
    LexOrder();
    var compF: (Line, Line) -> bool := if opts.numeric then numLess else LexLess;
    var spec := KeyOf(opts).value;
    var sorted := SortBytes(lines, spec, compF);
    if opts.reverse {
      assert SortFile(opts, lines, numLess).value == Reverse(sorted);
      ReverseDescending(sorted, spec, compF);
    } else {
      assert SortFile(opts, lines, numLess).value == sorted;
    }
  }

  /** Reversing a list ascending by key makes it descending by key. */
  lemma ReverseDescending(s: seq<Line>, spec: KeySpec, compF: (Line, Line) -> bool)
    requires forall i, j :: 0 <= i < j < |s| ==> !compF(Key(spec, s[j]), Key(spec, s[i]))
    ensures var r := Reverse(s);
            forall i, j :: 0 <= i < j < |r| ==> !compF(Key(spec, r[i]), Key(spec, r[j]))
  {
    var r := Reverse(s);
    var n := |s|;
    forall i, j | 0 <= i < j < |r|
      ensures !compF(Key(spec, r[i]), Key(spec, r[j]))
    {
      assert r[i] == s[n - 1 - i] && r[j] == s[n - 1 - j];
    }
  }
}
