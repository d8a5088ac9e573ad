/**
 * The grep utility's context machinery (develop/dev05/task.go): the flag
 * arithmetic of -A/-B/-C, the pattern rewriting of -i and -F, the bounded
 * buffer of "before" lines, and the per-line state machine that decides
 * what is printed. The regular expression engine is a parameter: it maps a
 * line's text to whether the pattern matches, or to None when matching
 * fails. Printed lines are collected as strings without their newline.
 */
module Grep {
  import opened Results
  import opened GoStrconv

  /** A line of input with its 1-based number. */
  datatype Line = Line(text: string, num: int)

  /** The flags: -A, -B, -C, -c, -i, -v, -F and -n. */
  datatype Options = Options(
    after: nat, before: nat, context: nat,
    count: bool, ignore: bool, invert: bool, fixed: bool, numbering: bool)

  // ------------------------------------------------------------ flag setup

  /** A non-zero -C replaces both -A and -B. */
  function Context(o: Options): (r: (nat, nat))
    ensures o.context != 0 ==> r == (o.context, o.context)
    ensures o.context == 0 ==> r == (o.after, o.before)
  {
    if o.context != 0 then (o.context, o.context) else (o.after, o.before)
  }

  /** -i turns on case folding inside the pattern; -F then anchors the result at both ends. */
  function RewritePattern(pattern: string, ignore: bool, fixed: bool): (r: string)
    ensures |r| == |pattern| + (if ignore then 4 else 0) + (if fixed then 2 else 0)
    ensures fixed ==> r[0] == '^' && r[|r| - 1] == '$'
    ensures ignore ==> (if fixed then r[1..5] else r[..4]) == "(?i)"
  {
    var p := if ignore then "(?i)" + pattern else pattern;
    if fixed then "^" + p + "$" else p
  }

  /** Take the rewriting off again. */
  function OriginalPattern(r: string, ignore: bool, fixed: bool): string {
    var p := if fixed && |r| >= 2 then r[1..|r| - 1] else r;
    if ignore && |p| >= 4 then p[4..] else p
  }

  /** The rewriting keeps the user's pattern intact between what it adds. */
  lemma RewriteInverse(pattern: string, ignore: bool, fixed: bool)
    ensures OriginalPattern(RewritePattern(pattern, ignore, fixed), ignore, fixed) == pattern
  {
    var p := if ignore then "(?i)" + pattern else pattern;
    if fixed {
      assert ("^" + p + "$")[1..|p| + 1] == p;
    }
    if ignore {
      assert p[4..] == pattern;
    }
  }

  // --------------------------------------------------- the "before" buffer

  /**
   * appendBuffer as its comment describes it: a buffer of at most `cap`
   * lines where a new line pushes out the oldest one once it is full.
   * With capacity zero nothing is kept.
   */
  function Push(buf: seq<Line>, el: Line, cap: nat): (r: seq<Line>)
    ensures cap == 0 ==> r == buf
    ensures cap > 0 && |buf| < cap ==> r == buf + [el]
    ensures cap > 0 && |buf| >= cap ==> r == buf[1..] + [el]
    ensures |buf| <= cap ==> |r| <= cap
    ensures cap > 0 && |buf| == cap ==> |r| == cap
  {
    if cap == 0 then buf
    else if |buf| < cap then buf + [el]
    else buf[1..] + [el]
  }

  /** Push every line of `xs` in turn. */
  function PushAll(buf: seq<Line>, xs: seq<Line>, cap: nat): seq<Line>
    decreases |xs|
  {
    if |xs| == 0 then buf else PushAll(Push(buf, xs[0], cap), xs[1..], cap)
  }

  function Min(a: nat, b: nat): nat {
    if a < b then a else b
  }

  /** The last `cap` lines of `s`, or all of them when there are fewer. */
  function Last(s: seq<Line>, cap: nat): (r: seq<Line>)
    ensures |r| == Min(cap, |s|)
  {
    s[|s| - Min(cap, |s|)..]
  }

  /** Pushing onto the last `cap` lines gives the last `cap` lines of the longer history. */
  lemma PushLast(done: seq<Line>, x: Line, cap: nat)
    requires cap > 0
    ensures Push(Last(done, cap), x, cap) == Last(done + [x], cap)
  {
    var buf := Last(done, cap);
    var next := done + [x];
    if |done| < cap {
      assert buf == done;
      assert Last(next, cap) == next;
    } else {
      assert Last(next, cap) == buf[1..] + [x];
    }
  }

  /** Starting from a buffer that holds the tail of what was pushed, the buffer keeps holding the last `cap` lines. */
  lemma {:induction false} PushAllTail(done: seq<Line>, xs: seq<Line>, cap: nat)
    requires cap > 0
    ensures PushAll(Last(done, cap), xs, cap) == Last(done + xs, cap)
    decreases |xs|
  {
    if |xs| > 0 {
      var next := done + [xs[0]];
      PushAllStep(Last(done, cap), xs, cap);
      PushLast(done, xs[0], cap);
      PushAllTail(next, xs[1..], cap);
      MoveHead(done, xs);
    }
  }

  lemma PushAllStep(buf: seq<Line>, xs: seq<Line>, cap: nat)
    requires |xs| > 0
    ensures PushAll(buf, xs, cap) == PushAll(Push(buf, xs[0], cap), xs[1..], cap)
  {
  }

  lemma MoveHead(done: seq<Line>, xs: seq<Line>)
    requires |xs| > 0
    ensures (done + [xs[0]]) + xs[1..] == done + xs
  {
    assert xs == [xs[0]] + xs[1..];
  }

  /** An empty buffer fed the lines `xs` holds the last `cap` of them, oldest first. */
  lemma BufferKeepsLast(xs: seq<Line>, cap: nat)
    ensures PushAll([], xs, cap) == if cap == 0 then [] else xs[|xs| - Min(cap, |xs|)..]
  {
    if cap == 0 {
      PushAllZero(xs);
    } else {
      assert Last([], cap) == [];
      PushAllTail([], xs, cap);
      assert [] + xs == xs;
    }
  }

  lemma {:induction false} PushAllZero(xs: seq<Line>)
    ensures PushAll([], xs, 0) == []
    decreases |xs|
  {
    if |xs| > 0 {
      PushAllZero(xs[1..]);
    }
  }

  /** A Go slice of lines: its elements and its capacity. */
  datatype Slice = Slice(elems: seq<Line>, cap: nat)

  /**
   * The capacity Go's runtime gives a full slice of capacity `c` when one
   * more element is appended: double it below 256 elements, grow by a
   * quarter plus 192 above. Rounding up to the allocator's size classes is
   * left out.
   */
  function GrowOne(c: nat): (r: nat)
    ensures r > c
  {
    if c == 0 then 1
    else if c < 256 then 2 * c
    else c + (c + 768) / 4
  }

  /**
   * appendBuffer as written. Below capacity it appends in place. At
   * capacity the re-slice `buffer[1:len]` is a full slice of capacity
   * `cap - 1`, so the append reallocates and the buffer's capacity becomes
   * what the runtime chooses, which exceeds the old one from capacity 3 on.
   */
  function AppendBufferAsWritten(s: Slice, el: Line): (r: Slice)
    requires |s.elems| <= s.cap
    ensures |r.elems| <= r.cap
  {
    if s.cap == 0 then s
    else if |s.elems| < s.cap then Slice(s.elems + [el], s.cap)
    else Slice(s.elems[1..] + [el], GrowOne(s.cap - 1))
  }

  /** With capacity one or two the written code keeps its capacity and agrees with Push. */
  lemma AsWrittenAgreesBelowThree(s: Slice, el: Line)
    requires |s.elems| <= s.cap <= 2
    ensures AppendBufferAsWritten(s, el) == Slice(Push(s.elems, el, s.cap), s.cap)
  {
  }

  /**
   * With -B 3, five non-matching lines leave four lines in the buffer as
   * written, where the intended buffer keeps the last three.
   */
  lemma BufferOverflowsAsWritten(l1: Line, l2: Line, l3: Line, l4: Line, l5: Line)
    ensures var s := AppendBufferAsWritten(AppendBufferAsWritten(AppendBufferAsWritten(
                       AppendBufferAsWritten(AppendBufferAsWritten(Slice([], 3), l1), l2), l3), l4), l5);
            s.elems == [l2, l3, l4, l5] && s.cap == 4
    ensures PushAll([], [l1, l2, l3, l4, l5], 3) == [l3, l4, l5]
  {
    var s3 := AppendBufferAsWritten(AppendBufferAsWritten(AppendBufferAsWritten(Slice([], 3), l1), l2), l3);
    assert s3 == Slice([l1, l2, l3], 3);
    var s4 := AppendBufferAsWritten(s3, l4);
    assert s4 == Slice([l2, l3, l4], 4);
    BufferKeepsLast([l1, l2, l3, l4, l5], 3);
  }

  // ----------------------------------------------------------- printing

  /** How a printed line looks: `num:text` under -n, the bare text otherwise. */
  function Render(v: Line, numbering: bool): string {
    if numbering then FormatInt(v.num) + ":" + v.text else v.text
  }

  /**
   * The print loop: each line of `toPrint` not printed before is printed
   * and remembered; the others are skipped.
   */
  function Print(shown: seq<Line>, out: seq<string>, toPrint: seq<Line>, numbering: bool): (r: (seq<Line>, seq<string>))
    ensures |r.0| - |shown| == |r.1| - |out| >= 0
    ensures r.0[..|shown|] == shown && r.1[..|out|] == out
    decreases |toPrint|
  {
    if |toPrint| == 0 then (shown, out)
    else
      var v := toPrint[0];
      var r := if v in shown then Print(shown, out, toPrint[1..], numbering)
               else Print(shown + [v], out + [Render(v, numbering)], toPrint[1..], numbering);
      if v in shown then r
      else
        assert r.0[..|shown|] == (shown + [v])[..|shown|];
        assert r.1[..|out|] == (out + [Render(v, numbering)])[..|out|];
        r
  }

  /** After printing, the printed lines are the earlier ones and those handed over. */
  lemma {:induction false} PrintMembers(shown: seq<Line>, out: seq<string>, toPrint: seq<Line>, numbering: bool)
    ensures forall v :: v in Print(shown, out, toPrint, numbering).0 <==> v in shown || v in toPrint
    decreases |toPrint|
  {
    if |toPrint| > 0 {
      var v := toPrint[0];
      assert forall w :: w in toPrint <==> w == v || w in toPrint[1..];
      if v in shown {
        PrintMembers(shown, out, toPrint[1..], numbering);
      } else {
        PrintMembers(shown + [v], out + [Render(v, numbering)], toPrint[1..], numbering);
      }
    }
  }

  /** The rendering of each line of `lines`, in order. */
  function RenderAll(lines: seq<Line>, numbering: bool): seq<string>
    decreases |lines|
  {
    if |lines| == 0 then [] else [Render(lines[0], numbering)] + RenderAll(lines[1..], numbering)
  }

  lemma PrefixOfExtension<T>(r: seq<T>, pre: seq<T>, x: T)
    requires |pre| + 1 <= |r| && r[..|pre| + 1] == pre + [x]
    ensures r[..|pre|] == pre && r[|pre|] == x
  {
    assert r[..|pre|] == r[..|pre| + 1][..|pre|];
    assert r[|pre|] == r[..|pre| + 1][|pre|];
  }

  lemma SuffixCons<T>(r: seq<T>, pre: seq<T>, x: T)
    requires |pre| + 1 <= |r| && r[..|pre| + 1] == pre + [x]
    ensures r[|pre|..] == [x] + r[|pre| + 1..]
  {
    assert r[|pre|] == (pre + [x])[|pre|];
  }

  lemma RenderAllCons(v: Line, rest: seq<Line>, numbering: bool)
    ensures RenderAll([v] + rest, numbering) == [Render(v, numbering)] + RenderAll(rest, numbering)
  {
    assert ([v] + rest)[1..] == rest;
  }

  /** The lines printed by this call are exactly the renderings of the lines it remembered: each shows its own text, numbered under -n. */
  lemma {:induction false} PrintRendersOwnText(shown: seq<Line>, out: seq<string>, toPrint: seq<Line>, numbering: bool)
    ensures var r := Print(shown, out, toPrint, numbering);
            r.1[|out|..] == RenderAll(r.0[|shown|..], numbering)
    decreases |toPrint|
  {
    if |toPrint| == 0 {
      assert out[|out|..] == [] && shown[|shown|..] == [];
    } else {
      var v := toPrint[0];
      if v in shown {
        PrintRendersOwnText(shown, out, toPrint[1..], numbering);
      } else {
        var shown', out' := shown + [v], out + [Render(v, numbering)];
        PrintRendersOwnText(shown', out', toPrint[1..], numbering);
        var r := Print(shown', out', toPrint[1..], numbering);
        assert Print(shown, out, toPrint, numbering) == r;
        SuffixCons(r.1, out, Render(v, numbering));
        SuffixCons(r.0, shown, v);
        RenderAllCons(v, r.0[|shown'|..], numbering);
      }
    }
  }

  /** Print, with its output split into what was there and the renderings of what it printed. */
  function PrintRendered(shown: seq<Line>, out: seq<string>, toPrint: seq<Line>, numbering: bool): (r: (seq<Line>, seq<string>))
    ensures r == Print(shown, out, toPrint, numbering)
    ensures |shown| <= |r.0| && r.0[..|shown|] == shown
    ensures r.1 == out + RenderAll(r.0[|shown|..], numbering)
  {
    var r := Print(shown, out, toPrint, numbering);
    PrintRendersOwnText(shown, out, toPrint, numbering);
    assert r.1 == r.1[..|out|] + r.1[|out|..];
    r
  }

  /** Rendering distributes over concatenation. */
  lemma {:induction false} RenderAllAppend(a: seq<Line>, b: seq<Line>, numbering: bool)
    ensures RenderAll(a + b, numbering) == RenderAll(a, numbering) + RenderAll(b, numbering)
    decreases |a|
  {
    if |a| > 0 {
      assert (a + b)[1..] == a[1..] + b;
      RenderAllAppend(a[1..], b, numbering);
    } else {
      assert a + b == b;
    }
  }

  /**
   * The print loop as written: without -n it prints `text`, the line just
   * read, for every entry instead of that entry's own text.
   */
  function PrintAsWritten(shown: seq<Line>, out: seq<string>, toPrint: seq<Line>, numbering: bool, text: string): (r: (seq<Line>, seq<string>))
    ensures |r.0| - |shown| == |r.1| - |out| >= 0
    ensures r.1[..|out|] == out
    ensures !numbering ==> forall i :: |out| <= i < |r.1| ==> r.1[i] == text
    decreases |toPrint|
  {
    if |toPrint| == 0 then (shown, out)
    else
      var v := toPrint[0];
      if v in shown then PrintAsWritten(shown, out, toPrint[1..], numbering, text)
      else
        var line := if numbering then FormatInt(v.num) + ":" + v.text else text;
        var r := PrintAsWritten(shown + [v], out + [line], toPrint[1..], numbering, text);
        PrefixOfExtension(r.1, out, line);
        r
  }

  /**
   * Lines "a" and "b", pattern matching "b", -B 1: the second line prints
   * the buffered first line and itself. As written that is "b" twice;
   * intended is "a" then "b".
   */
  lemma PrintAsWrittenRepeats(a: string, b: string)
    requires a != b
    ensures PrintAsWritten([], [], [Line(a, 1), Line(b, 2)], false, b).1 == [b, b]
    ensures Print([], [], [Line(a, 1), Line(b, 2)], false).1 == [a, b]
  {
    var la, lb := Line(a, 1), Line(b, 2);
    var toPrint := [la, lb];
    assert toPrint[1..] == [lb] && [lb][1..] == [];
    assert lb !in [la] && la !in [];
    assert [] + [la] == [la] && [la] + [lb] == toPrint;
    assert [] + [a] == [a] && [a] + [b] == [a, b];
    assert [] + [b] == [b] && [b] + [b] == [b, b];
    var w1 := PrintAsWritten([la], [b], [lb], false, b);
    assert w1 == PrintAsWritten([la, lb], [b, b], [], false, b);
    assert PrintAsWritten([], [], toPrint, false, b) == w1;
    var c1 := Print([la], [a], [lb], false);
    assert c1 == Print([la, lb], [a, b], [], false);
    assert Print([], [], toPrint, false) == c1;
  }

  // ------------------------------------------------------ the line machine

  /**
   * Everything main's loop carries from one line to the next: the before
   * buffer, how many after-lines are still due, the line counter, the match
   * counter, the lines printed so far (printedMap, in printing order) and
   * the output.
   */
  datatype State = State(
    buffer: seq<Line>, afterCount: nat, lineNumber: nat, matches: nat,
    shown: seq<Line>, out: seq<string>)

  const Start: State := State([], 0, 0, 0, [], [])

  /** One pass of main's loop for a line whose match result is known. */
  function Step(o: Options, console: bool, st: State, text: string, matched: bool): (r: State)
    ensures r.lineNumber == st.lineNumber + 1
    ensures var selected := matched != o.invert;
            var cur := Line(text, st.lineNumber + 1);
            && (selected ==> r.matches == st.matches + 1 && r.buffer == [] && r.afterCount == Context(o).0)
            && (!selected ==> r.matches == st.matches && r.buffer == Push(st.buffer, cur, Context(o).1))
            && (!selected && st.afterCount != 0 ==> r.afterCount == st.afterCount - 1)
            && (!selected && st.afterCount == 0 ==> r.afterCount == 0)
    ensures console && o.count ==> r.shown == st.shown && r.out == st.out + [""]
    ensures !console && o.count ==> r.shown == st.shown && r.out == st.out
    ensures !o.count ==> && |st.shown| <= |r.shown| && r.shown[..|st.shown|] == st.shown
                         && r.out == st.out + RenderAll(r.shown[|st.shown|..], o.numbering)
  {
    var (after, before) := Context(o);
    var cur := Line(text, st.lineNumber + 1);
    var selected := matched != o.invert;
    var toPrint := if selected then st.buffer + [cur] else if st.afterCount != 0 then [cur] else [];
    var buffer := if selected then [] else Push(st.buffer, cur, before);
    var afterCount: nat := if selected then after else if st.afterCount != 0 then st.afterCount - 1 else 0;
    var matches := if selected then st.matches + 1 else st.matches;
    var (shown, out) :=
      if console && o.count then (st.shown, st.out + [""])
      else if !o.count then PrintRendered(st.shown, st.out, toPrint, o.numbering)
      else (st.shown, st.out);
    State(buffer, afterCount, st.lineNumber + 1, matches, shown, out)
  }

  /** main's loop over the lines; the flag reports a failed match, which ends the program. */
  function Run(o: Options, console: bool, matcher: string -> Option<bool>, st: State, texts: seq<string>): (r: (State, bool))
    ensures r.0.lineNumber <= st.lineNumber + |texts|
    ensures !r.1 ==> r.0.lineNumber == st.lineNumber + |texts|
    decreases |texts|
  {
    if |texts| == 0 then (st, false)
    else
      match matcher(texts[0])
      case None => (st, true)
      case Some(m) => Run(o, console, matcher, Step(o, console, st, texts[0], m), texts[1..])
  }

  /** The program's output: the printed lines and, counting a file, the final count. */
  datatype Outcome = Outcome(out: seq<string>, fatal: bool)

  /**
   * grep: rewrite the pattern, run the lines through the machine with the
   * matcher for the rewritten pattern, then print the match count when
   * counting lines of a file.
   */
  function GrepLines(o: Options, console: bool, pattern: string,
                     isMatch: (string, string) -> Option<bool>, texts: seq<string>): (r: Outcome)
    ensures r.fatal <==> exists i :: 0 <= i < |texts| && isMatch(RewritePattern(pattern, o.ignore, o.fixed), texts[i]).None?
  {
    var p := RewritePattern(pattern, o.ignore, o.fixed);
    var matcher := (t: string) => isMatch(p, t);
    var (st, fatal) := Run(o, console, matcher, Start, texts);
    RunFatal(o, console, matcher, Start, texts);
    if fatal then Outcome(st.out, true)
    else if !console && o.count then Outcome(st.out + [FormatInt(st.matches)], false)
    else Outcome(st.out, false)
  }

  /** Outside count mode everything the loop adds to the output is the rendering of the lines it prints, in printing order. */
  lemma {:induction false} RunRenders(o: Options, console: bool, matcher: string -> Option<bool>, st: State, texts: seq<string>)
    requires !o.count
    ensures var r := Run(o, console, matcher, st, texts).0;
            && |st.shown| <= |r.shown| && r.shown[..|st.shown|] == st.shown
            && r.out == st.out + RenderAll(r.shown[|st.shown|..], o.numbering)
    decreases |texts|
  {
    if |texts| > 0 && matcher(texts[0]).Some? {
      var next := Step(o, console, st, texts[0], matcher(texts[0]).value);
      RunUnfold(o, console, matcher, st, texts);
      RunRenders(o, console, matcher, next, texts[1..]);
      var r := Run(o, console, matcher, next, texts[1..]).0;
      RendersCompose(st.shown, next.shown, r.shown, st.out, next.out, r.out, o.numbering);
    } else {
      assert st.shown[|st.shown|..] == [];
      assert st.out + [] == st.out;
    }
  }

  /** Two stretches of printing, each rendering what it printed, render what they printed together. */
  lemma RendersCompose(s0: seq<Line>, s1: seq<Line>, s2: seq<Line>, o0: seq<string>, o1: seq<string>, o2: seq<string>, numbering: bool)
    requires |s0| <= |s1| && s1[..|s0|] == s0 && o1 == o0 + RenderAll(s1[|s0|..], numbering)
    requires |s1| <= |s2| && s2[..|s1|] == s1 && o2 == o1 + RenderAll(s2[|s1|..], numbering)
    ensures |s0| <= |s2| && s2[..|s0|] == s0 && o2 == o0 + RenderAll(s2[|s0|..], numbering)
  {
    ExtendSplit(s0, s1, s2);
    RenderAllAppend(s1[|s0|..], s2[|s1|..], numbering);
    ConcatAssoc(o0, RenderAll(s1[|s0|..], numbering), RenderAll(s2[|s1|..], numbering));
  }

  /** Extending an extension of `a` extends `a`, by both added stretches in turn. */
  lemma ExtendSplit<T>(a: seq<T>, b: seq<T>, c: seq<T>)
    requires |a| <= |b| && b[..|a|] == a
    requires |b| <= |c| && c[..|b|] == b
    ensures c[..|a|] == a && c[|a|..] == b[|a|..] + c[|b|..]
  {
    assert c[..|a|] == c[..|b|][..|a|];
    assert c[|a|..] == c[|a|..|b|] + c[|b|..];
  }

  lemma {:induction false} RunFatal(o: Options, console: bool, matcher: string -> Option<bool>, st: State, texts: seq<string>)
    ensures Run(o, console, matcher, st, texts).1 <==> exists i :: 0 <= i < |texts| && matcher(texts[i]).None?
    decreases |texts|
  {
    if |texts| > 0 && matcher(texts[0]).Some? {
      RunFatal(o, console, matcher, Step(o, console, st, texts[0], matcher(texts[0]).value), texts[1..]);
      assert forall i :: 1 <= i < |texts| ==> texts[i] == texts[1..][i - 1];
      if exists i :: 0 <= i < |texts| && matcher(texts[i]).None? {
        var i :| 0 <= i < |texts| && matcher(texts[i]).None?;
        assert texts[1..][i - 1] == texts[i];
      }
    }
  }

  // ---------------------------------------------- properties of the machine

  /** Line numbers strictly increase along the sequence. */
  predicate Increasing(s: seq<Line>) {
    forall i, j :: 0 <= i < j < |s| ==> s[i].num < s[j].num
  }

  /**
   * What keeps output in file order: printed lines and buffered lines are
   * ordered and not from the future; a buffered line not yet printed comes
   * after every printed line; and while after-lines are due (outside count
   * mode) every buffered line has been printed.
   */
  predicate Ordered(o: Options, st: State) {
    && Increasing(st.shown) && Increasing(st.buffer)
    && (forall i :: 0 <= i < |st.shown| ==> st.shown[i].num <= st.lineNumber)
    && (forall i :: 0 <= i < |st.buffer| ==> st.buffer[i].num <= st.lineNumber)
    && (forall i, j :: 0 <= i < |st.buffer| && 0 <= j < |st.shown| && st.buffer[i] !in st.shown ==>
          st.shown[j].num < st.buffer[i].num)
    && (!o.count && st.afterCount != 0 ==> forall i :: 0 <= i < |st.buffer| ==> st.buffer[i] in st.shown)
  }

  /** Printing an ordered list whose unprinted entries are all newer than what was printed keeps the printed lines ordered. */
  lemma {:induction false} PrintOrdered(shown: seq<Line>, out: seq<string>, toPrint: seq<Line>, numbering: bool)
    requires Increasing(shown) && Increasing(toPrint)
    requires forall i, j :: 0 <= i < |toPrint| && 0 <= j < |shown| && toPrint[i] !in shown ==> shown[j].num < toPrint[i].num
    ensures Increasing(Print(shown, out, toPrint, numbering).0)
    decreases |toPrint|
  {
    if |toPrint| > 0 {
      var v := toPrint[0];
      var rest := toPrint[1..];
      if v in shown {
        PrintOrdered(shown, out, rest, numbering);
      } else {
        var shown' := shown + [v];
        forall i, j | 0 <= i < |rest| && 0 <= j < |shown'| && rest[i] !in shown'
          ensures shown'[j].num < rest[i].num
        {
          assert rest[i] == toPrint[i + 1];
          if j < |shown| {
            assert shown'[j] == shown[j];
          }
        }
        PrintOrdered(shown', out + [Render(v, numbering)], rest, numbering);
      }
    }
  }

  lemma PushSuffix(buf: seq<Line>, el: Line, cap: nat)
    ensures forall x :: x in Push(buf, el, cap) ==> x in buf || x == el
    ensures Increasing(buf) && (forall i :: 0 <= i < |buf| ==> buf[i].num < el.num) ==> Increasing(Push(buf, el, cap))
  {
    if cap > 0 && Increasing(buf) && (forall i :: 0 <= i < |buf| ==> buf[i].num < el.num) {
      var r := Push(buf, el, cap);
      var whole := buf + [el];
      assert Increasing(whole);
      if |buf| >= cap {
        assert r == whole[1..];
      }
    }
  }

  /** Each step keeps the output in file order. */
  lemma StepOrdered(o: Options, console: bool, st: State, text: string, matched: bool)
    requires Ordered(o, st)
    ensures Ordered(o, Step(o, console, st, text, matched))
  {
    if matched != o.invert {
      StepSelectedOrdered(o, console, st, text, matched);
    } else {
      StepUnselectedOrdered(o, console, st, text, matched);
    }
  }

  /** Where a step's printed lines come from: the old ones, then (printing) the lines it was handed. */
  lemma StepShown(o: Options, console: bool, st: State, text: string, matched: bool)
    ensures var r := Step(o, console, st, text, matched);
            var cur := Line(text, st.lineNumber + 1);
            var selected := matched != o.invert;
            var toPrint := if selected then st.buffer + [cur] else if st.afterCount != 0 then [cur] else [];
            r.shown == (if !o.count then Print(st.shown, st.out, toPrint, o.numbering).0 else st.shown)
  {
  }

  lemma StepSelectedOrdered(o: Options, console: bool, st: State, text: string, matched: bool)
    requires Ordered(o, st) && matched != o.invert
    ensures Ordered(o, Step(o, console, st, text, matched))
  {
    var r := Step(o, console, st, text, matched);
    StepShown(o, console, st, text, matched);
    if !o.count {
      PrintBufferOrdered(st.shown, st.out, st.buffer, Line(text, st.lineNumber + 1), o.numbering, st.lineNumber);
    }
    EmptyBufferOrdered(o, r);
  }

  /** Printing the ordered buffer and then a new line keeps the printed lines ordered and not from the future. */
  lemma PrintBufferOrdered(shown: seq<Line>, out: seq<string>, buffer: seq<Line>, cur: Line, numbering: bool, lineNumber: int)
    requires Increasing(shown) && Increasing(buffer) && cur.num == lineNumber + 1
    requires forall i :: 0 <= i < |shown| ==> shown[i].num <= lineNumber
    requires forall i :: 0 <= i < |buffer| ==> buffer[i].num <= lineNumber
    requires forall i, j :: 0 <= i < |buffer| && 0 <= j < |shown| && buffer[i] !in shown ==> shown[j].num < buffer[i].num
    ensures var r := Print(shown, out, buffer + [cur], numbering).0;
            Increasing(r) && forall i :: 0 <= i < |r| ==> r[i].num <= lineNumber + 1
  {
    var toPrint := buffer + [cur];
    assert forall i :: 0 <= i < |toPrint| ==> toPrint[i] == if i < |buffer| then buffer[i] else cur;
    assert Increasing(toPrint);
    PrintOrdered(shown, out, toPrint, numbering);
    PrintMembers(shown, out, toPrint, numbering);
    var r := Print(shown, out, toPrint, numbering).0;
    forall i | 0 <= i < |r|
      ensures r[i].num <= lineNumber + 1
    {
      assert r[i] in shown || r[i] in toPrint;
    }
  }

  /** A state with an empty buffer is ordered once its printed lines are. */
  lemma EmptyBufferOrdered(o: Options, r: State)
    requires r.buffer == [] && Increasing(r.shown)
    requires forall i :: 0 <= i < |r.shown| ==> r.shown[i].num <= r.lineNumber
    ensures Ordered(o, r)
  {
  }

  lemma StepUnselectedOrdered(o: Options, console: bool, st: State, text: string, matched: bool)
    requires Ordered(o, st) && matched == o.invert
    ensures Ordered(o, Step(o, console, st, text, matched))
  {
    if !o.count && st.afterCount != 0 {
      StepAfterLineOrdered(o, console, st, text, matched);
    } else {
      StepQuietOrdered(o, console, st, text, matched);
    }
  }

  /** An unselected line printed as after-context: everything buffered is printed too. */
  lemma StepAfterLineOrdered(o: Options, console: bool, st: State, text: string, matched: bool)
    requires Ordered(o, st) && matched == o.invert && !o.count && st.afterCount != 0
    ensures Ordered(o, Step(o, console, st, text, matched))
  {
    var r := Step(o, console, st, text, matched);
    var cur := Line(text, st.lineNumber + 1);
    StepShown(o, console, st, text, matched);
    AfterLineOrdered(o, st, r, cur);
  }

  /** Printing the current line as after-context and buffering it keeps the order. */
  lemma AfterLineOrdered(o: Options, st: State, r: State, cur: Line)
    requires Ordered(o, st) && !o.count && st.afterCount != 0
    requires cur.num == st.lineNumber + 1 && r.lineNumber == cur.num
    requires r.shown == Print(st.shown, st.out, [cur], o.numbering).0
    requires r.buffer == Push(st.buffer, cur, Context(o).1)
    ensures Ordered(o, r)
  {
    PushSuffix(st.buffer, cur, Context(o).1);
    PrintOrdered(st.shown, st.out, [cur], o.numbering);
    PrintMembers(st.shown, st.out, [cur], o.numbering);
    AfterLineShown(st.buffer, st.shown, st.lineNumber, r.buffer, r.shown, cur);
    AllShownOrdered(o, r, st.lineNumber);
  }

  /** A state whose buffer is wholly printed is ordered once its sequences are. */
  lemma AllShownOrdered(o: Options, r: State, previous: int)
    requires r.lineNumber == previous + 1
    requires Increasing(r.shown) && Increasing(r.buffer)
    requires forall i :: 0 <= i < |r.buffer| ==> r.buffer[i] in r.shown
    requires forall i :: 0 <= i < |r.shown| ==> r.shown[i].num <= previous + 1
    ensures Ordered(o, r)
  {
    forall i | 0 <= i < |r.buffer|
      ensures r.buffer[i].num <= r.lineNumber
    {
      assert r.buffer[i] in r.shown;
      var k :| 0 <= k < |r.shown| && r.shown[k] == r.buffer[i];
    }
  }

  /** Printing the current line as after-context: the buffer stays printed, and nothing newer than it was printed. */
  lemma AfterLineShown(buffer: seq<Line>, shown: seq<Line>, lineNumber: int, buffer': seq<Line>, shown': seq<Line>, cur: Line)
    requires cur.num == lineNumber + 1
    requires forall i :: 0 <= i < |shown| ==> shown[i].num <= lineNumber
    requires forall i :: 0 <= i < |buffer| ==> buffer[i] in shown
    requires forall x :: x in shown' <==> x in shown || x == cur
    requires forall x :: x in buffer' ==> x in buffer || x == cur
    ensures forall i :: 0 <= i < |buffer'| ==> buffer'[i] in shown'
    ensures forall i :: 0 <= i < |shown'| ==> shown'[i].num <= lineNumber + 1
  {
    forall i | 0 <= i < |buffer'|
      ensures buffer'[i] in shown'
    {
      assert buffer'[i] in buffer || buffer'[i] == cur;
    }
    forall i | 0 <= i < |shown'|
      ensures shown'[i].num <= lineNumber + 1
    {
      assert shown'[i] in shown || shown'[i] == cur;
    }
  }

  /** An unselected line that is not printed: the printed lines stay as they were. */
  lemma StepQuietOrdered(o: Options, console: bool, st: State, text: string, matched: bool)
    requires Ordered(o, st) && matched == o.invert && (o.count || st.afterCount == 0)
    ensures Ordered(o, Step(o, console, st, text, matched))
  {
    var r := Step(o, console, st, text, matched);
    var cur := Line(text, st.lineNumber + 1);
    PushSuffix(st.buffer, cur, Context(o).1);
    StepShown(o, console, st, text, matched);
    assert r.shown == st.shown;
    QuietOrdered(o, st, r, cur);
  }

  /** Buffering one more line without printing keeps the order. */
  lemma QuietOrdered(o: Options, st: State, r: State, cur: Line)
    requires Ordered(o, st)
    requires r.shown == st.shown && r.lineNumber == st.lineNumber + 1 && cur.num == r.lineNumber
    requires Increasing(r.buffer) && forall x :: x in r.buffer ==> x in st.buffer || x == cur
    requires o.count || r.afterCount == 0
    ensures Ordered(o, r)
  {
    forall i, j | 0 <= i < |r.buffer| && 0 <= j < |r.shown| && r.buffer[i] !in r.shown
      ensures r.shown[j].num < r.buffer[i].num
    {
      assert r.buffer[i] in st.buffer || r.buffer[i] == cur;
      if r.buffer[i] in st.buffer {
        var k :| 0 <= k < |st.buffer| && st.buffer[k] == r.buffer[i];
      }
    }
    forall i | 0 <= i < |r.buffer|
      ensures r.buffer[i].num <= r.lineNumber
    {
      assert r.buffer[i] in st.buffer || r.buffer[i] == cur;
      if r.buffer[i] in st.buffer {
        var k :| 0 <= k < |st.buffer| && st.buffer[k] == r.buffer[i];
      }
    }
  }

  /** The machine keeps the output in file order along any input. */
  lemma {:induction false} RunOrdered(o: Options, console: bool, matcher: string -> Option<bool>, st: State, texts: seq<string>)
    requires Ordered(o, st)
    ensures Ordered(o, Run(o, console, matcher, st, texts).0)
    decreases |texts|
  {
    if |texts| > 0 && matcher(texts[0]).Some? {
      StepOrdered(o, console, st, texts[0], matcher(texts[0]).value);
      RunOrdered(o, console, matcher, Step(o, console, st, texts[0], matcher(texts[0]).value), texts[1..]);
    }
  }

  /** Lines are printed in file order, so no line is printed twice. */
  lemma PrintedOnce(o: Options, console: bool, matcher: string -> Option<bool>, texts: seq<string>)
    ensures var shown := Run(o, console, matcher, Start, texts).0.shown;
            Increasing(shown) && forall i, j :: 0 <= i < j < |shown| ==> shown[i] != shown[j]
  {
    RunOrdered(o, console, matcher, Start, texts);
  }

  /** The selected lines among `texts`, numbered from `first`. */
  function SelectedLines(matcher: string -> Option<bool>, invert: bool, texts: seq<string>, first: int): seq<Line>
    decreases |texts|
  {
    if |texts| == 0 then []
    else
      var m := matcher(texts[0]);
      (if m.Some? && m.value != invert then [Line(texts[0], first)] else []) +
      SelectedLines(matcher, invert, texts[1..], first + 1)
  }

  /** Every line of `texts` matches or fails to match without error. */
  ghost predicate Decided(matcher: string -> Option<bool>, texts: seq<string>) {
    forall i :: 0 <= i < |texts| ==> matcher(texts[i]).Some?
  }

  /**
   * Without context, printing exactly the selected lines: the machine's
   * printed lines are the selected ones in order, and the output it adds
   * is their rendering.
   */
  lemma NoContextPrintsSelected(o: Options, console: bool, matcher: string -> Option<bool>, st: State, texts: seq<string>)
    requires Context(o) == (0, 0) && !o.count
    requires Decided(matcher, texts)
    requires st.buffer == [] && st.afterCount == 0
    requires forall i :: 0 <= i < |st.shown| ==> st.shown[i].num <= st.lineNumber
    ensures Run(o, console, matcher, st, texts).0.shown == st.shown + SelectedLines(matcher, o.invert, texts, st.lineNumber + 1)
    ensures Run(o, console, matcher, st, texts).0.out == st.out + RenderAll(SelectedLines(matcher, o.invert, texts, st.lineNumber + 1), o.numbering)
    {
    NoContextShown(o, console, matcher, st, texts);
    RunRenders(o, console, matcher, st, texts);
    var r := Run(o, console, matcher, st, texts).0;
    assert r.shown[|st.shown|..] == SelectedLines(matcher, o.invert, texts, st.lineNumber + 1);
  }

  /** Without context the machine's printed lines grow by exactly the selected lines, in order. */
  lemma {:induction false} NoContextShown(o: Options, console: bool, matcher: string -> Option<bool>, st: State, texts: seq<string>)
    requires Context(o) == (0, 0) && !o.count
    requires Decided(matcher, texts)
    requires st.buffer == [] && st.afterCount == 0
    requires forall i :: 0 <= i < |st.shown| ==> st.shown[i].num <= st.lineNumber
    ensures Run(o, console, matcher, st, texts).0.shown == st.shown + SelectedLines(matcher, o.invert, texts, st.lineNumber + 1)
    decreases |texts|
  {
    if |texts| > 0 {
      var m := matcher(texts[0]).value;
      var next := NoContextStep(o, console, st, texts[0], m);
      var head := if m != o.invert then [Line(texts[0], st.lineNumber + 1)] else [];
      assert next.shown == st.shown + head;
      assert Decided(matcher, texts[1..]) by {
        assert forall i :: 0 <= i < |texts[1..]| ==> texts[1..][i] == texts[i + 1];
      }
      RunUnfold(o, console, matcher, st, texts);
      assert Run(o, console, matcher, st, texts) == Run(o, console, matcher, next, texts[1..]);
      SelectedUnfold(matcher, o.invert, texts, st.lineNumber + 1);
      NoContextShown(o, console, matcher, next, texts[1..]);
      var rest := SelectedLines(matcher, o.invert, texts[1..], st.lineNumber + 2);
      ConcatAssoc(st.shown, head, rest);
    } else {
      assert SelectedLines(matcher, o.invert, texts, st.lineNumber + 1) == [];
      assert st.shown + [] == st.shown;
    }
  }

  lemma ConcatAssoc<T>(a: seq<T>, b: seq<T>, c: seq<T>)
    ensures a + b + c == a + (b + c)
  {
  }

  lemma RunUnfold(o: Options, console: bool, matcher: string -> Option<bool>, st: State, texts: seq<string>)
    requires |texts| > 0 && matcher(texts[0]).Some?
    ensures Run(o, console, matcher, st, texts) ==
            Run(o, console, matcher, Step(o, console, st, texts[0], matcher(texts[0]).value), texts[1..])
  {
  }

  lemma SelectedUnfold(matcher: string -> Option<bool>, invert: bool, texts: seq<string>, first: int)
    requires |texts| > 0 && matcher(texts[0]).Some?
    ensures SelectedLines(matcher, invert, texts, first) ==
            (if matcher(texts[0]).value != invert then [Line(texts[0], first)] else []) +
            SelectedLines(matcher, invert, texts[1..], first + 1)
  {
  }

  /** Without context a step prints its line exactly when it is selected, and carries nothing over. */
  lemma NoContextStep(o: Options, console: bool, st: State, text: string, m: bool) returns (next: State)
    requires Context(o) == (0, 0) && !o.count
    requires st.buffer == [] && st.afterCount == 0
    requires forall i :: 0 <= i < |st.shown| ==> st.shown[i].num <= st.lineNumber
    ensures next == Step(o, console, st, text, m)
    ensures next.buffer == [] && next.afterCount == 0
    ensures forall i :: 0 <= i < |next.shown| ==> next.shown[i].num <= next.lineNumber
    ensures next.shown == st.shown + (if m != o.invert then [Line(text, st.lineNumber + 1)] else [])
  {
    next := Step(o, console, st, text, m);
    var cur := Line(text, st.lineNumber + 1);
    StepShown(o, console, st, text, m);
    assert cur !in st.shown;
    if m != o.invert {
      assert st.buffer + [cur] == [cur];
      assert Print(st.shown, st.out, [cur], o.numbering).0 == st.shown + [cur];
    }
  }

  // ------------------------------------------------- what -A and -B print

  /** The line at 0-based position `i` of `texts`, numbered from one. */
  function LineAt(texts: seq<string>, i: nat): Line
    requires i < |texts|
  {
    Line(texts[i], i + 1)
  }

  /** The lines at positions `lo` up to but excluding `hi`, in order. */
  function Lines(texts: seq<string>, lo: int, hi: int): (r: seq<Line>)
    requires 0 <= lo <= hi <= |texts|
    ensures |r| == hi - lo
    ensures forall i :: 0 <= i < |r| ==> r[i] == LineAt(texts, lo + i)
  {
    seq(hi - lo, i requires 0 <= i < hi - lo => LineAt(texts, lo + i))
  }

  /** The line at position `i` is selected: it matches, or under -v it does not. */
  ghost predicate SelectedAt(matcher: string -> Option<bool>, invert: bool, texts: seq<string>, i: int)
    requires 0 <= i < |texts|
  {
    matcher(texts[i]) == Some(!invert)
  }

  /**
   * The line at position `i` is printed when the input ends after `k`
   * lines, with `after` and `before` lines of context: it is selected, or
   * it comes at most `after` lines after a selected line, or at most
   * `before` lines before a selected line among the first `k`.
   */
  ghost predicate Wanted(matcher: string -> Option<bool>, invert: bool, texts: seq<string>,
                         after: nat, before: nat, i: int, k: int)
    requires 0 <= i < k <= |texts|
  {
    || SelectedAt(matcher, invert, texts, i)
    || (exists j :: 0 <= j < i && SelectedAt(matcher, invert, texts, j) && i - j <= after)
    || (exists j :: i < j < k && SelectedAt(matcher, invert, texts, j) && j - i <= before)
  }

  /** The position of the last selected line among the first `k`, or -1 when there is none. */
  ghost function LastSelected(matcher: string -> Option<bool>, invert: bool, texts: seq<string>, k: nat): (r: int)
    requires k <= |texts|
    ensures -1 <= r < k
    ensures r >= 0 ==> SelectedAt(matcher, invert, texts, r)
    ensures forall j :: r < j < k ==> !SelectedAt(matcher, invert, texts, j)
  {
    if k == 0 then -1
    else if SelectedAt(matcher, invert, texts, k - 1) then k - 1
    else LastSelected(matcher, invert, texts, k - 1)
  }

  /** Where the intended buffer starts after `k` lines: after the last selected line, and at most `before` lines back. */
  function BufferStart(last: int, k: int, before: nat): int {
    if last + 1 < k - before then k - before else last + 1
  }

  /** After-lines still due after `k` lines, when the last selected line is at `last`. */
  function AfterDue(last: int, k: int, after: nat): nat {
    if last >= 0 && k - 1 - last < after then after - (k - 1 - last) else 0
  }

  /**
   * The machine's state after the first `k` lines, outside count mode:
   * the buffer holds the unselected lines since the last selected one, at
   * most `before` of them; the after-count is what remains of `after`
   * since the last selected line; and the printed lines are exactly the
   * wanted ones so far.
   */
  ghost predicate ContextInv(o: Options, matcher: string -> Option<bool>, texts: seq<string>, k: nat, st: State)
    requires k <= |texts|
  {
    var last := LastSelected(matcher, o.invert, texts, k);
    && st.lineNumber == k
    && st.afterCount == AfterDue(last, k, Context(o).0)
    && st.buffer == Lines(texts, BufferStart(last, k, Context(o).1), k)
    && ShownExactly(matcher, o.invert, texts, Context(o).0, Context(o).1, k, st.shown)
  }

  /** `shown` holds exactly the wanted lines among the first `k`, each with its own text and number. */
  ghost predicate ShownExactly(matcher: string -> Option<bool>, invert: bool, texts: seq<string>,
                               after: nat, before: nat, k: nat, shown: seq<Line>)
    requires k <= |texts|
  {
    forall v: Line :: v in shown <==> WantedLine(matcher, invert, texts, after, before, k, v)
  }

  lemma LinesMembers(texts: seq<string>, lo: int, hi: int)
    requires 0 <= lo <= hi <= |texts|
    ensures forall v: Line :: v in Lines(texts, lo, hi) <==> lo < v.num <= hi && v == LineAt(texts, v.num - 1)
  {
    var r := Lines(texts, lo, hi);
    forall v: Line | lo < v.num <= hi && v == LineAt(texts, v.num - 1)
      ensures v in r
    {
      assert r[v.num - 1 - lo] == v;
    }
  }

  /** A selected line makes itself and up to `before` earlier lines wanted; the buffer holds those of them not wanted before. */
  lemma SelectedWanted(matcher: string -> Option<bool>, invert: bool, texts: seq<string>,
                       after: nat, before: nat, k: nat, p: nat)
    requires p <= k < |texts| && SelectedAt(matcher, invert, texts, k)
    ensures var last := LastSelected(matcher, invert, texts, k);
            Wanted(matcher, invert, texts, after, before, p, k + 1) <==>
            p == k || (p < k && Wanted(matcher, invert, texts, after, before, p, k)) ||
            (BufferStart(last, k, before) <= p < k)
  {
    var last := LastSelected(matcher, invert, texts, k);
    if p < k && k - p <= before && last >= 0 && p <= last && p != last {
      assert Wanted(matcher, invert, texts, after, before, p, k) by {
        assert SelectedAt(matcher, invert, texts, last) && last - p <= before;
      }
    }
    if p < k && exists j :: p < j < k && SelectedAt(matcher, invert, texts, j) && j - p <= before {
      var j :| p < j < k && SelectedAt(matcher, invert, texts, j) && j - p <= before;
      assert SelectedAt(matcher, invert, texts, j) && j - p <= before;
    }
  }

  /** An unselected line is wanted exactly when it is due as an after-line; earlier lines stay as they were. */
  lemma UnselectedWanted(matcher: string -> Option<bool>, invert: bool, texts: seq<string>,
                         after: nat, before: nat, k: nat, p: nat)
    requires p <= k < |texts| && !SelectedAt(matcher, invert, texts, k)
    ensures var last := LastSelected(matcher, invert, texts, k);
            Wanted(matcher, invert, texts, after, before, p, k + 1) <==>
            if p < k then Wanted(matcher, invert, texts, after, before, p, k) else AfterDue(last, k, after) != 0
  {
    var last := LastSelected(matcher, invert, texts, k);
    if p == k && Wanted(matcher, invert, texts, after, before, p, k + 1) {
      var j :| 0 <= j < p && SelectedAt(matcher, invert, texts, j) && p - j <= after;
      assert j <= last;
    }
    if p == k && AfterDue(last, k, after) != 0 {
      assert SelectedAt(matcher, invert, texts, last) && k - last <= after;
    }
    if p < k && Wanted(matcher, invert, texts, after, before, p, k + 1) {
      if exists j :: p < j < k + 1 && SelectedAt(matcher, invert, texts, j) && j - p <= before {
        var j :| p < j < k + 1 && SelectedAt(matcher, invert, texts, j) && j - p <= before;
        assert j < k;
      }
    }
  }

  /** The start: nothing read, nothing buffered, nothing printed. */
  lemma ContextStart(o: Options, matcher: string -> Option<bool>, texts: seq<string>)
    ensures ContextInv(o, matcher, texts, 0, Start)
  {
    assert Lines(texts, 0, 0) == [];
  }

  /** Pushing the next line onto the intended buffer of an unselected stretch. */
  lemma PushLines(texts: seq<string>, last: int, k: nat, before: nat)
    requires -1 <= last < k < |texts|
    ensures Push(Lines(texts, BufferStart(last, k, before), k), LineAt(texts, k), before) ==
            Lines(texts, BufferStart(last, k + 1, before), k + 1)
  {
    var lo := BufferStart(last, k, before);
    var buf := Lines(texts, lo, k);
    if before == 0 {
      assert buf == [] == Lines(texts, k + 1, k + 1);
    } else if k - lo < before {
      assert buf + [LineAt(texts, k)] == Lines(texts, lo, k + 1);
    } else {
      assert buf[1..] + [LineAt(texts, k)] == Lines(texts, lo + 1, k + 1);
    }
  }

  /** Whether `v` is a wanted line among the first `k`, with its own text and number. */
  ghost predicate WantedLine(matcher: string -> Option<bool>, invert: bool, texts: seq<string>,
                             after: nat, before: nat, k: nat, v: Line)
    requires k <= |texts|
  {
    0 < v.num <= k && v == LineAt(texts, v.num - 1) && Wanted(matcher, invert, texts, after, before, v.num - 1, k)
  }

  /** One line across a selected line: it is wanted after it when it was, when it was buffered, or when it is the line. */
  lemma SelectedLineWanted(matcher: string -> Option<bool>, invert: bool, texts: seq<string>,
                           after: nat, before: nat, k: nat, v: Line, wasShown: bool, buffered: bool)
    requires k < |texts| && SelectedAt(matcher, invert, texts, k)
    requires wasShown <==> WantedLine(matcher, invert, texts, after, before, k, v)
    requires var lo := BufferStart(LastSelected(matcher, invert, texts, k), k, before);
             buffered <==> lo < v.num <= k && v == LineAt(texts, v.num - 1)
    ensures WantedLine(matcher, invert, texts, after, before, k + 1, v) <==> wasShown || buffered || v == LineAt(texts, k)
  {
    if 0 < v.num <= k + 1 && v == LineAt(texts, v.num - 1) {
      SelectedWanted(matcher, invert, texts, after, before, k, v.num - 1);
    }
  }

  /** One line across an unselected line: it is wanted after it when it was, or when it is the line and is due. */
  lemma UnselectedLineWanted(matcher: string -> Option<bool>, invert: bool, texts: seq<string>,
                             after: nat, before: nat, k: nat, v: Line, wasShown: bool)
    requires k < |texts| && !SelectedAt(matcher, invert, texts, k)
    requires wasShown <==> WantedLine(matcher, invert, texts, after, before, k, v)
    ensures var due := AfterDue(LastSelected(matcher, invert, texts, k), k, after);
            WantedLine(matcher, invert, texts, after, before, k + 1, v) <==> wasShown || (due != 0 && v == LineAt(texts, k))
  {
    if 0 < v.num <= k + 1 && v == LineAt(texts, v.num - 1) {
      UnselectedWanted(matcher, invert, texts, after, before, k, v.num - 1);
    }
  }

  /** A selected line adds itself and the buffered lines before it to the wanted ones. */
  lemma SelectedShown(matcher: string -> Option<bool>, invert: bool, texts: seq<string>,
                      after: nat, before: nat, k: nat, shown: seq<Line>, next: seq<Line>)
    requires k < |texts| && SelectedAt(matcher, invert, texts, k)
    requires ShownExactly(matcher, invert, texts, after, before, k, shown)
    requires var lo := BufferStart(LastSelected(matcher, invert, texts, k), k, before);
             0 <= lo <= k &&
             forall v: Line :: v in next <==> v in shown || v in Lines(texts, lo, k) || v == LineAt(texts, k)
    ensures ShownExactly(matcher, invert, texts, after, before, k + 1, next)
  {
    var lo := BufferStart(LastSelected(matcher, invert, texts, k), k, before);
    LinesMembers(texts, lo, k);
    forall v: Line
      ensures v in next <==> WantedLine(matcher, invert, texts, after, before, k + 1, v)
    {
      SelectedLineWanted(matcher, invert, texts, after, before, k, v, v in shown, v in Lines(texts, lo, k));
    }
  }

  /** An unselected line is added to the wanted ones exactly when it is due as an after-line. */
  lemma UnselectedShown(matcher: string -> Option<bool>, invert: bool, texts: seq<string>,
                        after: nat, before: nat, k: nat, shown: seq<Line>, next: seq<Line>)
    requires k < |texts| && !SelectedAt(matcher, invert, texts, k)
    requires ShownExactly(matcher, invert, texts, after, before, k, shown)
    requires var due := AfterDue(LastSelected(matcher, invert, texts, k), k, after);
             forall v: Line :: v in next <==> v in shown || (due != 0 && v == LineAt(texts, k))
    ensures ShownExactly(matcher, invert, texts, after, before, k + 1, next)
  {
    forall v: Line
      ensures v in next <==> WantedLine(matcher, invert, texts, after, before, k + 1, v)
    {
      UnselectedLineWanted(matcher, invert, texts, after, before, k, v, v in shown);
    }
  }

  /** Outside count mode, the lines printed after one step are the earlier ones and those the step hands over. */
  lemma StepMembers(o: Options, console: bool, st: State, text: string, matched: bool)
    requires !o.count
    ensures var r := Step(o, console, st, text, matched);
            var cur := Line(text, st.lineNumber + 1);
            forall v: Line :: v in r.shown <==>
              || v in st.shown
              || (matched != o.invert && (v in st.buffer || v == cur))
              || (matched == o.invert && st.afterCount != 0 && v == cur)
  {
    var cur := Line(text, st.lineNumber + 1);
    var toPrint := if matched != o.invert then st.buffer + [cur] else if st.afterCount != 0 then [cur] else [];
    StepShown(o, console, st, text, matched);
    PrintMembers(st.shown, st.out, toPrint, o.numbering);
    assert forall v: Line :: v in toPrint <==>
             (matched != o.invert && (v in st.buffer || v == cur)) ||
             (matched == o.invert && st.afterCount != 0 && v == cur);
  }

  /** The invariant survives a selected line: the buffer empties and the after-count restarts. */
  lemma ContextSelected(o: Options, matcher: string -> Option<bool>, texts: seq<string>, k: nat, st: State, r: State)
    requires k < |texts| && SelectedAt(matcher, o.invert, texts, k)
    requires ContextInv(o, matcher, texts, k, st)
    requires r.lineNumber == k + 1 && r.buffer == [] && r.afterCount == Context(o).0
    requires forall v: Line :: v in r.shown <==> v in st.shown || v in st.buffer || v == LineAt(texts, k)
    ensures ContextInv(o, matcher, texts, k + 1, r)
  {
    assert LastSelected(matcher, o.invert, texts, k + 1) == k;
    assert r.buffer == Lines(texts, k + 1, k + 1);
    SelectedShown(matcher, o.invert, texts, Context(o).0, Context(o).1, k, st.shown, r.shown);
  }

  /** The invariant survives an unselected line: it is pushed on the buffer and printed when due. */
  lemma ContextUnselected(o: Options, matcher: string -> Option<bool>, texts: seq<string>, k: nat, st: State, r: State)
    requires k < |texts| && !SelectedAt(matcher, o.invert, texts, k)
    requires ContextInv(o, matcher, texts, k, st)
    requires r.lineNumber == k + 1 && r.buffer == Push(st.buffer, LineAt(texts, k), Context(o).1)
    requires r.afterCount == if st.afterCount != 0 then st.afterCount - 1 else 0
    requires forall v: Line :: v in r.shown <==> v in st.shown || (st.afterCount != 0 && v == LineAt(texts, k))
    ensures ContextInv(o, matcher, texts, k + 1, r)
  {
    var last := LastSelected(matcher, o.invert, texts, k);
    assert LastSelected(matcher, o.invert, texts, k + 1) == last;
    PushLines(texts, last, k, Context(o).1);
    UnselectedShown(matcher, o.invert, texts, Context(o).0, Context(o).1, k, st.shown, r.shown);
  }

  lemma ContextStepSelected(o: Options, console: bool, matcher: string -> Option<bool>, texts: seq<string>, k: nat, st: State)
    requires !o.count && k < |texts| && matcher(texts[k]) == Some(!o.invert)
    requires ContextInv(o, matcher, texts, k, st)
    ensures ContextInv(o, matcher, texts, k + 1, Step(o, console, st, texts[k], !o.invert))
  {
    StepMembers(o, console, st, texts[k], !o.invert);
    ContextSelected(o, matcher, texts, k, st, Step(o, console, st, texts[k], !o.invert));
  }

  lemma ContextStepUnselected(o: Options, console: bool, matcher: string -> Option<bool>, texts: seq<string>, k: nat, st: State)
    requires !o.count && k < |texts| && matcher(texts[k]) == Some(o.invert)
    requires ContextInv(o, matcher, texts, k, st)
    ensures ContextInv(o, matcher, texts, k + 1, Step(o, console, st, texts[k], o.invert))
  {
    StepMembers(o, console, st, texts[k], o.invert);
    ContextUnselected(o, matcher, texts, k, st, Step(o, console, st, texts[k], o.invert));
  }

  /** One step of the machine keeps the invariant. */
  lemma ContextStep(o: Options, console: bool, matcher: string -> Option<bool>, texts: seq<string>, k: nat, st: State)
    requires !o.count && k < |texts| && matcher(texts[k]).Some?
    requires ContextInv(o, matcher, texts, k, st)
    ensures ContextInv(o, matcher, texts, k + 1, Step(o, console, st, texts[k], matcher(texts[k]).value))
  {
    if matcher(texts[k]).value != o.invert {
      ContextStepSelected(o, console, matcher, texts, k, st);
    } else {
      ContextStepUnselected(o, console, matcher, texts, k, st);
    }
  }

  lemma RunFrom(o: Options, console: bool, matcher: string -> Option<bool>, texts: seq<string>, k: nat, st: State)
    requires k < |texts| && matcher(texts[k]).Some?
    ensures Run(o, console, matcher, st, texts[k..]).0 ==
            Run(o, console, matcher, Step(o, console, st, texts[k], matcher(texts[k]).value), texts[k + 1..]).0
  {
    assert texts[k..][0] == texts[k] && texts[k..][1..] == texts[k + 1..];
    RunUnfold(o, console, matcher, st, texts[k..]);
  }

  /** An invariant of positions and states that every step keeps holds at the end of the input. */
  lemma {:induction false} RunKeeps(o: Options, console: bool, matcher: string -> Option<bool>, texts: seq<string>,
                                    inv: (nat, State) -> bool, k: nat, st: State)
    requires k <= |texts| && Decided(matcher, texts)
    requires forall j: nat, s: State :: k <= j < |texts| && inv(j, s) ==>
               inv(j + 1, Step(o, console, s, texts[j], matcher(texts[j]).value))
    requires inv(k, st)
    ensures inv(|texts|, Run(o, console, matcher, st, texts[k..]).0)
    decreases |texts| - k
  {
    if k < |texts| {
      RunFrom(o, console, matcher, texts, k, st);
      RunKeeps(o, console, matcher, texts, inv, k + 1, Step(o, console, st, texts[k], matcher(texts[k]).value));
    } else {
      assert texts[k..] == [];
    }
  }

  /** After the whole input, the printed lines are exactly the wanted ones. */
  lemma ContextEnd(o: Options, console: bool, matcher: string -> Option<bool>, texts: seq<string>)
    requires !o.count && Decided(matcher, texts)
    ensures ShownExactly(matcher, o.invert, texts, Context(o).0, Context(o).1, |texts|,
                         Run(o, console, matcher, Start, texts).0.shown)
  {
    var inv := (j: nat, s: State) => j <= |texts| && ContextInv(o, matcher, texts, j, s);
    forall j: nat, s: State | j < |texts| && inv(j, s)
      ensures inv(j + 1, Step(o, console, s, texts[j], matcher(texts[j]).value))
    {
      ContextStep(o, console, matcher, texts, j, s);
    }
    ContextStart(o, matcher, texts);
    RunKeeps(o, console, matcher, texts, inv, 0, Start);
    assert texts[0..] == texts;
  }

  /**
   * What -A and -B are meant to do, for the corrected machine (its print
   * and bounded buffer): outside count mode, the machine prints, in file
   * order and each once, exactly the lines that are selected, that come at
   * most `after` lines after a selected line, or that come at most
   * `before` lines before one; the output is their rendering.
   */
  lemma ContextPrints(o: Options, console: bool, matcher: string -> Option<bool>, texts: seq<string>)
    requires !o.count && Decided(matcher, texts)
    ensures var r := Run(o, console, matcher, Start, texts).0;
            && Increasing(r.shown)
            && (forall v: Line :: v in r.shown <==>
                  0 < v.num <= |texts| && v.text == texts[v.num - 1] &&
                  Wanted(matcher, o.invert, texts, Context(o).0, Context(o).1, v.num - 1, |texts|))
            && r.out == RenderAll(r.shown, o.numbering)
  {
    ContextEnd(o, console, matcher, texts);
    RunOrdered(o, console, matcher, Start, texts);
    RunRenders(o, console, matcher, Start, texts);
    var r := Run(o, console, matcher, Start, texts).0;
    assert r.shown[0..] == r.shown;
  }

  /** In count mode the machine counts the selected lines and prints nothing for a file. */
  lemma {:induction false} CountsSelected(o: Options, matcher: string -> Option<bool>, st: State, texts: seq<string>)
    requires o.count && Decided(matcher, texts)
    ensures var r := Run(o, false, matcher, st, texts).0;
            r.matches == st.matches + |SelectedLines(matcher, o.invert, texts, st.lineNumber + 1)| && r.out == st.out
    decreases |texts|
  {
    if |texts| > 0 {
      var m := matcher(texts[0]).value;
      assert Decided(matcher, texts[1..]) by {
        assert forall i :: 0 <= i < |texts[1..]| ==> texts[1..][i] == texts[i + 1];
      }
      CountsSelected(o, matcher, Step(o, false, st, texts[0], m), texts[1..]);
    }
  }

  /** Counting the lines of a file prints only the number of selected lines. */
  lemma CountPrintsOnlyTotal(o: Options, pattern: string, isMatch: (string, string) -> Option<bool>, texts: seq<string>)
    requires o.count
    requires forall i :: 0 <= i < |texts| ==> isMatch(RewritePattern(pattern, o.ignore, o.fixed), texts[i]).Some?
    ensures var matcher := (t: string) => isMatch(RewritePattern(pattern, o.ignore, o.fixed), t);
            GrepLines(o, false, pattern, isMatch, texts) ==
              Outcome([FormatInt(|SelectedLines(matcher, o.invert, texts, 1)|)], false)
  {
    var p := RewritePattern(pattern, o.ignore, o.fixed);
    var matcher := (t: string) => isMatch(p, t);
    assert Decided(matcher, texts);
    CountsSelected(o, matcher, Start, texts);
    RunFatal(o, false, matcher, Start, texts);
  }
}
