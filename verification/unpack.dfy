/**
 * The run-length unpacker (develop/dev02/task.go).
 *
 * A packed string is a sequence of RuneRepeats, each an Element optionally
 * followed by a one-digit Number; an Element is either a letter or a
 * backslash followed by any rune. Unpacking writes each element's rune as
 * many times as its number says (once when there is no number) and fails
 * on the first position where no RuneRepeat can be parsed.
 *
 * Each sub-parser takes the remaining runes and, on success, returns what it
 * parsed together with the runes after it; on failure nothing is consumed.
 * Go's `unicode.IsLetter` is the parameter `isLetter`.
 */
module Unpack {
  import opened Results
  import opened GoStrconv

  /** A rune and how many times it is written out. */
  datatype RuneRepeat = RuneRepeat(value: char, times: nat)

  /** A successful parse: the value and the runes left after it. */
  datatype Parsed<T> = Parsed(value: T, rest: seq<char>)

  /** tryParseSlash: a backslash. */
  function TryParseSlash(runes: seq<char>): (r: Option<Parsed<char>>)
    ensures r.Some? <==> |runes| > 0 && runes[0] == '\\'
    ensures r.Some? ==> r.value == Parsed('\\', runes[1..])
  {
    if |runes| == 0 then None
    else if runes[0] == '\\' then Some(Parsed('\\', runes[1..]))
    else None
  }

  /** tryParseRune: any rune at all. */
  function TryParseRune(runes: seq<char>): (r: Option<Parsed<char>>)
    ensures r.Some? <==> |runes| > 0
    ensures r.Some? ==> r.value == Parsed(runes[0], runes[1..])
  {
    if |runes| == 0 then None else Some(Parsed(runes[0], runes[1..]))
  }

  /** tryParseLetter: a rune that `isLetter` accepts. */
  function TryParseLetter(runes: seq<char>, isLetter: char -> bool): (r: Option<Parsed<char>>)
    ensures r.Some? <==> |runes| > 0 && isLetter(runes[0])
    ensures r.Some? ==> r.value == Parsed(runes[0], runes[1..])
  {
    if |runes| == 0 then None
    else if isLetter(runes[0]) then Some(Parsed(runes[0], runes[1..]))
    else None
  }

  /**
   * tryParseNumber: strconv.Atoi of the first rune alone, so exactly one
   * ASCII digit (a sign on its own does not parse).
   */
  function TryParseNumber(runes: seq<char>): (r: Option<Parsed<nat>>)
    ensures r.Some? <==> |runes| > 0 && IsDigit(runes[0])
    ensures r.Some? ==> r.value == Parsed(DigitValue(runes[0]), runes[1..])
  {
    if |runes| == 0 then None
    else
      AtoiSingleChar(runes[0]);
      match Atoi([runes[0]])
      case Ok(n) => Some(Parsed(n as nat, runes[1..]))
      case Err(_) => None
  }

  /**
   * tryParseElement: a backslash and the rune after it, or else a letter.
   * A backslash with nothing after it fails without trying the letter rule.
   */
  function TryParseElement(runes: seq<char>, isLetter: char -> bool): (r: Option<Parsed<char>>)
    ensures r.Some? <==> (|runes| >= 2 && runes[0] == '\\') || (|runes| > 0 && runes[0] != '\\' && isLetter(runes[0]))
    ensures r.Some? && runes[0] == '\\' ==> r.value == Parsed(runes[1], runes[2..])
    ensures r.Some? && runes[0] != '\\' ==> r.value == Parsed(runes[0], runes[1..])
  {
    match TryParseSlash(runes)
    case Some(slash) =>
      (match TryParseRune(slash.rest)
       case Some(elem) => Some(elem)
       case None => None)
    case None => TryParseLetter(runes, isLetter)
  }

  /** tryParseRuneRepeat: an element and, when a digit follows, that many repetitions; otherwise one. */
  function TryParseRuneRepeat(runes: seq<char>, isLetter: char -> bool): (r: Option<Parsed<RuneRepeat>>)
    ensures r.Some? <==> TryParseElement(runes, isLetter).Some?
    ensures r.Some? ==> |r.value.rest| < |runes| && r.value.rest == runes[|runes| - |r.value.rest|..]
    ensures r.Some? ==> r.value.value.times <= 9
    ensures r.Some? ==>
              var elem := TryParseElement(runes, isLetter).value;
              r.value.value.value == elem.value &&
              if |elem.rest| > 0 && IsDigit(elem.rest[0])
              then r.value == Parsed(RuneRepeat(elem.value, DigitValue(elem.rest[0])), elem.rest[1..])
              else r.value == Parsed(RuneRepeat(elem.value, 1), elem.rest)
  {
    match TryParseElement(runes, isLetter)
    case None => None
    case Some(elem) =>
      match TryParseNumber(elem.rest)
      case Some(number) => Some(Parsed(RuneRepeat(elem.value, number.value), number.rest))
      case None => Some(Parsed(RuneRepeat(elem.value, 1), elem.rest))
  }

  /** strings.Repeat of a one-rune string. */
  function Repeat(c: char, n: nat): (r: string)
    ensures |r| == n
    ensures forall i :: 0 <= i < |r| ==> r[i] == c
  {
    if n == 0 then "" else [c] + Repeat(c, n - 1)
  }

  /** The RuneRepeats of a packed string, or None when some position does not parse. */
  function ParseAll(runes: seq<char>, isLetter: char -> bool): (r: Option<seq<RuneRepeat>>)
    ensures |runes| == 0 ==> r == Some([])
    ensures r.Some? ==> forall i :: 0 <= i < |r.value| ==> r.value[i].times <= 9
    decreases |runes|
  {
    if |runes| == 0 then Some([])
    else
      match TryParseRuneRepeat(runes, isLetter)
      case None => None
      case Some(p) =>
        match ParseAll(p.rest, isLetter)
        case None => None
        case Some(items) => Some([p.value] + items)
  }

  /** The unpacked text of a list of RuneRepeats. */
  function Expand(items: seq<RuneRepeat>): (r: string)
    ensures forall c :: c in r ==> exists i :: 0 <= i < |items| && items[i].value == c && items[i].times > 0
  {
    if |items| == 0 then ""
    else
      var r := Repeat(items[0].value, items[0].times) + Expand(items[1..]);
      ExpandOrigin(items, r);
      r
  }

  lemma ExpandOrigin(items: seq<RuneRepeat>, r: string)
    requires |items| > 0
    requires forall c :: c in Expand(items[1..]) ==> exists i :: 0 <= i < |items[1..]| && items[1..][i].value == c && items[1..][i].times > 0
    requires r == Repeat(items[0].value, items[0].times) + Expand(items[1..])
    ensures forall c :: c in r ==> exists i :: 0 <= i < |items| && items[i].value == c && items[i].times > 0
  {
    forall c | c in r
      ensures exists i :: 0 <= i < |items| && items[i].value == c && items[i].times > 0
    {
      if c in Repeat(items[0].value, items[0].times) {
        assert items[0].value == c && items[0].times > 0;
      } else {
        var i :| 0 <= i < |items[1..]| && items[1..][i].value == c && items[1..][i].times > 0;
        assert items[i + 1] == items[1..][i];
      }
    }
  }

  /** `s` with the text `prefix` written before it, when there is one. */
  function Prepend(prefix: string, s: Option<string>): Option<string> {
    match s
    case None => None
    case Some(t) => Some(prefix + t)
  }

  /** The result of unpacking, defined rune-repeat by rune-repeat. */
  function Unpack(runes: seq<char>, isLetter: char -> bool): (r: Option<string>)
    ensures r == (match ParseAll(runes, isLetter) case None => None case Some(items) => Some(Expand(items)))
    decreases |runes|
  {
    if |runes| == 0 then Some("")
    else
      match TryParseRuneRepeat(runes, isLetter)
      case None => None
      case Some(p) => Prepend(Repeat(p.value.value, p.value.times), Unpack(p.rest, isLetter))
  }

  /**
   * tryUnpackString: consume the runes one RuneRepeat at a time, writing
   * each out, and give up with ("", false) at the first that does not parse.
   */
  method TryUnpackString(input: string, isLetter: char -> bool) returns (res: string, ok: bool)
    ensures ok <==> ParseAll(input, isLetter).Some?
    ensures ok ==> res == Expand(ParseAll(input, isLetter).value)
    ensures !ok ==> res == ""
  {
    var runes := input;
    var sb := "";
    PrependEmpty(Unpack(input, isLetter));
    while |runes| > 0
      invariant Unpack(input, isLetter) == Prepend(sb, Unpack(runes, isLetter))
      decreases |runes|
    {
      var repeat := TryParseRuneRepeat(runes, isLetter);
      if repeat.None? {
        return "", false;
      }
      var chunk := Repeat(repeat.value.value.value, repeat.value.value.times);
      assert Unpack(runes, isLetter) == Prepend(chunk, Unpack(repeat.value.rest, isLetter));
      PrependTwice(sb, chunk, Unpack(repeat.value.rest, isLetter));
      sb := sb + chunk;
      runes := repeat.value.rest;
    }
    return sb, true;
  }

  lemma PrependEmpty(s: Option<string>)
    ensures Prepend("", s) == s
  {
    if s.Some? {
      assert "" + s.value == s.value;
    }
  }

  lemma PrependTwice(a: string, b: string, s: Option<string>)
    ensures Prepend(a, Prepend(b, s)) == Prepend(a + b, s)
  {
    if s.Some? {
      assert a + (b + s.value) == (a + b) + s.value;
    }
  }

  // ----------------------------------------------------------- properties

  /**
   * What the grammar needs of the letter predicate, and what
   * unicode.IsLetter satisfies: neither the backslash nor an ASCII digit
   * is a letter.
   */
  ghost predicate LetterClass(isLetter: char -> bool) {
    !isLetter('\\') && forall c :: IsDigit(c) ==> !isLetter(c)
  }

  /** The packed form of one RuneRepeat: the rune (escaped unless it is a letter) and its count unless that is one. */
  function EncodeItem(item: RuneRepeat, isLetter: char -> bool): (r: string)
    requires item.times <= 9
  {
    (if isLetter(item.value) then [item.value] else ['\\', item.value]) +
    (if item.times == 1 then "" else [DigitChar(item.times)])
  }

  /** The packed form of a list of RuneRepeats with counts of at most nine. */
  function Encode(items: seq<RuneRepeat>, isLetter: char -> bool): string
    requires forall i :: 0 <= i < |items| ==> items[i].times <= 9
  {
    if |items| == 0 then "" else EncodeItem(items[0], isLetter) + Encode(items[1..], isLetter)
  }

  /** A packed string never starts with a digit: it starts with a letter or a backslash. */
  lemma EncodeStart(items: seq<RuneRepeat>, isLetter: char -> bool)
    requires LetterClass(isLetter)
    requires forall i :: 0 <= i < |items| ==> items[i].times <= 9
    requires |items| > 0
    ensures |Encode(items, isLetter)| > 0
    ensures var c := Encode(items, isLetter)[0]; c == '\\' || (isLetter(c) && !IsDigit(c))
  {
    var e := Encode(items, isLetter);
    assert e[0] == EncodeItem(items[0], isLetter)[0];
  }

  /** One packed RuneRepeat, followed by text that does not start with a digit, parses back to itself. */
  lemma ParseEncodeItem(item: RuneRepeat, rest: string, isLetter: char -> bool)
    requires LetterClass(isLetter) && item.times <= 9
    requires |rest| == 0 || !IsDigit(rest[0])
    ensures TryParseRuneRepeat(EncodeItem(item, isLetter) + rest, isLetter) == Some(Parsed(item, rest))
  {
    var s := EncodeItem(item, isLetter) + rest;
    var elemLen := if isLetter(item.value) then 1 else 2;
    var elem := TryParseElement(s, isLetter);
    assert s[0] == (if isLetter(item.value) then item.value else '\\');
    if !isLetter(item.value) {
      assert s[1] == item.value;
    }
    assert elem.value == Parsed(item.value, s[elemLen..]);
    if item.times == 1 {
      assert s[elemLen..] == rest;
    } else {
      assert s[elemLen..] == [DigitChar(item.times)] + rest;
      assert s[elemLen..][1..] == rest;
    }
  }

  /** Parsing a packed list gives the list back. */
  lemma {:induction false} ParseEncode(items: seq<RuneRepeat>, isLetter: char -> bool)
    requires LetterClass(isLetter)
    requires forall i :: 0 <= i < |items| ==> items[i].times <= 9
    ensures ParseAll(Encode(items, isLetter), isLetter) == Some(items)
  {
    if |items| > 0 {
      ParseEncode(items[1..], isLetter);
      ParseEncodeCons(items, isLetter);
    }
  }

  /** If the packed tail parses back to the tail, the whole packed list parses back to the list. */
  lemma {:induction false} ParseEncodeCons(items: seq<RuneRepeat>, isLetter: char -> bool)
    requires LetterClass(isLetter)
    requires forall i :: 0 <= i < |items| ==> items[i].times <= 9
    requires |items| > 0 && ParseAll(Encode(items[1..], isLetter), isLetter) == Some(items[1..])
    ensures ParseAll(Encode(items, isLetter), isLetter) == Some(items)
  {
    var tail := items[1..];
    assert forall i :: 0 <= i < |tail| ==> tail[i] == items[i + 1];
    var rest := Encode(tail, isLetter);
    if |tail| > 0 {
      EncodeStart(tail, isLetter);
      assert !IsDigit(rest[0]);
    }
    EncodeCons(items, isLetter);
    ParseItemThen(items[0], rest, tail, isLetter);
    ConsTail(items);
  }

  lemma ConsTail<T>(xs: seq<T>)
    requires |xs| > 0
    ensures [xs[0]] + xs[1..] == xs
  {
  }

  lemma EncodeCons(items: seq<RuneRepeat>, isLetter: char -> bool)
    requires forall i :: 0 <= i < |items| ==> items[i].times <= 9
    requires |items| > 0
    ensures Encode(items, isLetter) == EncodeItem(items[0], isLetter) + Encode(items[1..], isLetter)
  {
  }

  /** A packed RuneRepeat in front of text that parses to `tail` parses to the RuneRepeat and then `tail`. */
  lemma ParseItemThen(item: RuneRepeat, rest: string, tail: seq<RuneRepeat>, isLetter: char -> bool)
    requires LetterClass(isLetter) && item.times <= 9
    requires |rest| == 0 || !IsDigit(rest[0])
    requires ParseAll(rest, isLetter) == Some(tail)
    ensures ParseAll(EncodeItem(item, isLetter) + rest, isLetter) == Some([item] + tail)
  {
    ParseEncodeItem(item, rest, isLetter);
    ParseAllStep(EncodeItem(item, isLetter) + rest, isLetter, Parsed(item, rest), tail);
  }

  /** A RuneRepeat at the front, then a parsable remainder, parse as one list. */
  lemma ParseAllStep(s: string, isLetter: char -> bool, p: Parsed<RuneRepeat>, items: seq<RuneRepeat>)
    requires TryParseRuneRepeat(s, isLetter) == Some(p)
    requires ParseAll(p.rest, isLetter) == Some(items)
    ensures ParseAll(s, isLetter) == Some([p.value] + items)
  {
  }

  /** Unpacking a packed list writes out its RuneRepeats. */
  lemma UnpackEncode(items: seq<RuneRepeat>, isLetter: char -> bool)
    requires LetterClass(isLetter)
    requires forall i :: 0 <= i < |items| ==> items[i].times <= 9
    ensures Unpack(Encode(items, isLetter), isLetter) == Some(Expand(items))
  {
    ParseEncode(items, isLetter);
  }

  /** A letter not followed by a digit is a RuneRepeat of one. */
  lemma LetterAlone(s: string, isLetter: char -> bool)
    requires LetterClass(isLetter)
    requires |s| > 0 && isLetter(s[0])
    requires |s| == 1 || !IsDigit(s[1])
    ensures TryParseRuneRepeat(s, isLetter) == Some(Parsed(RuneRepeat(s[0], 1), s[1..]))
  {
    assert s[0] != '\\';
    var rest := s[1..];
    assert |rest| > 0 ==> rest[0] == s[1];
  }

  /** A string of letters only unpacks to itself. */
  lemma {:induction false} UnpackLetters(s: string, isLetter: char -> bool)
    requires LetterClass(isLetter)
    requires forall i :: 0 <= i < |s| ==> isLetter(s[i])
    ensures Unpack(s, isLetter) == Some(s)
    decreases |s|
  {
    if |s| > 0 {
      if |s| > 1 {
        assert isLetter(s[1]);
      }
      LetterAlone(s, isLetter);
      var rest := s[1..];
      assert forall i :: 0 <= i < |rest| ==> isLetter(rest[i]) by {
        forall i | 0 <= i < |rest| ensures isLetter(rest[i]) {
          assert rest[i] == s[i + 1];
        }
      }
      UnpackLetters(rest, isLetter);
      assert Repeat(s[0], 1) == [s[0]];
      assert [s[0]] + rest == s;
    }
  }

  /** A packed string cannot start with a digit: there is no element for its count to repeat. */
  lemma LeadingDigitFails(s: string, isLetter: char -> bool)
    requires LetterClass(isLetter)
    requires |s| > 0 && IsDigit(s[0])
    ensures Unpack(s, isLetter) == None
  {
  }

  /** A letter followed by a digit is written that many times, so a zero count writes nothing. */
  lemma LetterCount(c: char, d: char, rest: string, isLetter: char -> bool)
    requires LetterClass(isLetter) && isLetter(c) && IsDigit(d)
    ensures Unpack([c, d] + rest, isLetter) == Prepend(Repeat(c, DigitValue(d)), Unpack(rest, isLetter))
  {
    var s := [c, d] + rest;
    assert s[0] == c && s[1] == d && s[2..] == rest;
    assert c != '\\';
  }

  /** A count is one digit: a letter followed by two digits does not unpack. */
  lemma TwoDigitCountFails(c: char, d1: char, d2: char, rest: string, isLetter: char -> bool)
    requires LetterClass(isLetter) && isLetter(c) && IsDigit(d1) && IsDigit(d2)
    ensures Unpack([c, d1, d2] + rest, isLetter) == None
  {
    assert [c, d1, d2] + rest == [c, d1] + ([d2] + rest);
    LetterCount(c, d1, [d2] + rest, isLetter);
    LeadingDigitFails([d2] + rest, isLetter);
  }

  /**
   * A backslash escapes whatever rune follows it, digits and backslashes
   * included, and the escaped rune may take a count.
   */
  lemma EscapedRune(x: char, rest: string, isLetter: char -> bool)
    ensures |rest| > 0 && IsDigit(rest[0]) ==>
              Unpack(['\\', x] + rest, isLetter) == Prepend(Repeat(x, DigitValue(rest[0])), Unpack(rest[1..], isLetter))
    ensures !(|rest| > 0 && IsDigit(rest[0])) ==>
              Unpack(['\\', x] + rest, isLetter) == Prepend([x], Unpack(rest, isLetter))
  {
    var s := ['\\', x] + rest;
    assert s[0] == '\\' && s[1] == x && s[2..] == rest;
    assert Repeat(x, 1) == [x];
  }

  /** A trailing backslash with nothing to escape makes the whole string fail. */
  lemma {:induction false} TrailingSlashFails(items: seq<RuneRepeat>, isLetter: char -> bool)
    requires LetterClass(isLetter)
    requires forall i :: 0 <= i < |items| ==> items[i].times <= 9
    ensures Unpack(Encode(items, isLetter) + "\\", isLetter) == None
  {
    if |items| == 0 {
      assert Encode(items, isLetter) + "\\" == "\\";
    } else {
      var head := EncodeItem(items[0], isLetter);
      var rest := Encode(items[1..], isLetter) + "\\";
      assert Encode(items, isLetter) + "\\" == head + rest;
      if |items| > 1 {
        EncodeStart(items[1..], isLetter);
        assert rest[0] == Encode(items[1..], isLetter)[0];
      }
      ParseEncodeItem(items[0], rest, isLetter);
      TrailingSlashFails(items[1..], isLetter);
    }
  }

  // ------------------------------------------------ the unpacker's examples

  /** ASCII letters: where unicode.IsLetter agrees on every rune the examples use. */
  predicate AsciiLetter(c: char) {
    'a' <= c <= 'z' || 'A' <= c <= 'Z'
  }

  lemma AsciiLetterClass()
    ensures LetterClass(AsciiLetter)
  {
  }

  /** A string that packs `items` unpacks to their expansion. */
  lemma UnpackPacked(s: string, items: seq<RuneRepeat>, t: string)
    requires forall i :: 0 <= i < |items| ==> items[i].times <= 9
    requires Encode(items, AsciiLetter) == s && Expand(items) == t
    ensures Unpack(s, AsciiLetter) == Some(t)
  {
    AsciiLetterClass();
    UnpackEncode(items, AsciiLetter);
  }

  /** "a4bc2d5e" unpacks to "aaaabccddddde". */
  lemma UnpackPlain(s: string)
    requires s == "a4bc2d5e"
    ensures Unpack(s, AsciiLetter) == Some("aaaabccddddde")
  {
    var items := PlainItems();
    UnpackPacked(s, items, "aaaabccddddde");
  }

  /** The RuneRepeats behind "a4bc2d5e": a four times, b, c twice, d five times, e. */
  lemma PlainItems() returns (items: seq<RuneRepeat>)
    ensures forall i :: 0 <= i < |items| ==> items[i].times <= 9
    ensures Encode(items, AsciiLetter) == "a4bc2d5e" && Expand(items) == "aaaabccddddde"
  {
    var i3 := PlainTail();
    var i2 := [RuneRepeat('b', 1)] + i3;
    PackCons(RuneRepeat('b', 1), i3, "c2d5e", "ccddddde", "b", "b");
    items := [RuneRepeat('a', 4)] + i2;
    PackCons(RuneRepeat('a', 4), i2, "bc2d5e", "bccddddde", "a4", "aaaa");
  }

  /** The RuneRepeats behind "c2d5e". */
  lemma PlainTail() returns (items: seq<RuneRepeat>)
    ensures forall i :: 0 <= i < |items| ==> items[i].times <= 9
    ensures Encode(items, AsciiLetter) == "c2d5e" && Expand(items) == "ccddddde"
  {
    var i5 := [RuneRepeat('e', 1)];
    PackCons(RuneRepeat('e', 1), [], "", "", "e", "e");
    var i4 := [RuneRepeat('d', 5)] + i5;
    PackCons(RuneRepeat('d', 5), i5, "e", "e", "d5", "ddddd");
    items := [RuneRepeat('c', 2)] + i4;
    PackCons(RuneRepeat('c', 2), i4, "d5e", "ddddde", "c2", "cc");
  }

  /** One more RuneRepeat in front: its packed form and its expansion go in front. */
  lemma PackCons(item: RuneRepeat, rest: seq<RuneRepeat>, e: string, x: string, ei: string, xi: string)
    requires item.times <= 9 && forall i :: 0 <= i < |rest| ==> rest[i].times <= 9
    requires Encode(rest, AsciiLetter) == e && Expand(rest) == x
    requires EncodeItem(item, AsciiLetter) == ei && Repeat(item.value, item.times) == xi
    ensures forall i :: 0 <= i < |[item] + rest| ==> ([item] + rest)[i].times <= 9
    ensures Encode([item] + rest, AsciiLetter) == ei + e
    ensures Expand([item] + rest) == xi + x
  {
    assert ([item] + rest)[1..] == rest;
  }

  /** "45" does not unpack: it starts with a count. */
  lemma UnpackDigitsOnly(s: string)
    requires s == "45"
    ensures Unpack(s, AsciiLetter) == None
  {
    AsciiLetterClass();
    LeadingDigitFails(s, AsciiLetter);
  }

  /** `qwe\4\5` unpacks to "qwe45": escaped digits are runes, not counts. */
  lemma UnpackEscapedDigits(s: string)
    requires s == "qwe\\4\\5"
    ensures Unpack(s, AsciiLetter) == Some("qwe45")
  {
    var items := [RuneRepeat('q', 1), RuneRepeat('w', 1), RuneRepeat('e', 1), RuneRepeat('4', 1), RuneRepeat('5', 1)];
    assert Encode(items, AsciiLetter) == s;
    assert Expand(items) == "qwe45";
    UnpackPacked(s, items, "qwe45");
  }

  /** `qwe\45` unpacks to "qwe44444": an escaped digit followed by a count. */
  lemma UnpackEscapedRepeat(s: string)
    requires s == "qwe\\45"
    ensures Unpack(s, AsciiLetter) == Some("qwe44444")
  {
    var items := [RuneRepeat('q', 1), RuneRepeat('w', 1), RuneRepeat('e', 1), RuneRepeat('4', 5)];
    assert Encode(items, AsciiLetter) == s;
    assert Expand(items) == "qwe44444";
    UnpackPacked(s, items, "qwe44444");
  }

  /** `qwe\\5` unpacks to `qwe` and five backslashes. */
  lemma UnpackEscapedSlash(s: string)
    requires s == "qwe\\\\5"
    ensures Unpack(s, AsciiLetter) == Some("qwe\\\\\\\\\\")
  {
    var items := [RuneRepeat('q', 1), RuneRepeat('w', 1), RuneRepeat('e', 1), RuneRepeat('\\', 5)];
    assert Encode(items, AsciiLetter) == s;
    assert Expand(items) == "qwe\\\\\\\\\\";
    UnpackPacked(s, items, "qwe\\\\\\\\\\");
  }
}
