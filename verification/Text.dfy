/** Byte strings as the Go standard library cuts and joins them.

    A Go string is a sequence of bytes; here it is a Dafny `string` with one
    character per byte.  Binary data is a `seq<byte>`. */
module Text {

  datatype Option<+T> = None | Some(value: T)

  datatype Result<+T, +E> = Ok(value: T) | Err(error: E)

  type byte = b: int | 0 <= b < 256

  /** No character of `s` is `c`. */
  predicate Free(s: string, c: char) {
    forall i :: 0 <= i < |s| ==> s[i] != c
  }

  predicate HasPrefix(s: string, prefix: string) {
    |prefix| <= |s| && s[..|prefix|] == prefix
  }

  /** strings.Split on a one-byte separator. */
  function Split(s: string, sep: char): (parts: seq<string>)
    ensures |parts| > 0
  {
    if s == "" then [""]
    else
      var rest := Split(s[1..], sep);
      if s[0] == sep then [""] + rest else [[s[0]] + rest[0]] + rest[1..]
  }

  /** strings.Join. */
  function Join(parts: seq<string>, sep: string): string {
    if |parts| == 0 then ""
    else if |parts| == 1 then parts[0]
    else parts[0] + sep + Join(parts[1..], sep)
  }

  function Concat(parts: seq<string>): string {
    if parts == [] then "" else parts[0] + Concat(parts[1..])
  }

  lemma {:induction false} ConcatSnoc(parts: seq<string>, last: string)
    ensures Concat(parts + [last]) == Concat(parts) + last
  {
    if parts == [] {
      assert parts + [last] == [last] && [last][1..] == [];
      assert Concat([last]) == last + Concat([]);
    } else {
      ConcatSnoc(parts[1..], last);
      assert (parts + [last])[1..] == parts[1..] + [last];
    }
  }

  lemma {:induction false} SplitFree(s: string, sep: char)
    requires Free(s, sep)
    ensures Split(s, sep) == [s]
  {
    if s != "" {
      SplitFree(s[1..], sep);
      assert [s[0]] + s[1..] == s;
    }
  }

  lemma {:induction false} SplitPartsAreFree(s: string, sep: char)
    ensures forall i :: 0 <= i < |Split(s, sep)| ==> Free(Split(s, sep)[i], sep)
  {
    if s != "" {
      SplitPartsAreFree(s[1..], sep);
    }
  }

  /** The pieces of a text whose first character is `c`, given the pieces of what follows. */
  function Prepend(c: char, sep: char, parts: seq<string>): seq<string>
    requires |parts| > 0
  {
    if c == sep then [""] + parts else [[c] + parts[0]] + parts[1..]
  }

  lemma SplitPrepend(c: char, s: string, sep: char)
    ensures Split([c] + s, sep) == Prepend(c, sep, Split(s, sep))
  {
    assert ([c] + s)[1..] == s;
  }

  lemma PrependConcat(c: char, sep: char, p: seq<string>, q: seq<string>)
    requires |p| > 0
    ensures Prepend(c, sep, p + q) == Prepend(c, sep, p) + q
  {
    assert (p + q)[1..] == p[1..] + q;
  }

  lemma {:induction false} SplitConcat(a: string, sep: char, b: string)
    ensures Split(a + [sep] + b, sep) == Split(a, sep) + Split(b, sep)
  {
    if a == "" {
      assert a + [sep] + b == [sep] + b;
      SplitPrepend(sep, b, sep);
    } else {
      var tail := a[1..] + [sep] + b;
      SplitConcat(a[1..], sep, b);
      assert a + [sep] + b == [a[0]] + tail;
      SplitPrepend(a[0], tail, sep);
      assert a == [a[0]] + a[1..];
      SplitPrepend(a[0], a[1..], sep);
      PrependConcat(a[0], sep, Split(a[1..], sep), Split(b, sep));
    }
  }

  lemma {:induction false} SplitJoin(parts: seq<string>, sep: char)
    requires |parts| > 0
    requires forall i :: 0 <= i < |parts| ==> Free(parts[i], sep)
    ensures Split(Join(parts, [sep]), sep) == parts
  {
    SplitFree(parts[0], sep);
    if |parts| > 1 {
      SplitJoin(parts[1..], sep);
      SplitConcat(parts[0], sep, Join(parts[1..], [sep]));
    }
  }

  lemma JoinCons(head: string, tail: seq<string>, sep: string)
    ensures Join([head] + tail, sep) == if |tail| == 0 then head else head + sep + Join(tail, sep)
  {
    assert ([head] + tail)[1..] == tail;
  }

  lemma JoinPrepend(c: char, parts: seq<string>, sep: string)
    requires |parts| > 0
    ensures Join([[c] + parts[0]] + parts[1..], sep) == [c] + Join(parts, sep)
  {
    JoinCons([c] + parts[0], parts[1..], sep);
  }

  lemma {:induction false} JoinSplit(s: string, sep: char)
    ensures Join(Split(s, sep), [sep]) == s
  {
    if s != "" {
      var rest := Split(s[1..], sep);
      JoinSplit(s[1..], sep);
      SplitPrepend(s[0], s[1..], sep);
      hide Split, Join;
      assert s == [s[0]] + s[1..];
      if s[0] == sep {
        JoinCons("", rest, [sep]);
      } else {
        JoinPrepend(s[0], rest, [sep]);
      }
    }
  }

  /** Characters come and go with the pieces: a join is free of `c` when its pieces and separator are. */
  lemma {:induction false} JoinFree(parts: seq<string>, sep: string, c: char)
    requires Free(sep, c)
    requires forall i :: 0 <= i < |parts| ==> Free(parts[i], c)
    ensures Free(Join(parts, sep), c)
  {
    if |parts| > 1 {
      JoinFree(parts[1..], sep, c);
    }
  }

  // ------------------------------------------------------------------
  // Decimal numerals
  // ------------------------------------------------------------------

  predicate IsDigit(c: char) {
    '0' <= c <= '9'
  }

  predicate AllDigits(s: string) {
    forall i :: 0 <= i < |s| ==> IsDigit(s[i])
  }

  function DigitChar(d: int): (c: char)
    requires 0 <= d < 10
    ensures IsDigit(c) && c as int - '0' as int == d
  {
    (d + '0' as int) as char
  }

  /** The %d form of a non-negative integer. */
  function Decimal(n: nat): (s: string)
    ensures |s| > 0 && AllDigits(s)
  {
    if n < 10 then [DigitChar(n)] else Decimal(n / 10) + [DigitChar(n % 10)]
  }

  /** The number a digit string denotes, most significant digit first. */
  function Value(s: string): nat
    requires AllDigits(s)
  {
    if s == "" then 0 else 10 * Value(s[..|s| - 1]) + (s[|s| - 1] as int - '0' as int)
  }

  /** Written without superfluous leading zeros. */
  predicate NoLeadingZero(s: string) {
    |s| > 0 && (|s| == 1 || s[0] != '0')
  }

  lemma {:induction false} ValueDecimal(n: nat)
    ensures Value(Decimal(n)) == n
    ensures NoLeadingZero(Decimal(n))
    ensures n > 0 ==> Decimal(n)[0] != '0'
  {
    if n >= 10 {
      ValueDecimal(n / 10);
      var s := Decimal(n);
      assert s[..|s| - 1] == Decimal(n / 10);
    }
  }

  lemma {:induction false} DecimalValue(s: string)
    requires AllDigits(s) && NoLeadingZero(s)
    ensures Decimal(Value(s)) == s
    ensures s[0] != '0' ==> Value(s) > 0
  {
    var init, last := s[..|s| - 1], s[|s| - 1];
    var d := last as int - '0' as int;
    assert s == init + [last];
    InitOfDigits(s);
    hide *;
    ValueSnoc(init, last);
    if |s| == 1 {
      assert init == "";
      ValueOfNothing();
      DecimalDigit(d, last);
    } else {
      DecimalValue(init);
      assert init[0] == s[0];
      DecimalSnoc(Value(init), d, last);
    }
  }

  lemma InitOfDigits(s: string)
    requires AllDigits(s) && NoLeadingZero(s)
    ensures AllDigits(s[..|s| - 1]) && IsDigit(s[|s| - 1]) && s[|s| - 1] >= '0'
    ensures |s| > 1 ==> s[0] != '0' && NoLeadingZero(s[..|s| - 1])
  {
  }

  lemma ValueOfNothing()
    ensures Value("") == 0
  {
  }

  lemma ValueSnoc(init: string, last: char)
    requires AllDigits(init) && IsDigit(last)
    ensures AllDigits(init + [last]) && Value(init + [last]) == 10 * Value(init) + (last as int - '0' as int)
  {
    var s := init + [last];
    assert s[..|s| - 1] == init && s[|s| - 1] == last;
  }

  lemma DecimalDigit(d: int, c: char)
    requires IsDigit(c) && d == c as int - '0' as int
    ensures Decimal(d) == [c]
  {
  }

  lemma DecimalSnoc(n: nat, d: int, c: char)
    requires n > 0 && IsDigit(c) && d == c as int - '0' as int
    ensures Decimal(10 * n + d) == Decimal(n) + [c]
  {
    assert (10 * n + d) / 10 == n && (10 * n + d) % 10 == d;
    assert DigitChar(d) == c;
  }

  lemma DecimalInjective(m: nat, n: nat)
    requires Decimal(m) == Decimal(n)
    ensures m == n
  {
    ValueDecimal(m);
    ValueDecimal(n);
  }

  // ------------------------------------------------------------------
  // Lines ended by CRLF
  // ------------------------------------------------------------------

  const CRLF: string := "\r\n"

  /** The text between consecutive CRLFs. */
  function Lines(s: string): (lines: seq<string>)
    ensures |lines| > 0
  {
    if s == "" then [""]
    else if |s| >= 2 && s[0] == '\r' && s[1] == '\n' then [""] + Lines(s[2..])
    else
      var rest := Lines(s[1..]);
      [[s[0]] + rest[0]] + rest[1..]
  }

  /** A single line: neither CR nor LF occurs. */
  predicate OneLine(s: string) {
    Free(s, '\r') && Free(s, '\n')
  }

  function PrependLine(c: char, lines: seq<string>): seq<string>
    requires |lines| > 0
  {
    [[c] + lines[0]] + lines[1..]
  }

  lemma LinesPrepend(c: char, s: string)
    requires !(c == '\r' && |s| > 0 && s[0] == '\n')
    ensures Lines([c] + s) == PrependLine(c, Lines(s))
  {
    assert ([c] + s)[1..] == s;
  }

  lemma LinesBreak(s: string)
    ensures Lines(CRLF + s) == [""] + Lines(s)
  {
    assert (CRLF + s)[2..] == s;
  }

  lemma PrependLineConcat(c: char, p: seq<string>, q: seq<string>)
    requires |p| > 0
    ensures PrependLine(c, p + q) == PrependLine(c, p) + q
  {
    assert (p + q)[1..] == p[1..] + q;
  }

  lemma Regroup<T>(a: seq<T>, b: seq<T>, c: seq<T>)
    ensures a + b + c == a + (b + c)
  {
  }

  lemma {:induction false} LinesConcat(a: string, b: string)
    ensures Lines(a + CRLF + b) == Lines(a) + Lines(b)
  {
    var rest := CRLF + b;
    Regroup(a, CRLF, b);
    if a == "" {
      LinesBreak(b);
      assert a + rest == rest;
    } else if |a| >= 2 && a[0] == '\r' && a[1] == '\n' {
      hide Lines;
      var tail := a[2..];
      LinesConcat(tail, b);
      Regroup(tail, CRLF, b);
      assert a == CRLF + tail;
      Regroup(CRLF, tail, rest);
      LinesBreak(tail);
      LinesBreak(tail + rest);
    } else {
      hide Lines;
      var tail := a[1..];
      LinesConcat(tail, b);
      Regroup(tail, CRLF, b);
      assert a == [a[0]] + tail;
      Regroup([a[0]], tail, rest);
      assert (tail + rest)[0] == if |tail| > 0 then tail[0] else '\r';
      LinesPrepend(a[0], tail);
      LinesPrepend(a[0], tail + rest);
      PrependLineConcat(a[0], Lines(tail), Lines(b));
    }
  }

  lemma {:induction false} LinesOneLine(s: string)
    requires OneLine(s)
    ensures Lines(s) == [s]
  {
    if s != "" {
      LinesOneLine(s[1..]);
      assert [s[0]] + s[1..] == s;
    }
  }

  lemma {:induction false} LinesJoin(parts: seq<string>)
    requires |parts| > 0
    requires forall i :: 0 <= i < |parts| ==> OneLine(parts[i])
    ensures Lines(Join(parts, CRLF)) == parts
  {
    LinesOneLine(parts[0]);
    hide OneLine;
    if |parts| > 1 {
      LinesJoin(parts[1..]);
      hide Lines;
      LinesConcat(parts[0], Join(parts[1..], CRLF));
    }
  }

  lemma {:induction false} JoinLines(s: string)
    ensures Join(Lines(s), CRLF) == s
  {
    if s == "" {
    } else if |s| >= 2 && s[0] == '\r' && s[1] == '\n' {
      hide Lines, Join;
      JoinLines(s[2..]);
      LinesBreak(s[2..]);
      assert s == CRLF + s[2..];
      JoinCons("", Lines(s[2..]), CRLF);
    } else {
      hide Lines, Join;
      var rest := Lines(s[1..]);
      JoinLines(s[1..]);
      LinesPrepend(s[0], s[1..]);
      assert s == [s[0]] + s[1..];
      JoinPrepend(s[0], rest, CRLF);
    }
  }

  /** No CRLF occurs, though a CR or an LF alone may. */
  predicate Unbroken(s: string) {
    forall i :: 0 <= i < |s| - 1 ==> !(s[i] == '\r' && s[i + 1] == '\n')
  }

  lemma {:induction false} LinesUnbroken(s: string)
    requires Unbroken(s)
    ensures Lines(s) == [s]
  {
    if s != "" {
      var rest := s[1..];
      forall i | 0 <= i < |rest| - 1
        ensures !(rest[i] == '\r' && rest[i + 1] == '\n')
      {
        assert rest[i] == s[i + 1] && rest[i + 1] == s[i + 2];
      }
      LinesUnbroken(rest);
      assert s == [s[0]] + rest;
      LinesPrepend(s[0], rest);
    }
  }

  predicate AllUnbroken(lines: seq<string>) {
    forall i :: 0 <= i < |lines| ==> Unbroken(lines[i])
  }

  lemma {:induction false} FirstLineStarts(s: string)
    ensures Lines(s)[0] != "" ==> s != "" && Lines(s)[0][0] == s[0]
  {
  }

  lemma UnbrokenPrepend(c: char, line: string)
    requires Unbroken(line) && !(c == '\r' && line != "" && line[0] == '\n')
    ensures Unbroken([c] + line)
  {
    var s := [c] + line;
    forall i | 0 <= i < |s| - 1
      ensures !(s[i] == '\r' && s[i + 1] == '\n')
    {
      assert s[i + 1] == line[i];
      if i > 0 { assert s[i] == line[i - 1]; }
    }
  }

  /** Cutting at every CRLF leaves none. */
  lemma {:induction false} LinesAreUnbroken(s: string)
    ensures AllUnbroken(Lines(s))
  {
    if s == "" {
    } else if |s| >= 2 && s[0] == '\r' && s[1] == '\n' {
      LinesAreUnbroken(s[2..]);
      assert s == CRLF + s[2..];
      LinesBreak(s[2..]);
      hide Lines;
    } else {
      var rest := s[1..];
      LinesAreUnbroken(rest);
      FirstLineStarts(rest);
      assert s == [s[0]] + rest;
      LinesPrepend(s[0], rest);
      hide Lines;
      UnbrokenPrepend(s[0], Lines(rest)[0]);
      hide Unbroken;
    }
  }

  /** What remains of a text when every CR and LF is dropped. */
  function StripBreaks(s: string): (r: string)
    ensures OneLine(r)
  {
    if s == "" then ""
    else if s[0] == '\r' || s[0] == '\n' then StripBreaks(s[1..])
    else [s[0]] + StripBreaks(s[1..])
  }

  lemma {:induction false} StripConcat(a: string, b: string)
    ensures StripBreaks(a + b) == StripBreaks(a) + StripBreaks(b)
  {
    if a == "" {
      assert a + b == b;
      StripNothing(b);
    } else {
      hide StripBreaks;
      var tail := a[1..];
      StripConcat(tail, b);
      assert a == [a[0]] + tail && a + b == [a[0]] + (tail + b);
      StripStep(a[0], tail);
      StripStep(a[0], tail + b);
      Regroup([a[0]], StripBreaks(tail), StripBreaks(b));
    }
  }

  lemma StripNothing(s: string)
    ensures StripBreaks("") + StripBreaks(s) == StripBreaks(s)
  {
  }

  lemma StripStep(c: char, s: string)
    ensures StripBreaks([c] + s) == if c == '\r' || c == '\n' then StripBreaks(s) else [c] + StripBreaks(s)
  {
    assert ([c] + s)[1..] == s;
  }

  lemma {:induction false} StripOneLine(s: string)
    ensures StripBreaks(s) == s <==> OneLine(s)
  {
    if s != "" {
      StripOneLine(s[1..]);
      StripShorter(s[1..]);
    }
  }

  lemma {:induction false} StripShorter(s: string)
    ensures |StripBreaks(s)| <= |s|
  {
    if s != "" {
      StripShorter(s[1..]);
    }
  }
}
