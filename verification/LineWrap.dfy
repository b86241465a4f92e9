/** What the 76-column line writer of emailx/smtp.go puts out, as a function
    of what was written to it (section 6.8 of RFC 2045). */
module LineWrap {
  import opened Text

  const WIDTH := 76

  type column = c: int | 0 <= c <= WIDTH

  /** Writing `s` character by character from column `c`, breaking the line just before a character that would not
      fit. */
  function Wrap(c: column, s: string): string
    decreases s
  {
    if s == "" then ""
    else if c == WIDTH then CRLF + [s[0]] + Wrap(1, s[1..])
    else [s[0]] + Wrap(c + 1, s[1..])
  }

  /** The column reached after `n` characters from column `c`. */
  function Column(c: column, n: nat): column {
    if n == 0 then c else (c + n - 1) % WIDTH + 1
  }

  /** The same lines without any running state: full lines, then the remainder. */
  function Chunks(s: string): seq<string> {
    if |s| <= WIDTH then [s] else [s[..WIDTH]] + Chunks(s[WIDTH..])
  }

  lemma ColumnAdds(c: column, m: nat, n: nat)
    ensures Column(Column(c, m), n) == Column(c, m + n)
  {
    if m > 0 && n > 0 {
      ModuloAdds(c + m - 1, n);
    }
  }

  lemma ModuloAdds(x: int, n: int)
    ensures (x % WIDTH + n) % WIDTH == (x + n) % WIDTH
  {
    var y := x % WIDTH + n;
    var q, k := x / WIDTH, y / WIDTH;
    assert x == WIDTH * q + x % WIDTH && y == WIDTH * k + y % WIDTH;
    assert x + n == WIDTH * (q + k) + y % WIDTH;
    Quotient(x + n, q + k, y % WIDTH);
  }

  lemma Quotient(z: int, k: int, r: int)
    requires z == WIDTH * k + r && 0 <= r < WIDTH
    ensures z % WIDTH == r
  {
    var d := z / WIDTH - k;
    assert z == WIDTH * (z / WIDTH) + z % WIDTH;
    assert WIDTH * d == r - z % WIDTH;
    assert -WIDTH < WIDTH * d < WIDTH;
    assert d == 0;
  }

  /** Only the concatenation of the writes matters, not how it was cut up. */
  lemma {:induction false} WrapConcat(c: column, a: string, b: string)
    ensures Wrap(c, a + b) == Wrap(c, a) + Wrap(Column(c, |a|), b)
    decreases a
  {
    if a == "" {
      assert a + b == b;
    } else {
      var next := if c == WIDTH then 1 else c + 1;
      assert (a + b)[1..] == a[1..] + b;
      WrapConcat(next, a[1..], b);
      ColumnAdds(c, 1, |a| - 1);
      hide Column;
    }
  }

  /** Any sequence of writes: the output is that of one write of them all. */
  function WrapAll(c: column, writes: seq<string>): string
    decreases writes
  {
    if writes == [] then ""
    else Wrap(c, writes[0]) + WrapAll(Column(c, |writes[0]|), writes[1..])
  }

  lemma {:induction false} WrapIgnoresChunking(c: column, writes: seq<string>)
    ensures WrapAll(c, writes) == Wrap(c, Concat(writes))
    decreases writes
  {
    if writes != [] {
      WrapIgnoresChunking(Column(c, |writes[0]|), writes[1..]);
      WrapConcat(c, writes[0], Concat(writes[1..]));
    }
  }

  /** What fits on the line is not broken. */
  lemma {:induction false} WrapFits(c: column, s: string)
    requires c + |s| <= WIDTH
    ensures Wrap(c, s) == s
    decreases s
  {
    if s != "" {
      WrapFits(c + 1, s[1..]);
      assert [s[0]] + s[1..] == s;
    }
  }

  lemma WrapFullLine(s: string)
    requires s != ""
    ensures Wrap(WIDTH, s) == CRLF + Wrap(0, s)
  {
  }

  /** The break that comes before the next character, if the line is full. */
  function Break(c: column): string {
    if c == WIDTH then CRLF else ""
  }

  /** The column once that break is made. */
  function Resume(c: column): column {
    if c == WIDTH then 0 else c
  }

  /** A piece that fits on one line is put out whole, after a break if the line was full. */
  lemma WrapPiece(c: column, s: string)
    requires s != "" && Resume(c) + |s| <= WIDTH
    ensures Wrap(c, s) == Break(c) + s
    ensures Column(c, |s|) == Resume(c) + |s|
  {
    if c == WIDTH {
      WrapFullLine(s);
    }
    WrapFits(Resume(c), s);
  }

  lemma {:induction false} WrapIsJoinOfChunks(s: string)
    ensures Wrap(0, s) == Join(Chunks(s), CRLF)
  {
    if |s| <= WIDTH {
      WrapFits(0, s);
    } else {
      var line, rest := s[..WIDTH], s[WIDTH..];
      WrapIsJoinOfChunks(rest);
      WrapFits(0, line);
      WrapFullLine(rest);
      hide Wrap;
      WrapConcat(0, line, rest);
      assert s == line + rest;
      JoinCons(line, Chunks(rest), CRLF);
    }
  }

  /** The lines are at most 76 characters long, all but the last exactly so, and together they are the text. */
  lemma {:induction false} ChunkShape(s: string)
    ensures forall i :: 0 <= i < |Chunks(s)| ==> |Chunks(s)[i]| <= 76
    ensures forall i :: 0 <= i < |Chunks(s)| - 1 ==> |Chunks(s)[i]| == 76
    ensures |Chunks(s)| > 0 && |Chunks(s)[|Chunks(s)| - 1]| == Column(0, |s|)
    ensures s != "" ==> Chunks(s)[|Chunks(s)| - 1] != ""
    ensures Concat(Chunks(s)) == s
  {
    if |s| <= WIDTH {
      assert Concat([s]) == s + Concat([]);
    } else {
      var line, rest := s[..WIDTH], s[WIDTH..];
      ChunkShape(rest);
      assert Chunks(s)[1..] == Chunks(rest);
      assert line + rest == s;
    }
  }

  lemma {:induction false} ChunksOneLine(s: string)
    requires OneLine(s)
    ensures forall i :: 0 <= i < |Chunks(s)| ==> OneLine(Chunks(s)[i])
  {
    if |s| > WIDTH {
      ChunksOneLine(s[WIDTH..]);
    }
  }

  /** Wrapping breaks a text exactly into those lines. */
  lemma WrappedLines(s: string)
    requires OneLine(s)
    ensures Lines(Wrap(0, s)) == Chunks(s)
  {
    ChunkShape(s);
    ChunksOneLine(s);
    WrapIsJoinOfChunks(s);
    LinesJoin(Chunks(s));
  }

  /** Dropping the line breaks gives the text back. */
  lemma {:induction false} StripWrap(c: column, s: string)
    requires OneLine(s)
    ensures StripBreaks(Wrap(c, s)) == s
    decreases s
  {
    if s != "" {
      var next := if c == WIDTH then 1 else c + 1;
      var head := if c == WIDTH then CRLF + [s[0]] else [s[0]];
      StripWrap(next, s[1..]);
      StripConcat(head, Wrap(next, s[1..]));
      StripConcat(CRLF, [s[0]]);
      assert StripBreaks(CRLF) == "" by { assert CRLF[1..] == "\n"; }
      assert StripBreaks([s[0]]) == [s[0]];
      assert s == [s[0]] + s[1..];
    }
  }
}
