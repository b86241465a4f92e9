/** The attachment pipeline of emailx/smtp.go: a copy loop feeds a streaming
    base64 encoder, which feeds the line writer. */
module Attachment {
  import opened Text
  import opened Base64
  import opened LineWrap
  import opened Stream

  /** lineWriter */
  class LineWriter {
    const writer: Sink
    var column: column

    constructor (writer: Sink)
      ensures this.writer == writer && column == 0
    {
      this.writer := writer;
      column := 0;
    }

    /** `before` was put out, then the wrapped `payload`, then perhaps the start of a line break that could not be
        followed by anything. */
    ghost predicate Emitted(before: string, c: LineWrap.column, payload: string)
      reads this, writer
    {
      || (writer.Out() == before + Wrap(c, payload) && column == Column(c, |payload|))
      || (&& Column(c, |payload|) == WIDTH
          && (|| (writer.Out() == before + Wrap(c, payload) + "\r" && column == WIDTH)
              || (writer.Out() == before + Wrap(c, payload) + CRLF && (column == WIDTH || column == 0))))
    }

    method Write(data: string) returns (total: nat, failed: bool)
      modifies this, writer
      ensures total <= |data|
      ensures !failed ==> total == |data|
      ensures !failed ==> writer.Out() == old(writer.Out()) + Wrap(old(column), data)
                          && column == Column(old(column), |data|)
      ensures failed ==> Emitted(old(writer.Out()), old(column), data[..total])
      ensures old(writer.faults) == [] ==> !failed && writer.faults == []
    {
      hide Wrap, Column, Sink.Out, Break, Resume, CRLF;
      total, failed := 0, false;
      var rest := data;
      ghost var before, c := writer.Out(), column;
      WrapStart(before, c, data);
      while |rest| > 0
        invariant total <= |data| && rest == data[total..]
        invariant writer.Out() == before + Wrap(c, data[..total])
        invariant column == Column(c, total)
        invariant old(writer.faults) == [] ==> writer.faults == []
      {
        var remaining := WIDTH - column;
        ghost var start := column;
        BreakIs(start);
        if remaining == 0 {
          var n, err := writer.Write(CRLF);
          BreakPrefix(n);
          if err {
            return total, true;
          }
          column := 0;
          remaining := WIDTH;
        }
        NothingAdded(before + Wrap(c, data[..total]));
        assert writer.Out() == before + Wrap(c, data[..total]) + Break(start) && column == Resume(start);
        var count := if |rest| < remaining then |rest| else remaining;
        var written, err := writer.Write(rest[..count]);
        PieceWritten(before, c, data, total, count, written);
        total := total + written;
        column := column + written;
        rest := rest[written..];
        if err {
          return total, true;
        }
      }
      assert data[..total] == data;
    }

    static lemma WrapStart(before: string, c: LineWrap.column, data: string)
      ensures before == before + Wrap(c, data[..0]) && Column(c, 0) == c
    {
      assert data[..0] == "";
    }

    static lemma NothingAdded(s: string)
      ensures s + "" == s
    {
    }

    static lemma BreakIs(c: LineWrap.column)
      ensures Break(c) == (if c == WIDTH then CRLF else "") && Resume(c) == if c == WIDTH then 0 else c
    {
    }

    static lemma BreakPrefix(n: nat)
      ensures |CRLF| == 2
      ensures n == 0 ==> CRLF[..n] == ""
      ensures n == 1 ==> CRLF[..n] == "\r"
      ensures n == 2 ==> CRLF[..n] == CRLF
    {
    }

    /** What a turn of the loop has put out, and where it stands, however much of its piece was accepted. */
    static lemma PieceWritten(before: string, c: LineWrap.column, data: string, total: nat, count: nat, written: nat)
      requires total + count <= |data| && written <= count && Resume(Column(c, total)) + count <= WIDTH
      ensures var start := Column(c, total);
              var out := before + Wrap(c, data[..total]) + Break(start) + data[total..][..count][..written];
              && data[total..][written..] == data[total + written..]
              && (written > 0 ==> out == before + Wrap(c, data[..total + written])
                                  && Resume(start) + written == Column(c, total + written))
              && (written == 0 ==> out == before + Wrap(c, data[..total]) + Break(start)
                                   && data[..total + written] == data[..total])
    {
      var start, piece := Column(c, total), data[total..][..count][..written];
      assert piece == data[total..total + written];
      if written > 0 {
        WrapMore(c, data, total, piece);
        hide *;
        Regroup(before, Wrap(c, data[..total]), Break(start));
        Regroup(before, Wrap(c, data[..total]) + Break(start), piece);
      } else {
        hide *;
        NothingAdded(before + Wrap(c, data[..total]) + Break(start));
      }
    }

    /** One turn of the loop puts out one more piece, on a fresh line if the old one was full. */
    static lemma WrapMore(c: LineWrap.column, data: string, total: nat, piece: string)
      requires piece != "" && total + |piece| <= |data| && data[total..total + |piece|] == piece
      requires Resume(Column(c, total)) + |piece| <= WIDTH
      ensures Column(c, total + |piece|) == Resume(Column(c, total)) + |piece|
      ensures Wrap(c, data[..total + |piece|]) == Wrap(c, data[..total]) + Break(Column(c, total)) + piece
    {
      hide Wrap;
      assert data[..total + |piece|] == data[..total] + piece;
      WrapConcat(c, data[..total], piece);
      WrapPiece(Column(c, total), piece);
      ColumnAdds(c, total, |piece|);
      hide Column;
    }
  }

  /** The streaming base64 encoder that the line writer sits under.  `done` is the input already encoded, `start`
      what the stream held before the first byte. */
  class Encoder {
    const lines: LineWriter
    var buf: seq<byte>
    var failed: bool
    ghost var done: seq<byte>
    ghost const start: string

    /** While nothing has failed, the stream holds the wrapped encoding of whole quanta. */
    ghost predicate Valid()
      reads this, lines, lines.writer
    {
      && |buf| <= 2
      && (!failed ==> |done| % 3 == 0 && Holds(done))
    }

    ghost predicate Holds(input: seq<byte>)
      reads lines, lines.writer
    {
      && lines.writer.Out() == start + Wrap(0, Encode(input))
      && lines.column == Column(0, |Encode(input)|)
    }

    /** Everything written so far. */
    ghost function Input(): seq<byte>
      reads this
    {
      done + buf
    }

    constructor (lines: LineWriter)
      requires lines.column == 0
      ensures Valid() && fresh(this) && this.lines == lines && !failed
      ensures Input() == [] && start == lines.writer.Out()
    {
      this.lines := lines;
      buf, failed, done := [], false, [];
      start := lines.writer.Out();
      new;
      assert Encode([]) == "";
    }

    /** Encodes `quanta` and passes the text on; only the last call may end inside a quantum. */
    method Emit(quanta: seq<byte>)
      requires !failed && |done| % 3 == 0 && Holds(done)
      modifies this, lines, lines.writer
      ensures buf == old(buf) && done == old(done) + quanta
      ensures !failed ==> Holds(done)
      ensures old(lines.writer.faults) == [] ==> !failed && lines.writer.faults == []
    {
      hide Wrap, Column, Encode;
      ghost var text := Encode(done);
      var _, err := lines.Write(Encode(quanta));
      EncodeConcat(done, quanta);
      WrapConcat(0, text, Encode(quanta));
      ColumnAdds(0, |text|, |Encode(quanta)|);
      done := done + quanta;
      failed := err;
      assert !err ==> lines.writer.Out() == start + (Wrap(0, text) + Wrap(Column(0, |text|), Encode(quanta)));
    }

    static lemma Assemble<T>(before: seq<T>, head: seq<T>, whole: seq<T>, tail: seq<T>)
      ensures before + head + whole + tail == before + (head + (whole + tail))
    {
    }

    static lemma Advance<T>(before: seq<T>, p: seq<T>, n: nat, more: nat)
      requires n + more <= |p|
      ensures before + p[..n] + p[n..][..more] == before + p[..n + more]
      ensures p[n..][more..] == p[n + more..]
    {
    }

    /** Encodes as many whole quanta of `p` as there are, at most 768 bytes at a time. */
    method WriteQuanta(p: seq<byte>) returns (n: nat)
      requires !failed && |done| % 3 == 0 && Holds(done)
      modifies this, lines, lines.writer
      ensures n <= |p| && buf == old(buf)
      ensures !failed ==> |p| - n < 3 && done == old(done) + p[..n] && |done| % 3 == 0 && Holds(done)
      ensures old(lines.writer.faults) == [] ==> !failed && lines.writer.faults == []
    {
      hide Wrap, Column, Encode, Encoder.Holds;
      n := 0;
      var rest := p;
      while |rest| >= 3
        invariant n <= |p| && rest == p[n..] && buf == old(buf)
        invariant !failed && |done| % 3 == 0 && Holds(done)
        invariant done == old(done) + p[..n]
        invariant old(lines.writer.faults) == [] ==> lines.writer.faults == []
      {
        var nn := 768;
        if nn > |rest| {
          nn := |rest| - |rest| % 3;
        }
        Advance(old(done), p, n, nn);
        Emit(rest[..nn]);
        if failed {
          return;
        }
        n := n + nn;
        rest := rest[nn..];
      }
    }

    method Write(p: seq<byte>) returns (n: nat, err: bool)
      requires Valid()
      modifies this, lines, lines.writer
      ensures Valid()
      ensures err == failed
      ensures !err ==> n == |p| && Input() == old(Input()) + p
      ensures old(failed) ==> err
      ensures old(lines.writer.faults) == [] && !old(failed) ==> !err && lines.writer.faults == []
    {
      hide Wrap, Column, Encode, Encoder.Holds;
      n := 0;
      if failed {
        return 0, true;
      }
      ghost var before := done + buf;
      // Leading fringe.
      if |buf| > 0 {
        var full;
        n, full := FillQuantum(p);
        if failed || !full {
          return n, failed;
        }
      } else {
        assert before + p[..n] == done;
      }
      var rest := p[n..];
      ghost var head := p[..n];
      assert p == head + rest;
      // Large interior chunks.
      var whole := WriteQuanta(rest);
      n := n + whole;
      if failed {
        return n, true;
      }
      // Trailing fringe.
      Assemble(before, head, rest[..whole], rest[whole..]);
      assert rest == rest[..whole] + rest[whole..];
      buf := rest[whole..];
      n := |p|;
      err := false;
    }

    /** The leading fringe: bytes of `p` complete the quantum in the buffer and it is emitted, if there are enough. */
    method FillQuantum(p: seq<byte>) returns (n: nat, full: bool)
      requires Valid() && !failed && |buf| > 0
      modifies this, lines, lines.writer
      ensures Valid() && n <= |p|
      ensures !full ==> !failed && n == |p| && Input() == old(Input()) + p
      ensures full && !failed ==> buf == [] && done == old(Input()) + p[..n]
      ensures old(lines.writer.faults) == [] ==> !failed && lines.writer.faults == []
    {
      hide Wrap, Column, Encode, Encoder.Holds;
      n := if 3 - |buf| < |p| then 3 - |buf| else |p|;
      var quantum := buf + p[..n];
      Regroup(done, buf, p[..n]);
      full := |quantum| == 3;
      if full {
        Emit(quantum);
        buf := [];
      } else {
        assert p[..n] == p;
        buf := quantum;
      }
    }

    method Close() returns (err: bool)
      requires Valid()
      modifies this, lines, lines.writer
      ensures err == failed && (old(failed) ==> err)
      ensures !err ==> Holds(old(Input()))
      ensures old(lines.writer.faults) == [] && !old(failed) ==> !err && lines.writer.faults == []
    {
      if !failed && |buf| > 0 {
        Emit(buf);
        buf := [];
      } else {
        assert done + [] == done;
      }
      err := failed;
    }
  }

  /** copyWithContext, into an encoder. */
  method CopyWithContext(dst: Encoder, src: Reader) returns (written: nat, err: bool)
    requires dst.Valid() && !dst.failed && ValidScript(src.script)
    modifies dst, dst.lines, dst.lines.writer, src`script
    ensures dst.Valid() && (dst.failed ==> err)
    ensures !err ==> Delivered(old(src.script)).complete && written == |Delivered(old(src.script)).bytes|
                     && dst.Input() == old(dst.Input()) + Delivered(old(src.script)).bytes
    ensures old(dst.lines.writer.faults) == [] ==>
              && err == !Delivered(old(src.script)).complete && !dst.failed && dst.lines.writer.faults == []
              && dst.Input() == old(dst.Input()) + Delivered(old(src.script)).bytes
  {
    hide Encoder.Valid;
    written := 0;
    ghost var all := Delivered(src.script);
    ghost var got: seq<byte> := [];
    while true
      invariant dst.Valid() && ValidScript(src.script)
      invariant all.complete == Delivered(src.script).complete
      invariant all.bytes == got + Delivered(src.script).bytes
      invariant written == |got|
      invariant !dst.failed && dst.Input() == old(dst.Input()) + got
      invariant old(dst.lines.writer.faults) == [] ==> dst.lines.writer.faults == []
      decreases |src.script|
    {
      var cancelled := src.Cancelled();
      if cancelled {
        assert got + [] == got;
        return written, true;
      }
      var data, status := src.Read();
      if |data| > 0 {
        var count, failed := dst.Write(data);
        written := written + count;
        if failed {
          return written, true;
        }
        if count != |data| {
          return written, true;
        }
      }
      Regroup(got, data, Delivered(src.script).bytes);
      Regroup(old(dst.Input()), got, data);
      got := got + data;
      if status == End {
        return written, false;
      }
      if status == Broken {
        return written, true;
      }
    }
  }

  /** The text an attachment's bytes become. */
  function Body(bytes: seq<byte>): string {
    Wrap(0, Encode(bytes))
  }

  /** The part of writeAttachment after the part is created: encode everything the reader delivers.  The encoder is
      closed whether or not the copy succeeded, so that all that was delivered is put out even then. */
  method WriteBody(sink: Sink, src: Reader) returns (failed: bool)
    requires ValidScript(src.script)
    modifies sink, src`script
    ensures !failed ==> Delivered(old(src.script)).complete
                        && sink.Out() == old(sink.Out()) + Body(Delivered(old(src.script)).bytes)
    ensures old(sink.faults) == [] ==>
              && failed == !Delivered(old(src.script)).complete && sink.faults == []
              && sink.Out() == old(sink.Out()) + Body(Delivered(old(src.script)).bytes)
  {
    var lines := new LineWriter(sink);
    var encoder := new Encoder(lines);
    hide Wrap, Column, Encode, Delivered;
    assert encoder.start == old(sink.Out()) && encoder.lines.writer == sink;
    var _, copyErr := CopyWithContext(encoder, src);
    ghost var input := encoder.Input();
    var closeErr := encoder.Close();
    failed := copyErr || closeErr;
    if !failed || old(sink.faults) == [] {
      assert input == [] + Delivered(old(src.script)).bytes;
      assert input == Delivered(old(src.script)).bytes;
      assert encoder.Holds(input);
    }
  }

  /** Every line holds at most 76 characters, all of them base64 or padding. */
  ghost predicate WellWrapped(text: string) {
    forall i :: 0 <= i < |Lines(text)| ==>
      |Lines(text)[i]| <= 76 && (forall j :: 0 <= j < |Lines(text)[i]| ==> IsEncodedChar(Lines(text)[i][j]))
  }

  lemma {:induction false} ChunksEncoded(s: string)
    requires forall j :: 0 <= j < |s| ==> IsEncodedChar(s[j])
    ensures forall i :: 0 <= i < |Chunks(s)| ==> forall j :: 0 <= j < |Chunks(s)[i]| ==> IsEncodedChar(Chunks(s)[i][j])
  {
    if |s| > WIDTH {
      ChunksEncoded(s[WIDTH..]);
    }
  }

  /** The body decodes to exactly the attachment's bytes. */
  lemma BodyRoundTrip(bytes: seq<byte>)
    ensures WellWrapped(Body(bytes))
    ensures DecodePadded(StripBreaks(Body(bytes))) == Some(bytes)
  {
    var text := Encode(bytes);
    EncodeShape(bytes);
    hide Encode, Wrap, Lines, DecodePadded, StripBreaks, OneLine, Chunks;
    EncodedIsOneLine(text);
    hide IsEncodedChar;
    ChunkShape(text);
    ChunksEncoded(text);
    WrappedLines(text);
    StripWrap(0, text);
    DecodeEncodePadded(bytes);
  }

  lemma EncodedIsOneLine(text: string)
    requires forall i :: 0 <= i < |text| ==> IsEncodedChar(text[i])
    ensures OneLine(text)
  {
  }
}
