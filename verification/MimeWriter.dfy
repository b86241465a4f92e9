/** writeMIME and its helpers (emailx/smtp.go): the header map is filled in
    place and the message is written piece by piece to a stream. */
module MimeWriter {
  import opened Text
  import opened Stream
  import opened Headers
  import opened MimeTree
  import opened Email
  import opened Compose
  import opened Truncation
  import A = Attachment

  // ------------------------------------------------------------------
  // The header map
  // ------------------------------------------------------------------

  /** The map so far: the fields in `done` and the custom headers in `names` have been set, and nothing else. */
  ghost predicate Partial(c: Codecs, m: Message, stamp: Stamp, h: map<string, string>, done: set<Field>,
                          names: set<string>)
  {
    && (forall f: Field :: f in done && FieldValue(c, m, stamp, f).Some? ==>
          Key(f) in h && h[Key(f)] == FieldValue(c, m, stamp, f).value)
    && (forall name :: name in names ==> name in m.headers && Canon(name) in h)
    && (forall k :: k in h ==> FromField(c, m, stamp, done, k) || FromCustom(m, h, names, k))
  }

  ghost predicate FromField(c: Codecs, m: Message, stamp: Stamp, done: set<Field>, k: string) {
    exists f: Field :: f in done && FieldValue(c, m, stamp, f).Some? && k == Key(f)
  }

  ghost predicate FromCustom(m: Message, h: map<string, string>, names: set<string>, k: string)
    requires k in h
  {
    exists name :: name in names && name in m.headers && k == Canon(name) && h[k] == m.headers[name]
  }

  lemma Widen(c: Codecs, m: Message, stamp: Stamp, done: set<Field>, f: Field, k: string)
    requires FromField(c, m, stamp, done, k)
    ensures FromField(c, m, stamp, done + {f}, k)
  {
    var g: Field :| g in done && FieldValue(c, m, stamp, g).Some? && k == Key(g);
    assert g in done + {f};
  }

  lemma SetField(c: Codecs, m: Message, stamp: Stamp, h: map<string, string>, done: set<Field>, names: set<string>,
                 f: Field)
    requires ValidHeaders(m.headers) && Partial(c, m, stamp, h, done, names)
    ensures var value := FieldValue(c, m, stamp, f);
            Partial(c, m, stamp, if value.Some? then Set(h, Name(f), value.value) else h, done + {f}, names)
  {
    hide FieldValue, ValidHeaders, Canon;
    if FieldValue(c, m, stamp, f).Some? {
      SetPresentField(c, m, stamp, h, done, names, f);
    } else {
      forall k | k in h && FromField(c, m, stamp, done, k)
        ensures FromField(c, m, stamp, done + {f}, k)
      {
        Widen(c, m, stamp, done, f, k);
      }
    }
  }

  lemma SetIsUpdate(h: map<string, string>, f: Field, value: string)
    ensures Set(h, Name(f), value) == h[Key(f) := value]
  {
  }

  lemma SetPresentField(c: Codecs, m: Message, stamp: Stamp, h: map<string, string>, done: set<Field>,
                        names: set<string>, f: Field)
    requires Partial(c, m, stamp, h, done, names) && FieldValue(c, m, stamp, f).Some?
    ensures Partial(c, m, stamp, Set(h, Name(f), FieldValue(c, m, stamp, f).value), done + {f}, names)
  {
    hide FieldValue, Canon, Key, Set, Name;
    var value := FieldValue(c, m, stamp, f).value;
    var h' := h[Key(f) := value];
    SetIsUpdate(h, f, value);
    forall g: Field | g in done && g != f && FieldValue(c, m, stamp, g).Some?
      ensures Key(g) in h' && h'[Key(g)] == FieldValue(c, m, stamp, g).value
    {
      if Key(f) == Key(g) { KeysDiffer(f, g); }
    }
    forall k | k in h'
      ensures FromField(c, m, stamp, done + {f}, k) || FromCustom(m, h', names, k)
    {
      if k == Key(f) {
        assert f in done + {f};
      } else if FromField(c, m, stamp, done, k) {
        Widen(c, m, stamp, done, f, k);
      } else {
        var name :| name in names && name in m.headers && k == Canon(name) && h[k] == m.headers[name];
        assert h'[k] == m.headers[name];
      }
    }
  }

  lemma SetCustom(c: Codecs, m: Message, stamp: Stamp, h: map<string, string>, done: set<Field>, names: set<string>,
                  name: string)
    requires ValidHeaders(m.headers) && Partial(c, m, stamp, h, done, names) && name in m.headers
    ensures Partial(c, m, stamp, Set(h, name, m.headers[name]), done, names + {name})
  {
    var h' := Set(h, name, m.headers[name]);
    forall f: Field
      ensures Canon(name) != Key(f)
    {
      CustomKeysDiffer(m, name, f);
    }
    hide FieldValue, ValidHeaders, Canon, Key;
    forall k | k in h'
      ensures FromField(c, m, stamp, done, k) || FromCustom(m, h', names + {name}, k)
    {
      if k == Canon(name) {
        assert name in names + {name};
      } else if !FromField(c, m, stamp, done, k) {
        var other :| other in names && other in m.headers && k == Canon(other) && h[k] == m.headers[other];
        assert other in names + {name};
      }
    }
  }

  lemma AllSet(c: Codecs, m: Message, stamp: Stamp, h: map<string, string>, done: set<Field>, names: set<string>)
    requires Partial(c, m, stamp, h, done, names)
    requires forall f: Field :: f in done
    requires names == m.headers.Keys
    ensures Composed(c, m, stamp, h)
  {
    hide FieldValue, Canon, Key;
    forall k | k in h
      ensures OwnKey(c, m, stamp, k) || CustomKey(m, h, k)
    {
      if FromField(c, m, stamp, done, k) {
        var f: Field :| f in done && FieldValue(c, m, stamp, f).Some? && k == Key(f);
      } else {
        var name :| name in names && name in m.headers && k == Canon(name) && h[k] == m.headers[name];
      }
    }
  }

  /** The header part of writeMIME.  Custom headers come after the composer's addressing fields, in no fixed order;
      the content fields come last. */
  method ComposeHeaders(c: Codecs, m: Message, stamp: Stamp) returns (headers: map<string, string>)
    requires ValidHeaders(m.headers)
    ensures Composed(c, m, stamp, headers)
  {
    hide ValidHeaders, Partial, Set, JoinAddresses, MixedType, AlternativeType, TextType, Composed;
    ghost var done: set<Field>;
    headers, done := SetAddressing(c, m, stamp);
    headers, done := SetIdentity(c, m, stamp, headers, done);
    headers := SetCustomHeaders(c, m, stamp, headers, done);
    SetField(c, m, stamp, headers, done, m.headers.Keys, ContentType);
    if |m.attachments| > 0 {
      headers := Set(headers, "Content-Type", MixedType(stamp.mixed));
    } else if Both(m) {
      headers := Set(headers, "Content-Type", AlternativeType(stamp.alternative));
    } else {
      headers := Set(headers, "Content-Type", TextType(m.html != ""));
    }
    done := done + {ContentType};
    SetField(c, m, stamp, headers, done, m.headers.Keys, ContentTransferEncoding);
    if |m.attachments| == 0 && !Both(m) {
      headers := Set(headers, "Content-Transfer-Encoding", "quoted-printable");
    }
    done := done + {ContentTransferEncoding};
    forall f: Field
      ensures f in done
    {
      assert f.From? || f.To? || f.Cc? || f.ReplyTo? || f.Subject? || f.Date? || f.MessageID? || f.MIMEVersion?
             || f.ContentType? || f.ContentTransferEncoding?;
    }
    AllSet(c, m, stamp, headers, done, m.headers.Keys);
  }

  /** The address fields. */
  method SetAddressing(c: Codecs, m: Message, stamp: Stamp)
    returns (headers: map<string, string>, ghost done: set<Field>)
    requires ValidHeaders(m.headers)
    ensures Partial(c, m, stamp, headers, done, {})
    ensures done == {From, To, Cc, ReplyTo}
  {
    hide ValidHeaders, Partial, Set, JoinAddresses;
    headers, done := map[], {};
    NothingSet(c, m, stamp);
    SetField(c, m, stamp, headers, done, {}, From);
    headers := Set(headers, "From", c.format(m.from));
    done := done + {From};
    SetField(c, m, stamp, headers, done, {}, To);
    headers := Set(headers, "To", JoinAddresses(c, m.to));
    done := done + {To};
    SetField(c, m, stamp, headers, done, {}, Cc);
    if |m.cc| > 0 {
      headers := Set(headers, "Cc", JoinAddresses(c, m.cc));
    }
    done := done + {Cc};
    SetField(c, m, stamp, headers, done, {}, ReplyTo);
    if |m.replyTo| > 0 {
      headers := Set(headers, "Reply-To", JoinAddresses(c, m.replyTo));
    }
    done := done + {ReplyTo};
  }

  /** The fields that identify the message. */
  method SetIdentity(c: Codecs, m: Message, stamp: Stamp, base: map<string, string>, ghost before: set<Field>)
    returns (headers: map<string, string>, ghost done: set<Field>)
    requires ValidHeaders(m.headers) && Partial(c, m, stamp, base, before, {})
    ensures Partial(c, m, stamp, headers, done, {})
    ensures done == before + {Subject, Date, MessageID, MIMEVersion}
  {
    hide ValidHeaders, Partial, Set;
    headers, done := base, before;
    SetField(c, m, stamp, headers, done, {}, Subject);
    headers := Set(headers, "Subject", c.encodeWord(m.subject));
    done := done + {Subject};
    SetField(c, m, stamp, headers, done, {}, Date);
    headers := Set(headers, "Date", stamp.date);
    done := done + {Date};
    SetField(c, m, stamp, headers, done, {}, MessageID);
    headers := Set(headers, "Message-ID", stamp.messageID);
    done := done + {MessageID};
    SetField(c, m, stamp, headers, done, {}, MIMEVersion);
    headers := Set(headers, "MIME-Version", "1.0");
    done := done + {MIMEVersion};
  }

  lemma NothingSet(c: Codecs, m: Message, stamp: Stamp)
    ensures Partial(c, m, stamp, map[], {}, {})
  {
  }

  /** The range over the custom headers, in whatever order the map yields them. */
  method SetCustomHeaders(c: Codecs, m: Message, stamp: Stamp, base: map<string, string>, ghost done: set<Field>)
    returns (headers: map<string, string>)
    requires ValidHeaders(m.headers) && Partial(c, m, stamp, base, done, {})
    ensures Partial(c, m, stamp, headers, done, m.headers.Keys)
  {
    hide ValidHeaders, Partial, Set;
    headers := base;
    var rest := m.headers.Keys;
    assert m.headers.Keys - rest == {};
    while rest != {}
      invariant rest <= m.headers.Keys
      invariant Partial(c, m, stamp, headers, done, m.headers.Keys - rest)
      decreases rest
    {
      var name :| name in rest;
      SetCustom(c, m, stamp, headers, done, m.headers.Keys - rest, name);
      headers := Set(headers, name, m.headers[name]);
      assert m.headers.Keys - rest + {name} == m.headers.Keys - (rest - {name});
      rest := rest - {name};
    }
    assert m.headers.Keys - rest == m.headers.Keys;
  }

  lemma {:induction false} BlockSnoc(lines: seq<string>, last: string)
    ensures Block(lines + [last]) == Block(lines) + (last + CRLF)
  {
    if lines == [] {
      assert [last][1..] == [];
      assert lines + [last] == [last];
    } else {
      BlockSnoc(lines[1..], last);
      assert (lines + [last])[1..] == lines[1..] + [last];
    }
  }

  /** writeHeaders: one line per entry, in whatever order the map yields them, then an empty line. */
  method WriteHeaders(sink: Sink, headers: map<string, string>) returns (failed: bool, ghost order: seq<string>)
    modifies sink
    ensures !failed ==> Enumerates(order, headers)
                        && sink.Out() == old(sink.Out()) + (Block(HeaderLinesOf(headers, order)) + CRLF)
    ensures old(sink.faults) == [] ==> !failed && sink.faults == []
  {
    hide Line, Block;
    order, failed := [], false;
    var rest := headers.Keys;
    BlockEmpty();
    assert HeaderLinesOf(headers, order) == [];
    while rest != {}
      invariant rest <= headers.Keys
      invariant forall i, j :: 0 <= i < j < |order| ==> order[i] != order[j]
      invariant forall k :: k in order <==> k in headers && k !in rest
      invariant sink.Out() == old(sink.Out()) + Block(HeaderLinesOf(headers, order))
      invariant old(sink.faults) == [] ==> sink.faults == []
      decreases rest
    {
      var name :| name in rest;
      var line := Line(name, headers[name]);
      var n, err := sink.Write(line + CRLF);
      if err {
        return true, order;
      }
      assert (line + CRLF)[..n] == line + CRLF;
      ghost var before := HeaderLinesOf(headers, order);
      BlockSnoc(before, line);
      assert HeaderLinesOf(headers, order + [name]) == before + [line];
      Regroup(old(sink.Out()), Block(before), line + CRLF);
      order := order + [name];
      rest := rest - {name};
    }
    var n, err := sink.Write(CRLF);
    failed := err;
    if !failed {
      assert CRLF[..n] == CRLF;
      Regroup(old(sink.Out()), Block(HeaderLinesOf(headers, order)), CRLF);
    }
  }

  lemma BlockEmpty()
    ensures Block([]) == ""
  {
  }

  // ------------------------------------------------------------------
  // Parts
  // ------------------------------------------------------------------

  /** multipart.Writer.  `parts` are the texts of the parts completed, `start` what the stream held before. */
  class MultipartWriter {
    const sink: Sink
    const boundary: string
    var started: bool
    ghost var parts: seq<string>
    ghost const start: string

    ghost predicate Framed()
      reads this, sink
    {
      started == (parts != []) && sink.Out() == start + PartsText(boundary, parts)
    }

    constructor (sink: Sink, boundary: string)
      ensures fresh(this) && this.sink == sink && this.boundary == boundary
      ensures Framed() && parts == [] && start == sink.Out()
    {
      this.sink, this.boundary := sink, boundary;
      started, parts, start := false, [], sink.Out();
    }

    /** The opening delimiter and the header of the next part. */
    method CreatePart(headers: seq<string>) returns (failed: bool)
      requires Framed()
      modifies this, sink
      ensures started && parts == old(parts)
      ensures !failed ==> sink.Out() == old(sink.Out()) + (Opening(boundary, parts == []) + (Block(headers) + CRLF))
      ensures old(sink.faults) == [] ==> !failed && sink.faults == []
    {
      var text := Opening(boundary, !started) + (Block(headers) + CRLF);
      var n, err := sink.Write(text);
      assert !err ==> text[..n] == text;
      started := true;
      failed := err;
    }

    /** The part opened last is complete: `text` is all of it. */
    ghost method Complete(text: string)
      requires started && sink.Out() == start + PartsText(boundary, parts) + (Opening(boundary, parts == []) + text)
      modifies this
      ensures Framed() && parts == old(parts) + [text] && started
    {
      PartsSnoc(boundary, parts, text);
      Regroup(start, PartsText(boundary, parts), Opening(boundary, parts == []) + text);
      parts := parts + [text];
    }

    method Close() returns (failed: bool)
      requires Framed()
      modifies sink
      ensures !failed ==> sink.Out() == start + MultipartText(boundary, parts)
      ensures old(sink.faults) == [] ==> !failed && sink.faults == []
    {
      var n, err := sink.Write(Closing(boundary));
      assert !err ==> Closing(boundary)[..n] == Closing(boundary);
      Regroup(start, PartsText(boundary, parts), Closing(boundary));
      failed := err;
    }
  }

  lemma PartsSnoc(boundary: string, parts: seq<string>, text: string)
    ensures PartsText(boundary, parts + [text]) == PartsText(boundary, parts) + (Opening(boundary, parts == []) + text)
  {
    assert (parts + [text])[..|parts|] == parts;
    Regroup(PartsText(boundary, parts), Opening(boundary, parts == []), text);
  }

  /** How the pieces written for one part add up to it. */
  lemma PartAddsUp(before: string, opening: string, head: string, body: string)
    ensures before + (opening + head) + body == before + (opening + (head + body))
  {
  }

  /** copyWithContext from a text: a check of the context and a read, turn by turn. */
  method CopyText(body: string, done: Option<nat>) returns (taken: string, failed: bool)
    ensures failed == Interrupted(body, done) && taken == Taken(body, done)
  {
    var turn, pos := 0, 0;
    taken := "";
    while true
      invariant 0 <= turn && pos == (if turn * BUFFER <= |body| then turn * BUFFER else |body|)
      invariant turn > 0 ==> (turn - 1) * BUFFER < |body|
      invariant taken == body[..pos] && (done.Some? ==> turn <= done.value)
      decreases |body| - pos
    {
      if done == Some(turn) {
        return taken, true;
      }
      if pos == |body| {
        return taken, false;
      }
      var n := if |body| - pos < BUFFER then |body| - pos else BUFFER;
      assert body[..pos + n] == body[..pos] + body[pos..pos + n];
      taken := taken + body[pos..pos + n];
      pos := pos + n;
      turn := turn + 1;
    }
  }

  /** writeTextPart */
  method WriteTextPart(writer: MultipartWriter, c: Codecs, html: bool, body: string, done: Option<nat>)
    returns (failed: bool)
    requires writer.Framed()
    modifies writer, writer.sink
    ensures !failed ==> !Interrupted(body, done) && writer.Framed()
                        && writer.parts == old(writer.parts) + [Render(TextLeaf(c, html, body))]
    ensures old(writer.sink.faults) == [] ==>
              && failed == Interrupted(body, done) && writer.sink.faults == [] && writer.Framed()
              && writer.parts == old(writer.parts) + [Render(TextLeaf(c, html, Taken(body, done)))]
  {
    hide Opening, Block, TextHeaders, PartsText, Interrupted, Taken;
    ghost var before := writer.sink.Out();
    failed := writer.CreatePart(TextHeaders(html));
    if failed {
      return;
    }
    var taken, interrupted := CopyText(body, done);
    var n, err := writer.sink.Write(c.quotedPrintable(taken));
    if err {
      return true;
    }
    assert c.quotedPrintable(taken)[..n] == c.quotedPrintable(taken);
    PartAddsUp(before, Opening(writer.boundary, writer.parts == []), Block(TextHeaders(html)) + CRLF,
               c.quotedPrintable(taken));
    writer.Complete(Render(TextLeaf(c, html, taken)));
    failed := interrupted;
    if !failed {
      TakenWhole(body, done);
    }
  }

  /** writeAlternative */
  method WriteAlternative(writer: MultipartWriter, c: Codecs, m: Message, ctx: Context) returns (failed: bool)
    requires writer.Framed() && writer.parts == []
    modifies writer, writer.sink
    ensures !failed ==> !Interrupted(m.text, ctx.text) && !Interrupted(m.html, ctx.html)
                        && writer.Framed() && writer.parts == RenderAll(Alternatives(c, m))
    ensures old(writer.sink.faults) == [] ==>
              && failed == (Interrupted(m.text, ctx.text) || Interrupted(m.html, ctx.html))
              && writer.sink.faults == [] && writer.Framed() && writer.parts == AlternativeTexts(c, m, ctx)
  {
    hide Render, TextLeaf, Interrupted, Taken, MultipartWriter.Framed;
    failed := WriteTextPart(writer, c, false, m.text, ctx.text);
    if failed {
      return;
    }
    failed := WriteTextPart(writer, c, true, m.html, ctx.html);
    ghost var both := Alternatives(c, m);
    RenderAllAt(both);
    assert RenderAll(both) == [Render(both[0])] + [Render(both[1])];
  }

  /** writeBodyParts */
  method WriteBodyParts(mixed: MultipartWriter, c: Codecs, stamp: Stamp, m: Message, ctx: Context)
    returns (failed: bool)
    requires mixed.Framed()
    modifies mixed, mixed.sink
    ensures !failed ==> !TextsInterrupted(m, ctx) && mixed.Framed()
                        && mixed.parts == old(mixed.parts) + [Render(BodyEntity(c, m, stamp))]
    ensures old(mixed.sink.faults) == [] ==>
              && failed == TextsInterrupted(m, ctx) && mixed.sink.faults == [] && mixed.Framed()
              && mixed.parts == old(mixed.parts) + [BodyText(c, m, stamp, ctx)]
  {
    hide Opening, Block, AlternativeHeaders, Alternatives, TextLeaf, PartsText, RenderAll, MultipartText, Interrupted,
      AlternativeTexts, Taken;
    if Both(m) {
      ghost var before, opening := mixed.sink.Out(), Opening(mixed.boundary, mixed.parts == []);
      ghost var head := Block(AlternativeHeaders(stamp)) + CRLF;
      failed := mixed.CreatePart(AlternativeHeaders(stamp));
      if failed {
        return;
      }
      var alternative := new MultipartWriter(mixed.sink, stamp.alternative);
      failed := WriteAlternative(alternative, c, m, ctx);
      if failed {
        if old(mixed.sink.faults) == [] {
          ghost var cut := PartsText(stamp.alternative, AlternativeTexts(c, m, ctx));
          PartAddsUp(before, opening, head, cut);
          mixed.Complete(head + cut);
        }
        return;
      }
      failed := alternative.Close();
      if !failed {
        PartAddsUp(before, opening, head, MultipartText(stamp.alternative, RenderAll(Alternatives(c, m))));
        mixed.Complete(Render(BodyEntity(c, m, stamp)));
      }
    } else {
      var html, body, done := false, m.text, ctx.text;
      if m.html != "" {
        html, body, done := true, m.html, ctx.html;
      }
      failed := WriteTextPart(mixed, c, html, body, done);
    }
  }

  /** A factory whose reader keeps to the io.Reader contract. */
  ghost predicate Readable(a: AttachmentSource) {
    !a.open.Missing? && (a.open.Opens? ==> ValidScript(a.open.script))
  }

  /** writeAttachment.  The reader, once opened, is closed on every path, and what it delivers is put out even if it
      fails. */
  method WriteAttachment(writer: MultipartWriter, c: Codecs, a: AttachmentSource)
    returns (failed: bool, reader: Reader?)
    requires writer.Framed() && Readable(a)
    modifies writer, writer.sink
    ensures (reader != null) == a.open.Opens? && (reader != null ==> fresh(reader) && reader.closed)
    ensures !failed ==> Deliverable(a) && writer.Framed()
                        && writer.parts == old(writer.parts) + [Render(AttachmentLeaf(c, a))]
    ensures old(writer.sink.faults) == [] ==>
              && failed == !Deliverable(a) && writer.sink.faults == [] && writer.Framed()
              && writer.parts == old(writer.parts) + if a.open.Opens? then [Render(AttachmentLeaf(c, a))] else []
  {
    hide Opening, Block, AttachmentHeaders, PartsText, A.Body;
    reader := null;
    if a.open.Fails? {
      return true, null;
    }
    var body := new Reader(a.open.script);
    reader := body;
    ghost var before := writer.sink.Out();
    failed := writer.CreatePart(AttachmentHeaders(c, a));
    if !failed {
      failed := A.WriteBody(writer.sink, body);
      if !failed || old(writer.sink.faults) == [] {
        PartAddsUp(before, Opening(writer.boundary, writer.parts == []), Block(AttachmentHeaders(c, a)) + CRLF,
                   A.Body(Contents(a)));
        writer.Complete(Render(AttachmentLeaf(c, a)));
      }
    }
    body.Close();
  }

  ghost predicate AllReadable(m: Message) {
    forall i :: 0 <= i < |m.attachments| ==> Readable(m.attachments[i])
  }

  /** Every reader opened so far is closed. */
  ghost predicate AllClosed(readers: seq<Reader>)
    reads readers
  {
    forall i :: 0 <= i < |readers| ==> readers[i].closed
  }

  lemma {:induction false} RenderAllSnoc(parts: seq<Entity>, last: Entity)
    ensures RenderAll(parts + [last]) == RenderAll(parts) + [Render(last)]
  {
    hide Render;
    RenderAllAt(parts);
    RenderAllAt(parts + [last]);
  }

  lemma LeafAdded(c: Codecs, sources: seq<AttachmentSource>, k: nat, body: Entity)
    requires k < |sources|
    ensures RenderAll([body] + AttachmentLeaves(c, sources[..k + 1]))
            == RenderAll([body] + AttachmentLeaves(c, sources[..k])) + [Render(AttachmentLeaf(c, sources[k]))]
  {
    hide Render, RenderAll, AttachmentLeaf;
    var leaves := AttachmentLeaves(c, sources[..k]);
    RenderAllSnoc([body] + leaves, AttachmentLeaf(c, sources[k]));
    assert AttachmentLeaves(c, sources[..k + 1]) == leaves + [AttachmentLeaf(c, sources[k])];
    Regroup([body], leaves, [AttachmentLeaf(c, sources[k])]);
  }

  /** The loop over the attachments. */
  method WriteAttachments(mixed: MultipartWriter, c: Codecs, sources: seq<AttachmentSource>, ghost body: Entity)
    returns (failed: bool, readers: seq<Reader>)
    requires mixed.Framed() && mixed.parts == RenderAll([body])
    requires forall i :: 0 <= i < |sources| ==> Readable(sources[i])
    modifies mixed, mixed.sink
    ensures fresh(readers) && AllClosed(readers)
    ensures !failed ==> mixed.Framed() && mixed.parts == RenderAll([body] + AttachmentLeaves(c, sources))
                        && |readers| == |sources|
    ensures !failed ==> forall i :: 0 <= i < |sources| ==> Deliverable(sources[i])
    ensures old(mixed.sink.faults) == [] ==>
              && (failed <==> exists i :: 0 <= i < |sources| && !Deliverable(sources[i])) && mixed.sink.faults == []
              && (failed ==> mixed.Framed()
                             && mixed.parts == RenderAll([body] + AttachmentLeaves(c, sources[..Reached(sources)])))
  {
    hide RenderAll, Delivered, Readable, Render, AttachmentLeaf, AttachmentLeaves, MultipartWriter.Framed, Reached;
    failed, readers := false, [];
    var k := 0;
    assert [body] + AttachmentLeaves(c, sources[..0]) == [body];
    while k < |sources|
      invariant 0 <= k <= |sources| && |readers| == k && !failed
      invariant mixed.Framed() && mixed.parts == RenderAll([body] + AttachmentLeaves(c, sources[..k]))
      invariant fresh(readers) && AllClosed(readers)
      invariant forall i :: 0 <= i < k ==> Deliverable(sources[i])
      invariant old(mixed.sink.faults) == [] ==> mixed.sink.faults == []
    {
      ghost var parts := mixed.parts;
      var err, reader := WriteAttachment(mixed, c, sources[k]);
      if reader != null {
        readers := readers + [reader];
      }
      LeafAdded(c, sources, k, body);
      if err {
        if old(mixed.sink.faults) == [] {
          ReachedStops(sources, k);
          assert parts + [] == parts;
        }
        return true, readers;
      }
      k := k + 1;
    }
    assert sources[..k] == sources;
  }

  /** writeMIME, into the stream: the headers in some order of the map, then the parts, then a flush.  On success
      the stream has grown by exactly the text of the message's tree; where the message alone is to blame for a
      failure, by exactly the part composed. */
  method WriteMIME(c: Codecs, m: Message, stamp: Stamp, ctx: Context, sink: Sink)
    returns (failed: bool, readers: seq<Reader>, ghost headers: map<string, string>, ghost order: seq<string>)
    requires ValidMessage(c, m) && AllReadable(m)
    modifies sink
    ensures fresh(readers) && AllClosed(readers)
    ensures !failed ==> Composable(m, ctx) && |readers| == |m.attachments|
    ensures !failed ==> Composed(c, m, stamp, headers) && Enumerates(order, headers)
                        && sink.Out() == old(sink.Out()) + Render(TreeOf(c, m, stamp, HeaderLinesOf(headers, order)))
    ensures old(sink.faults) == [] ==>
              && failed == !Composable(m, ctx) && Composed(c, m, stamp, headers) && Enumerates(order, headers)
              && (failed ==>
                    sink.Out() == old(sink.Out()) + CutText(c, m, stamp, ctx, HeaderLinesOf(headers, order)))
  {
    hide Composed, Block, Line, HeaderLinesOf, Render, TreeOf, CutText, CutBody, Composable, TextsInterrupted,
      AllDeliverable, ValidMessage, AllReadable;
    readers := [];
    HeadersOk(c, m);
    var composed := ComposeHeaders(c, m, stamp);
    headers := composed;
    failed, order := WriteHeaders(sink, composed);
    if failed {
      return;
    }
    ghost var before, top := old(sink.Out()), HeaderLinesOf(headers, order);
    ghost var head, content := Block(top) + CRLF, sink.Out();
    failed, readers, content := WriteContent(c, m, stamp, ctx, sink);
    if failed {
      if old(sink.faults) == [] {
        Regroup(before, head, content);
        CutTextIsHead(c, m, stamp, ctx, top);
      }
      return;
    }
    Regroup(before, head, content);
    var n, err := sink.Write(""); // Flush
    failed := err;
    assert sink.Out() == before + head + content + "";
    WholeIsHead(c, m, stamp, top);
  }

  lemma HeadersOk(c: Codecs, m: Message)
    requires ValidMessage(c, m)
    ensures ValidHeaders(m.headers)
  {
    hide ValidHeaders, ValidAddress, ValidAddresses;
  }

  /** What follows the header of a message that is composed whole. */
  function WholeBody(c: Codecs, m: Message, stamp: Stamp): string {
    if |m.attachments| > 0 then
      MultipartText(stamp.mixed, RenderAll([BodyEntity(c, m, stamp)] + AttachmentLeaves(c, m.attachments)))
    else if Both(m) then MultipartText(stamp.alternative, RenderAll(Alternatives(c, m)))
    else c.quotedPrintable(if m.html != "" then m.html else m.text)
  }

  lemma WholeIsHead(c: Codecs, m: Message, stamp: Stamp, top: seq<string>)
    ensures Render(TreeOf(c, m, stamp, top)) == Block(top) + CRLF + WholeBody(c, m, stamp)
  {
    hide Block, MultipartText, RenderAll, BodyEntity, AttachmentLeaves, Alternatives;
  }

  lemma CutTextIsHead(c: Codecs, m: Message, stamp: Stamp, ctx: Context, top: seq<string>)
    ensures CutText(c, m, stamp, ctx, top) == Block(top) + CRLF + CutBody(c, m, stamp, ctx)
  {
    hide Block, CutBody;
  }

  lemma SourcesReadable(m: Message)
    requires AllReadable(m)
    ensures forall i :: 0 <= i < |m.attachments| ==> Readable(m.attachments[i])
  {
    hide Readable;
  }

  /** The part of writeMIME after the headers: the parts, or the one text. */
  method WriteContent(c: Codecs, m: Message, stamp: Stamp, ctx: Context, sink: Sink)
    returns (failed: bool, readers: seq<Reader>, ghost content: string)
    requires AllReadable(m)
    modifies sink
    ensures fresh(readers) && AllClosed(readers)
    ensures !failed ==> Composable(m, ctx) && |readers| == |m.attachments| && content == WholeBody(c, m, stamp)
                        && sink.Out() == old(sink.Out()) + content
    ensures old(sink.faults) == [] ==>
              && failed == !Composable(m, ctx) && sink.faults == []
              && (failed ==> content == CutBody(c, m, stamp, ctx) && sink.Out() == old(sink.Out()) + content)
  {
    hide Readable, AllReadable, RenderAll, MultipartText, PartsText, BodyEntity, AttachmentLeaves, Alternatives,
      Deliverable, Interrupted, Taken, BodyText, AlternativeTexts, Reached, AllClosed, Render, Block;
    readers, content := [], "";
    NothingOpened();
    if |m.attachments| > 0 {
      var mixed := new MultipartWriter(sink, stamp.mixed);
      failed := WriteBodyParts(mixed, c, stamp, m, ctx);
      if failed {
        content := CutBody(c, m, stamp, ctx);
        assert [] + [BodyText(c, m, stamp, ctx)] == [BodyText(c, m, stamp, ctx)];
        return;
      }
      SourcesReadable(m);
      ghost var first := BodyEntity(c, m, stamp);
      RenderOne(first);
      failed, readers := WriteAttachments(mixed, c, m.attachments, first);
      if failed {
        content := CutBody(c, m, stamp, ctx);
        return;
      }
      failed := mixed.Close();
      content := WholeBody(c, m, stamp);
    } else if Both(m) {
      var alternative := new MultipartWriter(sink, stamp.alternative);
      failed := WriteAlternative(alternative, c, m, ctx);
      if failed {
        content := CutBody(c, m, stamp, ctx);
        return;
      }
      failed := alternative.Close();
      content := WholeBody(c, m, stamp);
    } else {
      var text, done := m.text, ctx.text;
      if m.html != "" {
        text, done := m.html, ctx.html;
      }
      var taken, interrupted := CopyText(text, done);
      content := c.quotedPrintable(taken);
      var n, err := sink.Write(c.quotedPrintable(taken));
      failed := interrupted || err;
      assert !err ==> content[..n] == content;
      if !interrupted {
        TakenWhole(text, done);
      }
    }
  }

  lemma NothingOpened()
    ensures AllClosed([])
  {
  }

  lemma RenderOne(e: Entity)
    ensures [] + [Render(e)] == RenderAll([e])
  {
    assert RenderAll([e]) == [Render(e)] + RenderAll([]);
  }
}
