/** How much of a message writeMIME (emailx/smtp.go) has composed when it
    fails, and what a reader makes of any part of that. */
module Truncation {
  import opened Text
  import opened Stream
  import opened MimeTree
  import opened Email
  import opened Compose

  // ------------------------------------------------------------------
  // Texts
  // ------------------------------------------------------------------

  /** At which turn of the loop that copies each text the context is found done, if at all. */
  datatype Context = Context(text: Option<nat>, html: Option<nat>)

  /** Every turn but the last reads a piece as long as the buffer, or the rest; the last finds the end. */
  predicate Interrupted(body: string, done: Option<nat>) {
    done.Some? && (done.value == 0 || (done.value - 1) * 32768 < |body|)
  }

  /** What has been copied of a text. */
  function Taken(body: string, done: Option<nat>): string {
    if done.Some? && done.value * 32768 <= |body| then body[..done.value * 32768] else body
  }

  predicate TextsInterrupted(m: Message, ctx: Context) {
    if Both(m) then Interrupted(m.text, ctx.text) || Interrupted(m.html, ctx.html)
    else if m.html != "" then Interrupted(m.html, ctx.html)
    else Interrupted(m.text, ctx.text)
  }

  lemma TakenWhole(body: string, done: Option<nat>)
    requires !Interrupted(body, done)
    ensures Taken(body, done) == body
  {
  }

  // ------------------------------------------------------------------
  // Attachments
  // ------------------------------------------------------------------

  /** The attachment opens and can be read to its end. */
  predicate Deliverable(a: AttachmentSource) {
    a.open.Opens? && Delivered(a.open.script).complete
  }

  predicate AllDeliverable(m: Message) {
    forall i :: 0 <= i < |m.attachments| ==> Deliverable(m.attachments[i])
  }

  /** The whole message can be composed. */
  predicate Composable(m: Message, ctx: Context) {
    !TextsInterrupted(m, ctx) && AllDeliverable(m)
  }

  /** How many attachments are begun: those before the first that cannot be delivered, and that one if it opens. */
  function Reached(sources: seq<AttachmentSource>): (n: nat)
    ensures n <= |sources|
  {
    if sources == [] || !sources[0].open.Opens? then 0
    else if Deliverable(sources[0]) then 1 + Reached(sources[1..])
    else 1
  }

  lemma {:induction false} ReachedStops(sources: seq<AttachmentSource>, k: nat)
    requires k < |sources| && !Deliverable(sources[k]) && forall i :: 0 <= i < k ==> Deliverable(sources[i])
    ensures Reached(sources) == if sources[k].open.Opens? then k + 1 else k
  {
    if k > 0 {
      ReachedStops(sources[1..], k - 1);
    }
  }

  // ------------------------------------------------------------------
  // What has been composed
  // ------------------------------------------------------------------

  function PlainText(c: Codecs, m: Message, ctx: Context): string {
    Render(TextLeaf(c, false, Taken(m.text, ctx.text)))
  }

  function HtmlText(c: Codecs, m: Message, ctx: Context): string {
    Render(TextLeaf(c, true, Taken(m.html, ctx.html)))
  }

  /** The alternatives as far as they go. */
  function AlternativeTexts(c: Codecs, m: Message, ctx: Context): seq<string> {
    if Interrupted(m.text, ctx.text) then [PlainText(c, m, ctx)] else [PlainText(c, m, ctx), HtmlText(c, m, ctx)]
  }

  /** The part of a mixed message that holds its text, as far as it goes. */
  function BodyText(c: Codecs, m: Message, stamp: Stamp, ctx: Context): string {
    if !TextsInterrupted(m, ctx) then Render(BodyEntity(c, m, stamp))
    else if Both(m) then
      Block(AlternativeHeaders(stamp)) + CRLF + PartsText(stamp.alternative, AlternativeTexts(c, m, ctx))
    else if m.html != "" then HtmlText(c, m, ctx)
    else PlainText(c, m, ctx)
  }

  predicate IsMulti(m: Message) {
    |m.attachments| > 0 || Both(m)
  }

  /** The boundary of the outermost multipart. */
  function Outer(m: Message, stamp: Stamp): string {
    if |m.attachments| > 0 then stamp.mixed else stamp.alternative
  }

  /** The parts of the outermost multipart, as far as they go. */
  function PartTexts(c: Codecs, m: Message, stamp: Stamp, ctx: Context): seq<string> {
    if |m.attachments| == 0 then AlternativeTexts(c, m, ctx)
    else if TextsInterrupted(m, ctx) then [BodyText(c, m, stamp, ctx)]
    else RenderAll([BodyEntity(c, m, stamp)] + AttachmentLeaves(c, m.attachments[..Reached(m.attachments)]))
  }

  /** What follows the header of a message that could not be composed: no multipart is closed. */
  function CutBody(c: Codecs, m: Message, stamp: Stamp, ctx: Context): string {
    if IsMulti(m) then PartsText(Outer(m, stamp), PartTexts(c, m, stamp, ctx))
    else c.quotedPrintable(if m.html != "" then Taken(m.html, ctx.html) else Taken(m.text, ctx.text))
  }

  function CutText(c: Codecs, m: Message, stamp: Stamp, ctx: Context, top: seq<string>): string {
    Block(top) + CRLF + CutBody(c, m, stamp, ctx)
  }

  // ------------------------------------------------------------------
  // No line of it is a closing delimiter
  // ------------------------------------------------------------------

  function CloseLine(boundary: string): string {
    Delimiter(boundary) + "--"
  }

  /** No line starts as the closing delimiter does. */
  predicate Open(boundary: string, lines: seq<string>) {
    forall i :: 0 <= i < |lines| ==> !HasPrefix(lines[i], CloseLine(boundary))
  }

  lemma CleanIsOpen(boundary: string, lines: seq<string>)
    requires Clean(boundary, lines)
    ensures Open(boundary, lines)
  {
    forall i | 0 <= i < |lines|
      ensures !HasPrefix(lines[i], CloseLine(boundary))
    {
      assert !IsDelimiter(boundary, lines[i]);
      if HasPrefix(lines[i], CloseLine(boundary)) {
        PrefixOfPrefix(lines[i], Delimiter(boundary), "--");
      }
    }
  }

  lemma PrefixOfPrefix(s: string, a: string, b: string)
    requires HasPrefix(s, a + b)
    ensures HasPrefix(s, a)
  {
    assert s[..|a + b|][..|a|] == s[..|a|];
    assert (a + b)[..|a|] == a;
  }

  lemma OpenConcat(boundary: string, a: seq<string>, b: seq<string>)
    requires Open(boundary, a) && Open(boundary, b)
    ensures Open(boundary, a + b)
  {
    hide CloseLine, HasPrefix;
  }

  lemma DelimiterIsOpen(boundary: string)
    ensures Open(boundary, [Delimiter(boundary)])
  {
    assert |CloseLine(boundary)| > |Delimiter(boundary)|;
  }

  lemma {:induction false} PartLinesAreOpen(boundary: string, parts: seq<seq<string>>)
    requires forall i :: 0 <= i < |parts| ==> Clean(boundary, parts[i])
    ensures Open(boundary, PartLines(boundary, parts))
  {
    hide Open, Clean, Delimiter;
    if parts == [] {
      NothingIsOpen(boundary);
    } else {
      PartLinesAreOpen(boundary, parts[1..]);
      DelimiterIsOpen(boundary);
      CleanIsOpen(boundary, parts[0]);
      OpenConcat(boundary, [Delimiter(boundary)], parts[0]);
      OpenConcat(boundary, [Delimiter(boundary)] + parts[0], PartLines(boundary, parts[1..]));
    }
  }

  lemma NothingIsOpen(boundary: string)
    ensures Open(boundary, [])
  {
  }

  /** What has been copied of the texts is as clear of the boundary as the whole texts are. */
  predicate TakenClean(c: Codecs, m: Message, ctx: Context, boundary: string) {
    && Clean(boundary, Lines(c.quotedPrintable(Taken(m.text, ctx.text))))
    && Clean(boundary, Lines(c.quotedPrintable(Taken(m.html, ctx.html))))
  }

  lemma LeafIsClean(c: Codecs, boundary: string, html: bool, body: string)
    requires Clean(boundary, Lines(c.quotedPrintable(body)))
    ensures Clean(boundary, Lines(Render(TextLeaf(c, html, body))))
  {
    hide Clean, Lines, Render, TextLeaf, WellFramed;
    TextFits(c, boundary, html, body);
  }

  predicate AllClean(boundary: string, texts: seq<string>) {
    forall i :: 0 <= i < |texts| ==> Clean(boundary, Lines(texts[i]))
  }

  lemma AlternativesClean(c: Codecs, m: Message, ctx: Context, boundary: string)
    requires TakenClean(c, m, ctx, boundary)
    ensures AllClean(boundary, AlternativeTexts(c, m, ctx))
    ensures Clean(boundary, Lines(PlainText(c, m, ctx))) && Clean(boundary, Lines(HtmlText(c, m, ctx)))
  {
    hide Clean, Lines, Render, TextLeaf, Taken;
    LeafIsClean(c, boundary, false, Taken(m.text, ctx.text));
    LeafIsClean(c, boundary, true, Taken(m.html, ctx.html));
  }

  lemma CutAlternativeClean(c: Codecs, m: Message, stamp: Stamp, ctx: Context)
    requires Framable(c, m, stamp) && TakenClean(c, m, ctx, stamp.mixed)
    ensures Clean(stamp.mixed, Lines(Block(AlternativeHeaders(stamp)) + CRLF
                                     + PartsText(stamp.alternative, AlternativeTexts(c, m, ctx))))
  {
    var texts := AlternativeTexts(c, m, ctx);
    assert |texts| > 0;
    AlternativesClean(c, m, ctx, stamp.mixed);
    AlternativeHeadersOk(stamp);
    BoundaryOneLine(stamp.alternative);
    hide Clean, Lines, AlternativeTexts, AlternativeHeaders, PartsText, PartLines, PartHeaders, TextsClean, BoundaryOf;
    LinesOfParts(stamp.alternative, texts);
    PartLinesAreClean(stamp.mixed, stamp.alternative, LinesAll(texts));
    PartIsClean(stamp.mixed, AlternativeHeaders(stamp), PartsText(stamp.alternative, texts));
  }

  lemma BodyTextClean(c: Codecs, m: Message, stamp: Stamp, ctx: Context)
    requires Framable(c, m, stamp) && |m.attachments| > 0 && (m.text != "" || m.html != "")
    requires TakenClean(c, m, ctx, stamp.mixed)
    ensures Clean(stamp.mixed, Lines(BodyText(c, m, stamp, ctx)))
  {
    hide Clean, Lines, Render, AlternativeTexts, PlainText, HtmlText, Framable, TakenClean, BodyEntity,
      AlternativeHeaders, WellFramed, Block, PartsText;
    if !TextsInterrupted(m, ctx) {
      BodyFits(c, m, stamp);
    } else if Both(m) {
      CutAlternativeClean(c, m, stamp, ctx);
    } else {
      AlternativesClean(c, m, ctx, stamp.mixed);
    }
  }

  lemma LeavesClean(c: Codecs, m: Message, stamp: Stamp, n: nat)
    requires Framable(c, m, stamp) && n <= |m.attachments|
    ensures AllClean(stamp.mixed, RenderAll(AttachmentLeaves(c, m.attachments[..n])))
  {
    var leaves := AttachmentLeaves(c, m.attachments[..n]);
    RenderAllAt(leaves);
    hide Clean, Lines, Render, AttachmentLeaf, WellFramed, TextsClean, Unbroken, IsBoundary;
    forall i | 0 <= i < n
      ensures Clean(stamp.mixed, Lines(RenderAll(leaves)[i]))
    {
      AttachmentFits(c, stamp.mixed, m.attachments[i]);
      assert leaves[i] == AttachmentLeaf(c, m.attachments[i]);
    }
  }

  lemma PartTextsClean(c: Codecs, m: Message, stamp: Stamp, ctx: Context)
    requires Framable(c, m, stamp) && IsMulti(m) && (m.text != "" || m.html != "")
    requires TakenClean(c, m, ctx, Outer(m, stamp))
    ensures AllClean(Outer(m, stamp), PartTexts(c, m, stamp, ctx)) && |PartTexts(c, m, stamp, ctx)| > 0
  {
    hide Clean, Lines, Render, Framable, TakenClean, BodyEntity, BodyText, AttachmentLeaf, PlainText, HtmlText;
    if |m.attachments| == 0 {
      AlternativesClean(c, m, ctx, stamp.alternative);
    } else if TextsInterrupted(m, ctx) {
      BodyTextClean(c, m, stamp, ctx);
    } else {
      var leaves := AttachmentLeaves(c, m.attachments[..Reached(m.attachments)]);
      BodyTextClean(c, m, stamp, ctx);
      BodyTextIs(c, m, stamp, ctx);
      LeavesClean(c, m, stamp, Reached(m.attachments));
      var first := BodyEntity(c, m, stamp);
      assert ([first] + leaves)[1..] == leaves;
      assert RenderAll([first] + leaves) == [Render(first)] + RenderAll(leaves);
    }
  }

  lemma BodyTextIs(c: Codecs, m: Message, stamp: Stamp, ctx: Context)
    requires !TextsInterrupted(m, ctx)
    ensures BodyText(c, m, stamp, ctx) == Render(BodyEntity(c, m, stamp))
  {
    hide Render, BodyEntity;
  }

  // ------------------------------------------------------------------
  // Parts of texts
  // ------------------------------------------------------------------

  /** The lines of the start of a text: whole lines of it, and a last one that is cut, perhaps within its CRLF. */
  predicate CutLines(cut: seq<string>, lines: seq<string>) {
    && 0 < |cut| <= |lines| && cut[..|cut| - 1] == lines[..|cut| - 1]
    && CutLine(cut[|cut| - 1], lines[|cut| - 1])
  }

  predicate CutLine(cut: string, line: string) {
    HasPrefix(line, cut) || cut == line + "\r"
  }

  lemma PrependCut(c: char, cut: seq<string>, lines: seq<string>)
    requires CutLines(cut, lines)
    ensures CutLines(PrependLine(c, cut), PrependLine(c, lines))
  {
    var k := |cut| - 1;
    var cut', lines' := PrependLine(c, cut), PrependLine(c, lines);
    if k == 0 {
      assert CutLine(cut[0], lines[0]);
      assert CutLine([c] + cut[0], [c] + lines[0]) by {
        if HasPrefix(lines[0], cut[0]) {
          assert ([c] + lines[0])[..|[c] + cut[0]|] == [c] + cut[0];
        } else {
          assert [c] + (lines[0] + "\r") == [c] + lines[0] + "\r";
        }
      }
      assert cut'[..0] == lines'[..0];
    } else {
      assert cut[0] == cut[..k][0] && lines[0] == lines[..k][0];
      assert cut'[k] == cut[k] && lines'[k] == lines[k];
      forall i | 0 <= i < k
        ensures cut'[i] == lines'[i]
      {
        assert cut[..k][i] == lines[..k][i];
      }
      assert cut'[..k] == lines'[..k];
    }
  }

  lemma BreakCut(cut: seq<string>, lines: seq<string>)
    requires CutLines(cut, lines)
    ensures CutLines([""] + cut, [""] + lines)
  {
    hide CutLine;
    var k := |cut|;
    assert ([""] + cut)[..k] == [""] + cut[..k - 1] && ([""] + lines)[..k] == [""] + lines[..k - 1];
  }

  lemma {:induction false} LinesOfStart(s: string, n: nat)
    requires n <= |s|
    ensures CutLines(Lines(s[..n]), Lines(s))
  {
    hide Lines, CutLines;
    if n == 0 {
      assert s[..0] == "";
      NothingCut(s);
    } else if |s| >= 2 && s[0] == '\r' && s[1] == '\n' {
      assert s == CRLF + s[2..];
      LinesBreak(s[2..]);
      if n == 1 {
        assert s[..1] == "\r";
        BreakItselfCut(s[2..]);
      } else {
        assert s[..n] == CRLF + s[2..][..n - 2];
        LinesBreak(s[2..][..n - 2]);
        LinesOfStart(s[2..], n - 2);
        BreakCut(Lines(s[2..][..n - 2]), Lines(s[2..]));
      }
    } else {
      var rest := s[1..];
      assert s == [s[0]] + rest && s[..n] == [s[0]] + rest[..n - 1];
      LinesPrepend(s[0], rest);
      LinesPrepend(s[0], rest[..n - 1]);
      LinesOfStart(rest, n - 1);
      PrependCut(s[0], Lines(rest[..n - 1]), Lines(rest));
    }
  }

  lemma NothingCut(s: string)
    ensures CutLines(Lines(""), Lines(s))
  {
    assert Lines("") == [""];
    assert Lines(s)[0][..0] == "";
  }

  lemma BreakItselfCut(rest: string)
    ensures CutLines(Lines("\r"), [""] + Lines(rest))
  {
    assert Lines("\r") == ["\r"] by {
      assert "\r"[1..] == "" && Lines("") == [""];
      assert ['\r'] + "" == "\r";
    }
    assert "" + "\r" == "\r";
  }

  lemma CutIsOpen(boundary: string, cut: string, line: string)
    requires CutLine(cut, line) && !HasPrefix(line, CloseLine(boundary)) && OneLine(boundary)
    ensures !HasPrefix(cut, CloseLine(boundary))
  {
    var d := CloseLine(boundary);
    CloseLineOneLine(boundary);
    hide CloseLine, HasPrefix;
    PrefixTrans(d, cut, line);
    BeforeReturn(line, d);
  }

  lemma PrefixTrans(a: string, b: string, c: string)
    ensures HasPrefix(b, a) && HasPrefix(c, b) ==> HasPrefix(c, a)
  {
    if HasPrefix(b, a) && HasPrefix(c, b) {
      assert c[..|b|][..|a|] == c[..|a|];
    }
  }

  lemma BeforeReturn(line: string, d: string)
    requires OneLine(d)
    ensures HasPrefix(line + "\r", d) ==> HasPrefix(line, d)
  {
    if HasPrefix(line + "\r", d) {
      var s := line + "\r";
      assert s[|line|] == '\r' && forall i :: 0 <= i < |d| ==> d[i] == s[i];
      assert |d| <= |line|;
      assert s[..|d|] == line[..|d|];
    }
  }

  lemma PrefixSelf(s: string)
    ensures HasPrefix(s, s)
  {
    assert s[..|s|] == s;
  }

  lemma CloseLineOneLine(boundary: string)
    requires OneLine(boundary)
    ensures OneLine(CloseLine(boundary))
  {
  }

  // ------------------------------------------------------------------
  // Reading it
  // ------------------------------------------------------------------

  /** Without its closing delimiter a multipart is not one. */
  lemma {:induction false} OpenIsUnreadable(boundary: string, lines: seq<string>, current: seq<string>)
    requires Open(boundary, lines)
    ensures ReadParts(boundary, lines, current) == None
    decreases |lines|
  {
    if lines != [] {
      assert !HasPrefix(lines[0], CloseLine(boundary));
      PrefixSelf(lines[0]);
      assert Open(boundary, lines[1..]);
      if lines[0] == Delimiter(boundary) {
        OpenIsUnreadable(boundary, lines[1..], []);
      } else {
        OpenIsUnreadable(boundary, lines[1..], current + [lines[0]]);
      }
    }
  }

  /** Not a multipart with that boundary, whatever else it may be. */
  predicate NotMulti(e: Option<Entity>, boundary: string) {
    !(e.Some? && e.value.Multi? && e.value.boundary == boundary)
  }

  lemma OpenMultipart(boundary: string, content: seq<string>)
    requires Open(boundary, content)
    ensures ReadMultipart(boundary, content) == None
  {
    hide CloseLine, HasPrefix, Delimiter, ReadParts;
    if content != [] {
      OpenIsUnreadable(boundary, content[1..], []);
    }
  }

  lemma ReadOpen(boundary: string, lines: seq<string>)
    requires HeaderCount(lines) < |lines| ==> Open(boundary, lines[HeaderCount(lines) + 1..])
    ensures NotMulti(ReadEntity(lines), boundary)
  {
    hide HeaderCount, BoundaryOf, ReadMultipart, Join, ReadEntities, Open;
    var n := HeaderCount(lines);
    if n < |lines| {
      OpenMultipart(boundary, lines[n + 1..]);
    }
  }

  lemma {:induction false} HeaderCountWithin(headers: seq<string>, last: string)
    requires forall i :: 0 <= i < |headers| ==> headers[i] != ""
    ensures HeaderCount(headers + [last]) >= |headers|
  {
    if headers != [] {
      HeaderCountWithin(headers[1..], last);
      assert (headers + [last])[1..] == headers[1..] + [last];
    }
  }

  /** Header lines, an empty line and an unclosed content, cut anywhere: what follows the header is unclosed. */
  lemma CutContentOpen(boundary: string, top: seq<string>, content: seq<string>, cut: seq<string>)
    requires HeaderLines(top) && OneLine(boundary) && Open(boundary, content) && CutLines(cut, top + [""] + content)
    ensures HeaderCount(cut) < |cut| ==> Open(boundary, cut[HeaderCount(cut) + 1..])
  {
    hide *;
    var lines, k := top + [""] + content, |cut| - 1;
    CutLinesIs(cut, lines);
    HeaderLinesIs(top);
    if k <= |top| {
      assert lines[..k] == top[..k];
      assert cut == cut[..k] + [cut[k]];
      CutHeader(boundary, top[..k], cut[k]);
    } else {
      var n := k - |top| - 1;
      CutWhere(top, content, cut, n);
      CutAfterHeader(boundary, top, content, n, cut[k]);
    }
  }

  lemma CutLinesIs(cut: seq<string>, lines: seq<string>)
    requires CutLines(cut, lines)
    ensures 0 < |cut| <= |lines| && cut[..|cut| - 1] == lines[..|cut| - 1]
    ensures CutLine(cut[|cut| - 1], lines[|cut| - 1])
  {
  }

  lemma HeaderLinesIs(top: seq<string>)
    requires HeaderLines(top)
    ensures forall i :: 0 <= i < |top| ==> top[i] != ""
  {
  }

  lemma CutWhere(top: seq<string>, content: seq<string>, cut: seq<string>, n: nat)
    requires n < |content| && |cut| == |top| + 2 + n && cut[..|cut| - 1] == (top + [""] + content)[..|cut| - 1]
    ensures cut == top + [""] + (content[..n] + [cut[|cut| - 1]])
    ensures (top + [""] + content)[|cut| - 1] == content[n]
  {
    var k := |cut| - 1;
    assert (top + [""] + content)[..k] == top + [""] + content[..n];
    assert cut == cut[..k] + [cut[k]];
    Regroup(top + [""], content[..n], [cut[k]]);
  }

  /** Cut after the header: what follows it is unclosed. */
  lemma CutAfterHeader(boundary: string, top: seq<string>, content: seq<string>, n: nat, last: string)
    requires HeaderLines(top) && OneLine(boundary) && Open(boundary, content)
    requires n < |content| && CutLine(last, content[n])
    ensures var cut := top + [""] + (content[..n] + [last]);
            HeaderCount(cut) < |cut| ==> Open(boundary, cut[HeaderCount(cut) + 1..])
  {
    hide *;
    SplitAtHeaders(top, content[..n] + [last]);
    CutEndOpen(boundary, content, n, last);
  }

  /** Cut within the header: nothing follows it. */
  lemma CutHeader(boundary: string, headers: seq<string>, last: string)
    requires forall i :: 0 <= i < |headers| ==> headers[i] != ""
    ensures var cut := headers + [last]; HeaderCount(cut) < |cut| ==> Open(boundary, cut[HeaderCount(cut) + 1..])
  {
    hide Open, HeaderCount;
    var cut := headers + [last];
    HeaderCountWithin(headers, last);
    NothingIsOpen(boundary);
    assert cut[|cut|..] == [];
  }

  lemma CutEndOpen(boundary: string, content: seq<string>, n: nat, last: string)
    requires n < |content| && Open(boundary, content) && CutLine(last, content[n]) && OneLine(boundary)
    ensures Open(boundary, content[..n] + [last])
  {
    CutIsOpen(boundary, last, content[n]);
    hide CutLine, HasPrefix, CloseLine;
  }

  /** No part of an unfinished multipart message is taken for the message: it is unclosed wherever it ends. */
  lemma CutIsNotTheMessage(c: Codecs, m: Message, stamp: Stamp, ctx: Context, top: seq<string>, n: nat)
    requires Framable(c, m, stamp) && IsMulti(m) && (m.text != "" || m.html != "")
    requires TakenClean(c, m, ctx, Outer(m, stamp)) && HeaderLines(top) && n <= |CutText(c, m, stamp, ctx, top)|
    ensures NotMulti(Read(CutText(c, m, stamp, ctx, top)[..n]), Outer(m, stamp))
  {
    hide *;
    var boundary, texts := Outer(m, stamp), PartTexts(c, m, stamp, ctx);
    var whole := CutText(c, m, stamp, ctx, top);
    OuterOneLine(c, m, stamp);
    PartTextsClean(c, m, stamp, ctx);
    CutTextIs(c, m, stamp, ctx, top);
    LinesOfParts(boundary, texts);
    LinesAllClean(boundary, texts);
    PartLinesAreOpen(boundary, LinesAll(texts));
    LinesOfBlock(top, PartsText(boundary, texts));
    LinesOfStart(whole, n);
    CutContentOpen(boundary, top, Lines(PartsText(boundary, texts)), Lines(whole[..n]));
    ReadOpen(boundary, Lines(whole[..n]));
    ReadIs(whole[..n]);
  }

  lemma OuterOneLine(c: Codecs, m: Message, stamp: Stamp)
    requires Framable(c, m, stamp)
    ensures OneLine(Outer(m, stamp))
  {
    BoundaryOneLine(stamp.mixed);
    BoundaryOneLine(stamp.alternative);
  }

  lemma CutTextIs(c: Codecs, m: Message, stamp: Stamp, ctx: Context, top: seq<string>)
    requires IsMulti(m)
    ensures CutText(c, m, stamp, ctx, top)
            == Block(top) + CRLF + PartsText(Outer(m, stamp), PartTexts(c, m, stamp, ctx))
  {
    hide Block, PartsText, Outer, PartTexts;
  }

  lemma LinesAllClean(boundary: string, texts: seq<string>)
    requires AllClean(boundary, texts)
    ensures forall i :: 0 <= i < |texts| ==> Clean(boundary, LinesAll(texts)[i])
  {
    hide Clean, Lines;
  }

  lemma ReadIs(text: string)
    ensures Read(text) == ReadEntity(Lines(text))
  {
    hide ReadEntity, Lines;
  }
}
