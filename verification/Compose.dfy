/** The tree of MIME entities a message stands for, and the proof that a
    reader recovers it from the composed text (emailx/smtp.go). */
module Compose {
  import opened Text
  import opened Base64
  import opened Stream
  import opened Headers
  import opened MimeTree
  import opened Email
  import A = Attachment

  function TextHeaders(html: bool): seq<string> {
    [Line(EncodingName(), "quoted-printable"), Line(TypeName(), TextType(html))]
  }

  function TextLeaf(c: Codecs, html: bool, body: string): Entity {
    Leaf(TextHeaders(html), c.quotedPrintable(body))
  }

  function TypeOf(a: AttachmentSource): string {
    if a.contentType == "" then "application/octet-stream" else a.contentType
  }

  function DispositionName(): string { Canon("Content-Disposition") }

  /** Part headers are written in the order of their names. */
  function AttachmentHeaders(c: Codecs, a: AttachmentSource): seq<string> {
    [Line(DispositionName(), c.disposition(a.filename)), Line(EncodingName(), "base64"), Line(TypeName(), TypeOf(a))]
  }

  /** The bytes an attachment's reader delivers. */
  function Contents(a: AttachmentSource): seq<byte> {
    if a.open.Opens? then Delivered(a.open.script).bytes else []
  }

  function AttachmentLeaf(c: Codecs, a: AttachmentSource): Entity {
    Leaf(AttachmentHeaders(c, a), A.Body(Contents(a)))
  }

  function AttachmentLeaves(c: Codecs, sources: seq<AttachmentSource>): (leaves: seq<Entity>)
    ensures |leaves| == |sources| && forall i :: 0 <= i < |sources| ==> leaves[i] == AttachmentLeaf(c, sources[i])
  {
    seq(|sources|, i requires 0 <= i < |sources| => AttachmentLeaf(c, sources[i]))
  }

  function Alternatives(c: Codecs, m: Message): seq<Entity> {
    [TextLeaf(c, false, m.text), TextLeaf(c, true, m.html)]
  }

  function AlternativeHeaders(stamp: Stamp): seq<string> {
    [Line(TypeName(), AlternativeType(stamp.alternative))]
  }

  /** The part of a mixed message that holds its text. */
  function BodyEntity(c: Codecs, m: Message, stamp: Stamp): Entity {
    if Both(m) then Multi(AlternativeHeaders(stamp), stamp.alternative, Alternatives(c, m))
    else if m.html != "" then TextLeaf(c, true, m.html)
    else TextLeaf(c, false, m.text)
  }

  /** The whole message under the given header lines. */
  function TreeOf(c: Codecs, m: Message, stamp: Stamp, top: seq<string>): Entity {
    if |m.attachments| > 0 then
      Multi(top, stamp.mixed, [BodyEntity(c, m, stamp)] + AttachmentLeaves(c, m.attachments))
    else if Both(m) then Multi(top, stamp.alternative, Alternatives(c, m))
    else Leaf(top, c.quotedPrintable(if m.html != "" then m.html else m.text))
  }

  // ------------------------------------------------------------------
  // What composition relies on
  // ------------------------------------------------------------------

  /** randomBoundary: 32 hexadecimal digits. */
  predicate IsBoundary(b: string) {
    |b| == 32 && forall i :: 0 <= i < |b| ==> IsDigit(b[i]) || 'a' <= b[i] <= 'f'
  }

  /** No line of an encoded text body starts with the delimiter of a multipart around it. */
  predicate TextsClean(c: Codecs, m: Message, boundary: string) {
    && (m.text != "" ==> Clean(boundary, Lines(c.quotedPrintable(m.text))))
    && (m.html != "" ==> Clean(boundary, Lines(c.quotedPrintable(m.html))))
  }

  /** Two different boundaries, clear of the text. */
  predicate BoundariesClear(c: Codecs, m: Message, stamp: Stamp) {
    && IsBoundary(stamp.mixed) && IsBoundary(stamp.alternative) && stamp.mixed != stamp.alternative
    && (|m.attachments| > 0 ==> TextsClean(c, m, stamp.mixed))
    && (Both(m) ==> TextsClean(c, m, stamp.alternative))
  }

  /** No attachment's type or disposition has a CRLF in it, which validation does not ask of the type. */
  predicate TypesUnbroken(c: Codecs, m: Message) {
    forall i :: 0 <= i < |m.attachments| ==>
      Unbroken(TypeOf(m.attachments[i])) && Unbroken(c.disposition(m.attachments[i].filename))
  }

  predicate Framable(c: Codecs, m: Message, stamp: Stamp) {
    BoundariesClear(c, m, stamp) && TypesUnbroken(c, m)
  }

  // ------------------------------------------------------------------
  // Header lines say what the entity is
  // ------------------------------------------------------------------

  lemma BoundaryOneLine(b: string)
    requires IsBoundary(b)
    ensures OneLine(b)
  {
  }

  lemma PrefixOf(prefix: string, rest: string)
    ensures HasPrefix(prefix + rest + "\"", prefix)
    ensures (prefix + rest + "\"")[|prefix|..|prefix + rest|] == rest
  {
    assert (prefix + rest + "\"")[..|prefix|] == prefix;
  }

  lemma PrefixesDiffer(value: string)
    ensures !(HasPrefix(value, MixedPrefix()) && HasPrefix(value, AlternativePrefix()))
  {
    assert MixedPrefix()[10] == 'm' && AlternativePrefix()[10] == 'a';
  }

  lemma BoundaryParameters(boundary: string)
    ensures BoundaryParameter(MixedType(boundary)) == Some(boundary)
    ensures BoundaryParameter(AlternativeType(boundary)) == Some(boundary)
  {
    PrefixOf(MixedPrefix(), boundary);
    PrefixOf(AlternativePrefix(), boundary);
    PrefixesDiffer(AlternativeType(boundary));
    hide MixedPrefix, AlternativePrefix;
  }

  /** The value of the only Content-Type line decides. */
  lemma {:induction false} FirstAnnouncedIs(lines: seq<string>, i: nat, value: string)
    requires i < |lines| && lines[i] == Line(TypeName(), value)
    requires forall j :: 0 <= j < |lines| && NameOf(lines[j]) == TypeName() ==> lines[j] == lines[i]
    ensures FirstAnnounced(lines) == BoundaryParameter(value)
  {
    KeyKeeps(ContentType);
    LineParts(TypeName(), value);
    hide Line, NameOf, BoundaryParameter, TypeName;
    if NameOf(lines[0]) != TypeName() {
      FirstAnnouncedIs(lines[1..], i - 1, value);
    }
  }

  lemma NamesOfLines(headers: map<string, string>, order: seq<string>)
    requires NamesOk(headers) && Enumerates(order, headers)
    ensures forall i :: 0 <= i < |order| ==> NameOf(HeaderLinesOf(headers, order)[i]) == order[i]
  {
    forall i | 0 <= i < |order|
      ensures NameOf(HeaderLinesOf(headers, order)[i]) == order[i]
    {
      LineParts(order[i], headers[order[i]]);
    }
  }

  /** A header map whose lines, in any order, declare an encoding. */
  lemma LinesDeclare(headers: map<string, string>, order: seq<string>)
    requires NamesOk(headers) && Enumerates(order, headers)
    ensures DeclaresEncoding(HeaderLinesOf(headers, order)) <==> EncodingName() in headers
  {
    hide NameOf, EncodingName, Line;
    NamesOfLines(headers, order);
    if EncodingName() in headers {
      var i :| 0 <= i < |order| && order[i] == EncodingName();
      assert NameOf(HeaderLinesOf(headers, order)[i]) == EncodingName();
    }
  }

  lemma LinesAnnounce(headers: map<string, string>, order: seq<string>)
    requires NamesOk(headers) && Enumerates(order, headers) && TypeName() in headers
    ensures FirstAnnounced(HeaderLinesOf(headers, order)) == BoundaryParameter(headers[TypeName()])
  {
    hide NameOf, TypeName, Line, FirstAnnounced, BoundaryParameter;
    NamesOfLines(headers, order);
    var i :| 0 <= i < |order| && order[i] == TypeName();
    FirstAnnouncedIs(HeaderLinesOf(headers, order), i, headers[TypeName()]);
  }

  lemma TypeAndEncoding(c: Codecs, m: Message, stamp: Stamp, headers: map<string, string>)
    requires ValidHeaders(m.headers) && Composed(c, m, stamp, headers)
    ensures TypeName() in headers && FieldValue(c, m, stamp, ContentType) == Some(headers[TypeName()])
    ensures EncodingName() in headers <==> |m.attachments| == 0 && !Both(m)
  {
    hide Canon, Key, Lower, ValidHeaders;
    assert FieldValue(c, m, stamp, ContentType).Some?;
    if EncodingName() in headers {
      OnlyOwnKeyMatches(c, m, stamp, headers, EncodingName(), ContentTransferEncoding);
    }
  }

  /** The header lines of a message, in any order, announce exactly what its tree is. */
  lemma TopBoundary(c: Codecs, m: Message, stamp: Stamp, headers: map<string, string>, order: seq<string>)
    requires ValidHeaders(m.headers) && Composed(c, m, stamp, headers) && Enumerates(order, headers)
    ensures BoundaryOf(HeaderLinesOf(headers, order)) ==
            if |m.attachments| > 0 then Some(stamp.mixed) else if Both(m) then Some(stamp.alternative) else None
  {
    hide Composed, ValidHeaders, NamesOk, DeclaresEncoding, FirstAnnounced, BoundaryParameter, TypeName, EncodingName,
      MixedType, AlternativeType, TextType, Line;
    ComposedNames(c, m, stamp, headers);
    TypeAndEncoding(c, m, stamp, headers);
    LinesDeclare(headers, order);
    LinesAnnounce(headers, order);
    BoundaryParameters(stamp.mixed);
    BoundaryParameters(stamp.alternative);
  }

  // ------------------------------------------------------------------
  // No line of a part starts with the delimiter around it
  // ------------------------------------------------------------------

  /** A part header: a name that starts with C, and a value on the same line. */
  predicate PartHeader(line: string) {
    line != "" && line[0] == 'C' && Unbroken(line)
  }

  predicate PartHeaders(headers: seq<string>) {
    forall i :: 0 <= i < |headers| ==> PartHeader(headers[i])
  }

  lemma PartHeaderLine(name: string, value: string)
    requires name != "" && name[0] == 'C' && OneLine(name) && Unbroken(value)
    ensures PartHeader(Line(name, value))
  {
    LineUnbroken(name, value);
  }

  /** A header line is as unbroken as its value. */
  lemma LineUnbroken(name: string, value: string)
    requires OneLine(name)
    ensures Unbroken(Line(name, value)) <==> Unbroken(value)
  {
    var line, k := Line(name, value), |name| + 2;
    forall i | 0 <= i < |value|
      ensures line[k + i] == value[i]
    {
    }
    if Unbroken(value) {
      forall i | 0 <= i < |line| - 1
        ensures !(line[i] == '\r' && line[i + 1] == '\n')
      {
        if i < k { assert line[i] != '\r'; } else { assert line[i] == value[i - k] && line[i + 1] == value[i + 1 - k]; }
      }
    }
    if Unbroken(line) {
      forall i | 0 <= i < |value| - 1
        ensures !(value[i] == '\r' && value[i + 1] == '\n')
      {
        assert line[k + i] == value[i] && line[k + i + 1] == value[i + 1];
      }
    }
  }

  lemma NamesStartWithC()
    ensures TypeName() != "" && TypeName()[0] == 'C' && OneLine(TypeName())
    ensures EncodingName() != "" && EncodingName()[0] == 'C' && OneLine(EncodingName())
    ensures DispositionName() != "" && DispositionName()[0] == 'C' && OneLine(DispositionName())
  {
    NamesAreTokens(ContentType);
    NamesAreTokens(ContentTransferEncoding);
    KeyKeeps(ContentType);
    KeyKeeps(ContentTransferEncoding);
    assert ValidHeader("Content-Disposition");
    CanonKeeps("Content-Disposition");
    CanonStart("Content-Type");
    CanonStart("Content-Transfer-Encoding");
    CanonStart("Content-Disposition");
  }

  lemma CanonStart(s: string)
    requires s != "" && s[0] == 'C'
    ensures Canon(s)[0] == 'C'
  {
  }

  lemma CleanConcat(boundary: string, a: seq<string>, b: seq<string>)
    requires Clean(boundary, a) && Clean(boundary, b)
    ensures Clean(boundary, a + b)
  {
  }

  /** Not even the first character of the delimiter is there. */
  lemma NoHyphenIsClean(boundary: string, lines: seq<string>)
    requires forall i :: 0 <= i < |lines| ==> lines[i] == "" || lines[i][0] != '-'
    ensures Clean(boundary, lines)
  {
    forall i | 0 <= i < |lines|
      ensures !IsDelimiter(boundary, lines[i])
    {
      assert Delimiter(boundary)[0] == '-';
    }
  }

  /** Base64 never forms a delimiter: the hyphen is not in its alphabet. */
  lemma Base64IsClean(boundary: string, bytes: seq<byte>)
    ensures Clean(boundary, Lines(A.Body(bytes)))
  {
    A.BodyRoundTrip(bytes);
    var lines := Lines(A.Body(bytes));
    forall i | 0 <= i < |lines|
      ensures lines[i] == "" || lines[i][0] != '-'
    {
      assert lines[i] != "" ==> IsEncodedChar(lines[i][0]);
    }
    hide Lines, A.Body, Clean;
    NoHyphenIsClean(boundary, lines);
  }

  /** A part is clean when its content is. */
  lemma PartIsClean(boundary: string, headers: seq<string>, text: string)
    requires PartHeaders(headers) && Clean(boundary, Lines(text))
    ensures Clean(boundary, Lines(Block(headers) + CRLF + text))
  {
    LinesOfBlock(headers, text);
    NoHyphenIsClean(boundary, headers + [""]);
    hide Lines, Clean;
    CleanConcat(boundary, headers + [""], Lines(text));
  }

  lemma {:induction false} PartLinesAreClean(boundary: string, other: string, parts: seq<seq<string>>)
    requires |boundary| == |other| && boundary != other
    requires forall i :: 0 <= i < |parts| ==> Clean(boundary, parts[i])
    ensures Clean(boundary, PartLines(other, parts))
  {
    if parts != [] {
      OtherDelimiter(boundary, other);
      PartLinesAreClean(boundary, other, parts[1..]);
      hide IsDelimiter;
      CleanConcat(boundary, [Delimiter(other)], parts[0]);
      CleanConcat(boundary, [Delimiter(other)] + parts[0], PartLines(other, parts[1..]));
    }
  }

  /** Different boundaries of one length do not start each other. */
  lemma OtherDelimiter(boundary: string, other: string)
    requires |boundary| == |other| && boundary != other
    ensures !IsDelimiter(boundary, Delimiter(other))
    ensures !IsDelimiter(boundary, Delimiter(other) + "--")
    ensures !IsDelimiter(boundary, "")
  {
    var d := Delimiter(other);
    assert d[2..] == other && Delimiter(boundary)[2..] == boundary;
    assert (d + "--")[..|d|] == d && d[..|d|] == d;
  }

  lemma MultipartIsClean(boundary: string, other: string, parts: seq<string>)
    requires |boundary| == |other| && boundary != other && OneLine(other) && |parts| > 0
    requires forall i :: 0 <= i < |parts| ==> Clean(boundary, Lines(parts[i]))
    ensures Clean(boundary, Lines(MultipartText(other, parts)))
  {
    LinesOfMultipart(other, parts);
    PartLinesAreClean(boundary, other, LinesAll(parts));
    OtherDelimiter(boundary, other);
    hide IsDelimiter, Lines, PartLines, MultipartText;
    assert Clean(boundary, [Delimiter(other) + "--", ""]);
    CleanConcat(boundary, PartLines(other, LinesAll(parts)), [Delimiter(other) + "--", ""]);
  }

  // ------------------------------------------------------------------
  // The tree of a message is well framed
  // ------------------------------------------------------------------

  /** Headers of a part with a body: it declares its encoding. */
  predicate LeafHeaders(headers: seq<string>) {
    PartHeaders(headers) && DeclaresEncoding(headers)
  }

  lemma LeafIsFramed(headers: seq<string>, body: string)
    requires LeafHeaders(headers)
    ensures WellFramed(Leaf(headers, body))
  {
  }

  lemma ValuesOneLine(html: bool)
    ensures Unbroken(TextType(html)) && Unbroken("quoted-printable") && Unbroken("base64")
  {
  }

  lemma EncodingNameOf(value: string)
    ensures NameOf(Line(EncodingName(), value)) == EncodingName()
  {
    KeyKeeps(ContentTransferEncoding);
    LineParts(EncodingName(), value);
  }

  lemma TextHeadersOk(html: bool)
    ensures LeafHeaders(TextHeaders(html))
  {
    hide TypeName, EncodingName, DispositionName, OneLine, Unbroken, Line, NameOf, PartHeader, TextType;
    NamesStartWithC();
    ValuesOneLine(html);
    EncodingNameOf("quoted-printable");
    PartHeaderLine(EncodingName(), "quoted-printable");
    PartHeaderLine(TypeName(), TextType(html));
    assert NameOf(TextHeaders(html)[0]) == EncodingName();
  }

  lemma AttachmentHeadersOk(c: Codecs, a: AttachmentSource)
    requires Unbroken(TypeOf(a)) && Unbroken(c.disposition(a.filename))
    ensures LeafHeaders(AttachmentHeaders(c, a))
  {
    hide TypeName, EncodingName, DispositionName, OneLine, Unbroken, Line, NameOf, PartHeader;
    NamesStartWithC();
    ValuesOneLine(true);
    EncodingNameOf("base64");
    PartHeaderLine(DispositionName(), c.disposition(a.filename));
    PartHeaderLine(EncodingName(), "base64");
    PartHeaderLine(TypeName(), TypeOf(a));
    assert NameOf(AttachmentHeaders(c, a)[1]) == EncodingName();
  }

  lemma AlternativeTypeOneLine(boundary: string)
    requires OneLine(boundary)
    ensures Unbroken(AlternativeType(boundary))
  {
  }

  lemma TypeIsNotEncoding()
    ensures TypeName() != EncodingName()
  {
    if TypeName() == EncodingName() {
      KeysDiffer(ContentType, ContentTransferEncoding);
    }
  }

  lemma TypeNameOf(value: string)
    ensures NameOf(Line(TypeName(), value)) == TypeName()
  {
    KeyKeeps(ContentType);
    LineParts(TypeName(), value);
  }

  lemma AlternativeHeadersOk(stamp: Stamp)
    requires IsBoundary(stamp.alternative)
    ensures PartHeaders(AlternativeHeaders(stamp))
    ensures BoundaryOf(AlternativeHeaders(stamp)) == Some(stamp.alternative)
  {
    hide TypeName, EncodingName, DispositionName, OneLine, Unbroken, Line, NameOf, PartHeader, AlternativeType,
      BoundaryParameter, FirstAnnounced, IsBoundary;
    var value := AlternativeType(stamp.alternative);
    var headers := AlternativeHeaders(stamp);
    NamesStartWithC();
    TypeIsNotEncoding();
    TypeNameOf(value);
    BoundaryOneLine(stamp.alternative);
    AlternativeTypeOneLine(stamp.alternative);
    PartHeaderLine(TypeName(), value);
    BoundaryParameters(stamp.alternative);
    FirstAnnouncedIs(headers, 0, value);
    assert !DeclaresEncoding(headers);
  }

  /** What a multipart asks of each of its parts. */
  predicate Fits(boundary: string, e: Entity) {
    WellFramed(e) && Clean(boundary, Lines(Render(e)))
  }

  lemma TextFits(c: Codecs, boundary: string, html: bool, body: string)
    requires Clean(boundary, Lines(c.quotedPrintable(body)))
    ensures Fits(boundary, TextLeaf(c, html, body))
  {
    TextHeadersOk(html);
    hide PartHeaders, DeclaresEncoding, Clean, Lines, TextHeaders;
    LeafIsFramed(TextHeaders(html), c.quotedPrintable(body));
    PartIsClean(boundary, TextHeaders(html), c.quotedPrintable(body));
  }

  lemma AttachmentFits(c: Codecs, boundary: string, a: AttachmentSource)
    requires Unbroken(TypeOf(a)) && Unbroken(c.disposition(a.filename))
    ensures Fits(boundary, AttachmentLeaf(c, a))
  {
    AttachmentHeadersOk(c, a);
    hide PartHeaders, DeclaresEncoding, Clean, Lines, AttachmentHeaders, Contents, A.Body;
    Base64IsClean(boundary, Contents(a));
    LeafIsFramed(AttachmentHeaders(c, a), A.Body(Contents(a)));
    PartIsClean(boundary, AttachmentHeaders(c, a), A.Body(Contents(a)));
  }

  lemma BodyFits(c: Codecs, m: Message, stamp: Stamp)
    requires Framable(c, m, stamp) && |m.attachments| > 0 && (m.text != "" || m.html != "")
    ensures Fits(stamp.mixed, BodyEntity(c, m, stamp))
  {
    hide Clean, Lines, TextLeaf, IsBoundary, Fits;
    if Both(m) {
      AlternativeFits(c, m, stamp);
    } else if m.html != "" {
      TextFits(c, stamp.mixed, true, m.html);
    } else {
      TextFits(c, stamp.mixed, false, m.text);
    }
  }

  lemma AlternativesFit(c: Codecs, m: Message, boundary: string)
    requires Both(m) && TextsClean(c, m, boundary)
    ensures forall i :: 0 <= i < 2 ==> Fits(boundary, Alternatives(c, m)[i])
  {
    hide Clean, Lines, TextLeaf, Fits;
    TextFits(c, boundary, false, m.text);
    TextFits(c, boundary, true, m.html);
  }

  lemma MultiIsFramed(headers: seq<string>, boundary: string, parts: seq<Entity>)
    requires HeaderLines(headers) && BoundaryOf(headers) == Some(boundary) && OneLine(boundary) && |parts| > 0
    requires forall i :: 0 <= i < |parts| ==> Fits(boundary, parts[i])
    ensures WellFramed(Multi(headers, boundary, parts))
  {
    hide HeaderLines, BoundaryOf, Clean, Lines;
  }

  lemma MultiIsClean(headers: seq<string>, boundary: string, other: string, parts: seq<Entity>)
    requires PartHeaders(headers) && |parts| > 0
    requires |boundary| == |other| && boundary != other && OneLine(other)
    requires forall i :: 0 <= i < |parts| ==> Fits(boundary, parts[i])
    ensures Clean(boundary, Lines(Render(Multi(headers, other, parts))))
  {
    RenderAllAt(parts);
    hide PartHeaders, Clean, Lines, MultipartText, OneLine, WellFramed;
    MultipartIsClean(boundary, other, RenderAll(parts));
    PartIsClean(boundary, headers, MultipartText(other, RenderAll(parts)));
  }

  lemma AlternativeFits(c: Codecs, m: Message, stamp: Stamp)
    requires Framable(c, m, stamp) && |m.attachments| > 0 && Both(m)
    ensures Fits(stamp.mixed, BodyEntity(c, m, stamp))
  {
    var headers, parts := AlternativeHeaders(stamp), Alternatives(c, m);
    AlternativeHeadersOk(stamp);
    BoundaryOneLine(stamp.alternative);
    assert HeaderLines(headers);
    AlternativesFit(c, m, stamp.mixed);
    AlternativesFit(c, m, stamp.alternative);
    assert |parts| == 2;
    hide Clean, Lines, TextsClean, Alternatives, AlternativeHeaders, BoundaryOf, OneLine, WellFramed, Render,
      PartHeaders, HeaderLines;
    MultiIsFramed(headers, stamp.alternative, parts);
    MultiIsClean(headers, stamp.mixed, stamp.alternative, parts);
  }

  /** The header lines of the message are single lines, whatever the order of the map. */
  lemma TopLines(c: Codecs, m: Message, stamp: Stamp, headers: map<string, string>, order: seq<string>)
    requires ValidHeaders(m.headers) && Composed(c, m, stamp, headers) && Enumerates(order, headers)
             && ValuesOk(headers)
    ensures HeaderLines(HeaderLinesOf(headers, order))
  {
    hide Composed, ValidHeaders;
    ComposedNames(c, m, stamp, headers);
  }

  /** For every accepted message: the composed text, read back line by line without any knowledge of how it was
      written, is the message's tree -- mixed around alternative around text before HTML, attachments in order. */
  lemma MessageRoundTrip(c: Codecs, m: Message, stamp: Stamp, headers: map<string, string>, order: seq<string>)
    requires ValidMessage(c, m) && Framable(c, m, stamp)
    requires Composed(c, m, stamp, headers) && Enumerates(order, headers) && ValuesOk(headers)
    ensures var tree := TreeOf(c, m, stamp, HeaderLinesOf(headers, order));
            WellFramed(tree) && Read(Render(tree)) == Some(tree)
  {
    var top := HeaderLinesOf(headers, order);
    TopLines(c, m, stamp, headers, order);
    TopBoundary(c, m, stamp, headers, order);
    TreeIsFramed(c, m, stamp, top);
    hide ValidMessage, Framable, Composed, Enumerates, ValuesOk, HeaderLinesOf, WellFramed, Read, Render, TreeOf;
    ReadRender(TreeOf(c, m, stamp, top));
  }

  /** With a CRLF in the type of an attachment no reader recovers the tree, whatever its other headers and
      boundaries. */
  lemma BrokenIsNotRead(c: Codecs, m: Message, stamp: Stamp, top: seq<string>)
    requires !TypesUnbroken(c, m)
    ensures var tree := TreeOf(c, m, stamp, top); Read(Render(tree)) != Some(tree)
  {
    hide Unbroken, Read, Render, TreeOf, AttachmentHeaders, TypeOf, HeadersUnbroken;
    var i :| 0 <= i < |m.attachments|
      && !(Unbroken(TypeOf(m.attachments[i])) && Unbroken(c.disposition(m.attachments[i].filename)));
    var tree := TreeOf(c, m, stamp, top);
    HeadersOfPart(c, m, stamp, top, i);
    BrokenHeaders(c, m.attachments[i]);
    BrokenPart(tree, 1 + i);
    if Read(Render(tree)) == Some(tree) {
      ReadIsUnbroken(Render(tree));
    }
  }

  lemma HeadersOfPart(c: Codecs, m: Message, stamp: Stamp, top: seq<string>, i: nat)
    requires i < |m.attachments|
    ensures var tree := TreeOf(c, m, stamp, top);
            tree.Multi? && 1 + i < |tree.parts| && tree.parts[1 + i].headers == AttachmentHeaders(c, m.attachments[i])
  {
    hide BodyEntity, AttachmentHeaders, A.Body, Contents;
  }

  lemma BrokenHeaders(c: Codecs, a: AttachmentSource)
    requires !(Unbroken(TypeOf(a)) && Unbroken(c.disposition(a.filename)))
    ensures !AllUnbroken(AttachmentHeaders(c, a))
  {
    hide Unbroken, Line, TypeName, EncodingName, DispositionName, OneLine, TypeOf;
    var lines := AttachmentHeaders(c, a);
    NamesStartWithC();
    LineUnbroken(TypeName(), TypeOf(a));
    LineUnbroken(DispositionName(), c.disposition(a.filename));
    assert !Unbroken(lines[0]) || !Unbroken(lines[2]);
  }

  lemma BrokenPart(e: Entity, i: nat)
    requires e.Multi? && i < |e.parts| && !AllUnbroken(e.parts[i].headers)
    ensures !HeadersUnbroken(e)
  {
    hide AllUnbroken;
    assert !HeadersUnbroken(e.parts[i]);
  }

  /** A valid message with clear boundaries reads back if and only if no attachment's type or disposition has a CRLF
      in it. */
  lemma ReadsBackIff(c: Codecs, m: Message, stamp: Stamp, headers: map<string, string>, order: seq<string>)
    requires ValidMessage(c, m) && BoundariesClear(c, m, stamp)
    requires Composed(c, m, stamp, headers) && Enumerates(order, headers) && ValuesOk(headers)
    ensures var tree := TreeOf(c, m, stamp, HeaderLinesOf(headers, order));
            Read(Render(tree)) == Some(tree) <==> TypesUnbroken(c, m)
  {
    hide ValidMessage, BoundariesClear, TypesUnbroken, Composed, ValuesOk, HeaderLinesOf, Read, Render, TreeOf;
    if TypesUnbroken(c, m) {
      MessageRoundTrip(c, m, stamp, headers, order);
    } else {
      BrokenIsNotRead(c, m, stamp, HeaderLinesOf(headers, order));
    }
  }

  lemma TreeIsFramed(c: Codecs, m: Message, stamp: Stamp, top: seq<string>)
    requires (m.text != "" || m.html != "") && Framable(c, m, stamp) && HeaderLines(top)
    requires BoundaryOf(top) ==
             if |m.attachments| > 0 then Some(stamp.mixed) else if Both(m) then Some(stamp.alternative) else None
    ensures WellFramed(TreeOf(c, m, stamp, top))
  {
    hide BoundaryOf, HeaderLines, Clean, Lines, TextsClean, Fits, OneLine, Unbroken, AttachmentLeaf, BodyEntity,
      TextLeaf;
    BoundaryOneLine(stamp.mixed);
    BoundaryOneLine(stamp.alternative);
    if |m.attachments| > 0 {
      var leaves := AttachmentLeaves(c, m.attachments);
      var parts := [BodyEntity(c, m, stamp)] + leaves;
      BodyFits(c, m, stamp);
      forall i | 0 <= i < |m.attachments|
        ensures Fits(stamp.mixed, leaves[i])
      {
        AttachmentFits(c, stamp.mixed, m.attachments[i]);
      }
      MultiIsFramed(top, stamp.mixed, parts);
    } else if Both(m) {
      AlternativesFit(c, m, stamp.alternative);
      MultiIsFramed(top, stamp.alternative, Alternatives(c, m));
    }
  }

  /** An attachment that a reader finds in that tree says that it is base64, has its type and file name, and decodes
      to exactly the bytes its source delivered. */
  lemma AttachmentsSurvive(c: Codecs, m: Message, stamp: Stamp, top: seq<string>, i: nat)
    requires i < |m.attachments|
    ensures var tree := TreeOf(c, m, stamp, top); var a := m.attachments[i];
            && tree.Multi? && |tree.parts| == 1 + |m.attachments| && tree.parts[1 + i].Leaf?
            && DecodePadded(StripBreaks(tree.parts[1 + i].body)) == Some(Contents(a))
            && (var contentType := if a.contentType == "" then "application/octet-stream" else a.contentType;
                tree.parts[1 + i].headers ==
                  ["Content-Disposition: " + c.disposition(a.filename), "Content-Transfer-Encoding: base64",
                   "Content-Type: " + contentType])
  {
    hide DecodePadded, StripBreaks, A.Body, BodyEntity, AttachmentHeaders;
    A.BodyRoundTrip(Contents(m.attachments[i]));
    AttachmentHeadersAre(c, m.attachments[i]);
  }

  lemma AttachmentHeadersAre(c: Codecs, a: AttachmentSource)
    ensures var contentType := if a.contentType == "" then "application/octet-stream" else a.contentType;
            AttachmentHeaders(c, a) ==
              ["Content-Disposition: " + c.disposition(a.filename), "Content-Transfer-Encoding: base64",
               "Content-Type: " + contentType]
  {
    hide Canon;
    KeysAre();
    assert "Content-Disposition" + ": " == "Content-Disposition: " && "Content-Type" + ": " == "Content-Type: ";
    assert "Content-Transfer-Encoding" + ": " + "base64" == "Content-Transfer-Encoding: base64";
  }

  /** A text part: its encoded text under its type. */
  predicate IsText(e: Entity, contentType: string, encoded: string) {
    e.Leaf? && e.body == encoded
    && e.headers == ["Content-Transfer-Encoding: quoted-printable", "Content-Type: " + contentType]
  }

  /** The header of an inner multipart. */
  function AnnouncedAlternative(boundary: string): seq<string> {
    ["Content-Type: " + ("multipart/alternative; boundary=\"" + boundary + "\"")]
  }

  /** Where a reader finds the texts: below the attachments' multipart if there is one; plain text before HTML if
      there are both, alone otherwise. */
  lemma TextsSurvive(c: Codecs, m: Message, stamp: Stamp, top: seq<string>)
    requires m.text != "" || m.html != ""
    ensures var tree := TreeOf(c, m, stamp, top);
            && (m.attachments != [] ==> tree.Multi? && |tree.parts| == 1 + |m.attachments|)
            && (var body := if m.attachments != [] then tree.parts[0] else tree;
                if m.text != "" && m.html != "" then
                  && body.Multi? && |body.parts| == 2
                  && (m.attachments != [] ==> body.headers == AnnouncedAlternative(stamp.alternative))
                  && IsText(body.parts[0], "text/plain; charset=\"utf-8\"", c.quotedPrintable(m.text))
                  && IsText(body.parts[1], "text/html; charset=\"utf-8\"", c.quotedPrintable(m.html))
                else
                  && body.Leaf? && body.body == c.quotedPrintable(m.text + m.html)
                  && (m.attachments != [] ==>
                        IsText(body, (if m.text != "" then "text/plain" else "text/html") + "; charset=\"utf-8\"",
                               body.body)))
  {
    assert m.text == "" ==> m.text + m.html == m.html;
    assert m.html == "" ==> m.text + m.html == m.text;
    hide IsText, AnnouncedAlternative, Alternatives, BodyEntity;
    AlternativesAre(c, m);
    BodyIs(c, m, stamp);
  }

  lemma AlternativesAre(c: Codecs, m: Message)
    ensures var parts := Alternatives(c, m);
            && |parts| == 2
            && IsText(parts[0], "text/plain; charset=\"utf-8\"", c.quotedPrintable(m.text))
            && IsText(parts[1], "text/html; charset=\"utf-8\"", c.quotedPrintable(m.html))
  {
    TextLeaves(c, m.text);
    TextLeaves(c, m.html);
    hide IsText, TextLeaf;
  }

  lemma BodyIs(c: Codecs, m: Message, stamp: Stamp)
    requires m.text != "" || m.html != ""
    ensures var body := BodyEntity(c, m, stamp);
            if m.text != "" && m.html != "" then
              body.Multi? && body.headers == AnnouncedAlternative(stamp.alternative) && body.parts == Alternatives(c, m)
            else
              IsText(body, (if m.text != "" then "text/plain" else "text/html") + "; charset=\"utf-8\"",
                     c.quotedPrintable(if m.text != "" then m.text else m.html))
  {
    TextLeaves(c, m.text);
    TextLeaves(c, m.html);
    AlternativeHeadersAre(stamp);
    hide IsText, TextLeaf, AlternativeHeaders, AnnouncedAlternative, Alternatives;
    assert "text/plain" + "; charset=\"utf-8\"" == "text/plain; charset=\"utf-8\"";
    assert "text/html" + "; charset=\"utf-8\"" == "text/html; charset=\"utf-8\"";
  }

  lemma TextLeaves(c: Codecs, text: string)
    ensures IsText(TextLeaf(c, false, text), "text/plain; charset=\"utf-8\"", c.quotedPrintable(text))
    ensures IsText(TextLeaf(c, true, text), "text/html; charset=\"utf-8\"", c.quotedPrintable(text))
    ensures TextLeaf(c, false, text).Leaf? && TextLeaf(c, false, text).body == c.quotedPrintable(text)
    ensures TextLeaf(c, true, text).Leaf? && TextLeaf(c, true, text).body == c.quotedPrintable(text)
  {
    hide Canon;
    KeysAre();
    TextTypesAre();
    hide TextType;
    assert "Content-Type" + ": " == "Content-Type: ";
    assert "Content-Transfer-Encoding" + ": " + "quoted-printable" == "Content-Transfer-Encoding: quoted-printable";
  }

  lemma AlternativeHeadersAre(stamp: Stamp)
    ensures AlternativeHeaders(stamp) == AnnouncedAlternative(stamp.alternative)
  {
    hide Canon;
    KeysAre();
    hide Key;
    assert "Content-Type" + ": " == "Content-Type: ";
  }

  /** Blind copies leave no trace in the tree either. */
  lemma TreeWithoutBlindCopies(c: Codecs, m: Message, bcc: seq<Address>, stamp: Stamp, top: seq<string>)
    ensures TreeOf(c, m.(bcc := bcc), stamp, top) == TreeOf(c, m, stamp, top)
  {
  }
}
