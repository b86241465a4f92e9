/** MIME entities as text: how multipart framing is written (section 5.1.1 of
    RFC 2046, as Go's multipart writer does it) and an independent reader that
    takes such text apart again, line by line. */
module MimeTree {
  import opened Text
  import opened Headers

  /** A part with a body, or a multipart with its boundary.  Headers are whole lines. */
  datatype Entity =
    | Leaf(headers: seq<string>, body: string)
    | Multi(headers: seq<string>, boundary: string, parts: seq<Entity>)

  // ------------------------------------------------------------------
  // Writing
  // ------------------------------------------------------------------

  function Block(lines: seq<string>): string {
    if lines == [] then "" else lines[0] + CRLF + Block(lines[1..])
  }

  function Delimiter(boundary: string): string {
    "--" + boundary
  }

  /** What the multipart writer puts before a part. */
  function Opening(boundary: string, first: bool): string {
    (if first then "" else CRLF) + Delimiter(boundary) + CRLF
  }

  function Closing(boundary: string): string {
    CRLF + Delimiter(boundary) + "--" + CRLF
  }

  function PartsText(boundary: string, parts: seq<string>): string {
    if parts == [] then ""
    else
      var init := parts[..|parts| - 1];
      PartsText(boundary, init) + Opening(boundary, init == []) + parts[|parts| - 1]
  }

  function MultipartText(boundary: string, parts: seq<string>): string {
    PartsText(boundary, parts) + Closing(boundary)
  }

  function Render(e: Entity): string
    decreases e
  {
    match e
    case Leaf(headers, body) => Block(headers) + CRLF + body
    case Multi(headers, boundary, parts) => Block(headers) + CRLF + MultipartText(boundary, RenderAll(parts))
  }

  function RenderAll(parts: seq<Entity>): (texts: seq<string>)
    ensures |texts| == |parts|
    decreases parts
  {
    if parts == [] then [] else [Render(parts[0])] + RenderAll(parts[1..])
  }

  lemma {:induction false} JoinSnoc(init: seq<string>, last: string, sep: string)
    requires init != []
    ensures Join(init + [last], sep) == Join(init, sep) + sep + last
  {
    if |init| == 1 {
      assert (init + [last])[1..] == [last];
    } else {
      JoinSnoc(init[1..], last, sep);
      assert (init + [last])[1..] == init[1..] + [last];
      var rest := Join(init[1..], sep);
      Regroup(init[0] + sep, rest + sep, last);
      Regroup(init[0] + sep, rest, sep);
    }
  }

  /** The whole of it: the parts with a delimiter line before each, on a line of its own, and one more closed by two
      hyphens at the end. */
  lemma {:induction false} MultipartIsJoined(boundary: string, parts: seq<string>)
    requires parts != []
    ensures PartsText(boundary, parts) == "--" + boundary + "\r\n" + Join(parts, "\r\n" + "--" + boundary + "\r\n")
    ensures MultipartText(boundary, parts) ==
            "--" + boundary + "\r\n" + Join(parts, "\r\n" + "--" + boundary + "\r\n")
            + ("\r\n" + "--" + boundary + "--" + "\r\n")
  {
    var open, between := "--" + boundary + "\r\n", "\r\n" + "--" + boundary + "\r\n";
    var init, last := parts[..|parts| - 1], parts[|parts| - 1];
    assert Closing(boundary) == "\r\n" + "--" + boundary + "--" + "\r\n";
    assert Opening(boundary, false) == between && Opening(boundary, true) == open;
    hide Opening, Closing;
    if init == [] {
      assert Join(parts, between) == last;
      assert "" + open + last == open + last;
    } else {
      MultipartIsJoined(boundary, init);
      JoinSnoc(init, last, between);
      hide Join;
      assert parts == init + [last];
      Regroup(open, Join(init, between), between);
      Regroup(open, Join(init, between) + between, last);
    }
  }

  // ------------------------------------------------------------------
  // Reading
  // ------------------------------------------------------------------

  /** A line no part of a multipart may contain: it starts with the delimiter. */
  predicate IsDelimiter(boundary: string, line: string) {
    HasPrefix(line, Delimiter(boundary))
  }

  predicate Clean(boundary: string, lines: seq<string>) {
    forall i :: 0 <= i < |lines| ==> !IsDelimiter(boundary, lines[i])
  }

  /** Collects parts up to the closing delimiter; what follows it is ignored. */
  function ReadParts(boundary: string, lines: seq<string>, current: seq<string>): (r: Option<seq<seq<string>>>)
    ensures r.Some? ==> forall i :: 0 <= i < |r.value| ==> |r.value[i]| < |current| + |lines|
    decreases |lines|
  {
    if lines == [] then None
    else if lines[0] == Delimiter(boundary) + "--" then Some([current])
    else if lines[0] == Delimiter(boundary) then
      match ReadParts(boundary, lines[1..], [])
      case None => None
      case Some(rest) => Some([current] + rest)
    else if IsDelimiter(boundary, lines[0]) then None
    else ReadParts(boundary, lines[1..], current + [lines[0]])
  }

  function ReadMultipart(boundary: string, lines: seq<string>): (r: Option<seq<seq<string>>>)
    ensures r.Some? ==> forall i :: 0 <= i < |r.value| ==> |r.value[i]| < |lines|
  {
    if lines == [] || lines[0] != Delimiter(boundary) then None
    else ReadParts(boundary, lines[1..], [])
  }

  function TypeName(): string { Key(ContentType) }

  function EncodingName(): string { Key(ContentTransferEncoding) }

  function MixedPrefix(): string { "multipart/mixed; boundary=\"" }

  function AlternativePrefix(): string { "multipart/alternative; boundary=\"" }

  /** The boundary a Content-Type value gives. */
  function BoundaryParameter(value: string): Option<string> {
    if HasPrefix(value, MixedPrefix()) && |value| > |MixedPrefix()| then
      Some(value[|MixedPrefix()|..|value| - 1])
    else if HasPrefix(value, AlternativePrefix()) && |value| > |AlternativePrefix()| then
      Some(value[|AlternativePrefix()|..|value| - 1])
    else None
  }

  function FirstAnnounced(headers: seq<string>): Option<string> {
    if headers == [] then None
    else if NameOf(headers[0]) == TypeName() && |NameOf(headers[0])| + 2 <= |headers[0]| then
      BoundaryParameter(ValueOf(headers[0]))
    else FirstAnnounced(headers[1..])
  }

  predicate DeclaresEncoding(headers: seq<string>) {
    exists i :: 0 <= i < |headers| && NameOf(headers[i]) == EncodingName()
  }

  /** An entity is composite when its Content-Type gives a boundary and it declares no transfer encoding, which a
      composite may not have (section 6.4 of RFC 2045). */
  function BoundaryOf(headers: seq<string>): Option<string> {
    if DeclaresEncoding(headers) then None else FirstAnnounced(headers)
  }

  /** The number of lines before the first empty one. */
  function HeaderCount(lines: seq<string>): (n: nat)
    ensures n <= |lines|
  {
    if lines == [] || lines[0] == "" then 0 else 1 + HeaderCount(lines[1..])
  }

  function ReadEntity(lines: seq<string>): Option<Entity>
    decreases |lines|, 1, 0
  {
    var n := HeaderCount(lines);
    if n == |lines| then None
    else
      var headers, content := lines[..n], lines[n + 1..];
      match BoundaryOf(headers)
      case None => Some(Leaf(headers, Join(content, CRLF)))
      case Some(boundary) =>
        match ReadMultipart(boundary, content)
        case None => None
        case Some(parts) =>
          match ReadEntities(parts, |lines|)
          case None => None
          case Some(entities) => Some(Multi(headers, boundary, entities))
  }

  function ReadEntities(parts: seq<seq<string>>, bound: nat): Option<seq<Entity>>
    requires forall i :: 0 <= i < |parts| ==> |parts[i]| < bound
    decreases bound, 0, |parts|
  {
    if parts == [] then Some([])
    else
      match (ReadEntity(parts[0]), ReadEntities(parts[1..], bound))
      case (Some(e), Some(rest)) => Some([e] + rest)
      case _ => None
  }

  /** The reader of a whole message. */
  function Read(text: string): Option<Entity> {
    ReadEntity(Lines(text))
  }

  // ------------------------------------------------------------------
  // One level of framing
  // ------------------------------------------------------------------

  function LinesAll(texts: seq<string>): (all: seq<seq<string>>)
    ensures |all| == |texts| && forall i :: 0 <= i < |texts| ==> all[i] == Lines(texts[i])
  {
    seq(|texts|, i requires 0 <= i < |texts| => Lines(texts[i]))
  }

  /** The lines of framed parts: each part after a delimiter line. */
  function PartLines(boundary: string, parts: seq<seq<string>>): seq<string> {
    if parts == [] then [] else [Delimiter(boundary)] + parts[0] + PartLines(boundary, parts[1..])
  }

  lemma {:induction false} PartLinesSnoc(boundary: string, parts: seq<seq<string>>, last: seq<string>)
    ensures PartLines(boundary, parts + [last]) == PartLines(boundary, parts) + [Delimiter(boundary)] + last
  {
    if parts == [] {
      assert parts + [last] == [last];
      assert [last][1..] == [];
    } else {
      PartLinesSnoc(boundary, parts[1..], last);
      assert (parts + [last])[1..] == parts[1..] + [last];
    }
  }

  lemma OpeningLines(boundary: string, text: string)
    requires OneLine(boundary)
    ensures Lines(Delimiter(boundary) + CRLF + text) == [Delimiter(boundary)] + Lines(text)
  {
    LinesOneLine(Delimiter(boundary));
    LinesConcat(Delimiter(boundary), text);
  }

  lemma {:induction false} LinesOfParts(boundary: string, parts: seq<string>)
    requires |parts| > 0 && OneLine(boundary)
    ensures Lines(PartsText(boundary, parts)) == PartLines(boundary, LinesAll(parts))
  {
    hide Lines, OneLine;
    var init, last := parts[..|parts| - 1], parts[|parts| - 1];
    var framed := Delimiter(boundary) + CRLF + last;
    OpeningLines(boundary, last);
    PartLinesSnoc(boundary, LinesAll(init), Lines(last));
    assert LinesAll(parts) == LinesAll(init) + [Lines(last)];
    if init == [] {
      assert PartsText(boundary, parts) == framed;
    } else {
      LinesOfParts(boundary, init);
      LinesConcat(PartsText(boundary, init), framed);
      Regroup(PartsText(boundary, init), CRLF, framed);
      assert Opening(boundary, false) + last == CRLF + framed;
      Regroup(PartsText(boundary, init), Opening(boundary, false), last);
    }
  }

  function FramedLines(boundary: string, parts: seq<seq<string>>): seq<string> {
    PartLines(boundary, parts) + [Delimiter(boundary) + "--", ""]
  }

  lemma LinesOfMultipart(boundary: string, parts: seq<string>)
    requires |parts| > 0 && OneLine(boundary)
    ensures Lines(MultipartText(boundary, parts)) == FramedLines(boundary, LinesAll(parts))
  {
    var text, close := PartsText(boundary, parts), Delimiter(boundary) + "--";
    CloseOneLine(boundary);
    CloseAddsUp(boundary, parts);
    hide Lines, PartsText, OneLine, MultipartText, Delimiter;
    LinesOfParts(boundary, parts);
    LinesOneLine(close);
    EmptyLine();
    LinesConcat(close, "");
    LinesConcat(text, close + CRLF + "");
    assert [close] + [""] == [close, ""];
  }

  lemma CloseOneLine(boundary: string)
    requires OneLine(boundary)
    ensures OneLine(Delimiter(boundary) + "--")
  {
  }

  lemma EmptyLine()
    ensures Lines("") == [""]
  {
  }

  lemma CloseAddsUp(boundary: string, parts: seq<string>)
    ensures MultipartText(boundary, parts)
            == PartsText(boundary, parts) + CRLF + (Delimiter(boundary) + "--" + CRLF + "")
  {
    hide PartsText, Delimiter;
    var text, close := PartsText(boundary, parts), Delimiter(boundary) + "--" + CRLF;
    assert close + "" == close;
    Regroup(text, CRLF, close);
    Regroup(CRLF, Delimiter(boundary), "--");
    Regroup(CRLF, Delimiter(boundary) + "--", CRLF);
  }

  lemma {:induction false} ReadCleanLines(boundary: string, lines: seq<string>, rest: seq<string>, current: seq<string>)
    requires Clean(boundary, lines)
    ensures ReadParts(boundary, lines + rest, current) == ReadParts(boundary, rest, current + lines)
    decreases |lines|
  {
    if lines == [] {
      assert lines + rest == rest && current + lines == current;
    } else {
      assert !IsDelimiter(boundary, lines[0]);
      var d := Delimiter(boundary);
      assert (d + "--")[..|d|] == d && d[..|d|] == d;
      ReadCleanLines(boundary, lines[1..], rest, current + [lines[0]]);
      assert (lines + rest)[1..] == lines[1..] + rest;
      assert current + lines == current + [lines[0]] + lines[1..];
    }
  }

  lemma ReadClose(boundary: string, current: seq<string>)
    ensures ReadParts(boundary, [Delimiter(boundary) + "--", ""], current) == Some([current])
  {
  }

  lemma ReadNext(boundary: string, lines: seq<string>, current: seq<string>)
    requires ReadParts(boundary, lines, []).Some?
    ensures ReadParts(boundary, [Delimiter(boundary)] + lines, current)
            == Some([current] + ReadParts(boundary, lines, []).value)
  {
    assert ([Delimiter(boundary)] + lines)[1..] == lines;
    assert |Delimiter(boundary)| < |Delimiter(boundary) + "--"|;
  }

  lemma {:induction false} ReadFramed(boundary: string, parts: seq<seq<string>>)
    requires |parts| > 0
    requires forall i :: 0 <= i < |parts| ==> Clean(boundary, parts[i])
    ensures ReadParts(boundary, FramedLines(boundary, parts)[1..], []) == Some(parts)
  {
    hide ReadParts, Clean;
    var first, others := parts[0], parts[1..];
    var rest := FramedLines(boundary, others);
    assert FramedLines(boundary, parts)[1..] == first + rest;
    ReadCleanLines(boundary, first, rest, []);
    assert [] + first == first;
    if others == [] {
      assert rest == [Delimiter(boundary) + "--", ""];
      ReadClose(boundary, first);
      assert parts == [first];
    } else {
      ReadFramed(boundary, others);
      assert rest == [Delimiter(boundary)] + rest[1..];
      ReadNext(boundary, rest[1..], first);
      assert [first] + others == parts;
    }
  }

  lemma {:induction false} ReadPartsAreClean(boundary: string, lines: seq<string>, current: seq<string>)
    requires Clean(boundary, current)
    requires ReadParts(boundary, lines, current).Some?
    ensures forall i :: 0 <= i < |ReadParts(boundary, lines, current).value| ==>
              Clean(boundary, ReadParts(boundary, lines, current).value[i])
    decreases |lines|
  {
    if lines[0] == Delimiter(boundary) + "--" {
    } else if lines[0] == Delimiter(boundary) {
      ReadPartsAreClean(boundary, lines[1..], []);
    } else {
      ReadPartsAreClean(boundary, lines[1..], current + [lines[0]]);
    }
  }

  /** Splitting written parts at their boundary gives them back if and only if none of their lines starts with the
      delimiter. */
  lemma FramingRoundTrip(boundary: string, parts: seq<string>)
    requires |parts| > 0 && OneLine(boundary)
    ensures ReadMultipart(boundary, Lines(MultipartText(boundary, parts))) == Some(LinesAll(parts))
            <==> (forall i :: 0 <= i < |parts| ==> Clean(boundary, Lines(parts[i])))
  {
    LinesOfMultipart(boundary, parts);
    var all := LinesAll(parts);
    var lines := FramedLines(boundary, all);
    assert lines[0] == Delimiter(boundary);
    hide Lines, MultipartText, ReadParts, FramedLines, Clean;
    if forall i :: 0 <= i < |parts| ==> Clean(boundary, Lines(parts[i])) {
      ReadFramed(boundary, all);
    }
    if ReadMultipart(boundary, lines) == Some(all) {
      EmptyIsClean(boundary);
      ReadPartsAreClean(boundary, lines[1..], []);
      assert forall i :: 0 <= i < |parts| ==> Clean(boundary, all[i]);
    }
  }

  lemma EmptyIsClean(boundary: string)
    ensures Clean(boundary, [])
  {
  }

  // ------------------------------------------------------------------
  // Whole trees
  // ------------------------------------------------------------------

  predicate HeaderLines(headers: seq<string>) {
    forall i :: 0 <= i < |headers| ==> headers[i] != "" && Unbroken(headers[i])
  }

  /** Headers that say what the entity is, and parts free of the delimiter of every multipart around them. */
  predicate WellFramed(e: Entity)
    decreases e
  {
    && HeaderLines(e.headers)
    && match e
       case Leaf(headers, _) => BoundaryOf(headers) == None
       case Multi(headers, boundary, parts) =>
         && BoundaryOf(headers) == Some(boundary) && OneLine(boundary) && |parts| > 0
         && (forall i :: 0 <= i < |parts| ==> WellFramed(parts[i]) && Clean(boundary, Lines(Render(parts[i]))))
  }

  lemma {:induction false} LinesOfBlock(headers: seq<string>, text: string)
    requires HeaderLines(headers)
    ensures Lines(Block(headers) + CRLF + text) == headers + [""] + Lines(text)
  {
    if headers == [] {
      assert Block(headers) + CRLF + text == "" + CRLF + text;
      LinesConcat("", text);
      LinesOneLine("");
    } else {
      var rest := Block(headers[1..]) + CRLF + text;
      LinesOfBlock(headers[1..], text);
      LinesConcat(headers[0], rest);
      LinesUnbroken(headers[0]);
      hide Lines, Unbroken;
      Regroup(headers[0] + CRLF, Block(headers[1..]), CRLF);
      Regroup(headers[0] + CRLF, Block(headers[1..]) + CRLF, text);
      assert headers == [headers[0]] + headers[1..];
    }
  }

  lemma {:induction false} HeaderCountOf(headers: seq<string>, content: seq<string>)
    requires HeaderLines(headers)
    ensures HeaderCount(headers + [""] + content) == |headers|
  {
    var lines := headers + [""] + content;
    if headers != [] {
      HeaderCountOf(headers[1..], content);
      assert lines[1..] == headers[1..] + [""] + content;
    }
  }

  lemma {:induction false} RenderAllAt(parts: seq<Entity>)
    ensures forall i :: 0 <= i < |parts| ==> RenderAll(parts)[i] == Render(parts[i])
  {
    if parts != [] {
      RenderAllAt(parts[1..]);
    }
  }

  lemma SplitAtHeaders(headers: seq<string>, content: seq<string>)
    requires HeaderLines(headers)
    ensures var lines := headers + [""] + content;
            HeaderCount(lines) == |headers| && |lines| == |headers| + 1 + |content|
            && lines[..|headers|] == headers && lines[|headers| + 1..] == content
  {
    HeaderCountOf(headers, content);
  }

  lemma ReadLeaf(headers: seq<string>, content: seq<string>)
    requires HeaderLines(headers) && BoundaryOf(headers).None?
    ensures ReadEntity(headers + [""] + content) == Some(Leaf(headers, Join(content, CRLF)))
  {
    SplitAtHeaders(headers, content);
    hide HeaderCount, BoundaryOf, ReadMultipart, Join, HeaderLines, ReadEntities;
  }

  lemma ReadCompositeLines(lines: seq<string>, n: nat, boundary: string, parts: seq<seq<string>>, entities: seq<Entity>)
    requires n == HeaderCount(lines) < |lines| && BoundaryOf(lines[..n]) == Some(boundary)
    requires ReadMultipart(boundary, lines[n + 1..]) == Some(parts)
    requires ReadEntities(parts, |lines|) == Some(entities)
    ensures ReadEntity(lines) == Some(Multi(lines[..n], boundary, entities))
  {
    hide HeaderCount, BoundaryOf, ReadMultipart, Join, ReadEntities;
  }

  lemma ReadComposite(headers: seq<string>, content: seq<string>, boundary: string,
                      parts: seq<seq<string>>, entities: seq<Entity>)
    requires HeaderLines(headers) && BoundaryOf(headers) == Some(boundary)
    requires ReadMultipart(boundary, content) == Some(parts)
    requires ReadEntities(parts, |headers| + 1 + |content|) == Some(entities)
    ensures ReadEntity(headers + [""] + content) == Some(Multi(headers, boundary, entities))
  {
    hide *;
    SplitAtHeaders(headers, content);
    var lines := headers + [""] + content;
    assert BoundaryOf(lines[..|headers|]) == Some(boundary);
    ReadCompositeLines(lines, |headers|, boundary, parts, entities);
  }

  /** Reading undoes writing, on every well-framed tree. */
  lemma {:induction false} ReadRender(e: Entity)
    requires WellFramed(e)
    ensures Read(Render(e)) == Some(e)
    decreases e
  {
    hide Lines, Join, MultipartText, Block, ReadMultipart, BoundaryOf, Clean, ReadEntity, ReadEntities, HeaderLines;
    match e
    case Leaf(headers, body) =>
      LinesOfBlock(headers, body);
      ReadLeaf(headers, Lines(body));
      JoinLines(body);
    case Multi(headers, boundary, parts) =>
      var texts := RenderAll(parts);
      var content := Lines(MultipartText(boundary, texts));
      LinesOfBlock(headers, MultipartText(boundary, texts));
      RenderAllAt(parts);
      FramingRoundTrip(boundary, texts);
      ReadRenderedParts(parts, |headers| + 1 + |content|);
      ReadComposite(headers, content, boundary, LinesAll(texts), parts);
  }

  lemma {:induction false} ReadRenderedParts(parts: seq<Entity>, bound: nat)
    requires forall i :: 0 <= i < |parts| ==> WellFramed(parts[i])
    requires forall i :: 0 <= i < |parts| ==> |LinesAll(RenderAll(parts))[i]| < bound
    ensures ReadEntities(LinesAll(RenderAll(parts)), bound) == Some(parts)
    decreases parts
  {
    if parts != [] {
      var all := LinesAll(RenderAll(parts));
      ReadRender(parts[0]);
      hide WellFramed, Lines, ReadEntity, Render;
      assert all[0] == Lines(Render(parts[0]));
      assert all[1..] == LinesAll(RenderAll(parts[1..]));
      ReadRenderedParts(parts[1..], bound);
      assert [parts[0]] + parts[1..] == parts;
    }
  }

  // ------------------------------------------------------------------
  // What can be read at all
  // ------------------------------------------------------------------

  /** No header line of the tree holds a CRLF. */
  predicate HeadersUnbroken(e: Entity)
    decreases e
  {
    && AllUnbroken(e.headers)
    && (e.Multi? ==> forall i :: 0 <= i < |e.parts| ==> HeadersUnbroken(e.parts[i]))
  }

  lemma UnbrokenConcat(a: seq<string>, b: seq<string>)
    requires AllUnbroken(a) && AllUnbroken(b)
    ensures AllUnbroken(a + b)
  {
    hide Unbroken;
  }

  lemma UnbrokenSlice(lines: seq<string>, i: nat, j: nat)
    requires AllUnbroken(lines) && i <= j <= |lines|
    ensures AllUnbroken(lines[i..j]) && AllUnbroken(lines[..j]) && AllUnbroken(lines[i..])
  {
    hide Unbroken;
  }

  lemma {:induction false} PartsUnbroken(boundary: string, lines: seq<string>, current: seq<string>)
    requires AllUnbroken(lines) && AllUnbroken(current) && ReadParts(boundary, lines, current).Some?
    ensures forall i :: 0 <= i < |ReadParts(boundary, lines, current).value| ==>
              AllUnbroken(ReadParts(boundary, lines, current).value[i])
    decreases |lines|
  {
    UnbrokenSlice(lines, 1, |lines|);
    if lines[0] == Delimiter(boundary) + "--" {
    } else if lines[0] == Delimiter(boundary) {
      PartsUnbroken(boundary, lines[1..], []);
    } else {
      UnbrokenConcat(current, [lines[0]]);
      PartsUnbroken(boundary, lines[1..], current + [lines[0]]);
    }
    hide AllUnbroken;
  }

  lemma {:induction false} EntityUnbroken(lines: seq<string>)
    requires AllUnbroken(lines) && ReadEntity(lines).Some?
    ensures HeadersUnbroken(ReadEntity(lines).value)
    decreases |lines|, 1, 0
  {
    hide AllUnbroken, HeaderCount, BoundaryOf, Join, ReadParts;
    var n := HeaderCount(lines);
    var headers, content := lines[..n], lines[n + 1..];
    UnbrokenSlice(lines, n + 1, |lines|);
    UnbrokenSlice(lines, n, n);
    var boundary := BoundaryOf(headers);
    if boundary.Some? {
      var parts := ReadMultipart(boundary.value, content).value;
      UnbrokenSlice(content, 1, |content|);
      NothingUnbroken();
      PartsUnbroken(boundary.value, content[1..], []);
      EntitiesUnbroken(parts, |lines|);
    }
  }

  lemma NothingUnbroken()
    ensures AllUnbroken([])
  {
  }

  lemma {:induction false} EntitiesUnbroken(parts: seq<seq<string>>, bound: nat)
    requires forall i :: 0 <= i < |parts| ==> |parts[i]| < bound && AllUnbroken(parts[i])
    requires ReadEntities(parts, bound).Some?
    ensures forall i :: 0 <= i < |ReadEntities(parts, bound).value| ==>
              HeadersUnbroken(ReadEntities(parts, bound).value[i])
    decreases bound, 0, |parts|
  {
    hide AllUnbroken, HeadersUnbroken, ReadEntity;
    if parts != [] {
      EntityUnbroken(parts[0]);
      EntitiesUnbroken(parts[1..], bound);
    }
  }

  /** Nothing that is read has a CRLF in a header line. */
  lemma ReadIsUnbroken(text: string)
    requires Read(text).Some?
    ensures HeadersUnbroken(Read(text).value)
  {
    hide Lines, ReadEntity, HeadersUnbroken, AllUnbroken;
    LinesAreUnbroken(text);
    EntityUnbroken(Lines(text));
  }
}
