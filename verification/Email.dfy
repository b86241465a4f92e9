/** Messages, their validation, and what they look like composed
    (emailx/email.go, and writeMIME of emailx/smtp.go). */
module Email {
  import opened Text
  import opened Stream
  import opened Headers
  import opened MimeTree

  datatype Address = Address(name: string, email: string)

  /** An attachment's reader factory: missing, failing, or giving a reader that behaves as scripted. */
  datatype Factory = Missing | Fails | Opens(script: seq<Turn>)

  datatype AttachmentSource = AttachmentSource(filename: string, contentType: string, open: Factory)

  datatype Message = Message(from: Address, to: seq<Address>, cc: seq<Address>, bcc: seq<Address>,
                             replyTo: seq<Address>, subject: string, text: string, html: string,
                             headers: map<string, string>, attachments: seq<AttachmentSource>)

  /** The codecs of the Go library that composition relies on. */
  datatype Codecs = Codecs(format: Address -> string,            // mail.Address.String
                           parse: string -> Option<string>,      // mail.ParseAddress
                           encodeWord: string -> string,         // mime.QEncoding.Encode
                           quotedPrintable: string -> string,    // quotedprintable.Writer
                           disposition: string -> string)        // mime.FormatMediaType("attachment", ...)

  /** What is drawn afresh for each message. */
  datatype Stamp = Stamp(messageID: string, date: string, mixed: string, alternative: string)

  // ------------------------------------------------------------------
  // validateMessage
  // ------------------------------------------------------------------

  predicate ValidAddress(c: Codecs, a: Address) {
    a.email != "" && c.parse(c.format(a)) == Some(a.email)
  }

  predicate ValidAddresses(c: Codecs, addresses: seq<Address>) {
    forall i :: 0 <= i < |addresses| ==> ValidAddress(c, addresses[i])
  }

  predicate ValidHeaders(headers: map<string, string>) {
    forall name :: name in headers ==> Lower(name) !in RESERVED && ValidHeader(name) && OneLine(headers[name])
  }

  predicate ValidMessage(c: Codecs, m: Message) {
    && ValidAddress(c, m.from)
    && |m.to| + |m.cc| + |m.bcc| > 0
    && ValidAddresses(c, m.to) && ValidAddresses(c, m.cc) && ValidAddresses(c, m.bcc) && ValidAddresses(c, m.replyTo)
    && (m.text != "" || m.html != "")
    && ValidHeaders(m.headers)
    && (forall i :: 0 <= i < |m.attachments| ==>
          m.attachments[i].filename != "" && OneLine(m.attachments[i].filename) && !m.attachments[i].open.Missing?)
  }

  /** recipients: the envelope, in order. */
  function Recipients(m: Message): seq<Address> {
    m.to + m.cc + m.bcc
  }

  // ------------------------------------------------------------------
  // Headers
  // ------------------------------------------------------------------

  function JoinAddresses(c: Codecs, addresses: seq<Address>): string {
    Join(seq(|addresses|, i requires 0 <= i < |addresses| => c.format(addresses[i])), ", ")
  }

  predicate Both(m: Message) {
    m.text != "" && m.html != ""
  }

  function MixedType(boundary: string): string {
    MixedPrefix() + boundary + "\""
  }

  function AlternativeType(boundary: string): string {
    AlternativePrefix() + boundary + "\""
  }

  function TextType(html: bool): string {
    (if html then "text/html" else "text/plain") + "; charset=\"utf-8\""
  }

  /** The value the composer gives a header of its own, if it sets it at all. */
  function FieldValue(c: Codecs, m: Message, stamp: Stamp, f: Field): Option<string> {
    match f
    case From => Some(c.format(m.from))
    case To => Some(JoinAddresses(c, m.to))
    case Cc => if |m.cc| > 0 then Some(JoinAddresses(c, m.cc)) else None
    case ReplyTo => if |m.replyTo| > 0 then Some(JoinAddresses(c, m.replyTo)) else None
    case Subject => Some(c.encodeWord(m.subject))
    case Date => Some(stamp.date)
    case MessageID => Some(stamp.messageID)
    case MIMEVersion => Some("1.0")
    case ContentType =>
      Some(if |m.attachments| > 0 then MixedType(stamp.mixed)
           else if Both(m) then AlternativeType(stamp.alternative)
           else TextType(m.html != ""))
    case ContentTransferEncoding =>
      if |m.attachments| > 0 || Both(m) then None else Some("quoted-printable")
  }

  /** textproto.MIMEHeader.Set */
  function Set(headers: map<string, string>, name: string, value: string): map<string, string> {
    headers[Canon(name) := value]
  }

  /** The header map that composition ends with: the composer's own fields hold its values, and every other key is a
      custom name in canonical form with the value of a custom header of that form. */
  ghost predicate Composed(c: Codecs, m: Message, stamp: Stamp, headers: map<string, string>) {
    && (forall f: Field :: FieldValue(c, m, stamp, f).Some? ==>
          Key(f) in headers && headers[Key(f)] == FieldValue(c, m, stamp, f).value)
    && (forall name :: name in m.headers ==> Canon(name) in headers)
    && (forall k :: k in headers ==> OwnKey(c, m, stamp, k) || CustomKey(m, headers, k))
  }

  ghost predicate OwnKey(c: Codecs, m: Message, stamp: Stamp, k: string) {
    exists f: Field :: FieldValue(c, m, stamp, f).Some? && k == Key(f)
  }

  ghost predicate CustomKey(m: Message, headers: map<string, string>, k: string)
    requires k in headers
  {
    exists name :: name in m.headers && k == Canon(name) && headers[k] == m.headers[name]
  }

  /** A custom header never takes a key of the composer's. */
  lemma CustomKeysDiffer(m: Message, name: string, f: Field)
    requires ValidHeaders(m.headers) && name in m.headers
    ensures Canon(name) != Key(f)
  {
    hide Lower, Canon, Name, RESERVED, ValidHeader, OneLine;
    LowerCanon(name);
    LowerCanon(Name(f));
    NamesAreReserved(f);
  }

  /** The header map as lines, in the order in which the map was walked. */
  function HeaderLinesOf(headers: map<string, string>, order: seq<string>): seq<string>
    requires forall i :: 0 <= i < |order| ==> order[i] in headers
  {
    seq(|order|, i requires 0 <= i < |order| => Line(order[i], headers[order[i]]))
  }

  /** Each key once. */
  ghost predicate Enumerates(order: seq<string>, headers: map<string, string>) {
    && (forall i, j :: 0 <= i < j < |order| ==> order[i] != order[j])
    && (forall k :: k in order <==> k in headers)
  }

  predicate NamesOk(headers: map<string, string>) {
    forall k :: k in headers ==> k != "" && OneLine(k) && Free(k, ':')
  }

  predicate ValuesOk(headers: map<string, string>) {
    forall k :: k in headers ==> OneLine(headers[k])
  }

  lemma CanonKeeps(name: string)
    requires ValidHeader(name)
    ensures Canon(name) != "" && OneLine(Canon(name)) && Free(Canon(name), ':')
  {
    hide IsToken;
    forall i | 0 <= i < |name|
      ensures Canon(name)[i] != '\r' && Canon(name)[i] != '\n' && Canon(name)[i] != ':'
    {
    }
  }

  lemma KeyKeeps(f: Field)
    ensures Key(f) != "" && OneLine(Key(f)) && Free(Key(f), ':')
  {
    NameIsValid(f);
    CanonKeeps(Name(f));
  }

  lemma NameIsValid(f: Field)
    ensures ValidHeader(Name(f))
  {
    hide Name;
    NamesAreTokens(f);
    forall i | 0 <= i < |Name(f)|
      ensures !(Name(f)[i] as int <= 32 || Name(f)[i] as int >= 127 || Name(f)[i] == ':')
    {
      assert IsTokenChar(Name(f)[i]);
    }
  }

  lemma ComposedNames(c: Codecs, m: Message, stamp: Stamp, headers: map<string, string>)
    requires ValidHeaders(m.headers) && Composed(c, m, stamp, headers)
    ensures NamesOk(headers)
  {
    hide Canon, Name, ValidHeader, Lower, Key, OneLine;
    forall k | k in headers
      ensures k != "" && OneLine(k) && Free(k, ':')
    {
      if OwnKey(c, m, stamp, k) {
        var f: Field :| FieldValue(c, m, stamp, f).Some? && k == Key(f);
        KeyKeeps(f);
      } else {
        var name :| name in m.headers && k == Canon(name) && headers[k] == m.headers[name];
        CanonKeeps(name);
      }
    }
  }

  // ------------------------------------------------------------------
  // Reserved headers on the wire
  // ------------------------------------------------------------------

  lemma {:induction false} ValuesAbsent(headers: map<string, string>, order: seq<string>, lower: string)
    requires forall i :: 0 <= i < |order| ==> order[i] in headers && Free(order[i], ':') && Lower(order[i]) != lower
    ensures Values(HeaderLinesOf(headers, order), lower) == []
  {
    hide Lower;
    if order != [] {
      var lines := HeaderLinesOf(headers, order);
      LineParts(order[0], headers[order[0]]);
      ValuesAbsent(headers, order[1..], lower);
      assert lines[1..] == HeaderLinesOf(headers, order[1..]);
    }
  }

  lemma {:induction false} ValuesOnce(headers: map<string, string>, order: seq<string>, key: string, lower: string)
    requires forall i :: 0 <= i < |order| ==> order[i] in headers && Free(order[i], ':')
    requires forall i :: 0 <= i < |order| ==> (Lower(order[i]) == lower <==> order[i] == key)
    requires forall i, j :: 0 <= i < j < |order| ==> order[i] != order[j]
    requires key in order
    ensures Values(HeaderLinesOf(headers, order), lower) == [headers[key]]
  {
    hide Lower;
    var lines := HeaderLinesOf(headers, order);
    LineParts(order[0], headers[order[0]]);
    assert lines[1..] == HeaderLinesOf(headers, order[1..]);
    if order[0] == key {
      ValuesAbsent(headers, order[1..], lower);
    } else {
      ValuesOnce(headers, order[1..], key, lower);
    }
  }

  /** Only the composer's own key matches a composer's name, in whatever case. */
  lemma OnlyOwnKeyMatches(c: Codecs, m: Message, stamp: Stamp, headers: map<string, string>, k: string, f: Field)
    requires ValidHeaders(m.headers) && Composed(c, m, stamp, headers) && k in headers
    ensures Lower(k) == Lower(Name(f)) <==> k == Key(f)
    ensures k == Key(f) ==> FieldValue(c, m, stamp, f).Some?
    ensures Lower(k) != "bcc"
  {
    hide *;
    KeyCases(c, m, stamp, headers, k);
    if OwnKey(c, m, stamp, k) {
      var g: Field := OwnerOf(c, m, stamp, k);
      OwnKeyMatches(f, g);
    } else {
      var name := CustomOf(m, headers, k);
      CustomKeyMatches(m, name, f);
    }
  }

  lemma KeyCases(c: Codecs, m: Message, stamp: Stamp, headers: map<string, string>, k: string)
    requires Composed(c, m, stamp, headers) && k in headers
    ensures OwnKey(c, m, stamp, k) || CustomKey(m, headers, k)
  {
    hide FieldValue, Key, OwnKey, CustomKey, Canon;
  }

  lemma OwnerOf(c: Codecs, m: Message, stamp: Stamp, k: string) returns (g: Field)
    requires OwnKey(c, m, stamp, k)
    ensures FieldValue(c, m, stamp, g).Some? && k == Key(g)
  {
    hide FieldValue, Key;
    var h: Field :| FieldValue(c, m, stamp, h).Some? && k == Key(h);
    g := h;
  }

  lemma CustomOf(m: Message, headers: map<string, string>, k: string) returns (name: string)
    requires k in headers && CustomKey(m, headers, k)
    ensures name in m.headers && k == Canon(name)
  {
    hide Canon;
    name :| name in m.headers && k == Canon(name) && headers[k] == m.headers[name];
  }

  lemma OwnKeyMatches(f: Field, g: Field)
    ensures (Lower(Key(g)) == Lower(Name(f)) <==> Key(g) == Key(f)) && (Key(g) == Key(f) ==> g == f)
    ensures Lower(Key(g)) != "bcc"
  {
    hide Lower, Canon, Name, IsToken, RESERVED;
    LowerCanon(Name(f));
    LowerCanon(Name(g));
    NamesAreReserved(g);
    NamesAreTokens(f);
    NamesAreTokens(g);
    if Lower(Key(g)) == Lower(Name(f)) {
      CanonIgnoresCase(Name(f), Name(g));
    }
    if Key(g) == Key(f) {
      KeysDiffer(f, g);
    }
  }

  lemma CustomKeyMatches(m: Message, name: string, f: Field)
    requires ValidHeaders(m.headers) && name in m.headers
    ensures Lower(Canon(name)) != Lower(Name(f)) && Canon(name) != Key(f) && Lower(Canon(name)) != "bcc"
  {
    assert "bcc" in RESERVED;
    hide Lower, Canon, Name, Key, RESERVED, ValidHeader, OneLine;
    LowerCanon(name);
    NamesAreReserved(f);
    CustomKeysDiffer(m, name, f);
  }

  /** For every accepted message and every order of the header map: a reader finds each header of the composer's
      exactly once, with the composer's value (or not at all when it sets none), and no Bcc. */
  lemma ReservedOnTheWire(c: Codecs, m: Message, stamp: Stamp, headers: map<string, string>, order: seq<string>,
                          f: Field)
    requires ValidMessage(c, m) && Composed(c, m, stamp, headers) && Enumerates(order, headers)
    ensures Values(HeaderLinesOf(headers, order), Lower(Name(f))) ==
            if FieldValue(c, m, stamp, f).Some? then [FieldValue(c, m, stamp, f).value] else []
    ensures Values(HeaderLinesOf(headers, order), "bcc") == []
  {
    ComposedNames(c, m, stamp, headers);
    forall k | k in headers
      ensures Lower(k) == Lower(Name(f)) <==> k == Key(f)
      ensures k == Key(f) ==> FieldValue(c, m, stamp, f).Some?
      ensures Lower(k) != "bcc"
    {
      OnlyOwnKeyMatches(c, m, stamp, headers, k, f);
    }
    hide Lower, Canon, Name, Key, ValidMessage, FieldValue, Values;
    ValuesAbsent(headers, order, "bcc");
    if FieldValue(c, m, stamp, f).Some? {
      ValuesOnce(headers, order, Key(f), Lower(Name(f)));
    } else {
      ValuesAbsent(headers, order, Lower(Name(f)));
    }
  }

  // ------------------------------------------------------------------
  // The headers in words
  // ------------------------------------------------------------------

  /** Addresses as a header lists them. */
  function Listed(c: Codecs, addresses: seq<Address>): string {
    if addresses == [] then ""
    else if |addresses| == 1 then c.format(addresses[0])
    else c.format(addresses[0]) + ", " + Listed(c, addresses[1..])
  }

  lemma {:induction false} JoinedIsListed(c: Codecs, addresses: seq<Address>)
    ensures JoinAddresses(c, addresses) == Listed(c, addresses)
  {
    if |addresses| > 1 {
      JoinedIsListed(c, addresses[1..]);
      var texts := seq(|addresses|, i requires 0 <= i < |addresses| => c.format(addresses[i]));
      var rest := addresses[1..];
      assert texts[1..] == seq(|rest|, i requires 0 <= i < |rest| => c.format(rest[i]));
    }
  }

  /** What a header says of a message: the addresses of From, To, Cc and Reply-To, the last two only if there are
      any; subject, date and identifier; the version; the type that the message's parts make; an encoding for a
      single text only; each once; and no Bcc. */
  predicate Announces(c: Codecs, m: Message, stamp: Stamp, lines: seq<string>) {
    && Values(lines, "from") == [c.format(m.from)]
    && Values(lines, "to") == [Listed(c, m.to)]
    && Values(lines, "cc") == (if m.cc == [] then [] else [Listed(c, m.cc)])
    && Values(lines, "bcc") == []
    && Values(lines, "reply-to") == (if m.replyTo == [] then [] else [Listed(c, m.replyTo)])
    && Values(lines, "subject") == [c.encodeWord(m.subject)]
    && Values(lines, "date") == [stamp.date]
    && Values(lines, "message-id") == [stamp.messageID]
    && Values(lines, "mime-version") == ["1.0"]
    && Values(lines, "content-type") ==
       [if m.attachments != [] then "multipart/mixed; boundary=\"" + stamp.mixed + "\""
        else if m.text != "" && m.html != "" then "multipart/alternative; boundary=\"" + stamp.alternative + "\""
        else if m.html != "" then "text/html; charset=\"utf-8\""
        else "text/plain; charset=\"utf-8\""]
    && Values(lines, "content-transfer-encoding") ==
       if m.attachments != [] || (m.text != "" && m.html != "") then [] else ["quoted-printable"]
  }

  /** So says the header of an accepted message, whatever the order of the map. */
  lemma HeaderInWords(c: Codecs, m: Message, stamp: Stamp, headers: map<string, string>, order: seq<string>)
    requires ValidMessage(c, m) && Composed(c, m, stamp, headers) && Enumerates(order, headers)
    ensures Announces(c, m, stamp, HeaderLinesOf(headers, order))
  {
    hide ValidMessage, Composed, HeaderLinesOf, Values, Name, Lower, JoinAddresses, Listed, TextType;
    OneOnTheWire(c, m, stamp, headers, order, From);
    OneOnTheWire(c, m, stamp, headers, order, To);
    OneOnTheWire(c, m, stamp, headers, order, Cc);
    OneOnTheWire(c, m, stamp, headers, order, ReplyTo);
    OneOnTheWire(c, m, stamp, headers, order, Subject);
    OneOnTheWire(c, m, stamp, headers, order, Date);
    OneOnTheWire(c, m, stamp, headers, order, MessageID);
    OneOnTheWire(c, m, stamp, headers, order, MIMEVersion);
    OneOnTheWire(c, m, stamp, headers, order, ContentType);
    OneOnTheWire(c, m, stamp, headers, order, ContentTransferEncoding);
    JoinedIsListed(c, m.to);
    JoinedIsListed(c, m.cc);
    JoinedIsListed(c, m.replyTo);
    TextTypesAre();
  }

  /** The lines themselves. */
  lemma LinesInWords(c: Codecs, m: Message, stamp: Stamp, headers: map<string, string>, order: seq<string>)
    requires Composed(c, m, stamp, headers) && Enumerates(order, headers)
    ensures var lines := HeaderLinesOf(headers, order);
            && "From: " + c.format(m.from) in lines && "To: " + Listed(c, m.to) in lines
            && (m.cc != [] ==> "Cc: " + Listed(c, m.cc) in lines)
            && (m.replyTo != [] ==> "Reply-To: " + Listed(c, m.replyTo) in lines)
            && "Subject: " + c.encodeWord(m.subject) in lines && "Date: " + stamp.date in lines
            && "Message-Id: " + stamp.messageID in lines && "Mime-Version: 1.0" in lines
  {
    hide Composed, HeaderLinesOf, Enumerates;
    AddressLines(c, m, stamp, headers, order);
    OtherLines(c, m, stamp, headers, order);
  }

  lemma AddressLines(c: Codecs, m: Message, stamp: Stamp, headers: map<string, string>, order: seq<string>)
    requires Composed(c, m, stamp, headers) && Enumerates(order, headers)
    ensures var lines := HeaderLinesOf(headers, order);
            && "From: " + c.format(m.from) in lines && "To: " + Listed(c, m.to) in lines
            && (m.cc != [] ==> "Cc: " + Listed(c, m.cc) in lines)
            && (m.replyTo != [] ==> "Reply-To: " + Listed(c, m.replyTo) in lines)
  {
    hide Composed, HeaderLinesOf, JoinAddresses, Listed, Key, Enumerates;
    KeysAre();
    JoinedIsListed(c, m.to);
    JoinedIsListed(c, m.cc);
    JoinedIsListed(c, m.replyTo);
    LineIsThere(c, m, stamp, headers, order, From);
    LineIsThere(c, m, stamp, headers, order, To);
    LineIsThere(c, m, stamp, headers, order, Cc);
    LineIsThere(c, m, stamp, headers, order, ReplyTo);
    assert "From" + ": " == "From: " && "To" + ": " == "To: " && "Cc" + ": " == "Cc: ";
    assert "Reply-To" + ": " == "Reply-To: ";
  }

  lemma OtherLines(c: Codecs, m: Message, stamp: Stamp, headers: map<string, string>, order: seq<string>)
    requires Composed(c, m, stamp, headers) && Enumerates(order, headers)
    ensures var lines := HeaderLinesOf(headers, order);
            && "Subject: " + c.encodeWord(m.subject) in lines && "Date: " + stamp.date in lines
            && "Message-Id: " + stamp.messageID in lines && "Mime-Version: 1.0" in lines
  {
    hide Composed, HeaderLinesOf, Key, Enumerates;
    KeysAre();
    LineIsThere(c, m, stamp, headers, order, Subject);
    LineIsThere(c, m, stamp, headers, order, Date);
    LineIsThere(c, m, stamp, headers, order, MessageID);
    LineIsThere(c, m, stamp, headers, order, MIMEVersion);
    assert "Subject" + ": " == "Subject: " && "Date" + ": " == "Date: " && "Message-Id" + ": " == "Message-Id: ";
    assert "Mime-Version" + ": " + "1.0" == "Mime-Version: 1.0";
  }

  lemma LineIsThere(c: Codecs, m: Message, stamp: Stamp, headers: map<string, string>, order: seq<string>, f: Field)
    requires Composed(c, m, stamp, headers) && Enumerates(order, headers)
    ensures FieldValue(c, m, stamp, f).Some? ==>
              Key(f) + ": " + FieldValue(c, m, stamp, f).value in HeaderLinesOf(headers, order)
  {
    hide FieldValue, Key, OwnKey, CustomKey, Canon;
    if FieldValue(c, m, stamp, f).Some? {
      assert Key(f) in order;
      var i :| 0 <= i < |order| && order[i] == Key(f);
      var lines := HeaderLinesOf(headers, order);
      assert lines[i] == Key(f) + ": " + FieldValue(c, m, stamp, f).value;
    }
  }

  lemma OneOnTheWire(c: Codecs, m: Message, stamp: Stamp, headers: map<string, string>, order: seq<string>, f: Field)
    requires ValidMessage(c, m) && Composed(c, m, stamp, headers) && Enumerates(order, headers)
    ensures Values(HeaderLinesOf(headers, order), LowerName(f)) ==
            if FieldValue(c, m, stamp, f).Some? then [FieldValue(c, m, stamp, f).value] else []
    ensures Values(HeaderLinesOf(headers, order), "bcc") == []
  {
    hide ValidMessage, Composed, HeaderLinesOf, Values, Name, Lower, LowerName, FieldValue;
    LowerNames(f);
    ReservedOnTheWire(c, m, stamp, headers, order, f);
  }

  lemma TextTypesAre()
    ensures TextType(true) == "text/html; charset=\"utf-8\"" && TextType(false) == "text/plain; charset=\"utf-8\""
  {
  }

  /** No other custom header has this name, in whatever case. */
  predicate Alone(m: Message, name: string) {
    forall other :: other in m.headers && Lower(other) == Lower(name) ==> other == name
  }

  /** A custom header is found once, with its value, unless another differs from it in case only. */
  lemma CustomOnTheWire(c: Codecs, m: Message, stamp: Stamp, headers: map<string, string>, order: seq<string>,
                        name: string)
    requires ValidMessage(c, m) && Composed(c, m, stamp, headers) && Enumerates(order, headers)
    requires name in m.headers && Alone(m, name)
    ensures Values(HeaderLinesOf(headers, order), Lower(name)) == [m.headers[name]]
  {
    ComposedNames(c, m, stamp, headers);
    hide ValidAddress, ValidAddresses, Lower, Canon, Name, Key, FieldValue, Values, HeaderLinesOf, ValidHeader, OneLine,
      OwnKey, CustomKey, RESERVED;
    var key := Canon(name);
    forall k | k in headers
      ensures Lower(k) == Lower(name) <==> k == key
      ensures k == key ==> headers[k] == m.headers[name]
    {
      CustomKeyIs(c, m, stamp, headers, k, name);
    }
    ValuesOnce(headers, order, key, Lower(name));
  }

  lemma CustomKeyIs(c: Codecs, m: Message, stamp: Stamp, headers: map<string, string>, k: string, name: string)
    requires ValidHeaders(m.headers) && Composed(c, m, stamp, headers) && k in headers
    requires name in m.headers && Alone(m, name)
    ensures Lower(k) == Lower(name) <==> k == Canon(name)
    ensures k == Canon(name) ==> headers[k] == m.headers[name]
  {
    hide Lower, Canon, Name, Key, FieldValue, ValidHeader, OneLine, RESERVED;
    LowerCanon(name);
    if OwnKey(c, m, stamp, k) {
      var f := OwnerOf(c, m, stamp, k);
      KeyLower(f);
      NamesAreReserved(f);
      CustomKeysDiffer(m, name, f);
    } else {
      var other :| other in m.headers && k == Canon(other) && headers[k] == m.headers[other];
      LowerCanon(other);
    }
  }

  lemma KeyLower(f: Field)
    ensures Lower(Key(f)) == Lower(Name(f))
  {
    hide Lower, Canon;
    LowerCanon(Name(f));
  }

  /** Blind copies leave no trace in the header: the same maps are composed whoever they go to. */
  lemma BlindCopiesUnseen(c: Codecs, m: Message, bcc: seq<Address>, stamp: Stamp, headers: map<string, string>)
    ensures Composed(c, m, stamp, headers) <==> Composed(c, m.(bcc := bcc), stamp, headers)
  {
    hide Composed, FieldValue, OwnKey, CustomKey, Canon, Key;
    ComposedWithout(c, m, bcc, stamp, headers);
    ComposedWithout(c, m.(bcc := bcc), m.bcc, stamp, headers);
  }

  lemma ComposedWithout(c: Codecs, m: Message, bcc: seq<Address>, stamp: Stamp, headers: map<string, string>)
    ensures Composed(c, m, stamp, headers) ==> Composed(c, m.(bcc := bcc), stamp, headers)
  {
    ValuesWithout(c, m, bcc, stamp);
    hide FieldValue, Canon, Key;
    var other := m.(bcc := bcc);
    assert forall k :: OwnKey(c, m, stamp, k) ==> OwnKey(c, other, stamp, k);
    hide OwnKey;
    assert forall k :: k in headers ==> (CustomKey(m, headers, k) ==> CustomKey(other, headers, k));
    hide CustomKey;
  }

  lemma ValuesWithout(c: Codecs, m: Message, bcc: seq<Address>, stamp: Stamp)
    ensures forall f: Field :: FieldValue(c, m, stamp, f) == FieldValue(c, m.(bcc := bcc), stamp, f)
  {
    hide JoinAddresses, MixedType, AlternativeType, TextType;
  }

  // ------------------------------------------------------------------
  // validateMessage
  // ------------------------------------------------------------------

  datatype MessageError =
    | AddressRequired(field: string)
    | InvalidAddress(field: string)
    | NoRecipient
    | NoBody
    | ReservedHeader(name: string)
    | InvalidHeader(name: string)
    | InvalidFilename
    | NoFactory

  /** validateAddress */
  function CheckAddress(c: Codecs, field: string, a: Address): Option<MessageError> {
    if a.email == "" then Some(AddressRequired(field))
    else
      match c.parse(c.format(a))
      case None => Some(InvalidAddress(field))
      case Some(parsed) => if parsed != a.email then Some(InvalidAddress(field)) else None
  }

  function CheckAddresses(c: Codecs, field: string, addresses: seq<Address>): Option<MessageError> {
    if addresses == [] then None
    else
      match CheckAddress(c, field, addresses[0])
      case Some(e) => Some(e)
      case None => CheckAddresses(c, field, addresses[1..])
  }

  function CheckGroups(c: Codecs, groups: seq<(string, seq<Address>)>): Option<MessageError> {
    if groups == [] then None
    else
      match CheckAddresses(c, groups[0].0, groups[0].1)
      case Some(e) => Some(e)
      case None => CheckGroups(c, groups[1..])
  }

  /** The range over the headers, in the order in which the map yields them. */
  function CheckHeaders(headers: map<string, string>, order: seq<string>): Option<MessageError>
    requires forall i :: 0 <= i < |order| ==> order[i] in headers
  {
    if order == [] then None
    else if Lower(order[0]) in RESERVED then Some(ReservedHeader(order[0]))
    else if !ValidHeader(order[0]) || !OneLine(headers[order[0]]) then Some(InvalidHeader(order[0]))
    else CheckHeaders(headers, order[1..])
  }

  function CheckAttachments(sources: seq<AttachmentSource>): Option<MessageError> {
    if sources == [] then None
    else if sources[0].filename == "" || !OneLine(sources[0].filename) then Some(InvalidFilename)
    else if sources[0].open.Missing? then Some(NoFactory)
    else CheckAttachments(sources[1..])
  }

  /** validateMessage, the checks one after another. */
  function CheckMessage(c: Codecs, m: Message, order: seq<string>): Option<MessageError>
    requires forall i :: 0 <= i < |order| ==> order[i] in m.headers
  {
    match CheckAddress(c, "from", m.from)
    case Some(e) => Some(e)
    case None =>
      if |m.to| + |m.cc| + |m.bcc| == 0 then Some(NoRecipient)
      else
        match CheckGroups(c, [("to", m.to), ("cc", m.cc), ("bcc", m.bcc), ("reply-to", m.replyTo)])
        case Some(e) => Some(e)
        case None =>
          if m.text == "" && m.html == "" then Some(NoBody)
          else
            match CheckHeaders(m.headers, order)
            case Some(e) => Some(e)
            case None => CheckAttachments(m.attachments)
  }

  lemma {:induction false} AddressesChecked(c: Codecs, field: string, addresses: seq<Address>)
    ensures CheckAddresses(c, field, addresses).None? <==> ValidAddresses(c, addresses)
  {
    if addresses != [] {
      AddressesChecked(c, field, addresses[1..]);
      assert forall i :: 0 < i < |addresses| ==> addresses[i] == addresses[1..][i - 1];
    }
  }

  lemma GroupsChecked(c: Codecs, to: seq<Address>, cc: seq<Address>, bcc: seq<Address>, replyTo: seq<Address>)
    ensures CheckGroups(c, [("to", to), ("cc", cc), ("bcc", bcc), ("reply-to", replyTo)]).None?
            <==> ValidAddresses(c, to) && ValidAddresses(c, cc) && ValidAddresses(c, bcc) && ValidAddresses(c, replyTo)
  {
    AddressesChecked(c, "to", to);
    AddressesChecked(c, "cc", cc);
    AddressesChecked(c, "bcc", bcc);
    AddressesChecked(c, "reply-to", replyTo);
    hide CheckAddresses, ValidAddresses;
    GroupChecked(c, "to", to, [("cc", cc), ("bcc", bcc), ("reply-to", replyTo)]);
    GroupChecked(c, "cc", cc, [("bcc", bcc), ("reply-to", replyTo)]);
    GroupChecked(c, "bcc", bcc, [("reply-to", replyTo)]);
    GroupChecked(c, "reply-to", replyTo, []);
    hide CheckGroups;
    assert [("to", to)] + [("cc", cc), ("bcc", bcc), ("reply-to", replyTo)]
        == [("to", to), ("cc", cc), ("bcc", bcc), ("reply-to", replyTo)];
    assert [("cc", cc)] + [("bcc", bcc), ("reply-to", replyTo)] == [("cc", cc), ("bcc", bcc), ("reply-to", replyTo)];
    assert [("bcc", bcc)] + [("reply-to", replyTo)] == [("bcc", bcc), ("reply-to", replyTo)];
    assert [("reply-to", replyTo)] + [] == [("reply-to", replyTo)];
  }

  lemma GroupChecked(c: Codecs, name: string, addresses: seq<Address>, rest: seq<(string, seq<Address>)>)
    ensures CheckGroups(c, []).None?
    ensures CheckGroups(c, [(name, addresses)] + rest).None?
            <==> CheckAddresses(c, name, addresses).None? && CheckGroups(c, rest).None?
  {
    hide CheckAddresses;
    assert ([(name, addresses)] + rest)[1..] == rest;
  }

  lemma {:induction false} HeadersChecked(headers: map<string, string>, order: seq<string>)
    requires forall i :: 0 <= i < |order| ==> order[i] in headers
    ensures CheckHeaders(headers, order).None? <==>
            forall i :: 0 <= i < |order| ==>
              Lower(order[i]) !in RESERVED && ValidHeader(order[i]) && OneLine(headers[order[i]])
  {
    hide Lower, RESERVED, ValidHeader, OneLine;
    if order != [] {
      HeadersChecked(headers, order[1..]);
      assert forall i :: 0 < i < |order| ==> order[i] == order[1..][i - 1];
    }
  }

  lemma {:induction false} AttachmentsChecked(sources: seq<AttachmentSource>)
    ensures CheckAttachments(sources).None? <==>
            forall i :: 0 <= i < |sources| ==>
              sources[i].filename != "" && OneLine(sources[i].filename) && !sources[i].open.Missing?
  {
    hide OneLine;
    if sources != [] {
      AttachmentsChecked(sources[1..]);
      assert forall i :: 0 < i < |sources| ==> sources[i] == sources[1..][i - 1];
    }
  }

  /** The checks in their order, over any order of the headers, let exactly the valid messages through. */
  lemma CheckedIsValid(c: Codecs, m: Message, order: seq<string>)
    requires Enumerates(order, m.headers)
    ensures CheckMessage(c, m, order).None? <==> ValidMessage(c, m)
  {
    GroupsChecked(c, m.to, m.cc, m.bcc, m.replyTo);
    HeadersChecked(m.headers, order);
    AttachmentsChecked(m.attachments);
    OrderCovers(m.headers, order);
    hide CheckGroups, CheckHeaders, CheckAttachments, ValidAddresses, Lower, RESERVED, ValidHeader, OneLine, Enumerates;
  }

  lemma OrderCovers(headers: map<string, string>, order: seq<string>)
    requires Enumerates(order, headers)
    ensures ValidHeaders(headers) <==>
            forall i :: 0 <= i < |order| ==>
              Lower(order[i]) !in RESERVED && ValidHeader(order[i]) && OneLine(headers[order[i]])
  {
    hide Lower, RESERVED, ValidHeader, OneLine;
    assert forall k :: k in headers ==> exists i :: 0 <= i < |order| && order[i] == k;
  }

  /** A character of a header name: visible ASCII other than the colon. */
  predicate NameChar(ch: char) {
    '!' <= ch <= '~' && ch != ':'
  }

  /** A message is refused exactly when something is wrong with it: an address without an email or that does not
      read back as itself, among the sender, the recipients of all three kinds and those to reply to; no recipient;
      no text; a header whose name is empty, has other than visible ASCII or a colon in it, or is in any case one of
      the eleven reserved ones, or whose value has a line break; an attachment without a name or with a line break
      in it, or without a factory. */
  lemma RefusedIff(c: Codecs, m: Message)
    ensures !ValidMessage(c, m) <==>
            || (exists a :: (a == m.from || a in m.to || a in m.cc || a in m.bcc || a in m.replyTo)
                            && (a.email == "" || c.parse(c.format(a)) != Some(a.email)))
            || (m.to == [] && m.cc == [] && m.bcc == [])
            || (m.text == "" && m.html == "")
            || (exists name :: name in m.headers && BadHeader(name, m.headers[name]))
            || (exists a :: a in m.attachments
                            && (a.filename == "" || '\r' in a.filename || '\n' in a.filename || a.open.Missing?))
  {
    AddressesWrong(c, m);
    HeadersWrong(m.headers);
    AttachmentsWrong(m.attachments);
    hide ValidAddress, ValidAddresses, ValidHeaders, BadHeader, OneLine;
  }

  predicate BadHeader(name: string, value: string) {
    || name == "" || (exists ch :: ch in name && !NameChar(ch)) || '\r' in value || '\n' in value
    || Lower(name) == "bcc" || Lower(name) == "cc" || Lower(name) == "content-transfer-encoding"
    || Lower(name) == "content-type" || Lower(name) == "date" || Lower(name) == "from" || Lower(name) == "message-id"
    || Lower(name) == "mime-version" || Lower(name) == "reply-to" || Lower(name) == "subject" || Lower(name) == "to"
  }

  ghost predicate SomeWrongAddress(c: Codecs, addresses: seq<Address>) {
    exists a :: a in addresses && (a.email == "" || c.parse(c.format(a)) != Some(a.email))
  }

  lemma AddressGroupWrong(c: Codecs, addresses: seq<Address>)
    ensures ValidAddresses(c, addresses) <==> !SomeWrongAddress(c, addresses)
  {
    if !ValidAddresses(c, addresses) {
      var i :| 0 <= i < |addresses| && !ValidAddress(c, addresses[i]);
      assert addresses[i] in addresses;
    }
  }

  lemma AddressesWrong(c: Codecs, m: Message)
    ensures (ValidAddress(c, m.from) && ValidAddresses(c, m.to) && ValidAddresses(c, m.cc) && ValidAddresses(c, m.bcc)
             && ValidAddresses(c, m.replyTo))
            <==> !exists a :: (a == m.from || a in m.to || a in m.cc || a in m.bcc || a in m.replyTo)
                              && (a.email == "" || c.parse(c.format(a)) != Some(a.email))
  {
    AddressGroupWrong(c, m.to);
    AddressGroupWrong(c, m.cc);
    AddressGroupWrong(c, m.bcc);
    AddressGroupWrong(c, m.replyTo);
    hide ValidAddresses;
    var every := [m.from] + m.to + m.cc + m.bcc + m.replyTo;
    assert forall a :: a in every <==> a == m.from || a in m.to || a in m.cc || a in m.bcc || a in m.replyTo;
  }

  lemma OneLineIs(s: string)
    ensures OneLine(s) <==> '\r' !in s && '\n' !in s
  {
  }

  lemma NameIs(name: string)
    ensures ValidHeader(name) <==> name != "" && !exists ch :: ch in name && !NameChar(ch)
  {
    forall i | 0 <= i < |name|
      ensures !(name[i] as int <= 32 || name[i] as int >= 127 || name[i] == ':') <==> NameChar(name[i])
    {
    }
    hide NameChar;
    assert forall i :: 0 <= i < |name| ==> name[i] in name;
  }

  lemma HeadersWrong(headers: map<string, string>)
    ensures ValidHeaders(headers) <==> !exists name :: name in headers && BadHeader(name, headers[name])
  {
    forall name | name in headers
      ensures BadHeader(name, headers[name])
              <==> !(Lower(name) !in RESERVED && ValidHeader(name) && OneLine(headers[name]))
    {
      NameIs(name);
      OneLineIs(headers[name]);
      ReservedIs(Lower(name));
      hide Lower, ValidHeader, OneLine, NameChar, RESERVED;
    }
    hide Lower, ValidHeader, OneLine, NameChar, RESERVED, BadHeader;
  }

  lemma ReservedIs(s: string)
    ensures s in RESERVED <==>
            || s == "bcc" || s == "cc" || s == "content-transfer-encoding" || s == "content-type" || s == "date"
            || s == "from" || s == "message-id" || s == "mime-version" || s == "reply-to" || s == "subject" || s == "to"
  {
  }

  lemma AttachmentsWrong(sources: seq<AttachmentSource>)
    ensures (forall i :: 0 <= i < |sources| ==>
               sources[i].filename != "" && OneLine(sources[i].filename) && !sources[i].open.Missing?)
            <==> !exists a :: a in sources
                              && (a.filename == "" || '\r' in a.filename || '\n' in a.filename || a.open.Missing?)
  {
    forall i | 0 <= i < |sources|
      ensures OneLine(sources[i].filename) <==> '\r' !in sources[i].filename && '\n' !in sources[i].filename
    {
      OneLineIs(sources[i].filename);
    }
    hide OneLine;
    assert forall i :: 0 <= i < |sources| ==> sources[i] in sources;
  }
}
