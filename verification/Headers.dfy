/** Header names: MIME canonicalisation as textproto does it, the reserved
    names of emailx/email.go, and header lines. */
module Headers {
  import opened Text

  function LowerChar(c: char): char {
    if 'A' <= c <= 'Z' then (c as int + 32) as char else c
  }

  function UpperChar(c: char): char {
    if 'a' <= c <= 'z' then (c as int - 32) as char else c
  }

  /** strings.ToLower, on the ASCII names that validHeader lets through. */
  function Lower(s: string): (r: string)
    ensures |r| == |s| && forall i :: 0 <= i < |s| ==> r[i] == LowerChar(s[i])
  {
    seq(|s|, i requires 0 <= i < |s| => LowerChar(s[i]))
  }

  /** A byte that may stand in a header field name. */
  predicate IsTokenChar(c: char) {
    || 'A' <= c <= 'Z' || 'a' <= c <= 'z' || '0' <= c <= '9'
    || c in "!#$%&'*+-.^_`|~"
  }

  predicate IsToken(s: string) {
    forall i :: 0 <= i < |s| ==> IsTokenChar(s[i])
  }

  predicate StartsWord(s: string, i: nat)
    requires i < |s|
  {
    i == 0 || s[i - 1] == '-'
  }

  /** textproto.CanonicalMIMEHeaderKey: upper case at the start and after a hyphen, lower case elsewhere; a name
      with any other byte is left as it is. */
  function Canon(s: string): (r: string)
    ensures |r| == |s|
  {
    if IsToken(s) then
      seq(|s|, i requires 0 <= i < |s| => if StartsWord(s, i) then UpperChar(s[i]) else LowerChar(s[i]))
    else s
  }

  lemma LowerAgain(c: char)
    ensures LowerChar(UpperChar(c)) == LowerChar(c) && LowerChar(LowerChar(c)) == LowerChar(c)
  {
  }

  /** Canonicalisation changes nothing but case. */
  lemma LowerCanon(s: string)
    ensures Lower(Canon(s)) == Lower(s)
  {
    hide LowerChar, UpperChar, IsToken;
    forall i | 0 <= i < |s|
      ensures Lower(Canon(s))[i] == Lower(s)[i]
    {
      LowerAgain(s[i]);
    }
  }

  lemma SameLetter(a: char, b: char)
    requires LowerChar(a) == LowerChar(b)
    ensures UpperChar(a) == UpperChar(b)
    ensures a == '-' <==> b == '-'
  {
  }

  /** Two names that differ only in case have the same canonical form. */
  lemma CanonIgnoresCase(a: string, b: string)
    requires IsToken(a) && IsToken(b) && Lower(a) == Lower(b)
    ensures Canon(a) == Canon(b)
  {
    hide LowerChar, UpperChar, IsToken;
    forall i | 0 <= i < |a|
      ensures LowerChar(a[i]) == LowerChar(b[i]) && UpperChar(a[i]) == UpperChar(b[i])
      ensures StartsWord(a, i) == StartsWord(b, i)
    {
      assert Lower(a)[i] == Lower(b)[i];
      SameLetter(a[i], b[i]);
      if i > 0 {
        assert Lower(a)[i - 1] == Lower(b)[i - 1];
        SameLetter(a[i - 1], b[i - 1]);
      }
    }
  }

  /** validHeader: printable ASCII without space or colon. */
  predicate ValidHeader(name: string) {
    name != "" && forall i :: 0 <= i < |name| ==> !(name[i] as int <= 32 || name[i] as int >= 127 || name[i] == ':')
  }

  const RESERVED: set<string> := {
    "bcc", "cc", "content-transfer-encoding", "content-type", "date", "from",
    "message-id", "mime-version", "reply-to", "subject", "to"
  }

  /** The headers the composer sets itself. */
  datatype Field =
    | From | To | Cc | ReplyTo | Subject | Date | MessageID | MIMEVersion | ContentType | ContentTransferEncoding

  function Name(f: Field): string {
    match f
    case From => "From"
    case To => "To"
    case Cc => "Cc"
    case ReplyTo => "Reply-To"
    case Subject => "Subject"
    case Date => "Date"
    case MessageID => "Message-ID"
    case MIMEVersion => "MIME-Version"
    case ContentType => "Content-Type"
    case ContentTransferEncoding => "Content-Transfer-Encoding"
  }

  function Key(f: Field): string {
    Canon(Name(f))
  }

  lemma NamesAreTokens(f: Field)
    ensures IsToken(Name(f)) && Name(f) != ""
  {
  }

  lemma KeysDiffer(f: Field, g: Field)
    requires Key(f) == Key(g)
    ensures f == g
  {
    NamesAreTokens(f);
    NamesAreTokens(g);
    assert |Name(f)| == |Name(g)|;
    assert Key(f)[0] == UpperChar(Name(f)[0]) && Key(g)[0] == UpperChar(Name(g)[0]);
    hide Canon, IsToken, IsTokenChar;
  }

  function LowerName(f: Field): string {
    match f
    case From => "from"
    case To => "to"
    case Cc => "cc"
    case ReplyTo => "reply-to"
    case Subject => "subject"
    case Date => "date"
    case MessageID => "message-id"
    case MIMEVersion => "mime-version"
    case ContentType => "content-type"
    case ContentTransferEncoding => "content-transfer-encoding"
  }

  lemma LowerShortNames()
    ensures Lower("From") == "from" && Lower("To") == "to" && Lower("Cc") == "cc" && Lower("Date") == "date"
  {
  }

  lemma LowerLongNames()
    ensures Lower("Reply-To") == "reply-to" && Lower("Subject") == "subject" && Lower("Message-ID") == "message-id"
  {
  }

  lemma LowerMIMEVersion()
    ensures Lower("MIME-Version") == "mime-version"
  {
  }

  lemma LowerContentType()
    ensures Lower("Content-Type") == "content-type"
  {
  }

  lemma LowerContentTransferEncoding()
    ensures Lower("Content-Transfer-Encoding") == "content-transfer-encoding"
  {
  }

  lemma LowerNames(f: Field)
    ensures Lower(Name(f)) == LowerName(f)
  {
    hide Lower;
    LowerShortNames();
    LowerLongNames();
    LowerMIMEVersion();
    LowerContentType();
    LowerContentTransferEncoding();
  }

  lemma LowerNameIsReserved(f: Field)
    ensures LowerName(f) in RESERVED && LowerName(f) != "bcc"
  {
    assert |LowerName(f)| != 3;
  }

  lemma NamesAreReserved(f: Field)
    ensures Lower(Name(f)) in RESERVED
    ensures Lower(Name(f)) != "bcc"
  {
    hide Lower, Name, LowerName;
    LowerNames(f);
    LowerNameIsReserved(f);
  }

  lemma Hyphen()
    ensures IsTokenChar('-') && UpperChar('-') == '-' && LowerChar('-') == '-'
  {
  }

  /** Canonicalisation goes word by word. */
  lemma CanonWords(a: string, b: string)
    requires IsToken(a) && IsToken(b)
    ensures IsToken(a + "-" + b) && Canon(a + "-" + b) == Canon(a) + "-" + Canon(b)
  {
    hide UpperChar, LowerChar, IsTokenChar, Canon;
    Hyphen();
    var s := a + "-" + b;
    assert forall i :: 0 <= i < |s| ==> s[i] == if i < |a| then a[i] else if i == |a| then '-' else b[i - |a| - 1];
    assert IsToken(s);
    hide IsToken;
    forall i | 0 <= i < |s|
      ensures Canon(s)[i] == (Canon(a) + "-" + Canon(b))[i]
    {
      CanonAt(s, i);
      if i < |a| {
        CanonAt(a, i);
      } else if i > |a| {
        CanonAt(b, i - |a| - 1);
      }
    }
  }

  lemma CanonAt(s: string, i: nat)
    requires IsToken(s) && i < |s|
    ensures Canon(s)[i] == if i == 0 || s[i - 1] == '-' then UpperChar(s[i]) else LowerChar(s[i])
  {
    hide UpperChar, LowerChar, IsToken;
  }

  lemma LettersAreTokens(w: string)
    requires forall i :: 0 <= i < |w| ==> 'A' <= w[i] <= 'Z' || 'a' <= w[i] <= 'z'
    ensures IsToken(w)
  {
  }

  lemma Capitalised(w: string)
    requires w != "" && 'A' <= w[0] <= 'Z' && forall i :: 0 < i < |w| ==> 'a' <= w[i] <= 'z'
    ensures IsToken(w) && Canon(w) == w
  {
    LettersAreTokens(w);
    hide IsToken;
  }

  lemma Abbreviations()
    ensures IsToken("ID") && IsToken("MIME") && Canon("ID") == "Id" && Canon("MIME") == "Mime"
  {
    LettersAreTokens("ID");
    LettersAreTokens("MIME");
    hide IsToken;
  }

  lemma PlainKeys()
    ensures Key(From) == "From" && Key(To) == "To" && Key(Cc) == "Cc"
    ensures Key(Subject) == "Subject" && Key(Date) == "Date"
  {
    hide Canon, IsToken;
    Capitalised("From");
    Capitalised("To");
    Capitalised("Cc");
    Capitalised("Date");
    Capitalised("Subject");
  }

  lemma HyphenatedKeys()
    ensures Key(ReplyTo) == "Reply-To" && Key(MessageID) == "Message-Id" && Key(MIMEVersion) == "Mime-Version"
  {
    hide Canon, IsToken;
    Capitalised("Reply");
    Capitalised("To");
    CanonWords("Reply", "To");
    Capitalised("Message");
    Capitalised("Version");
    Abbreviations();
    CanonWords("Message", "ID");
    CanonWords("MIME", "Version");
    assert "Reply" + "-" + "To" == "Reply-To" && "Message" + "-" + "ID" == "Message-ID";
    assert "MIME" + "-" + "Version" == "MIME-Version";
  }

  lemma ContentKeys()
    ensures Key(ContentType) == "Content-Type" && Canon("Content-Disposition") == "Content-Disposition"
  {
    hide Canon, IsToken;
    Capitalised("Content");
    Capitalised("Type");
    Capitalised("Disposition");
    CanonWords("Content", "Type");
    CanonWords("Content", "Disposition");
    assert "Content" + "-" + "Type" == "Content-Type" && "Content" + "-" + "Disposition" == "Content-Disposition";
  }

  lemma EncodingKey()
    ensures Key(ContentTransferEncoding) == "Content-Transfer-Encoding"
  {
    hide Canon, IsToken;
    Capitalised("Content");
    Capitalised("Transfer");
    Capitalised("Encoding");
    CanonWords("Transfer", "Encoding");
    CanonWords("Content", "Transfer" + "-" + "Encoding");
    assert "Content" + "-" + ("Transfer" + "-" + "Encoding") == "Content-Transfer-Encoding";
  }

  /** The keys as they are written. */
  lemma KeysAre()
    ensures Key(From) == "From" && Key(To) == "To" && Key(Cc) == "Cc" && Key(ReplyTo) == "Reply-To"
    ensures Key(Subject) == "Subject" && Key(Date) == "Date"
    ensures Key(MessageID) == "Message-Id" && Key(MIMEVersion) == "Mime-Version"
    ensures Key(ContentType) == "Content-Type" && Key(ContentTransferEncoding) == "Content-Transfer-Encoding"
    ensures Canon("Content-Disposition") == "Content-Disposition"
  {
    hide Canon, Key;
    PlainKeys();
    HyphenatedKeys();
    ContentKeys();
    EncodingKey();
  }

  // ------------------------------------------------------------------
  // Header lines
  // ------------------------------------------------------------------

  function Line(name: string, value: string): string {
    name + ": " + value
  }

  /** The field name of a header line: what precedes the first colon. */
  function NameOf(line: string): string {
    if line == "" || line[0] == ':' then "" else [line[0]] + NameOf(line[1..])
  }

  lemma {:induction false} NameOfLine(name: string, rest: string)
    requires Free(name, ':')
    ensures NameOf(name + (":" + rest)) == name
  {
    var line := name + (":" + rest);
    if name != "" {
      NameOfLine(name[1..], rest);
      assert line[1..] == name[1..] + (":" + rest);
    }
  }

  function ValueOf(line: string): string
    requires |NameOf(line)| + 2 <= |line|
  {
    line[|NameOf(line)| + 2..]
  }

  /** The values a reader finds under a field name, whatever its case. */
  function Values(lines: seq<string>, lower: string): seq<string> {
    if lines == [] then []
    else
      var rest := Values(lines[1..], lower);
      if Lower(NameOf(lines[0])) == lower && |NameOf(lines[0])| + 2 <= |lines[0]| then [ValueOf(lines[0])] + rest
      else rest
  }

  lemma LineParts(name: string, value: string)
    requires Free(name, ':')
    ensures NameOf(Line(name, value)) == name
    ensures |Line(name, value)| == |name| + 2 + |value|
    ensures ValueOf(Line(name, value)) == value
  {
    NameOfLine(name, " " + value);
    assert Line(name, value) == name + (":" + (" " + value));
  }
}
