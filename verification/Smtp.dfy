/** SMTPSender.Send (emailx/smtp.go) against a server whose every reply is
    arbitrary.  The session is judged by an automaton that knows the command
    order of section 4.1.4 of RFC 5321 and nothing of Send. */
module Smtp {
  import opened Text
  import opened Stream
  import opened Base64
  import opened Headers
  import opened Email
  import opened MimeTree
  import opened Compose
  import opened Truncation
  import W = MimeWriter

  datatype Options = Options(host: string, username: string, implicitTLS: bool, allowInsecure: bool)

  /** net/smtp sends plain credentials in the clear to these hosts only. */
  predicate IsLocalhost(host: string) {
    host == "localhost" || host == "127.0.0.1" || host == "::1"
  }

  /** What a session is judged by: how the sender was configured, and whether the server advertises STARTTLS. */
  datatype Terms = Terms(options: Options, offersTLS: bool)

  /** The connection may stay unencrypted: that was asked for, and there is no way to encrypt it. */
  predicate MayStayClear(o: Terms) {
    o.options.allowInsecure && !o.offersTLS
  }

  /** What happens on the connection; `ok` says whether the server went along. */
  datatype Event =
    | Dialed(tls: bool, ok: bool)
    | Greeting(ok: bool)
    | Hello(ok: bool)
    | StartTLS(ok: bool)
    | Auth(ok: bool)
    | Mail(from: string, ok: bool)
    | Rcpt(to: string, ok: bool)
    | Data(ok: bool)
    | Content(text: string)
    | EndOfData(ok: bool)
    | Quit(ok: bool)
    | Closed

  // ------------------------------------------------------------------
  // The automaton
  // ------------------------------------------------------------------

  /** A message the server has taken responsibility for. */
  datatype Receipt = Receipt(from: string, to: seq<string>, text: string)

  datatype Phase =
    | Idle
    | Connected(tls: bool)
    | Greeted(tls: bool)
    | Ready(tls: bool)
    | Upgrading
    | Authenticated(tls: bool)
    | Envelope(from: string, to: seq<string>)
    | Body(from: string, to: seq<string>, text: string)
    | Leaving(delivered: Option<Receipt>)
    | Ended(delivered: Option<Receipt>)
    | Bad

  function Next(o: Terms, p: Phase, e: Event): Phase {
    match e
    case Dialed(tls, ok) =>
      if p.Idle? && tls == o.options.implicitTLS then (if ok then Connected(tls) else Ended(None)) else Bad
    case Greeting(ok) => if p.Connected? then (if ok then Greeted(p.tls) else Leaving(None)) else Bad
    case Hello(ok) =>
      if p.Greeted? then (if ok then Ready(p.tls) else Leaving(None))
      else if p.Upgrading? then (if ok then Ready(true) else Leaving(None))
      else Bad
    case StartTLS(ok) => if p.Ready? && !p.tls && o.offersTLS then (if ok then Upgrading else Leaving(None)) else Bad
    case Auth(ok) =>
      if p.Ready? && o.options.username != "" && (p.tls || (MayStayClear(o) && IsLocalhost(o.options.host))) then
        (if ok then Authenticated(p.tls) else Leaving(None))
      else Bad
    case Mail(from, ok) =>
      if (if o.options.username == "" then p.Ready? else p.Authenticated?) && (p.tls || MayStayClear(o)) then
        (if ok then Envelope(from, []) else Leaving(None))
      else Bad
    case Rcpt(to, ok) => if p.Envelope? then (if ok then Envelope(p.from, p.to + [to]) else Leaving(None)) else Bad
    case Data(ok) =>
      if p.Envelope? && p.to != [] then (if ok then Body(p.from, p.to, "") else Leaving(None)) else Bad
    case Content(text) => if p.Body? then Body(p.from, p.to, p.text + text) else Bad
    case EndOfData(ok) =>
      if p.Body? then Leaving(if ok then Some(Receipt(p.from, p.to, p.text)) else None) else Bad
    case Quit(_) => if p.Leaving? then p else if p.Ready? then Leaving(None) else Bad
    case Closed =>
      if p.Leaving? then Ended(p.delivered)
      else if p.Connected? || p.Greeted? || p.Ready? || p.Authenticated? || p.Envelope? then Ended(None)
      else Bad
  }

  function After(o: Terms, trace: seq<Event>): Phase {
    if trace == [] then Idle else Next(o, After(o, trace[..|trace| - 1]), trace[|trace| - 1])
  }

  /** Dialed over TLS, or upgraded. */
  predicate Encrypts(e: Event) {
    (e.Dialed? && e.tls && e.ok) || (e.StartTLS? && e.ok)
  }

  ghost predicate EncryptedBefore(trace: seq<Event>, i: nat)
    requires i <= |trace|
  {
    exists j :: 0 <= j < i && Encrypts(trace[j])
  }

  predicate Secured(p: Phase) {
    ((p.Connected? || p.Greeted? || p.Ready? || p.Authenticated?) && p.tls) || p.Upgrading?
  }

  lemma {:induction false} TlsMeansEncrypted(o: Terms, trace: seq<Event>)
    ensures Secured(After(o, trace)) ==> EncryptedBefore(trace, |trace|)
  {
    if trace != [] {
      var init, last := trace[..|trace| - 1], trace[|trace| - 1];
      TlsMeansEncrypted(o, init);
      if Secured(After(o, trace)) {
        SecuredBy(o, After(o, init), last);
        if Encrypts(last) {
          assert Encrypts(trace[|trace| - 1]);
        } else {
          EncryptedStill(trace, |init|, |init|);
          EncryptedLater(trace, |init|, |trace|);
        }
      }
    }
  }

  lemma SecuredBy(o: Terms, p: Phase, e: Event)
    requires Secured(Next(o, p, e))
    ensures Encrypts(e) || Secured(p)
  {
  }

  lemma {:induction false} BadForever(o: Terms, trace: seq<Event>, i: nat)
    requires i <= |trace| && After(o, trace[..i]) == Bad
    ensures After(o, trace) == Bad
  {
    if i == |trace| {
      assert trace[..i] == trace;
    } else {
      assert trace[..|trace| - 1][..i] == trace[..i];
      BadForever(o, trace[..|trace| - 1], i);
    }
  }

  /** What acceptance by the automaton means: no credentials, envelope or message cross an unencrypted connection
      unless that was asked for and the server has no STARTTLS, and credentials only to localhost even then. */
  lemma AcceptedIsEncrypted(o: Terms, trace: seq<Event>, i: nat)
    requires After(o, trace) != Bad && i < |trace|
    ensures trace[i].Auth? || trace[i].Mail? || trace[i].Rcpt? || trace[i].Data? || trace[i].Content? ==>
              EncryptedBefore(trace, i) || (o.options.allowInsecure && !o.offersTLS)
    ensures trace[i].Auth? ==>
              EncryptedBefore(trace, i) || o.options.host in {"localhost", "127.0.0.1", "::1"}
  {
    var before := trace[..i];
    StepTaken(o, trace, i);
    TlsMeansEncrypted(o, before);
    EncryptedStill(trace, i, i);
    if After(o, before).Envelope? || After(o, before).Body? {
      var k := MailBefore(o, before);
      assert trace[k] == before[k];
      AcceptedIsEncrypted(o, trace, k);
      EncryptedLater(trace, k, i);
    }
    hide After, EncryptedBefore;
  }

  /** Every step of an accepted session was possible where it was taken. */
  lemma StepTaken(o: Terms, trace: seq<Event>, i: nat)
    requires After(o, trace) != Bad && i < |trace|
    ensures Next(o, After(o, trace[..i]), trace[i]) != Bad
  {
    var upto := trace[..i + 1];
    assert upto[..|upto| - 1] == trace[..i] && upto[|upto| - 1] == trace[i];
    assert After(o, upto) == Next(o, After(o, trace[..i]), trace[i]);
    hide After, Next;
    if After(o, upto) == Bad {
      BadForever(o, trace, i + 1);
    }
  }

  lemma EncryptedStill(trace: seq<Event>, i: nat, n: nat)
    requires i <= n <= |trace|
    ensures EncryptedBefore(trace[..n], i) ==> EncryptedBefore(trace, i)
  {
    if EncryptedBefore(trace[..n], i) {
      var j :| 0 <= j < i && Encrypts(trace[..n][j]);
      assert trace[j] == trace[..n][j];
    }
  }

  lemma EncryptedLater(trace: seq<Event>, i: nat, n: nat)
    requires i <= n <= |trace|
    ensures EncryptedBefore(trace, i) ==> EncryptedBefore(trace, n)
  {
  }

  /** An envelope was opened by a MAIL command. */
  lemma {:induction false} MailBefore(o: Terms, trace: seq<Event>) returns (k: nat)
    requires After(o, trace).Envelope? || After(o, trace).Body?
    ensures k < |trace| && trace[k].Mail?
  {
    var init, last := trace[..|trace| - 1], trace[|trace| - 1];
    if last.Mail? {
      k := |trace| - 1;
    } else {
      k := MailBefore(o, init);
      assert trace[k] == init[k];
    }
  }

  /** An accepted AUTH among the first `i` events. */
  ghost predicate AuthBefore(trace: seq<Event>, i: nat)
    requires i <= |trace|
  {
    exists j :: 0 <= j < i && trace[j] == Auth(true)
  }

  lemma {:induction false} AuthenticatedMeans(o: Terms, trace: seq<Event>)
    ensures After(o, trace).Authenticated? ==> AuthBefore(trace, |trace|)
  {
    if trace != [] && After(o, trace).Authenticated? {
      assert trace[|trace| - 1] == Auth(true);
    }
  }

  /** In an accepted session with a username every MAIL comes after an accepted AUTH; in one without there is no
      AUTH at all. */
  lemma AcceptedIsAuthenticated(o: Terms, trace: seq<Event>, i: nat)
    requires After(o, trace) != Bad && i < |trace|
    ensures o.options.username != "" && trace[i].Mail? ==> AuthBefore(trace, i)
    ensures o.options.username == "" ==> !trace[i].Auth?
  {
    StepTaken(o, trace, i);
    if o.options.username != "" && trace[i].Mail? {
      AuthenticatedMeans(o, trace[..i]);
      var j :| 0 <= j < i && trace[..i][j] == Auth(true);
      assert trace[j] == Auth(true);
    }
  }

  /** The recipients that the server accepted, in order. */
  function AcceptedRecipients(trace: seq<Event>): seq<string> {
    if trace == [] then []
    else
      var init, last := AcceptedRecipients(trace[..|trace| - 1]), trace[|trace| - 1];
      if last.Rcpt? && last.ok then init + [last.to] else init
  }

  /** The senders that it accepted. */
  function AcceptedSenders(trace: seq<Event>): seq<string> {
    if trace == [] then []
    else
      var init, last := AcceptedSenders(trace[..|trace| - 1]), trace[|trace| - 1];
      if last.Mail? && last.ok then init + [last.from] else init
  }

  /** All the text that was sent after DATA. */
  function TextSent(trace: seq<Event>): string {
    if trace == [] then ""
    else
      var init, last := TextSent(trace[..|trace| - 1]), trace[|trace| - 1];
      if last.Content? then init + last.text else init
  }

  /** An event that waits for the server's verdict. */
  predicate Asks(e: Event) {
    !e.Content? && !e.Closed?
  }

  /** The server's verdicts, in order. */
  function Verdicts(trace: seq<Event>): seq<bool> {
    if trace == [] then []
    else
      var init, last := Verdicts(trace[..|trace| - 1]), trace[|trace| - 1];
      if Asks(last) then init + [last.ok] else init
  }

  /** What each phase says about the events so far. */
  predicate PhaseSays(p: Phase, trace: seq<Event>) {
    match p
    case Envelope(from, to) =>
      AcceptedSenders(trace) == [from] && AcceptedRecipients(trace) == to && TextSent(trace) == ""
    case Body(from, to, text) =>
      && AcceptedSenders(trace) == [from] && AcceptedRecipients(trace) == to && TextSent(trace) == text
      && Data(true) in trace
    case Leaving(Some(r)) => ReceiptSays(r, trace)
    case Ended(Some(r)) => ReceiptSays(r, trace)
    case Leaving(None) => EndOfData(true) !in trace
    case Ended(None) => EndOfData(true) !in trace
    case Bad => true
    case _ => AcceptedSenders(trace) == [] && AcceptedRecipients(trace) == [] && TextSent(trace) == ""
  }

  predicate ReceiptSays(r: Receipt, trace: seq<Event>) {
    && AcceptedSenders(trace) == [r.from] && AcceptedRecipients(trace) == r.to && TextSent(trace) == r.text
    && Data(true) in trace && EndOfData(true) in trace
  }

  lemma {:induction false} PhaseMeans(o: Terms, trace: seq<Event>)
    ensures PhaseSays(After(o, trace), trace) && (EndOfData(true) in trace ==> PastData(After(o, trace)))
  {
    if trace != [] {
      var init, last := trace[..|trace| - 1], trace[|trace| - 1];
      PhaseMeans(o, init);
      assert trace == init + [last];
      PhaseStep(o, After(o, init), init, last);
    }
  }

  predicate PastData(p: Phase) {
    p == Bad || ((p.Leaving? || p.Ended?) && p.delivered.Some?)
  }

  lemma PhaseStep(o: Terms, p: Phase, init: seq<Event>, last: Event)
    requires PhaseSays(p, init) && (EndOfData(true) in init ==> PastData(p))
    ensures var trace := init + [last];
            PhaseSays(Next(o, p, last), trace) && (EndOfData(true) in trace ==> PastData(Next(o, p, last)))
  {
    var trace := init + [last];
    SaidSoFar(init, last);
    hide AcceptedSenders, AcceptedRecipients, TextSent;
    assert Data(true) in init ==> Data(true) in trace;
    assert EndOfData(true) in trace <==> EndOfData(true) in init || last == EndOfData(true);
    assert last == Data(true) ==> trace[|init|] == Data(true);
  }

  lemma SaidSoFar(init: seq<Event>, last: Event)
    ensures var trace := init + [last];
            && AcceptedSenders(trace) == AcceptedSenders(init) + (if last.Mail? && last.ok then [last.from] else [])
            && AcceptedRecipients(trace) == AcceptedRecipients(init) + (if last.Rcpt? && last.ok then [last.to] else [])
            && TextSent(trace) == TextSent(init) + (if last.Content? then last.text else "")
  {
    var trace := init + [last];
    assert trace[..|trace| - 1] == init;
  }

  /** A receipt says what happened: one sender was accepted, exactly those recipients in that order, DATA, exactly
      that text, and its end.  Without a receipt no end of data was accepted. */
  lemma ReceiptMeans(o: Terms, trace: seq<Event>)
    requires After(o, trace).Ended?
    ensures After(o, trace).delivered.Some? <==> EndOfData(true) in trace
    ensures After(o, trace).delivered.Some? ==>
              var r := After(o, trace).delivered.value;
              && AcceptedSenders(trace) == [r.from] && AcceptedRecipients(trace) == r.to && TextSent(trace) == r.text
              && Data(true) in trace
  {
    PhaseMeans(o, trace);
    hide After, AcceptedSenders, AcceptedRecipients, TextSent;
  }

  // ------------------------------------------------------------------
  // The client
  // ------------------------------------------------------------------

  /** The connection and the smtp.Client on it.  The server's verdicts come from a script, and once that is used up
      it goes along with everything. */
  class Session {
    const options: Options
    const starttls: bool // whether the server advertises STARTTLS
    const script: seq<bool> // the server's verdicts
    var trace: seq<Event>
    var replies: seq<bool>
    var tls: bool
    var didHello: bool
    var helloOk: bool

    constructor (options: Options, starttls: bool, replies: seq<bool>)
      ensures this.options == options && this.starttls == starttls && this.replies == replies
      ensures trace == [] && !didHello && !helloOk && Honest() && script == replies
    {
      this.options, this.starttls, this.replies, this.script := options, starttls, replies, replies;
      trace, tls, didHello, helloOk := [], false, false, false;
    }

    ghost function At(): Phase
      reads this`trace
    {
      After(Terms(options, starttls), trace)
    }

    predicate Clear() {
      options.allowInsecure && !starttls
    }

    /** The client has presented its credentials, or has none. */
    ghost predicate SignedOn()
      reads this
    {
      && (if options.username == "" then At().Greeted? || At().Ready? else At().Authenticated?)
      && (At().tls || Clear())
    }

    /** The trace records what the server said, and nothing it did not say. */
    ghost predicate Honest()
      reads this`trace, this`replies
    {
      var said := Verdicts(trace);
      && (forall i :: 0 <= i < |said| ==> said[i] == (i >= |script| || script[i]))
      && replies == if |said| < |script| then script[|said|..] else []
    }

    method Log(e: Event)
      requires !Asks(e) && Honest()
      modifies this`trace
      ensures Honest() && trace == old(trace) + [e] && At() == Next(Terms(options, starttls), old(At()), e)
    {
      assert (trace + [e])[..|trace|] == trace;
      trace := trace + [e];
    }

    /** One exchange: the event is recorded with the verdict of the script. */
    method Ask(e: Event) returns (ok: bool)
      requires Asks(e) && Honest()
      modifies this`trace, this`replies
      ensures Honest() && trace == old(trace) + [e.(ok := ok)]
      ensures At() == Next(Terms(options, starttls), old(At()), e.(ok := ok))
      ensures old(replies) == [] ==> ok && replies == []
    {
      hide Next;
      ok := replies == [] || replies[0];
      replies := if replies == [] then [] else replies[1..];
      assert (trace + [e.(ok := ok)])[..|trace|] == trace;
      trace := trace + [e.(ok := ok)];
    }

    /** Whether the phase is one in which the client can be: the fields agree with it. */
    ghost predicate Agrees()
      reads this
    {
      && (At().Connected? || At().Greeted? ==> !didHello && tls == At().tls)
      && (At().Ready? || At().Authenticated? ==> didHello && helloOk && tls == At().tls)
      && (At().Greeted? || At().Ready? || At().Authenticated? || At().Envelope? || At().Leaving?)
      && (didHello && !helloOk ==> At().Leaving?)
      && (At().Envelope? ==> didHello && helloOk)
    }

    /** The greeting was refused; every later command will fail without being sent. */
    ghost predicate Refused()
      reads this
    {
      At() == Leaving(None) && didHello && !helloOk
    }

    /** Client.hello: EHLO, once. */
    method SayHello() returns (ok: bool)
      requires Agrees() && (At().Greeted? || At().Ready? || At().Authenticated? || Refused())
      requires Honest()
      modifies this
      ensures Honest()
      ensures Agrees() && didHello && ok == helloOk
      ensures ok ==> At() == if old(At()).Greeted? then Ready(old(At()).tls) else old(At())
      ensures !ok ==> At() == Leaving(None)
      ensures old(Refused()) ==> !ok
      ensures tls == old(tls)
      ensures old(replies) == [] && !old(Refused()) ==> ok && replies == []
    {
      hide Honest;
      if !didHello {
        helloOk := Ask(Hello(true));
        didHello := true;
      }
      ok := helloOk;
    }
  }

  /** dial: over TLS if so configured. */
  method Dial(s: Session) returns (ok: bool)
    requires s.trace == [] && !s.didHello
    requires s.Honest()
    modifies s
    ensures s.Honest()
    ensures s.At() == if ok then Connected(s.options.implicitTLS) else Ended(None)
    ensures s.trace == [Dialed(s.options.implicitTLS, ok)]
    ensures old(s.replies) == [] ==> ok && s.replies == []
    ensures ok ==> s.tls == s.options.implicitTLS && !s.didHello
  {
    hide Session.Honest;
    ok := s.Ask(Dialed(s.options.implicitTLS, true));
    s.tls := s.options.implicitTLS;
  }

  /** The connection can be secured, or need not be. */
  predicate CanSecure(s: Session) {
    s.options.implicitTLS || s.starttls || s.options.allowInsecure
  }

  /** Credentials, if there are any, can be presented. */
  predicate CanAuthenticate(s: Session) {
    s.options.username == "" || s.options.implicitTLS || s.starttls || IsLocalhost(s.options.host)
  }

  predicate SingleLines(addresses: seq<Address>) {
    forall i :: 0 <= i < |addresses| ==> OneLine(addresses[i].email)
  }

  /** The part of Send that secures the connection: STARTTLS when the server offers it, refusal when it does not and
      cleartext was not allowed. */
  method Secure(s: Session) returns (failed: bool)
    requires s.Agrees() && s.At() == Greeted(s.options.implicitTLS)
    requires s.Honest()
    modifies s
    ensures s.Honest()
    ensures s.Agrees() && !s.At().Envelope? && !s.At().Authenticated?
    ensures s.At().Leaving? ==> s.At() == Leaving(None)
    ensures old(s.replies) == [] ==>
              s.replies == [] && !s.Refused() && failed == !CanSecure(s)
              && (!failed ==> s.tls == (s.options.implicitTLS || s.starttls))
    ensures !failed ==> s.Refused() || ((s.At().Greeted? || s.At().Ready?) && (s.At().tls || s.Clear()))
  {
    hide Session.Honest;
    failed := false;
    if !s.options.implicitTLS {
      var hello := s.SayHello();
      if hello && s.starttls {
        var ok := s.Ask(StartTLS(true));
        if !ok {
          return true;
        }
        s.tls := true;
        var again := s.Ask(Hello(true));
        s.helloOk := again;
        if !s.helloOk {
          return true;
        }
      } else if !s.options.allowInsecure {
        return true;
      }
    }
  }

  /** client.Auth with PlainAuth, which refuses to run in the clear. */
  method Authenticate(s: Session) returns (failed: bool)
    requires s.Agrees() && (s.At().Greeted? || s.At().Ready? || s.Refused())
    requires s.options.username != "" && (!s.At().Leaving? ==> s.At().tls || s.Clear())
    requires s.Honest()
    modifies s
    ensures s.Honest()
    ensures s.Agrees()
    ensures !failed ==> s.At() == Authenticated(old(s.tls))
    ensures failed ==> s.At() == Leaving(None)
    ensures old(s.Refused()) ==> failed
    ensures old(s.replies) == [] && !old(s.Refused()) ==>
              s.replies == [] && failed == !(old(s.tls) || IsLocalhost(s.options.host))
  {
    hide Session.Honest;
    var hello := s.SayHello();
    if !hello {
      return true;
    }
    var ok := false;
    if s.tls || IsLocalhost(s.options.host) {
      ok := s.Ask(Auth(true));
    }
    if !ok {
      var _ := s.Ask(Quit(true));
    }
    failed := !ok;
  }

  /** client.Mail; a sender with a line break is refused before anything is sent. */
  method OpenEnvelope(s: Session, from: string) returns (failed: bool)
    requires s.Agrees() && !s.At().Envelope? && (s.At().Leaving? ==> s.Refused())
    requires !s.At().Leaving? ==> s.SignedOn()
    requires s.Honest()
    modifies s
    ensures s.Honest()
    ensures s.Agrees()
    ensures !failed ==> s.At() == Envelope(from, [])
    ensures failed ==> !s.At().Envelope? && (s.At().Leaving? ==> s.At() == Leaving(None))
    ensures old(s.replies) == [] && !old(s.Refused()) ==> s.replies == [] && failed == !OneLine(from)
  {
    hide Session.Honest;
    if !OneLine(from) {
      return true;
    }
    var hello := s.SayHello();
    if !hello {
      return true;
    }
    var ok := s.Ask(Mail(from, true));
    failed := !ok;
  }

  function Emails(addresses: seq<Address>): (emails: seq<string>)
    ensures |emails| == |addresses| && forall i :: 0 <= i < |addresses| ==> emails[i] == addresses[i].email
  {
    seq(|addresses|, i requires 0 <= i < |addresses| => addresses[i].email)
  }

  /** The loop over the recipients: stops at the first refusal. */
  method NameRecipients(s: Session, addresses: seq<Address>) returns (failed: bool)
    requires s.Agrees() && s.At().Envelope? && s.At().to == []
    requires s.Honest()
    modifies s
    ensures s.Honest()
    ensures s.Agrees()
    ensures !failed ==> s.At() == Envelope(old(s.At()).from, Emails(addresses))
    ensures failed ==> s.At().Envelope? || s.At() == Leaving(None)
    ensures old(s.replies) == [] ==>
              s.replies == [] && (failed <==> exists i :: 0 <= i < |addresses| && !OneLine(addresses[i].email))
  {
    hide Session.Honest;
    ghost var from := s.At().from;
    var i := 0;
    while i < |addresses|
      invariant 0 <= i <= |addresses| && s.Agrees()
      invariant s.At() == Envelope(from, Emails(addresses)[..i])
      invariant s.Honest() && (old(s.replies) == [] ==> s.replies == [])
      invariant forall k :: 0 <= k < i ==> OneLine(addresses[k].email)
    {
      var to := addresses[i].email;
      if !OneLine(to) {
        return true;
      }
      var ok := s.Ask(Rcpt(to, true));
      if !ok {
        return true;
      }
      assert Emails(addresses)[..i + 1] == Emails(addresses)[..i] + [to];
      i := i + 1;
    }
    assert Emails(addresses)[..i] == Emails(addresses);
    failed := false;
  }

  /** The commands up to and including DATA. */
  method Prepare(s: Session, from: string, to: seq<Address>) returns (failed: bool)
    requires to != []
    requires s.At() == Connected(s.options.implicitTLS) && s.tls == s.options.implicitTLS && !s.didHello
    requires s.Honest()
    modifies s
    ensures s.Honest()
    ensures !failed ==> s.At() == Body(from, Emails(to), "")
    ensures failed ==> Next(Terms(s.options, s.starttls), s.At(), Closed) == Ended(None)
    ensures old(s.replies) == [] ==>
              s.replies == [] && failed == !(CanSecure(s) && CanAuthenticate(s) && OneLine(from) && SingleLines(to))
  {
    hide Session.Honest, After, OneLine, SingleLines, CanSecure, CanAuthenticate, Emails;
    failed := SignOn(s);
    if failed {
      return;
    }
    failed := OpenEnvelope(s, from);
    if failed {
      return;
    }
    failed := NameRecipients(s, to);
    SingleLinesIs(to);
    if failed {
      return;
    }
    var data := s.Ask(Data(true));
    failed := !data;
  }

  lemma SingleLinesIs(addresses: seq<Address>)
    ensures SingleLines(addresses) <==> !exists i :: 0 <= i < |addresses| && !OneLine(addresses[i].email)
  {
    hide OneLine;
  }

  /** The commands up to AUTH. */
  method SignOn(s: Session) returns (failed: bool)
    requires s.At() == Connected(s.options.implicitTLS) && s.tls == s.options.implicitTLS && !s.didHello
    requires s.Honest()
    modifies s
    ensures s.Honest()
    ensures failed ==> Next(Terms(s.options, s.starttls), s.At(), Closed) == Ended(None)
    ensures !failed ==> s.Agrees() && !s.At().Envelope? && (s.At().Leaving? ==> s.Refused())
    ensures !failed ==> s.SignedOn() || (s.options.username == "" && s.Refused())
    ensures old(s.replies) == [] ==>
              s.replies == [] && failed == !(CanSecure(s) && CanAuthenticate(s)) && (!failed ==> !s.Refused())
  {
    hide Session.Honest, After;
    failed := true;
    var greeted := s.Ask(Greeting(true));
    if !greeted {
      return;
    }
    failed := Secure(s);
    if failed {
      return;
    }
    if s.options.username != "" {
      failed := Authenticate(s);
    }
  }

  /** Nothing on this side stands in the way of the commands up to DATA. */
  predicate Reaches(s: Session, m: Message) {
    CanSecure(s) && CanAuthenticate(s) && OneLine(m.from.email) && SingleLines(Recipients(m))
  }

  /** When that is: the connection is encrypted or may stay clear, credentials are not asked for or can be sent, and
      no address has a line break in it. */
  lemma ReachesMeans(s: Session, m: Message)
    ensures Reaches(s, m) <==>
            && (s.options.implicitTLS || s.starttls || s.options.allowInsecure)
            && (s.options.username == "" || s.options.implicitTLS || s.starttls
                || s.options.host in {"localhost", "127.0.0.1", "::1"})
            && OneLine(m.from.email)
            && (forall a :: a in m.to || a in m.cc || a in m.bcc ==> OneLine(a.email))
  {
    hide OneLine;
    var all := m.to + m.cc + m.bcc;
    assert forall a :: a in all <==> a in m.to || a in m.cc || a in m.bcc;
  }

  /** What the server was given of the text: all of it once it was flushed, and otherwise what the buffer had passed
      on. */
  function Sent(pieces: seq<string>, flushed: bool): string {
    if flushed then Concat(pieces) else Forwarded(pieces)
  }

  /** What the server can have been given: a start of the text, and exactly that unless the stream itself failed. */
  ghost predicate Given(pieces: seq<string>, flushed: bool, sound: bool, text: string) {
    text <= Concat(pieces) && (flushed || sound ==> text == Sent(pieces, flushed))
  }

  lemma SentIsGiven(pieces: seq<string>, flushed: bool, sound: bool)
    ensures Given(pieces, flushed, sound, Sent(pieces, flushed))
  {
    hide Concat, Forwarded;
    ForwardedIs(pieces);
  }

  /** The part of Send between dialing and closing.  `mime` is the buffered stream of the message text, `composed`
      whether the whole message was written to it and flushed.  The end of the data is sent in either case. */
  method Converse(s: Session, c: Codecs, m: Message, stamp: Stamp, ctx: Context, mime: Sink)
    returns (ok: bool, composed: bool, ghost headers: map<string, string>, ghost order: seq<string>)
    requires ValidMessage(c, m) && W.AllReadable(m)
    requires s.At() == Connected(s.options.implicitTLS) && s.tls == s.options.implicitTLS && !s.didHello
    requires mime.pieces == []
    requires s.Honest()
    modifies s, mime
    ensures s.Honest()
    ensures Next(Terms(s.options, s.starttls), s.At(), Closed).Ended?
    ensures var receipt := Next(Terms(s.options, s.starttls), s.At(), Closed).delivered;
            && (receipt.Some? ==>
                  && receipt.value.from == m.from.email && receipt.value.to == Emails(Recipients(m))
                  && Given(mime.pieces, composed, old(mime.faults) == [], receipt.value.text))
            && (ok ==> receipt.Some? && composed && s.trace != [] && s.trace[|s.trace| - 1] == Quit(true))
            && (receipt.Some? && !ok ==> !composed || (s.trace != [] && s.trace[|s.trace| - 1] == Quit(false)))
    ensures composed ==> IsWhole(c, m, stamp, headers, order, Concat(mime.pieces))
    ensures old(s.replies) == [] && old(mime.faults) == [] ==>
              && (Next(Terms(s.options, s.starttls), s.At(), Closed).delivered.Some? <==> Reaches(s, m))
              && ok == (Reaches(s, m) && Composable(m, ctx))
              && (Reaches(s, m) && !Composable(m, ctx) ==>
                    IsCut(c, m, stamp, ctx, headers, order, Concat(mime.pieces)) && !composed)
  {
    hide Session.Honest, After, ValidMessage, Recipients, Emails, IsWhole, IsCut, W.AllReadable, Composable,
      SingleLines, CanSecure, CanAuthenticate, OneLine, Given, Concat;
    ok, composed, headers, order := false, false, map[], [];
    RecipientsExist(c, m);
    var failed := Prepare(s, m.from.email, Recipients(m));
    if failed {
      return;
    }
    var closed;
    failed, closed, headers, order := Transmit(s, c, m, stamp, ctx, mime);
    composed := !failed;
    if failed || !closed {
      return;
    }
    ok := s.Ask(Quit(true));
  }

  /** The text, and the end of the data whether or not the text could be composed. */
  method Transmit(s: Session, c: Codecs, m: Message, stamp: Stamp, ctx: Context, mime: Sink)
    returns (failed: bool, closed: bool, ghost headers: map<string, string>, ghost order: seq<string>)
    requires ValidMessage(c, m) && W.AllReadable(m) && mime.pieces == []
    requires s.At().Body? && s.At().text == ""
    requires s.Honest()
    modifies s, mime
    ensures s.Honest()
    ensures s.At().Leaving? && (s.At().delivered.Some? <==> closed)
    ensures closed ==> && s.At().delivered.value.from == old(s.At()).from && s.At().delivered.value.to == old(s.At()).to
                       && Given(mime.pieces, !failed, old(mime.faults) == [], s.At().delivered.value.text)
    ensures !failed ==> IsWhole(c, m, stamp, headers, order, Concat(mime.pieces))
    ensures old(s.replies) == [] ==> s.replies == [] && closed
    ensures old(mime.faults) == [] ==>
              && failed == !Composable(m, ctx)
              && (failed ==> IsCut(c, m, stamp, ctx, headers, order, Concat(mime.pieces)))
  {
    hide Session.Honest, After, ValidMessage, Composed, Render, TreeOf, CutText, HeaderLinesOf, W.AllReadable,
      Composable, Concat, Forwarded;
    NothingWritten();
    ghost var readers;
    failed, readers, headers, order := W.WriteMIME(c, m, stamp, ctx, mime);
    if !failed {
      ghost var text := Render(TreeOf(c, m, stamp, HeaderLinesOf(headers, order)));
      assert "" + text == text;
    } else if old(mime.faults) == [] {
      ghost var text := CutText(c, m, stamp, ctx, HeaderLinesOf(headers, order));
      assert "" + text == text;
    }
    var sent := Sent(mime.pieces, !failed);
    SentIsGiven(mime.pieces, !failed, old(mime.faults) == []);
    s.Log(Content(sent));
    assert "" + sent == sent;
    closed := s.Ask(EndOfData(true));
  }

  lemma NothingWritten()
    ensures Concat([]) == ""
  {
  }

  /** The text of the message's tree, under some order of its headers. */
  ghost predicate IsWhole(c: Codecs, m: Message, stamp: Stamp, headers: map<string, string>, order: seq<string>,
                          text: string)
  {
    && Composed(c, m, stamp, headers) && Enumerates(order, headers)
    && text == Render(TreeOf(c, m, stamp, HeaderLinesOf(headers, order)))
  }

  /** The text of the message as far as it could be composed, under some order of its headers. */
  ghost predicate IsCut(c: Codecs, m: Message, stamp: Stamp, ctx: Context, headers: map<string, string>,
                        order: seq<string>, text: string)
  {
    && Composed(c, m, stamp, headers) && Enumerates(order, headers)
    && text == CutText(c, m, stamp, ctx, HeaderLinesOf(headers, order))
  }

  lemma RecipientsExist(c: Codecs, m: Message)
    requires ValidMessage(c, m)
    ensures Recipients(m) != []
  {
  }

  /** Send.  An invalid message is refused before dialing.  Otherwise the automaton accepts the session and sees it
      closed; a server that took a message took it for exactly To, CC and BCC in order; success means it took the
      whole text of the message; and an error in spite of that means that composing failed half-way or QUIT was
      refused. A server that goes along with everything is given every message that reaches it: it takes a part of
      it, while Send reports an error, if and only if the message cannot be composed whole. */
  method Send(s: Session, c: Codecs, m: Message, stamp: Stamp, ctx: Context, mime: Sink)
    returns (ok: bool, composed: bool, ghost headers: map<string, string>, ghost order: seq<string>)
    requires W.AllReadable(m) || !ValidMessage(c, m)
    requires s.trace == [] && !s.didHello && mime.pieces == []
    requires s.Honest()
    modifies s, mime
    ensures s.Honest()
    ensures !ValidMessage(c, m) ==> !ok && s.trace == []
    ensures ValidMessage(c, m) ==> s.At().Ended?
    ensures s.trace != [] ==> s.trace == [Dialed(s.options.implicitTLS, false)] || s.trace[|s.trace| - 1] == Closed
    ensures s.At().Ended? && s.At().delivered.Some? ==>
              var receipt := s.At().delivered.value;
              && receipt.from == m.from.email && receipt.to == Emails(m.to) + Emails(m.cc) + Emails(m.bcc)
              && Given(mime.pieces, composed, old(mime.faults) == [], receipt.text)
    ensures ok ==> s.At().Ended? && s.At().delivered.Some? && composed
                   && |s.trace| >= 2 && s.trace[|s.trace| - 2] == Quit(true)
    ensures composed ==> IsWhole(c, m, stamp, headers, order, Concat(mime.pieces))
    ensures !ok && s.At().Ended? && s.At().delivered.Some? ==>
              !composed || (|s.trace| >= 2 && s.trace[|s.trace| - 2] == Quit(false))
    ensures old(s.replies) == [] && old(mime.faults) == [] ==>
              && ok == (ValidMessage(c, m) && Reaches(s, m) && Composable(m, ctx))
              && (!ok && s.At().Ended? && s.At().delivered.Some?
                  <==> ValidMessage(c, m) && Reaches(s, m) && !Composable(m, ctx))
              && (!ok && s.At().Ended? && s.At().delivered.Some? ==>
                    !composed && IsCut(c, m, stamp, ctx, headers, order, Concat(mime.pieces)))
  {
    hide Session.Honest, Reaches, Composable, After, IsWhole, IsCut, ValidAddress, ValidAddresses, ValidHeaders,
      Recipients, Emails, Concat, Sent;
    ok, composed, headers, order := false, false, map[], [];
    AfterNothing(Terms(s.options, s.starttls));
    if !ValidMessage(c, m) {
      return;
    }
    hide ValidMessage;
    var dialed := Dial(s);
    if !dialed {
      return;
    }
    ok, composed, headers, order := Converse(s, c, m, stamp, ctx, mime);
    EnvelopeOf(m);
    s.Log(Closed);
  }

  /** Every attachment is there, in order, and decodes to its bytes. */
  ghost predicate HoldsAttachments(m: Message, tree: Entity) {
    forall i :: 0 <= i < |m.attachments| ==>
      tree.Multi? && |tree.parts| == 1 + |m.attachments| && tree.parts[1 + i].Leaf?
      && DecodePadded(StripBreaks(tree.parts[1 + i].body)) == Some(Contents(m.attachments[i]))
  }

  lemma TreeHoldsAttachments(c: Codecs, m: Message, stamp: Stamp, top: seq<string>)
    ensures HoldsAttachments(m, TreeOf(c, m, stamp, top)) && TreeOf(c, m, stamp, top).headers == top
  {
    hide DecodePadded, StripBreaks, Contents, BodyEntity, Line, Canon, Key;
    forall i | 0 <= i < |m.attachments|
      ensures var tree := TreeOf(c, m, stamp, top);
              tree.Multi? && |tree.parts| == 1 + |m.attachments| && tree.parts[1 + i].Leaf?
              && DecodePadded(StripBreaks(tree.parts[1 + i].body)) == Some(Contents(m.attachments[i]))
    {
      AttachmentsSurvive(c, m, stamp, top, i);
    }
  }

  /** What a receiver makes of a text that was composed whole: the message's tree, each attachment with its bytes,
      each of the composer's headers once with its value, and no Bcc. */
  lemma DeliveredText(c: Codecs, m: Message, stamp: Stamp, headers: map<string, string>, order: seq<string>,
                      text: string)
    requires ValidMessage(c, m) && Framable(c, m, stamp)
    requires IsWhole(c, m, stamp, headers, order, text) && ValuesOk(headers)
    ensures Read(text) == Some(TreeOf(c, m, stamp, HeaderLinesOf(headers, order)))
    ensures HoldsAttachments(m, Read(text).value) && Announces(c, m, stamp, Read(text).value.headers)
  {
    var top := HeaderLinesOf(headers, order);
    hide ValidMessage, Framable, Composed, Enumerates, ValuesOk, HeaderLinesOf, Read, Render, TreeOf, Announces,
      HoldsAttachments;
    MessageRoundTrip(c, m, stamp, headers, order);
    TreeHoldsAttachments(c, m, stamp, top);
    HeaderInWords(c, m, stamp, headers, order);
  }

  // ------------------------------------------------------------------
  // A message that is accepted although it is not whole
  // ------------------------------------------------------------------

  /** What a server takes of a multipart message that could not be composed: the text composed but for at most its
      last 4096 bytes, and nothing at all if that is not longer; never a text of the whole message, and nothing that
      a reader takes for it. */
  lemma AcceptedInPart(c: Codecs, m: Message, stamp: Stamp, ctx: Context, headers: map<string, string>,
                       order: seq<string>, pieces: seq<string>)
    requires ValidMessage(c, m) && Framable(c, m, stamp) && IsMulti(m) && TakenClean(c, m, ctx, Outer(m, stamp))
    requires IsCut(c, m, stamp, ctx, headers, order, Concat(pieces)) && ValuesOk(headers)
    ensures var text := Sent(pieces, false);
            && text <= Concat(pieces) && |Concat(pieces)| <= |text| + 4096
            && (|Concat(pieces)| <= 4096 ==> text == "")
            && NotMulti(Read(text), Outer(m, stamp))
            && (forall h, o :: ValuesOk(h) ==> !IsWhole(c, m, stamp, h, o, text))
  {
    var text := Sent(pieces, false);
    SentIs(pieces);
    ForwardedIs(pieces);
    hide *;
    assert text == Concat(pieces)[..|text|];
    CutIsNotWhole(c, m, stamp, ctx, headers, order, Concat(pieces), |text|);
    forall h, o | ValuesOk(h)
      ensures !IsWhole(c, m, stamp, h, o, text)
    {
      if IsWhole(c, m, stamp, h, o, text) {
        WholeIsMulti(c, m, stamp, h, o, text);
      }
    }
  }

  lemma SentIs(pieces: seq<string>)
    ensures Sent(pieces, false) == Forwarded(pieces)
  {
    hide Forwarded;
  }

  lemma CutIsNotWhole(c: Codecs, m: Message, stamp: Stamp, ctx: Context, headers: map<string, string>,
                      order: seq<string>,
                      text: string, n: nat)
    requires ValidMessage(c, m) && Framable(c, m, stamp) && IsMulti(m) && TakenClean(c, m, ctx, Outer(m, stamp))
    requires IsCut(c, m, stamp, ctx, headers, order, text) && ValuesOk(headers) && n <= |text|
    ensures NotMulti(Read(text[..n]), Outer(m, stamp))
  {
    var top := HeaderLinesOf(headers, order);
    HasText(c, m);
    W.HeadersOk(c, m);
    hide ValidMessage, ValidHeaders, Framable, TakenClean, Composed, Enumerates, ValuesOk, HeaderLinesOf, CutText,
      NotMulti, Outer, IsMulti, HeaderLines, Read;
    TopLines(c, m, stamp, headers, order);
    CutIsNotTheMessage(c, m, stamp, ctx, top, n);
  }

  lemma HasText(c: Codecs, m: Message)
    requires ValidMessage(c, m)
    ensures m.text != "" || m.html != ""
  {
    hide ValidAddress, ValidAddresses, ValidHeaders, OneLine;
  }

  lemma WholeIsMulti(c: Codecs, m: Message, stamp: Stamp, headers: map<string, string>, order: seq<string>,
                     text: string)
    requires ValidMessage(c, m) && Framable(c, m, stamp) && IsMulti(m)
    requires IsWhole(c, m, stamp, headers, order, text) && ValuesOk(headers)
    ensures !NotMulti(Read(text), Outer(m, stamp))
  {
    hide ValidMessage, Framable, Composed, Enumerates, ValuesOk, HeaderLinesOf, Read, Render, BodyEntity, Alternatives,
      AttachmentLeaf;
    MessageRoundTrip(c, m, stamp, headers, order);
  }

  // One such message: its attachment does not open.

  function PlainCodecs(): Codecs {
    Codecs((a: Address) => a.email, s => Some(s), s => s, s => s, s => "attachment")
  }

  function Repeated(ch: char): string {
    seq(32, i requires 0 <= i < 32 => ch)
  }

  function OneAddress(): Address {
    Address("", "a@b")
  }

  function Unopenable(): Message {
    Message(OneAddress(), [OneAddress()], [], [], [], "", "hello", "", map[], [AttachmentSource("f", "", Fails)])
  }

  function SomeStamp(): Stamp {
    Stamp("id", "date", Repeated('a'), Repeated('b'))
  }

  function Unhurried(): Context {
    Context(None, None)
  }

  lemma UnopenableIsValid()
    ensures ValidMessage(PlainCodecs(), Unopenable()) && W.AllReadable(Unopenable()) && IsMulti(Unopenable())
    ensures !Composable(Unopenable(), Unhurried())
  {
    assert !Deliverable(Unopenable().attachments[0]);
  }

  lemma HelloIsClean(boundary: string)
    ensures Clean(boundary, Lines("hello")) && Clean(boundary, Lines(""))
  {
    LinesOneLine("hello");
    LinesOneLine("");
    hide Lines;
    NoHyphenIsClean(boundary, ["hello"]);
    NoHyphenIsClean(boundary, [""]);
  }

  lemma UnopenableIsFramable()
    ensures Framable(PlainCodecs(), Unopenable(), SomeStamp())
    ensures TakenClean(PlainCodecs(), Unopenable(), Unhurried(), Outer(Unopenable(), SomeStamp()))
  {
    var stamp := SomeStamp();
    assert stamp.mixed[0] != stamp.alternative[0];
    assert IsBoundary(stamp.mixed) && IsBoundary(stamp.alternative);
    assert Unbroken("application/octet-stream") && Unbroken("attachment");
    HelloIsClean(stamp.mixed);
    HelloIsClean(stamp.alternative);
    hide Clean, Lines, Unbroken, IsBoundary, Repeated;
  }

  lemma OwnValuesOneLine(f: Field)
    ensures var v := FieldValue(PlainCodecs(), Unopenable(), SomeStamp(), f); v.Some? ==> OneLine(v.value)
  {
    var stamp := SomeStamp();
    OneRecipient();
    assert OneLine(stamp.mixed);
    MixedTypeOneLine(stamp.mixed);
    ShortOneLine();
    hide OneLine, JoinAddresses, MixedType, AlternativeType, TextType, Repeated;
  }

  lemma ShortOneLine()
    ensures OneLine("a@b") && OneLine("") && OneLine("date") && OneLine("id") && OneLine("1.0")
  {
  }

  lemma OneRecipient()
    ensures JoinAddresses(PlainCodecs(), Unopenable().to) == "a@b"
  {
  }

  lemma MixedTypeOneLine(boundary: string)
    requires OneLine(boundary)
    ensures OneLine(MixedType(boundary))
  {
  }

  lemma UnopenableValues(headers: map<string, string>)
    requires Composed(PlainCodecs(), Unopenable(), SomeStamp(), headers)
    ensures ValuesOk(headers)
  {
    var c, m, stamp := PlainCodecs(), Unopenable(), SomeStamp();
    hide FieldValue, Key, OneLine, PlainCodecs, SomeStamp;
    forall k | k in headers
      ensures OneLine(headers[k])
    {
      assert OwnKey(c, m, stamp, k);
      var f: Field :| FieldValue(c, m, stamp, f).Some? && k == Key(f);
      OwnValuesOneLine(f);
    }
  }

  lemma UnopenableReaches(s: Session)
    requires s.options == Options("host", "", true, false)
    ensures Reaches(s, Unopenable()) && Outer(Unopenable(), SomeStamp()) == SomeStamp().mixed
  {
    var m := Unopenable();
    assert OneLine(m.from.email) && SingleLines(Recipients(m));
  }

  /** A server that goes along with everything takes that message, Send reports an error, and what was taken is not
      the message. */
  method TakenInPart() returns (s: Session, mime: Sink, ok: bool)
    ensures !ok && s.At().Ended? && s.At().delivered.Some?
    ensures var text := s.At().delivered.value.text;
            && NotMulti(Read(text), SomeStamp().mixed)
            && (forall h, o :: ValuesOk(h) ==> !IsWhole(PlainCodecs(), Unopenable(), SomeStamp(), h, o, text))
  {
    hide *;
    var c, m, stamp, ctx := PlainCodecs(), Unopenable(), SomeStamp(), Unhurried();
    s := new Session(Options("host", "", true, false), false, []);
    mime := new Sink([]);
    UnopenableReaches(s);
    UnopenableIsValid();
    UnopenableIsFramable();
    var composed;
    ghost var headers, order;
    ok, composed, headers, order := Send(s, c, m, stamp, ctx, mime);
    CutIs(c, m, stamp, ctx, headers, order, Concat(mime.pieces));
    UnopenableValues(headers);
    AcceptedInPart(c, m, stamp, ctx, headers, order, mime.pieces);
    SoundlyGiven(mime.pieces, s.At().delivered.value.text);
  }

  lemma SoundlyGiven(pieces: seq<string>, text: string)
    requires Given(pieces, false, true, text)
    ensures text == Sent(pieces, false)
  {
  }

  lemma CutIs(c: Codecs, m: Message, stamp: Stamp, ctx: Context, headers: map<string, string>, order: seq<string>,
              text: string)
    requires IsCut(c, m, stamp, ctx, headers, order, text)
    ensures Composed(c, m, stamp, headers)
  {
    hide Composed, Enumerates, CutText;
  }

  // One message that is accepted and does not read back: its attachment's type has a CRLF in it.

  function BrokenType(): Message {
    Unopenable().(attachments := [AttachmentSource("f", "a\r\nb", Opens([]))])
  }

  /** Validation lets it through, it is composed whole, and under no header lines and boundaries is its text read as
      it was meant. */
  lemma BrokenTypeIsAccepted(stamp: Stamp, top: seq<string>)
    ensures ValidMessage(PlainCodecs(), BrokenType()) && W.AllReadable(BrokenType())
    ensures Composable(BrokenType(), Unhurried())
    ensures var tree := TreeOf(PlainCodecs(), BrokenType(), stamp, top); Read(Render(tree)) != Some(tree)
  {
    BrokenTypeIsValid();
    BrokenTypeIsBroken();
    hide *;
    BrokenIsNotRead(PlainCodecs(), BrokenType(), stamp, top);
  }

  lemma BrokenTypeIsValid()
    ensures ValidMessage(PlainCodecs(), BrokenType()) && W.AllReadable(BrokenType())
    ensures Composable(BrokenType(), Unhurried())
  {
    assert Delivered([]).complete;
    hide Delivered;
  }

  lemma BrokenTypeIsBroken()
    ensures !TypesUnbroken(PlainCodecs(), BrokenType())
  {
    var a := BrokenType().attachments[0];
    assert a.contentType[1] == '\r' && a.contentType[2] == '\n';
    assert !Unbroken(TypeOf(a));
  }

  lemma EnvelopeOf(m: Message)
    ensures Emails(Recipients(m)) == Emails(m.to) + Emails(m.cc) + Emails(m.bcc)
  {
  }

  lemma AfterNothing(o: Terms)
    ensures After(o, []) == Idle
  {
  }
}
