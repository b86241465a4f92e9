/** Byte streams at the edge of the modelled code: an io.Writer and an
    io.Reader, each scripted so that every behaviour their contracts allow
    is some script. */
module Stream {
  import opened Text

  /** An io.Writer.  Each write consumes one entry of `faults`: none lets it through, some k makes it fail after at
      most k bytes.  With the script used up, writes succeed. */
  class Sink {
    var pieces: seq<string> // what each write put out
    var faults: seq<Option<nat>>

    /** Everything put out so far. */
    function Out(): string
      reads this
    {
      Concat(pieces)
    }

    constructor (faults: seq<Option<nat>>)
      ensures pieces == [] && Out() == "" && this.faults == faults
    {
      pieces := [];
      this.faults := faults;
    }

    method Write(data: string) returns (n: nat, failed: bool)
      modifies this
      ensures n <= |data| && Out() == old(Out()) + data[..n]
      ensures n < |data| ==> failed
      ensures old(faults) == [] ==> !failed && faults == []
    {
      if faults == [] || faults[0].None? {
        n, failed := |data|, false;
        faults := if faults == [] then [] else faults[1..];
      } else {
        n, failed := if faults[0].value < |data| then faults[0].value else |data|, true;
        faults := faults[1..];
      }
      ConcatSnoc(pieces, data[..n]);
      pieces := pieces + [data[..n]];
    }
  }

  // ------------------------------------------------------------------
  // bufio.Writer
  // ------------------------------------------------------------------

  const HOLDS := 4096

  /** What a bufio.Writer that holds `held` bytes holds after a write of `n` more: they fit; or they are written
      straight through an empty buffer; or they fill it, it is flushed, and the same is done with the rest. */
  function HeldAfter(held: nat, n: nat): nat
    requires held <= HOLDS
  {
    if held + n <= HOLDS then held + n
    else if held == 0 || n - (HOLDS - held) > HOLDS then 0
    else n - (HOLDS - held)
  }

  /** How many bytes it holds back after these writes, if it was not flushed since. */
  function Held(pieces: seq<string>): (n: nat)
    ensures n <= HOLDS
  {
    if pieces == [] then 0 else HeldAfter(Held(pieces[..|pieces| - 1]), |pieces[|pieces| - 1]|)
  }

  lemma {:induction false} HeldIsPart(pieces: seq<string>)
    ensures Held(pieces) <= |Concat(pieces)|
    ensures |Concat(pieces)| <= HOLDS ==> Held(pieces) == |Concat(pieces)|
  {
    if pieces != [] {
      var init, last := pieces[..|pieces| - 1], pieces[|pieces| - 1];
      HeldIsPart(init);
      ConcatSnoc(init, last);
      assert pieces == init + [last];
      hide Concat;
    }
  }

  /** What it has passed on of them. */
  function Forwarded(pieces: seq<string>): string {
    HeldIsPart(pieces);
    Concat(pieces)[..|Concat(pieces)| - Held(pieces)]
  }

  /** All but at most the last 4096 bytes; nothing at all as long as everything fits. */
  lemma ForwardedIs(pieces: seq<string>)
    ensures Forwarded(pieces) <= Concat(pieces) && |Concat(pieces)| <= |Forwarded(pieces)| + 4096
    ensures |Concat(pieces)| <= 4096 ==> Forwarded(pieces) == ""
  {
    HeldIsPart(pieces);
  }

  /** As long as no single write is longer than the buffer, it passes on full buffers only, each when more comes. */
  lemma {:induction false} HeldExactly(pieces: seq<string>)
    requires forall i :: 0 <= i < |pieces| ==> |pieces[i]| <= 4096
    ensures |Concat(pieces)| == |Forwarded(pieces)| + Held(pieces) && |Forwarded(pieces)| % 4096 == 0
    ensures Concat(pieces) != "" ==> Held(pieces) > 0
  {
    HeldIsPart(pieces);
    if pieces != [] {
      var init, last := pieces[..|pieces| - 1], pieces[|pieces| - 1];
      HeldExactly(init);
      ConcatSnoc(init, last);
      assert pieces == init + [last];
      hide Concat;
    }
  }

  datatype Status = More | End | Broken

  /** What one turn of a copy loop meets: whether the context is done, and if not what Read returns. */
  datatype Turn = Turn(cancelled: bool, data: seq<byte>, status: Status)

  /** The copy loops read through a buffer of this size. */
  const BUFFER := 32 * 1024

  /** io.Reader: a read never returns more than the buffer holds. */
  ghost predicate ValidScript(script: seq<Turn>) {
    forall i :: 0 <= i < |script| ==> |script[i].data| <= BUFFER
  }

  /** What a reader hands over before the copy ends, and whether it ended at end of file. */
  datatype Delivery = Delivery(bytes: seq<byte>, complete: bool)

  /** The whole delivery of a script; a script that runs out is at end of file. */
  function Delivered(script: seq<Turn>): Delivery {
    if script == [] then Delivery([], true)
    else if script[0].cancelled then Delivery([], false)
    else
      match script[0].status
      case End => Delivery(script[0].data, true)
      case Broken => Delivery(script[0].data, false)
      case More =>
        var rest := Delivered(script[1..]);
        Delivery(script[0].data + rest.bytes, rest.complete)
  }

  /** What one more turn adds. */
  lemma DeliveredStep(script: seq<Turn>)
    ensures script == [] ==> Delivered(script) == Delivery([], true)
    ensures script != [] && script[0].cancelled ==> Delivered(script) == Delivery([], false)
    ensures script != [] && !script[0].cancelled ==>
              match script[0].status
              case End => Delivered(script) == Delivery(script[0].data, true)
              case Broken => Delivered(script) == Delivery(script[0].data, false)
              case More =>
                var rest := Delivered(script[1..]);
                Delivered(script) == Delivery(script[0].data + rest.bytes, rest.complete)
  {
  }

  /** The data of these turns, one after another. */
  function Data(turns: seq<Turn>): seq<byte> {
    if turns == [] then [] else Data(turns[..|turns| - 1]) + turns[|turns| - 1].data
  }

  lemma {:induction false} DataCons(turns: seq<Turn>)
    requires turns != []
    ensures Data(turns) == turns[0].data + Data(turns[1..])
  {
    if |turns| > 1 {
      DataCons(turns[..|turns| - 1]);
      assert turns[..|turns| - 1][1..] == turns[1..][..|turns| - 2];
    }
  }

  /** A delivery is complete exactly when the first turn that is not a plain read is an end of file, and then holds
      what it brings; a read error ends it too, after what it brings, and a done context before anything. */
  lemma {:induction false} DeliveredUpTo(script: seq<Turn>, n: nat)
    requires n <= |script| && forall i :: 0 <= i < n ==> !script[i].cancelled && script[i].status == More
    ensures n == |script| ==> Delivered(script) == Delivery(Data(script), true)
    ensures n < |script| && script[n].cancelled ==> Delivered(script) == Delivery(Data(script[..n]), false)
    ensures n < |script| && !script[n].cancelled && script[n].status != More ==>
              Delivered(script) == Delivery(Data(script[..n + 1]), script[n].status == End)
  {
    if n > 0 {
      DeliveredUpTo(script[1..], n - 1);
      DataCons(script[..n]);
      assert script[..n][1..] == script[1..][..n - 1];
      if n < |script| {
        DataCons(script[..n + 1]);
        assert script[..n + 1][1..] == script[1..][..n];
      } else {
        assert script[..n] == script;
      }
    } else if script != [] {
      assert script[..1] == [script[0]] && [script[0]][..0] == [];
      assert Data([script[0]]) == [] + script[0].data;
    }
  }

  class Reader {
    var script: seq<Turn>
    var closed: bool

    constructor (script: seq<Turn>)
      ensures this.script == script && !closed
    {
      this.script := script;
      closed := false;
    }

    /** ctx.Err() just before the next read. */
    method Cancelled() returns (yes: bool)
      ensures yes == (script != [] && script[0].cancelled)
    {
      yes := script != [] && script[0].cancelled;
    }

    method Read() returns (data: seq<byte>, status: Status)
      modifies this`script
      ensures old(script) == [] ==> data == [] && status == End && script == []
      ensures old(script) != [] ==>
                data == old(script)[0].data && status == old(script)[0].status && script == old(script)[1..]
    {
      if script == [] {
        data, status := [], End;
      } else {
        data, status := script[0].data, script[0].status;
        script := script[1..];
      }
    }

    method Close()
      modifies this`closed
      ensures closed
    {
      closed := true;
    }
  }
}
