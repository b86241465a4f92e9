/** Go's path.Clean: the documented byte loop (read index, write buffer, dotdot
    mark), and the proof that on every path it computes what its documentation
    says in terms of path elements. */
module PathClean {
  import opened Text

  // ------------------------------------------------------------------
  // The loop
  // ------------------------------------------------------------------

  /** The end of the path element that starts at `r`. */
  function ElementEnd(path: string, r: nat): (e: nat)
    requires r <= |path|
    ensures r <= e <= |path|
    ensures Free(path[r..e], '/')
    ensures e < |path| ==> path[e] == '/'
    ensures r < |path| && path[r] != '/' ==> e > r
    decreases |path| - r
  {
    if r == |path| || path[r] == '/' then r else ElementEnd(path, r + 1)
  }

  /** Backing up over the last element of the buffer, not past the mark. */
  function Backtrack(out: string, w: nat, dotdot: nat): (w': nat)
    requires w < |out|
    ensures w' <= w
    decreases w
  {
    if w > dotdot && out[w] != '/' then Backtrack(out, w - 1, dotdot) else w
  }

  predicate IsDot(path: string, r: nat)
    requires r < |path|
  {
    path[r] == '.' && (r + 1 == |path| || path[r + 1] == '/')
  }

  predicate IsDotDot(path: string, r: nat)
    requires r < |path|
  {
    path[r] == '.' && r + 1 < |path| && path[r + 1] == '.' && (r + 2 == |path| || path[r + 2] == '/')
  }

  /** A slash before the next element, unless the buffer is still at its start. */
  function Separator(out: string, rooted: bool): string {
    if (rooted && |out| != 1) || (!rooted && |out| != 0) then "/" else ""
  }

  function Loop(path: string, r: nat, out: string, dotdot: nat, rooted: bool): string
    requires r <= |path|
    decreases |path| - r
  {
    if r == |path| then out
    else if path[r] == '/' then Loop(path, r + 1, out, dotdot, rooted)
    else if IsDot(path, r) then Loop(path, r + 1, out, dotdot, rooted)
    else if IsDotDot(path, r) then
      if |out| > dotdot then
        Loop(path, r + 2, out[..Backtrack(out, |out| - 1, dotdot)], dotdot, rooted)
      else if !rooted then
        var up := out + (if |out| > 0 then "/" else "") + "..";
        Loop(path, r + 2, up, |up|, rooted)
      else Loop(path, r + 2, out, dotdot, rooted)
    else
      var e := ElementEnd(path, r);
      Loop(path, e, out + Separator(out, rooted) + path[r..e], dotdot, rooted)
  }

  function Clean(path: string): string {
    if path == "" then "."
    else
      var rooted := path[0] == '/';
      var out := if rooted then Loop(path, 1, "/", 1, true) else Loop(path, 0, "", 0, false);
      if out == "" then "." else out
  }

  // ------------------------------------------------------------------
  // The meaning: elements on a stack
  // ------------------------------------------------------------------

  function Push(rooted: bool, stack: seq<string>, element: string): seq<string> {
    if element == "" || element == "." then stack
    else if element == ".." then
      if stack != [] && stack[|stack| - 1] != ".." then stack[..|stack| - 1]
      else if rooted then stack
      else stack + [".."]
    else stack + [element]
  }

  function PushAll(rooted: bool, stack: seq<string>, elements: seq<string>): seq<string>
    decreases |elements|
  {
    if elements == [] then stack else PushAll(rooted, Push(rooted, stack, elements[0]), elements[1..])
  }

  function Rendered(rooted: bool, stack: seq<string>): string {
    (if rooted then "/" else "") + Join(stack, "/")
  }

  /** What path.Clean means. */
  function Meaning(path: string): string {
    if path == "" then "."
    else
      var rooted := path[0] == '/';
      var out := Rendered(rooted, PushAll(rooted, [], Split(path, '/')));
      if out == "" then "." else out
  }

  // ------------------------------------------------------------------
  // They agree
  // ------------------------------------------------------------------

  predicate Ordinary(element: string) {
    element != "" && element != "." && element != ".." && Free(element, '/')
  }

  /** A stack the loop can be in: leading .. elements, none if rooted, then ordinary ones. */
  predicate StackOk(rooted: bool, ups: nat, stack: seq<string>) {
    && ups <= |stack| && (rooted ==> ups == 0)
    && (forall i :: 0 <= i < ups ==> stack[i] == "..")
    && (forall i :: ups <= i < |stack| ==> Ordinary(stack[i]))
  }

  /** The mark stands after the leading .. elements. */
  function Mark(rooted: bool, ups: nat, stack: seq<string>): nat
    requires ups <= |stack|
  {
    |Rendered(rooted, stack[..ups])|
  }

  lemma {:induction false} JoinSnoc(stack: seq<string>, element: string)
    ensures Join(stack + [element], "/") == if stack == [] then element else Join(stack, "/") + "/" + element
  {
    if stack == [] {
      assert stack + [element] == [element];
    } else {
      JoinCons(stack[0], stack[1..] + [element], "/");
      assert stack + [element] == [stack[0]] + (stack[1..] + [element]);
      JoinSnoc(stack[1..], element);
      if |stack| > 1 {
        assert Join(stack, "/") == stack[0] + "/" + Join(stack[1..], "/");
      }
    }
  }

  lemma {:induction false} JoinEmptyOnly(stack: seq<string>)
    requires forall i :: 0 <= i < |stack| ==> stack[i] != ""
    ensures Join(stack, "/") == "" <==> stack == []
  {
  }

  /** Putting an element on the buffer is pushing it. */
  lemma RenderedSnoc(rooted: bool, stack: seq<string>, element: string)
    requires forall i :: 0 <= i < |stack| ==> stack[i] != ""
    ensures Rendered(rooted, stack + [element]) ==
            Rendered(rooted, stack) + Separator(Rendered(rooted, stack), rooted) + element
  {
    JoinSnoc(stack, element);
    JoinEmptyOnly(stack);
    hide Join;
    var j := Join(stack, "/");
    if stack != [] {
      assert |Rendered(rooted, stack)| == (if rooted then 1 else 0) + |j|;
    }
  }

  lemma {:induction false} BacktrackTo(out: string, w: nat, dotdot: nat, stop: nat)
    requires stop <= w < |out|
    requires forall i :: stop < i <= w ==> out[i] != '/'
    requires dotdot <= stop
    requires dotdot == stop || out[stop] == '/'
    ensures Backtrack(out, w, dotdot) == stop
    decreases w
  {
    if w > stop {
      BacktrackTo(out, w - 1, dotdot, stop);
    }
  }

  lemma MarkBelow(rooted: bool, ups: nat, stack: seq<string>)
    requires StackOk(rooted, ups, stack)
    ensures Mark(rooted, ups, stack) <= |Rendered(rooted, stack)|
    ensures Mark(rooted, ups, stack) == |Rendered(rooted, stack)| <==> ups == |stack|
    decreases |stack|
  {
    if ups == |stack| {
      assert stack[..ups] == stack;
    } else {
      var init, last := stack[..|stack| - 1], stack[|stack| - 1];
      assert stack == init + [last] && init[..ups] == stack[..ups];
      assert StackOk(rooted, ups, init);
      hide Rendered;
      MarkBelow(rooted, ups, init);
      RenderedSnoc(rooted, init, last);
    }
  }

  /** Backing up is popping. */
  lemma BacktrackPops(rooted: bool, ups: nat, stack: seq<string>)
    requires StackOk(rooted, ups, stack) && ups < |stack|
    ensures var out := Rendered(rooted, stack);
            |out| > 0
            && out[..Backtrack(out, |out| - 1, Mark(rooted, ups, stack))] == Rendered(rooted, stack[..|stack| - 1])
  {
    var init, last := stack[..|stack| - 1], stack[|stack| - 1];
    assert stack == init + [last] && init[..ups] == stack[..ups];
    assert StackOk(rooted, ups, init) && Free(last, '/') && last != "";
    var kept, mark := Rendered(rooted, init), Mark(rooted, ups, stack);
    assert mark == Mark(rooted, ups, init);
    hide Rendered, StackOk, Ordinary, Mark, Backtrack;
    RenderedSnoc(rooted, init, last);
    MarkBelow(rooted, ups, init);
    if Separator(kept, rooted) == "" {
      NoSeparator(rooted, ups, init);
    }
    BackOver(kept, Separator(kept, rooted), last, mark);
  }

  /** Without a separator nothing is on the stack. */
  lemma NoSeparator(rooted: bool, ups: nat, stack: seq<string>)
    requires StackOk(rooted, ups, stack) && Separator(Rendered(rooted, stack), rooted) == ""
    ensures Mark(rooted, ups, stack) == |Rendered(rooted, stack)|
  {
    JoinEmptyOnly(stack);
    hide Join, Ordinary;
    assert stack == [];
    assert stack[..ups] == stack;
  }

  /** Backing up stops where the last element began. */
  lemma BackOver(kept: string, sep: string, last: string, mark: nat)
    requires (sep == "/" || (sep == "" && mark == |kept|)) && Free(last, '/') && last != "" && mark <= |kept|
    ensures var out := kept + sep + last; |out| > 0 && out[..Backtrack(out, |out| - 1, mark)] == kept
  {
    hide Backtrack;
    var out := kept + sep + last;
    assert out[..|kept|] == kept;
    forall i | |kept| < i < |out|
      ensures out[i] != '/'
    {
      assert out[i] == last[i - |kept| - |sep|];
    }
    BacktrackTo(out, |out| - 1, mark, |kept|);
  }

  /** Reading one element is pushing it. */
  lemma ElementStep(rooted: bool, stack: seq<string>, element: string, rest: string)
    requires Free(element, '/') && (rest == "" || rest[0] == '/')
    ensures PushAll(rooted, stack, Split(element + rest, '/')) ==
            PushAll(rooted, Push(rooted, stack, element), Split(rest, '/'))
  {
    SplitFree(element, '/');
    if rest == "" {
      assert element + rest == element;
      assert [element][1..] == [] && [""][1..] == [];
      assert PushAll(rooted, stack, [element]) == PushAll(rooted, Push(rooted, stack, element), []);
      assert PushAll(rooted, Push(rooted, stack, element), [""]) == PushAll(rooted, Push(rooted, stack, element), []);
    } else {
      var tail := rest[1..];
      SplitConcat(element, '/', tail);
      SplitPrepend('/', tail, '/');
      assert rest == "/" + tail && element + rest == element + "/" + tail;
      hide Split;
      assert ([element] + Split(tail, '/'))[1..] == Split(tail, '/');
      assert ([""] + Split(tail, '/'))[1..] == Split(tail, '/');
    }
  }

  /** The element at `r` ends where the loop takes it to end. */
  lemma ElementAt(path: string, r: nat, e: nat)
    requires r <= e <= |path| && (e == |path| || path[e] == '/')
    ensures path[r..] == path[r..e] + path[e..] && (path[e..] == "" || path[e..][0] == '/')
  {
  }

  lemma StackGrows(rooted: bool, ups: nat, stack: seq<string>, element: string)
    requires StackOk(rooted, ups, stack) && Ordinary(element)
    ensures StackOk(rooted, ups, stack + [element]) && Mark(rooted, ups, stack + [element]) == Mark(rooted, ups, stack)
    ensures Rendered(rooted, stack + [element]) ==
            Rendered(rooted, stack) + Separator(Rendered(rooted, stack), rooted) + element
  {
    assert (stack + [element])[..ups] == stack[..ups];
    RenderedSnoc(rooted, stack, element);
  }

  lemma StackShrinks(rooted: bool, ups: nat, stack: seq<string>)
    requires StackOk(rooted, ups, stack) && ups < |stack|
    ensures StackOk(rooted, ups, stack[..|stack| - 1])
    ensures Mark(rooted, ups, stack[..|stack| - 1]) == Mark(rooted, ups, stack)
    ensures Push(rooted, stack, "..") == stack[..|stack| - 1]
  {
    assert stack[..|stack| - 1][..ups] == stack[..ups];
  }

  lemma StackGoesUp(stack: seq<string>)
    requires StackOk(false, |stack|, stack)
    ensures StackOk(false, |stack| + 1, stack + [".."])
    ensures var out := Rendered(false, stack);
            Rendered(false, stack + [".."]) == out + (if |out| > 0 then "/" else "") + ".."
    ensures Mark(false, |stack| + 1, stack + [".."]) == |Rendered(false, stack + [".."])|
    ensures Push(false, stack, "..") == stack + [".."]
  {
    RenderedSnoc(false, stack, "..");
    assert (stack + [".."])[..|stack| + 1] == stack + [".."];
  }

  /** From any state, the loop computes what is left of the path on the stack. */
  lemma {:induction false} LoopMeans(path: string, r: nat, rooted: bool, ups: nat, stack: seq<string>)
    requires r <= |path| && StackOk(rooted, ups, stack)
    ensures Loop(path, r, Rendered(rooted, stack), Mark(rooted, ups, stack), rooted) ==
            Rendered(rooted, PushAll(rooted, stack, Split(path[r..], '/')))
    decreases |path| - r
  {
    hide Rendered, Mark, StackOk, Backtrack, Split, Push, PushAll, Ordinary;
    if r == |path| {
      NothingLeft(rooted, stack);
      assert path[r..] == "";
    } else if path[r] == '/' {
      assert path[r..] == "/" + path[r + 1..];
      SlashStep(rooted, stack, path[r + 1..]);
      LoopMeans(path, r + 1, rooted, ups, stack);
    } else if IsDot(path, r) {
      ElementAt(path, r, r + 1);
      assert path[r..r + 1] == ".";
      ElementStep(rooted, stack, ".", path[r + 1..]);
      PushDot(rooted, stack);
      LoopMeans(path, r + 1, rooted, ups, stack);
    } else if IsDotDot(path, r) {
      ElementAt(path, r, r + 2);
      assert path[r..r + 2] == "..";
      ElementStep(rooted, stack, "..", path[r + 2..]);
      DotDotMeans(path, r, rooted, ups, stack);
    } else {
      var e := ElementEnd(path, r);
      var element := path[r..e];
      ElementAt(path, r, e);
      ElementIsOrdinary(path, r, e);
      OrdinaryFree(element);
      ElementStep(rooted, stack, element, path[e..]);
      StackGrows(rooted, ups, stack, element);
      PushOne(rooted, stack, element);
      LoopMeans(path, e, rooted, ups, stack + [element]);
    }
  }

  lemma NothingLeft(rooted: bool, stack: seq<string>)
    ensures PushAll(rooted, stack, Split("", '/')) == stack
  {
    assert [""][1..] == [];
    assert PushAll(rooted, stack, [""]) == PushAll(rooted, Push(rooted, stack, ""), []);
  }

  lemma SlashStep(rooted: bool, stack: seq<string>, rest: string)
    ensures PushAll(rooted, stack, Split("/" + rest, '/')) == PushAll(rooted, stack, Split(rest, '/'))
  {
    SplitPrepend('/', rest, '/');
    hide Split;
    assert ([""] + Split(rest, '/'))[1..] == Split(rest, '/');
  }

  lemma PushDot(rooted: bool, stack: seq<string>)
    ensures Push(rooted, stack, ".") == stack
  {
  }

  lemma PushOne(rooted: bool, stack: seq<string>, element: string)
    requires Ordinary(element)
    ensures Push(rooted, stack, element) == stack + [element]
  {
  }

  lemma OrdinaryFree(element: string)
    requires Ordinary(element)
    ensures Free(element, '/')
  {
  }

  lemma ElementIsOrdinary(path: string, r: nat, e: nat)
    requires r < e <= |path| && Free(path[r..e], '/') && (e == |path| || path[e] == '/')
    requires !IsDot(path, r) && !IsDotDot(path, r)
    ensures Ordinary(path[r..e])
  {
    var element := path[r..e];
    assert element[0] == path[r];
    if |element| == 2 { assert element[1] == path[r + 1]; }
  }

  lemma DotDotMeans(path: string, r: nat, rooted: bool, ups: nat, stack: seq<string>)
    requires r < |path| && StackOk(rooted, ups, stack) && path[r] != '/' && !IsDot(path, r) && IsDotDot(path, r)
    ensures Loop(path, r, Rendered(rooted, stack), Mark(rooted, ups, stack), rooted) ==
            Rendered(rooted, PushAll(rooted, Push(rooted, stack, ".."), Split(path[r + 2..], '/')))
    decreases |path| - r, 0
  {
    var out, dotdot := Rendered(rooted, stack), Mark(rooted, ups, stack);
    MarkBelow(rooted, ups, stack);
    if ups < |stack| {
      BacktrackPops(rooted, ups, stack);
      StackShrinks(rooted, ups, stack);
      hide Rendered, Mark, StackOk, Backtrack, Split, Push, PushAll;
      LoopMeans(path, r + 2, rooted, ups, stack[..|stack| - 1]);
    } else if !rooted {
      StackGoesUp(stack);
      hide Rendered, Mark, StackOk, Backtrack, Split, Push, PushAll;
      LoopMeans(path, r + 2, rooted, ups + 1, stack + [".."]);
    } else {
      assert Push(rooted, stack, "..") == stack;
      hide Rendered, Mark, StackOk, Backtrack, Split, Push, PushAll;
      LoopMeans(path, r + 2, rooted, ups, stack);
    }
  }

  /** On every path the byte loop is the stack of elements. */
  lemma CleanMeans(path: string)
    ensures Clean(path) == Meaning(path)
  {
    if path != "" {
      var rooted := path[0] == '/';
      assert Rendered(true, []) == "/" && Rendered(false, []) == "";
      var empty: seq<string> := [];
      assert empty[..0] == empty && Mark(true, 0, empty) == 1 && Mark(false, 0, empty) == 0;
      if rooted {
        LoopMeans(path, 1, true, 0, []);
        assert path == "/" + path[1..];
        SplitPrepend('/', path[1..], '/');
        assert ([""] + Split(path[1..], '/'))[1..] == Split(path[1..], '/');
        hide Split, Loop, Rendered;
        assert PushAll(true, [], Split(path, '/')) == PushAll(true, [], Split(path[1..], '/'));
      } else {
        LoopMeans(path, 0, false, 0, []);
        assert path[0..] == path;
      }
    }
  }

  lemma {:induction false} PushOrdinary(rooted: bool, stack: seq<string>, elements: seq<string>)
    requires forall i :: 0 <= i < |elements| ==> Ordinary(elements[i])
    ensures PushAll(rooted, stack, elements) == stack + elements
    decreases |elements|
  {
    if elements == [] {
      assert stack + elements == stack;
    } else {
      assert Ordinary(elements[0]);
      PushOrdinary(rooted, stack + [elements[0]], elements[1..]);
      assert stack + elements == stack + [elements[0]] + elements[1..];
    }
  }

  lemma FirstIsSlash(path: string)
    requires path != "" && path[0] == '/'
    ensures Split(path, '/')[0] == ""
  {
  }

  /** A relative path of ordinary elements is clean already. */
  lemma CleanIdentity(path: string)
    requires forall i :: 0 <= i < |Split(path, '/')| ==> Ordinary(Split(path, '/')[i])
    ensures Clean(path) == path && path != "" && path != "."
  {
    var elements := Split(path, '/');
    assert path != "" && path != "." by {
      if path == "." { SplitFree(".", '/'); }
      assert Ordinary(elements[0]);
    }
    if path[0] == '/' {
      FirstIsSlash(path);
    }
    CleanMeans(path);
    PushOrdinary(false, [], elements);
    JoinSplit(path, '/');
    hide Split, Clean;
    assert [] + elements == elements;
  }
}
