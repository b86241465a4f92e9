/** The walk that collects which fieldx fields validation should skip
    (validx/validx.go), over a finite tree of values. */
module Validx {
  import opened Text

  /** A value as reflection sees it.  `Field` is a fieldx.Field held by value; `Leaf` is everything the walk does
      not enter. */
  datatype Value =
    | Leaf
    | Pointer(target: Option<Value>)
    | Struct(name: string, members: seq<Member>)
    | List(items: seq<Value>)
    | Field(isSet: bool, accessible: bool)

  datatype Member = Member(name: string, exported: bool, embedded: bool, tag: string, value: Value)

  // ------------------------------------------------------------------
  // Presence rules
  // ------------------------------------------------------------------

  /** strings.Cut(rule, "="): the part before the first equals sign. */
  function BeforeEquals(rule: string): string {
    Split(rule, '=')[0]
  }

  predicate IsPresence(option: string) {
    option == "required" || HasPrefix(option, "required_")
  }

  predicate RuleRequires(rule: string) {
    var options := Split(BeforeEquals(rule), '|');
    exists i :: 0 <= i < |options| && IsPresence(options[i])
  }

  predicate RequiresPresence(tag: string) {
    var rules := Split(tag, ',');
    exists i :: 0 <= i < |rules| && RuleRequires(rules[i])
  }

  /** Rules act independently: a tag asks for presence exactly when one of its parts does. */
  lemma RulesAreIndependent(a: string, b: string)
    ensures RequiresPresence(a + "," + b) <==> RequiresPresence(a) || RequiresPresence(b)
  {
    SplitConcat(a, ',', b);
    hide Split, RuleRequires;
    var p, q := Split(a, ','), Split(b, ',');
    assert forall i :: 0 <= i < |q| ==> (p + q)[|p| + i] == q[i];
    if i :| 0 <= i < |q| && RuleRequires(q[i]) {
      assert RuleRequires((p + q)[|p| + i]);
    }
    if i :| 0 <= i < |p| && RuleRequires(p[i]) {
      assert RuleRequires((p + q)[i]);
    }
  }

  /** A single option asks for presence exactly when it is `required` or starts with `required_`. */
  lemma OptionRequires(option: string)
    requires Free(option, ',') && Free(option, '=') && Free(option, '|')
    ensures RequiresPresence(option)
            <==> option == "required" || (|option| >= 9 && option[..9] == "required_")
  {
    SplitFree(option, ',');
    SplitFree(option, '=');
    SplitFree(option, '|');
    hide Split;
    assert |"required_"| == 9;
    hide IsPresence;
    assert RequiresPresence(option) <==> RuleRequires([option][0]);
    assert RuleRequires(option) <==> IsPresence([option][0]);
    PresenceIs(option);
  }

  lemma PresenceIs(option: string)
    ensures IsPresence(option) <==> option == "required" || (|option| >= 9 && option[..9] == "required_")
  {
    assert |"required_"| == 9;
  }

  lemma FirstComma(s: string) returns (before: string, after: string)
    requires !Free(s, ',')
    ensures s == before + "," + after && Free(before, ',') && |before| < |s| && |after| < |s|
  {
    var i: nat := 0;
    while s[i] != ','
      invariant i < |s| && (forall k :: 0 <= k < i ==> s[k] != ',')
      invariant exists k :: i <= k < |s| && s[k] == ','
      decreases |s| - i
    {
      i := i + 1;
    }
    before, after := s[..i], s[i + 1..];
  }

  lemma OneRule(rule: string)
    requires Free(rule, ',')
    ensures RequiresPresence(rule) <==> RuleRequires(rule)
  {
    SplitFree(rule, ',');
    hide Split, RuleRequires;
    assert RequiresPresence(rule) <==> RuleRequires([rule][0]);
  }

  /** Nothing from an equals sign to the next comma counts. */
  lemma {:induction false} ArgumentsDoNotCount(a: string, argument: string)
    requires Free(argument, ',')
    ensures RequiresPresence(a + "=" + argument) <==> RequiresPresence(a)
    decreases |a|
  {
    hide RequiresPresence, RuleRequires;
    var whole := a + "=" + argument;
    if Free(a, ',') {
      assert Free(whole, ',');
      OneRule(a);
      OneRule(whole);
      ArgumentOfRule(a, argument);
    } else {
      var before, after := FirstComma(a);
      assert whole == before + "," + (after + "=" + argument);
      RulesAreIndependent(before, after);
      RulesAreIndependent(before, after + "=" + argument);
      ArgumentsDoNotCount(after, argument);
    }
  }

  lemma ArgumentOfRule(rule: string, argument: string)
    ensures RuleRequires(rule + "=" + argument) <==> RuleRequires(rule)
  {
    SplitConcat(rule, '=', argument);
    hide Split, IsPresence;
    assert BeforeEquals(rule + "=" + argument) == BeforeEquals(rule);
  }

  lemma {:induction false} SplitFront(x: string, s: string, sep: char)
    requires Free(x, sep)
    ensures Split(x + s, sep)[0] == x + Split(s, sep)[0]
  {
    if x == "" {
      assert x + s == s;
    } else {
      SplitFront(x[1..], s, sep);
      assert (x + s)[1..] == x[1..] + s && (x + s)[0] == x[0];
      assert [x[0]] + x[1..] == x;
    }
  }

  /** Before an equals sign a bar does what a comma does. */
  lemma OptionsAreIndependent(a: string, b: string)
    requires Free(a, ',') && Free(a, '=')
    ensures RequiresPresence(a + "|" + b) <==> RequiresPresence(a) || RequiresPresence(b)
  {
    hide RequiresPresence, RuleRequires;
    OneRule(a);
    if Free(b, ',') {
      assert Free(a + "|" + b, ',');
      OneRule(b);
      OneRule(a + "|" + b);
      OptionsOfRule(a, b);
    } else {
      var before, after := FirstComma(b);
      assert a + "|" + b == (a + "|" + before) + "," + after;
      assert Free(a + "|" + before, ',');
      RulesAreIndependent(before, after);
      RulesAreIndependent(a + "|" + before, after);
      OneRule(before);
      OneRule(a + "|" + before);
      OptionsOfRule(a, before);
    }
  }

  lemma OptionsOfRule(a: string, b: string)
    requires Free(a, '=')
    ensures RuleRequires(a + "|" + b) <==> RuleRequires(a) || RuleRequires(b)
  {
    SplitFree(a, '=');
    SplitFront(a + "|", b, '=');
    SplitConcat(a, '|', BeforeEquals(b));
    hide Split, IsPresence;
    var p, q := Split(a, '|'), Split(BeforeEquals(b), '|');
    assert Split(BeforeEquals(a + "|" + b), '|') == p + q;
    assert forall i :: 0 <= i < |q| ==> (p + q)[|p| + i] == q[i];
    if i :| 0 <= i < |q| && IsPresence(q[i]) {
      assert IsPresence((p + q)[|p| + i]);
    }
    if i :| 0 <= i < |p| && IsPresence(p[i]) {
      assert IsPresence((p + q)[i]);
    }
  }

  // ------------------------------------------------------------------
  // The walk
  // ------------------------------------------------------------------

  /** Unexported members are passed over, unless embedded. */
  predicate Visible(m: Member) {
    m.exported || m.embedded
  }

  /** An unset field with no presence rule; a field that cannot be read counts as unset. */
  predicate Skippable(m: Member) {
    m.value.Field? && !(m.value.accessible && m.value.isSet) && !RequiresPresence(m.tag)
  }

  function Sub(ns: string, name: string): string {
    if ns == "" then name else ns + "." + name
  }

  function Item(ns: string, i: nat): string {
    ns + "[" + Decimal(i) + "]"
  }

  function Deref(v: Value): Option<Value> {
    match v
    case Pointer(None) => None
    case Pointer(Some(w)) => Deref(w)
    case _ => Some(v)
  }

  /** The names collected below a value whose own name is `ns`. */
  function Nested(v: Value, ns: string): set<string>
    decreases v
  {
    match v
    case Pointer(Some(w)) => Nested(w, ns)
    case Struct(_, members) => Members(members, ns)
    case List(items) => Items(items, ns, 0)
    case _ => {}
  }

  function Members(members: seq<Member>, ns: string): set<string>
    decreases members
  {
    if members == [] then {} else OneMember(members[0], ns) + Members(members[1..], ns)
  }

  function OneMember(m: Member, ns: string): set<string>
    decreases m
  {
    if !Visible(m) then {}
    else if m.value.Field? then (if Skippable(m) then {Sub(ns, m.name)} else {})
    else Nested(m.value, Sub(ns, m.name))
  }

  function Items(items: seq<Value>, ns: string, from: nat): set<string>
    decreases items
  {
    if items == [] then {} else Nested(items[0], Item(ns, from)) + Items(items[1..], ns, from + 1)
  }

  /** The skip set of a whole value: only a struct is walked, under the name of its type. */
  function SkipSet(root: Value): set<string> {
    match Deref(root)
    case Some(Struct(name, members)) => Members(members, name)
    case _ => {}
  }

  // ------------------------------------------------------------------
  // Routes, and how they are written
  // ------------------------------------------------------------------

  datatype Step = Into(name: string) | At(index: nat)

  type Route = seq<Step>

  function Written(ns: string, step: Step): string {
    match step
    case Into(name) => if ns == "" then name else ns + "." + name
    case At(i) => ns + "[" + Decimal(i) + "]"
  }

  function Render(ns: string, route: Route): string {
    if route == [] then ns else Written(Render(ns, route[..|route| - 1]), route[|route| - 1])
  }

  /** The member that a route leads to. */
  function Find(v: Value, route: Route): Option<Member>
    decreases |route|, v
  {
    match v
    case Pointer(Some(w)) => Find(w, route)
    case Struct(_, members) => if route != [] && route[0].Into? then FindMember(members, route) else None
    case List(items) =>
      if route != [] && route[0].At? && route[0].index < |items| then Find(items[route[0].index], route[1..]) else None
    case _ => None
  }

  function FindMember(members: seq<Member>, route: Route): Option<Member>
    requires route != [] && route[0].Into?
    decreases |route|, members
  {
    if members == [] then None
    else if (members[0].exported || members[0].embedded) && members[0].name == route[0].name then
      if |route| == 1 then Some(members[0])
      else if members[0].value.Field? then None
      else Find(members[0].value, route[1..])
    else FindMember(members[1..], route)
  }

  /** A Go identifier, as far as it matters here. */
  predicate Identifier(name: string) {
    name != "" && Free(name, '.') && Free(name, '[') && Free(name, ']')
  }

  /** Members that the walk visits have distinct identifiers for names. */
  predicate WellFormed(v: Value)
    decreases v
  {
    match v
    case Pointer(Some(w)) => WellFormed(w)
    case Struct(_, members) => WellFormedMembers(members)
    case List(items) => forall i :: 0 <= i < |items| ==> WellFormed(items[i])
    case _ => true
  }

  predicate WellFormedMembers(members: seq<Member>)
    decreases members
  {
    && (forall i :: 0 <= i < |members| && Visible(members[i]) ==>
          Identifier(members[i].name) && WellFormed(members[i].value))
    && (forall i, j :: 0 <= i < j < |members| && Visible(members[i]) && Visible(members[j]) ==>
          members[i].name != members[j].name)
  }

  predicate Named(route: Route) {
    forall i :: 0 <= i < |route| && route[i].Into? ==> Identifier(route[i].name)
  }

  // ------------------------------------------------------------------
  // Different routes are written differently
  // ------------------------------------------------------------------

  lemma SplitAtLast(a: string, x: string, b: string, y: string, c: char)
    requires Free(x, c) && Free(y, c) && a + [c] + x == b + [c] + y
    ensures a == b && x == y
  {
    var s := a + [c] + x;
    assert s[|a|] == c && s[|b|] == c;
    assert forall i :: |a| < i < |s| ==> s[i] == x[i - |a| - 1];
    assert forall i :: |b| < i < |s| ==> s[i] == y[i - |b| - 1];
    assert |a| == |b|;
    assert a == s[..|a|] && b == s[..|b|];
    assert x == s[|a| + 1..] && y == s[|b| + 1..];
  }

  lemma WrittenLonger(ns: string, step: Step)
    requires step.Into? ==> Identifier(step.name)
    ensures |Written(ns, step)| > |ns|
  {
  }

  lemma {:induction false} RenderLonger(ns: string, route: Route)
    requires Named(route)
    ensures |Render(ns, route)| >= |ns| && (route != [] ==> |Render(ns, route)| > |ns|)
  {
    if route != [] {
      RenderLonger(ns, route[..|route| - 1]);
      WrittenLonger(Render(ns, route[..|route| - 1]), route[|route| - 1]);
    }
  }

  /** The last step can be read off the text. */
  lemma WrittenInjective(p: string, s: Step, q: string, t: Step)
    requires s.Into? ==> Identifier(s.name)
    requires t.Into? ==> Identifier(t.name)
    requires Written(p, s) == Written(q, t)
    ensures p == q && s == t
  {
    var text := Written(p, s);
    LastCharacter(p, s);
    LastCharacter(q, t);
    if s.Into? {
      IdentifierFree(s.name);
      IdentifierFree(t.name);
      DotInSub(p, s.name);
      DotInSub(q, t.name);
      if p != "" {
        SplitAtLast(p, s.name, q, t.name, '.');
      }
    } else {
      var x, y := Decimal(s.index) + "]", Decimal(t.index) + "]";
      assert text == p + "[" + x && text == q + "[" + y;
      SplitAtLast(p, x, q, y, '[');
      assert Decimal(s.index) == x[..|x| - 1] && Decimal(t.index) == y[..|y| - 1];
      DecimalInjective(s.index, t.index);
    }
  }

  lemma DotInSub(ns: string, name: string)
    requires Free(name, '.')
    ensures Free(Sub(ns, name), '.') <==> ns == ""
  {
    if ns != "" {
      assert Sub(ns, name)[|ns|] == '.';
    }
  }

  lemma IdentifierFree(name: string)
    requires Identifier(name)
    ensures Free(name, '.')
  {
  }

  lemma LastCharacter(p: string, s: Step)
    requires s.Into? ==> Identifier(s.name)
    ensures Written(p, s) != "" && (Written(p, s)[|Written(p, s)| - 1] == ']' <==> s.At?)
  {
  }

  lemma {:induction false} RenderInjective(ns: string, a: Route, b: Route)
    requires Named(a) && Named(b) && Render(ns, a) == Render(ns, b)
    ensures a == b
    decreases |a|
  {
    RenderLonger(ns, a);
    RenderLonger(ns, b);
    if a != [] && b != [] {
      var a', b' := a[..|a| - 1], b[..|b| - 1];
      WrittenInjective(Render(ns, a'), a[|a| - 1], Render(ns, b'), b[|b| - 1]);
      RenderInjective(ns, a', b');
      assert a == a' + [a[|a| - 1]] && b == b' + [b[|b| - 1]];
    }
  }

  lemma {:induction false} RenderCons(ns: string, step: Step, rest: Route)
    ensures Render(ns, [step] + rest) == Render(Written(ns, step), rest)
  {
    var route := [step] + rest;
    if rest == [] {
      assert route == [step] && [step][..0] == [];
    } else {
      var init := rest[..|rest| - 1];
      RenderCons(ns, step, init);
      assert route[..|route| - 1] == [step] + init;
    }
  }

  // ------------------------------------------------------------------
  // The walk collects exactly the skippable members
  // ------------------------------------------------------------------

  /** The route leads to a Field without a value that can be seen, and without a presence rule. */
  predicate Leads(m: Option<Member>) {
    && m.Some? && m.value.value.Field? && (m.value.value.isSet ==> !m.value.value.accessible)
    && !RequiresPresence(m.value.tag)
  }

  lemma {:induction false} FindComplete(v: Value, ns: string, route: Route)
    requires Leads(Find(v, route))
    ensures Render(ns, route) in Nested(v, ns)
    decreases |route|, v
  {
    match v
    case Pointer(Some(w)) => FindComplete(w, ns, route);
    case Struct(_, members) => MemberComplete(members, ns, route);
    case List(items) =>
      var i := route[0].index;
      assert route == [At(i)] + route[1..];
      RenderCons(ns, At(i), route[1..]);
      FindComplete(items[i], Item(ns, i), route[1..]);
      ItemAmong(items, ns, 0, i);
  }

  lemma {:induction false} MemberComplete(members: seq<Member>, ns: string, route: Route)
    requires route != [] && route[0].Into? && Leads(FindMember(members, route))
    ensures Render(ns, route) in Members(members, ns)
    decreases |route|, members
  {
    var m := members[0];
    if Visible(m) && m.name == route[0].name {
      assert route == [Into(m.name)] + route[1..];
      RenderCons(ns, Into(m.name), route[1..]);
      if |route| > 1 {
        FindComplete(m.value, Sub(ns, m.name), route[1..]);
      }
    } else {
      MemberComplete(members[1..], ns, route);
    }
  }

  lemma {:induction false} ItemAmong(items: seq<Value>, ns: string, from: nat, i: nat)
    requires i < |items|
    ensures Nested(items[i], Item(ns, from + i)) <= Items(items, ns, from)
    decreases items
  {
    if i > 0 {
      ItemAmong(items[1..], ns, from + 1, i - 1);
      assert items[1..][i - 1] == items[i];
    }
  }

  lemma {:induction false} NestedSound(v: Value, ns: string, s: string) returns (route: Route)
    requires WellFormed(v) && s in Nested(v, ns)
    ensures Leads(Find(v, route)) && Named(route) && s == Render(ns, route)
    decreases v
  {
    match v
    case Pointer(Some(w)) => route := NestedSound(w, ns, s);
    case Struct(_, members) => route := MembersSound(members, ns, s);
    case List(items) =>
      var i, rest := ItemsSound(items, ns, 0, s);
      route := [At(i)] + rest;
      assert route[1..] == rest;
      RenderCons(ns, At(i), rest);
  }

  lemma {:induction false} ItemsSound(items: seq<Value>, ns: string, from: nat, s: string) returns (i: nat, rest: Route)
    requires (forall k :: 0 <= k < |items| ==> WellFormed(items[k])) && s in Items(items, ns, from)
    ensures from <= i < from + |items| && Leads(Find(items[i - from], rest)) && Named(rest)
            && s == Render(Item(ns, i), rest)
    decreases items
  {
    if s in Nested(items[0], Item(ns, from)) {
      i := from;
      rest := NestedSound(items[0], Item(ns, from), s);
    } else {
      i, rest := ItemsSound(items[1..], ns, from + 1, s);
      assert items[1..][i - from - 1] == items[i - from];
    }
  }

  lemma {:induction false} MembersSound(members: seq<Member>, ns: string, s: string) returns (route: Route)
    requires WellFormedMembers(members) && s in Members(members, ns)
    ensures route != [] && route[0].Into? && Leads(FindMember(members, route)) && Named(route) && s == Render(ns, route)
    ensures exists k :: 0 <= k < |members| && Visible(members[k]) && members[k].name == route[0].name
    decreases members
  {
    var m := members[0];
    if s in OneMember(m, ns) {
      var rest: Route := [];
      if !m.value.Field? {
        rest := NestedSound(m.value, Sub(ns, m.name), s);
        FindNonEmpty(m.value, rest);
      }
      route := [Into(m.name)] + rest;
      assert route[1..] == rest;
      RenderCons(ns, Into(m.name), rest);
    } else {
      route := MembersSound(members[1..], ns, s);
      var k :| 0 <= k < |members[1..]| && Visible(members[1..][k]) && members[1..][k].name == route[0].name;
      assert members[k + 1] == members[1..][k];
    }
  }

  lemma {:induction false} FindNonEmpty(v: Value, route: Route)
    requires Find(v, route).Some?
    ensures route != []
    decreases v
  {
    if v.Pointer? && v.target.Some? {
      FindNonEmpty(v.target.value, route);
    }
  }

  /** The struct that a walk starts from, and the name it starts with. */
  function Root(v: Value): Option<Value> {
    match Deref(v)
    case Some(Struct(name, members)) => Some(Struct(name, members))
    case _ => None
  }

  lemma {:induction false} DerefKeeps(v: Value, route: Route)
    requires WellFormed(v)
    ensures Deref(v).Some? ==> WellFormed(Deref(v).value) && Find(Deref(v).value, route) == Find(v, route)
    ensures Deref(v).None? ==> Find(v, route) == None
    decreases v
  {
    if v.Pointer? && v.target.Some? {
      DerefKeeps(v.target.value, route);
    }
  }

  /** The skip set holds exactly the written routes of the unset fields without a presence rule. */
  lemma SkipSetExact(v: Value, s: string)
    requires WellFormed(v) && Root(v).Some?
    ensures s in SkipSet(v)
            <==> exists route :: Named(route) && Leads(Find(v, route)) && s == Render(Root(v).value.name, route)
  {
    var root := Root(v).value;
    if s in SkipSet(v) {
      DerefKeeps(v, []);
      var route := NestedSound(root, root.name, s);
      DerefKeeps(v, route);
    }
    if route :| Named(route) && Leads(Find(v, route)) && s == Render(root.name, route) {
      DerefKeeps(v, route);
      FindComplete(root, root.name, route);
    }
  }

  /** A field the walk reaches is skipped if and only if it is unset and has no presence rule: no other field's name
      can be mistaken for its own. */
  lemma FieldSkippedIff(v: Value, route: Route)
    requires WellFormed(v) && Root(v).Some? && Named(route) && Find(v, route).Some?
    ensures var m := Find(v, route).value;
            Render(Root(v).value.name, route) in SkipSet(v)
            <==> m.value.Field? && (m.value.isSet ==> !m.value.accessible) && !RequiresPresence(m.tag)
  {
    var ns := Root(v).value.name;
    SkipSetExact(v, Render(ns, route));
    hide WellFormed, Find, SkipSet;
    if Render(ns, route) in SkipSet(v) {
      var other :| Named(other) && Leads(Find(v, other)) && Render(ns, route) == Render(ns, other);
      RenderInjective(ns, route, other);
    }
  }

  // ------------------------------------------------------------------
  // The code: recursion over a mutable set
  // ------------------------------------------------------------------

  function Size(v: Value): nat
    decreases v
  {
    match v
    case Pointer(Some(w)) => 1 + Size(w)
    case Struct(_, members) => 1 + MembersSize(members)
    case List(items) => 1 + ItemsSize(items)
    case _ => 1
  }

  function MembersSize(members: seq<Member>): nat
    decreases members
  {
    if members == [] then 0 else 1 + Size(members[0].value) + MembersSize(members[1..])
  }

  function ItemsSize(items: seq<Value>): nat
    decreases items
  {
    if items == [] then 0 else 1 + Size(items[0]) + ItemsSize(items[1..])
  }

  /** dereference */
  method Dereference(v: Value) returns (r: Option<Value>)
    ensures r == Deref(v) && (r.Some? ==> Size(r.value) <= Size(v) && !r.value.Pointer?)
  {
    var value := v;
    while value.Pointer?
      invariant Deref(value) == Deref(v) && Size(value) <= Size(v)
      decreases value
    {
      if value.target.None? {
        return None;
      }
      value := value.target.value;
    }
    r := Some(value);
  }

  class Skip {
    var names: set<string>

    constructor ()
      ensures names == {}
    {
      names := {};
    }
  }

  lemma {:induction false} NestedDeref(v: Value, ns: string)
    ensures Nested(v, ns) == if Deref(v).Some? then Nested(Deref(v).value, ns) else {}
    decreases v
  {
    if v.Pointer? && v.target.Some? {
      NestedDeref(v.target.value, ns);
    }
  }

  /** prepareFieldxFields, for a struct and its namespace. */
  method PrepareMembers(members: seq<Member>, ns: string, skip: Skip)
    modifies skip
    ensures skip.names == old(skip.names) + Members(members, ns)
    decreases MembersSize(members), 0
  {
    var i := 0;
    assert members[0..] == members;
    while i < |members|
      invariant 0 <= i <= |members|
      invariant MembersSize(members[i..]) <= MembersSize(members)
      invariant skip.names + Members(members[i..], ns) == old(skip.names) + Members(members, ns)
    {
      var m := members[i];
      assert members[i..][0] == m && members[i..][1..] == members[i + 1..];
      if Visible(m) {
        var sub := Sub(ns, m.name);
        if m.value.Field? {
          if !(m.value.accessible && m.value.isSet) && !RequiresPresence(m.tag) {
            skip.names := skip.names + {sub};
          }
        } else {
          PrepareNested(m.value, sub, skip);
        }
      }
      i := i + 1;
    }
    assert members[i..] == [];
  }

  /** prepareNestedFieldxFields */
  method PrepareNested(v: Value, ns: string, skip: Skip)
    modifies skip
    ensures skip.names == old(skip.names) + Nested(v, ns)
    decreases Size(v), 1
  {
    var value := Dereference(v);
    NestedDeref(v, ns);
    if value.None? {
      return;
    }
    match value.value
    case Struct(_, members) =>
      PrepareMembers(members, ns, skip);
    case List(items) =>
      var i := 0;
      assert items[0..] == items;
      while i < |items|
        invariant 0 <= i <= |items|
        invariant ItemsSize(items[i..]) <= ItemsSize(items)
        invariant skip.names + Items(items[i..], ns, i) == old(skip.names) + Items(items, ns, 0)
      {
        assert items[i..][0] == items[i] && items[i..][1..] == items[i + 1..];
        PrepareNested(items[i], Item(ns, i), skip);
        i := i + 1;
      }
      assert items[i..] == [];
    case _ =>
  }

  /** The call in Validator.Struct that fills the skip map. */
  method Prepare(v: Value) returns (skip: Skip)
    ensures fresh(skip) && skip.names == SkipSet(v)
  {
    skip := new Skip();
    var value := Dereference(v);
    if value.Some? && value.value.Struct? {
      PrepareMembers(value.value.members, value.value.name, skip);
    }
  }
}
