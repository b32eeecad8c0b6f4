/** How event filters are written, blanks and all, and that the parser reads them
    (workspace/src/framework/impl/core/event_filter.cpp:75-268). */
module FilterLayouts {
  import opened Wrappers
  import opened EventFilter

  // ---------------------------------------------------------------------------------------------
  // Layouts
  // ---------------------------------------------------------------------------------------------

  /** A filter as it is written.  `inside` follows the opening parenthesis, `gap` a logical operator, and
      `behind` the closing parenthesis of a child. */
  datatype Layout =
    | AndOf(inside: string, gap: string, children: seq<Layout>, behind: string)
    | OrOf(inside: string, gap: string, children: seq<Layout>, behind: string)
    | NotOf(inside: string, gap: string, child: Layout, behind: string)
    | ComparisonOf(inside: string, op: Operator, key: string, afterKey: string, beforeValue: string, value: string,
                   afterValue: string, behind: string)

  function OperatorText(op: Operator): string {
    match op
    case Equal => "="
    case NotEqual => "!="
    case LessThan => "<"
    case GreaterThan => ">"
    case LessEqual => "<="
    case GreaterEqual => ">="
    case Present => "="
  }

  function Body(l: Layout): (s: string)
    ensures |s| >= 2 && s[0] == '(' && s[|s| - 1] == ')'
    decreases l, 1
  {
    "(" + l.inside + Core(l) + ")"
  }

  function Core(l: Layout): string
    decreases l, 0
  {
    match l
    case AndOf(_, gap, ls, _) => "&" + gap + Bodies(ls)
    case OrOf(_, gap, ls, _) => "|" + gap + Bodies(ls)
    case NotOf(_, gap, c, _) => "!" + gap + Body(c) + c.behind
    case ComparisonOf(_, op, key, a, b, value, c, _) => (key + a) + OperatorText(op) + (b + value + c)
  }

  function Bodies(ls: seq<Layout>): string
    decreases ls
  {
    if ls == [] then "" else Body(ls[0]) + (ls[0].behind + Bodies(ls[1..]))
  }

  /** The filter that is meant. */
  function Tree(l: Layout): Filter
    decreases l
  {
    match l
    case AndOf(_, _, ls, _) => And(Trees(ls))
    case OrOf(_, _, ls, _) => Or(Trees(ls))
    case NotOf(_, _, c, _) => Not(Tree(c))
    case ComparisonOf(_, op, key, _, _, value, _, _) => Comparison(op, key, value)
  }

  function Trees(ls: seq<Layout>): (fs: seq<Filter>)
    ensures |fs| == |ls|
    decreases ls
  {
    if ls == [] then [] else [Tree(ls[0])] + Trees(ls[1..])
  }

  predicate Blanks(s: string) {
    forall c :: c in s ==> c == ' ' || c == '\t' || c == '\n' || c == '\r'
  }

  /** Blanks, vertical tabs and form feeds. */
  predicate Spaces(s: string) {
    forall c :: c in s ==> c == ' ' || '\t' <= c <= '\r'
  }

  predicate PlainChar(c: char) {
    c != '(' && c != ')' && c != '=' && c != '<' && c != '>' && c != '!'
  }

  predicate Plain(s: string) {
    forall c :: c in s ==> PlainChar(c)
  }

  /** No blank at either end. */
  predicate Tight(s: string) {
    s != "" ==> !IsBlank(s[0]) && !IsBlank(s[|s| - 1])
  }

  /** Names and values are free of parentheses and operators and of blanks at their ends; a name does not
      look like a logical operator, and the value `*` goes with the presence test. */
  predicate ProperComparison(op: Operator, key: string, value: string) {
    && key != "" && Plain(key) && Tight(key) && key[0] != '&' && key[0] != '|'
    && Plain(value) && Tight(value) && (op == Present <==> value == "*")
  }

  /** AND and OR have children; blanks may stand round every parenthesis, name and value, and any white space
      between children. */
  predicate Proper(l: Layout)
    decreases l
  {
    && Blanks(l.inside) && Spaces(l.behind)
    && match l
       case AndOf(_, gap, ls, _) => Spaces(gap) && ls != [] && forall c :: c in ls ==> Proper(c)
       case OrOf(_, gap, ls, _) => Spaces(gap) && ls != [] && forall c :: c in ls ==> Proper(c)
       case NotOf(_, gap, c, _) => Spaces(gap) && Proper(c)
       case ComparisonOf(_, op, key, a, b, value, c, _) =>
         ProperComparison(op, key, value) && Blanks(a) && Blanks(b) && Blanks(c)
  }

  // ---------------------------------------------------------------------------------------------
  // White space
  // ---------------------------------------------------------------------------------------------

  lemma {:induction false} BlanksInFrontGo(b: string, s: string)
    requires Blanks(b) && (s != "" ==> !IsBlank(s[0]))
    ensures TrimLeft(b + s) == s
    decreases |b|
  {
    if b == "" {
      assert b + s == s;
    } else {
      assert b[0] in b && forall c :: c in b[1..] ==> c in b;
      assert (b + s)[1..] == b[1..] + s;
      BlanksInFrontGo(b[1..], s);
    }
  }

  lemma {:induction false} BlanksBehindGo(s: string, b: string)
    requires Blanks(b) && (s != "" ==> !IsBlank(s[|s| - 1]))
    ensures TrimRight(s + b) == s
    decreases |b|
  {
    if b == "" {
      assert s + b == s;
    } else {
      var front, last := b[..|b| - 1], b[|b| - 1];
      assert last in b && forall c :: c in front ==> c in b;
      assert (s + b)[..|s + b| - 1] == s + front;
      BlanksBehindGo(s, front);
    }
  }

  lemma {:induction false} OnlyBlanks(b: string)
    requires Blanks(b)
    ensures TrimLeft(b) == "" && Trim(b) == ""
  {
    BlanksInFrontGo(b, "");
    assert b + "" == b;
  }

  /** Trimming takes the blanks from both ends and nothing else. */
  lemma TrimTakesBlanks(a: string, s: string, b: string)
    requires Blanks(a) && Blanks(b) && Tight(s)
    ensures Trim(a + s + b) == s
  {
    if s == "" {
      assert a + s + b == a + b;
      forall c | c in a + b
        ensures IsBlank(c)
      {
        assert c in a || c in b;
      }
      OnlyBlanks(a + b);
    } else {
      assert a + s + b == a + (s + b);
      BlanksInFrontGo(a, s + b);
      BlanksBehindGo(s, b);
    }
  }

  lemma {:induction false} SpacesAreSkipped(g: string, s: string)
    requires Spaces(g) && (s != "" ==> !IsSpace(s[0]))
    ensures SkipSpace(g + s) == s
    decreases |g|
  {
    if g == "" {
      assert g + s == s;
    } else {
      assert g[0] in g && forall c :: c in g[1..] ==> c in g;
      assert (g + s)[1..] == g[1..] + s;
      SpacesAreSkipped(g[1..], s);
    }
  }

  // ---------------------------------------------------------------------------------------------
  // Matching parentheses
  // ---------------------------------------------------------------------------------------------

  /** Opening parentheses less closing ones. */
  function Net(s: string): int {
    if s == "" then 0 else Net(s[..|s| - 1]) + (if s[|s| - 1] == '(' then 1 else if s[|s| - 1] == ')' then -1 else 0)
  }

  lemma {:induction false} NetOfBoth(a: string, b: string)
    ensures Net(a + b) == Net(a) + Net(b)
    decreases |b|
  {
    if b == "" {
      assert a + b == a;
    } else {
      assert (a + b)[..|a + b| - 1] == a + b[..|b| - 1];
      NetOfBoth(a, b[..|b| - 1]);
    }
  }

  /** After `n` characters, and not before, as many parentheses have been closed as were open. */
  ghost predicate ClosesAt(s: string, depth: int, n: nat) {
    n <= |s| && depth + Net(s[..n]) == 0 && forall k: nat :: k < n ==> depth + Net(s[..k]) > 0
  }

  ghost predicate StaysOpen(s: string, depth: int) {
    forall k: nat :: k <= |s| ==> depth + Net(s[..k]) > 0
  }

  lemma NetBehindFirst(s: string, k: nat)
    requires k < |s|
    ensures Net(s[..k + 1]) == Net(s[1..][..k]) + (if s[0] == '(' then 1 else if s[0] == ')' then -1 else 0)
  {
    assert s[..k + 1] == [s[0]] + s[1..][..k] && [s[0]][..0] == "";
    NetOfBoth([s[0]], s[1..][..k]);
  }

  lemma {:induction false} ClosesOrStaysOpen(s: string, depth: nat)
    requires depth >= 1
    ensures var n := CloseLength(s, depth); if n.Some? then ClosesAt(s, depth, n.value) else StaysOpen(s, depth)
    decreases |s|
  {
    hide Net;
    EmptyNet(s);
    if s != "" {
      var next := if s[0] == '(' then depth + 1 else if s[0] == ')' then depth - 1 else depth;
      forall k: nat | k < |s|
        ensures depth + Net(s[..k + 1]) == next + Net(s[1..][..k])
      {
        NetBehindFirst(s, k);
      }
      EmptyNet(s[1..]);
      if next > 0 {
        ClosesOrStaysOpen(s[1..], next);
      }
      OneMoreInFront(s, depth, next);
    }
  }

  lemma EmptyNet(s: string)
    ensures Net(s[..0]) == 0
  {
  }

  lemma OneMoreInFront(s: string, depth: nat, next: nat)
    requires s != "" && depth >= 1 && Net(s[..0]) == 0 && Net(s[1..][..0]) == 0
    requires forall k: nat :: k < |s| ==> depth + Net(s[..k + 1]) == next + Net(s[1..][..k])
    ensures next == 0 ==> ClosesAt(s, depth, 1)
    ensures forall n: nat :: ClosesAt(s[1..], next, n) && next > 0 ==> ClosesAt(s, depth, n + 1)
    ensures StaysOpen(s[1..], next) ==> StaysOpen(s, depth)
  {
    hide Net;
    forall n: nat | ClosesAt(s[1..], next, n) && next > 0
      ensures ClosesAt(s, depth, n + 1)
    {
      forall k: nat | k < n + 1
        ensures depth + Net(s[..k]) > 0
      {
        if k > 0 {
          assert depth + Net(s[..k - 1 + 1]) == next + Net(s[1..][..k - 1]);
        }
      }
    }
    if StaysOpen(s[1..], next) {
      forall k: nat | k <= |s|
        ensures depth + Net(s[..k]) > 0
      {
        if k > 0 {
          assert depth + Net(s[..k - 1 + 1]) == next + Net(s[1..][..k - 1]);
        }
      }
    }
    assert depth + Net(s[..0 + 1]) == next + Net(s[1..][..0]);
  }

  /** The scanner finds the first place at which as many parentheses have been closed as were open. */
  lemma CloseLengthIsTheFirst(s: string, depth: nat, n: nat)
    requires depth >= 1
    ensures CloseLength(s, depth) == Some(n) <==> ClosesAt(s, depth, n)
  {
    ClosesOrStaysOpen(s, depth);
  }

  lemma {:induction false} NoParensArePassedOver(p: string, rest: string, depth: nat)
    requires depth >= 1 && forall c :: c in p ==> c != '(' && c != ')'
    ensures CloseLength(p + rest, depth) == Plus(CloseLength(rest, depth), |p|)
    decreases |p|
  {
    if p == "" {
      assert p + rest == rest;
    } else {
      assert p[0] in p && forall c :: c in p[1..] ==> c in p;
      assert (p + rest)[1..] == p[1..] + rest;
      NoParensArePassedOver(p[1..], rest, depth);
    }
  }

  lemma OpenAndClose(s: string, rest: string, depth: nat)
    requires depth >= 1
    ensures CloseLength("(" + s, depth) == Plus(CloseLength(s, depth + 1), 1)
    ensures CloseLength(")" + rest, depth + 1) == Plus(CloseLength(rest, depth), 1)
  {
    assert ("(" + s)[1..] == s && (")" + rest)[1..] == rest;
  }

  /** The scanner passes over a written filter as a whole. */
  lemma {:induction false} BodyIsBalanced(l: Layout, rest: string, depth: nat)
    requires depth >= 1 && Proper(l)
    ensures CloseLength(Body(l) + rest, depth) == Plus(CloseLength(rest, depth), |Body(l)|)
    decreases l, 1
  {
    hide Core, CloseLength, Proper;
    InsideIsPlain(l);
    var tail := ")" + rest;
    assert Body(l) + rest == "(" + (l.inside + (Core(l) + tail)) && |Body(l)| == |l.inside| + |Core(l)| + 2;
    OpenAndClose(l.inside + (Core(l) + tail), rest, depth);
    NoParensArePassedOver(l.inside, Core(l) + tail, depth + 1);
    CoreIsBalanced(l, tail, depth + 1);
  }

  lemma InsideIsPlain(l: Layout)
    requires Proper(l)
    ensures forall c :: c in l.inside || c in l.behind ==> c != '(' && c != ')'
  {
  }

  lemma {:induction false} CoreIsBalanced(l: Layout, rest: string, depth: nat)
    requires depth >= 1 && Proper(l)
    ensures CloseLength(Core(l) + rest, depth) == Plus(CloseLength(rest, depth), |Core(l)|)
    decreases l, 0
  {
    hide CloseLength, Body, Bodies, Plain, Tight;
    match l {
      case AndOf(_, gap, ls, _) =>
        BodiesAreBalanced(ls, rest, depth);
        assert Core(l) + rest == ("&" + gap) + (Bodies(ls) + rest);
        NoParensArePassedOver("&" + gap, Bodies(ls) + rest, depth);
      case OrOf(_, gap, ls, _) =>
        BodiesAreBalanced(ls, rest, depth);
        assert Core(l) + rest == ("|" + gap) + (Bodies(ls) + rest);
        NoParensArePassedOver("|" + gap, Bodies(ls) + rest, depth);
      case NotOf(_, gap, c, _) =>
        InsideIsPlain(c);
        NoParensArePassedOver(c.behind, rest, depth);
        BodyIsBalanced(c, c.behind + rest, depth);
        assert Core(l) + rest == ("!" + gap) + (Body(c) + (c.behind + rest));
        NoParensArePassedOver("!" + gap, Body(c) + (c.behind + rest), depth);
      case ComparisonOf(_, op, key, a, b, value, c, _) =>
        SidesArePlain(op, key, a, b, value, c);
        NoParensInComparison(op, key + a, b + value + c);
        NoParensArePassedOver(Core(l), rest, depth);
    }
  }

  lemma SidesArePlain(op: Operator, key: string, a: string, b: string, value: string, c: string)
    requires ProperComparison(op, key, value) && Blanks(a) && Blanks(b) && Blanks(c)
    ensures Plain(key + a) && Plain(b + value + c)
  {
    forall x | x in key + a
      ensures PlainChar(x)
    {
      assert x in key || x in a;
    }
    forall x | x in b + value + c
      ensures PlainChar(x)
    {
      assert x in b || x in value || x in c;
    }
  }

  lemma NoParensInComparison(op: Operator, left: string, right: string)
    requires Plain(left) && Plain(right)
    ensures forall c :: c in left + OperatorText(op) + right ==> c != '(' && c != ')'
  {
    forall c | c in left + OperatorText(op) + right
      ensures c != '(' && c != ')'
    {
      assert c in left || c in OperatorText(op) || c in right;
    }
  }

  lemma {:induction false} BodiesAreBalanced(ls: seq<Layout>, rest: string, depth: nat)
    requires depth >= 1 && forall l :: l in ls ==> Proper(l)
    ensures CloseLength(Bodies(ls) + rest, depth) == Plus(CloseLength(rest, depth), |Bodies(ls)|)
    decreases ls
  {
    hide CloseLength, Proper, Body;
    if ls == [] {
      assert Bodies(ls) + rest == rest;
    } else {
      var tail := Bodies(ls[1..]) + rest;
      InsideIsPlain(ls[0]);
      BodiesAreBalanced(ls[1..], rest, depth);
      NoParensArePassedOver(ls[0].behind, tail, depth);
      BodyIsBalanced(ls[0], ls[0].behind + tail, depth);
      assert Bodies(ls) + rest == Body(ls[0]) + (ls[0].behind + tail);
    }
  }

  // ---------------------------------------------------------------------------------------------
  // Operators
  // ---------------------------------------------------------------------------------------------

  predicate StandsAt(s: string, pattern: string, k: nat) {
    k + |pattern| <= |s| && s[k..k + |pattern|] == pattern
  }

  /** The search finds the first place, if there is one. */
  lemma {:induction false} FindTextIsTheFirst(s: string, pattern: string)
    requires pattern != ""
    ensures var place := FindText(s, pattern);
            && (place.Some? ==> StandsAt(s, pattern, place.value))
            && forall k: nat :: k < (if place.Some? then place.value else |s|) ==> !StandsAt(s, pattern, k)
    decreases |s|
  {
    if |s| >= |pattern| {
      FindTextIsTheFirst(s[1..], pattern);
      forall k: nat | 0 < k && StandsAt(s, pattern, k)
        ensures StandsAt(s[1..], pattern, k - 1)
      {
        assert s[1..][k - 1..k - 1 + |pattern|] == s[k..k + |pattern|];
      }
    }
  }

  /** The operators in the order in which they are looked for. */
  const IN_ORDER: seq<Operator> := [NotEqual, LessEqual, GreaterEqual, LessThan, GreaterThan, Equal]

  ghost predicate Occurs(s: string, pattern: string) {
    exists k: nat :: StandsAt(s, pattern, k)
  }

  lemma FoundWhereItOccurs(s: string, pattern: string)
    requires pattern != ""
    ensures FindText(s, pattern).Some? <==> Occurs(s, pattern)
  {
    hide FindText;
    FindTextIsTheFirst(s, pattern);
  }

  /** In any text the operator is the first of that list that occurs at all, where it first occurs; there is
      none only in a text without any. */
  lemma OperatorIsFirstOfTheList(s: string)
    ensures var r := FindOperator(s);
            if r.None? then forall i :: 0 <= i < 6 ==> !Occurs(s, OperatorText(IN_ORDER[i]))
            else exists i :: 0 <= i < 6 && r.value.0 == IN_ORDER[i]
                   && StandsAt(s, OperatorText(IN_ORDER[i]), r.value.1) && r.value.2 == |OperatorText(IN_ORDER[i])|
                   && (forall k: nat :: k < r.value.1 ==> !StandsAt(s, OperatorText(IN_ORDER[i]), k))
                   && forall j :: 0 <= j < i ==> !Occurs(s, OperatorText(IN_ORDER[j]))
  {
    hide FindText, Occurs, StandsAt;
    Lookup(s, NotEqual);
    Lookup(s, LessEqual);
    Lookup(s, GreaterEqual);
    Lookup(s, LessThan);
    Lookup(s, GreaterThan);
    Lookup(s, Equal);
    var r := FindOperator(s);
    if r.Some? {
      assert IN_ORDER[Place(r.value.0)] == r.value.0;
    }
  }

  function Place(op: Operator): (i: nat)
    ensures i < 6
  {
    match op
    case NotEqual => 0
    case LessEqual => 1
    case GreaterEqual => 2
    case LessThan => 3
    case GreaterThan => 4
    case _ => 5
  }

  lemma Lookup(s: string, op: Operator)
    ensures var t := OperatorText(op);
            && t != "" && (FindText(s, t).Some? <==> Occurs(s, t))
            && (FindText(s, t).Some? ==>
                  StandsAt(s, t, FindText(s, t).value) && forall k: nat :: k < FindText(s, t).value ==> !StandsAt(s, t, k))
  {
    hide FindText, Occurs, StandsAt;
    FoundWhereItOccurs(s, OperatorText(op));
    FindTextIsTheFirst(s, OperatorText(op));
  }

  lemma {:induction false} AbsentText(s: string, pattern: string, c: char)
    requires pattern != "" && c in pattern && c !in s
    ensures FindText(s, pattern) == None
    decreases |s|
  {
    if |s| >= |pattern| {
      var i :| 0 <= i < |pattern| && pattern[i] == c;
      assert s[..|pattern|][i] in s;
      AbsentText(s[1..], pattern, c);
    }
  }

  /** The first place where `pattern` stands is behind a text that does not hold its first character. */
  lemma {:induction false} FirstText(before: string, pattern: string, after: string)
    requires pattern != "" && pattern[0] !in before
    ensures FindText(before + pattern + after, pattern) == Some(|before|)
    decreases |before|
  {
    var s := before + pattern + after;
    if before == "" {
      assert s[..|pattern|] == pattern;
    } else {
      assert s[0] == before[0] && before[0] in before;
      assert s[..|pattern|][0] != pattern[0];
      assert s[1..] == before[1..] + pattern + after;
      FirstText(before[1..], pattern, after);
    }
  }

  /** A two-character operator is nowhere when its first character is there once, followed by another. */
  lemma {:induction false} NoSuchPair(before: string, c: char, after: string, d: char)
    requires c !in before && c !in after && (after == "" || after[0] != d)
    ensures FindText(before + [c] + after, [c, d]) == None
    decreases |before|
  {
    var s := before + [c] + after;
    if before == "" {
      if |s| >= 2 {
        assert s[..2][1] == after[0];
        assert s[1..] == after;
        AbsentText(after, [c, d], c);
      }
    } else {
      assert s[..2] != [c, d] by {
        assert s[..2][0] == before[0] && before[0] in before;
      }
      assert s[1..] == before[1..] + [c] + after;
      NoSuchPair(before[1..], c, after, d);
    }
  }

  lemma NotInConcatenation(a: string, b: string, c: string, x: char)
    requires x !in a && x !in b && x !in c
    ensures x !in a + b + c
  {
  }

  lemma PlainHasNo(s: string, x: char)
    requires Plain(s) && !PlainChar(x)
    ensures x !in s
  {
  }

  lemma OperatorFound(op: Operator, left: string, right: string)
    requires Plain(left) && Plain(right)
    ensures FindOperator(left + OperatorText(op) + right) ==
            Some((if op == Present then Equal else op, |left|, |OperatorText(op)|))
  {
    hide Plain, FindText;
    var t := OperatorText(op);
    var s := left + t + right;
    PlainHasNo(left, '!');
    PlainHasNo(left, '<');
    PlainHasNo(left, '>');
    PlainHasNo(left, '=');
    PlainHasNo(right, '!');
    PlainHasNo(right, '<');
    PlainHasNo(right, '>');
    PlainHasNo(right, '=');
    FirstText(left, t, right);
    if op != NotEqual {
      NotInConcatenation(left, t, right, '!');
      AbsentText(s, "!=", '!');
      if op != LessEqual && op != LessThan {
        NotInConcatenation(left, t, right, '<');
        AbsentText(s, "<=", '<');
        AbsentText(s, "<", '<');
      }
      if op == LessThan {
        NoSuchPair(left, '<', right, '=');
        NotInConcatenation(left, t, right, '>');
        AbsentText(s, ">=", '>');
      }
      if op == GreaterThan {
        NoSuchPair(left, '>', right, '=');
      }
      if op == Equal || op == Present {
        NotInConcatenation(left, t, right, '>');
        AbsentText(s, ">=", '>');
        AbsentText(s, ">", '>');
      }
    }
  }

  /** Name, operator and value are told apart, and the blanks round them go. */
  lemma ComparisonReadBack(op: Operator, key: string, a: string, b: string, value: string, c: string)
    requires ProperComparison(op, key, value) && Blanks(a) && Blanks(b) && Blanks(c)
    ensures ParseComparison((key + a) + OperatorText(op) + (b + value + c)) == Success(Comparison(op, key, value))
  {
    hide FindOperator, Plain, Trim;
    var left, t, right := key + a, OperatorText(op), b + value + c;
    SidesArePlain(op, key, a, b, value, c);
    OperatorFound(op, left, right);
    var s := left + t + right;
    assert s[..|left|] == left && s[|left| + |t|..] == right;
    TrimTakesBlanks("", key, a);
    assert "" + key + a == left;
    TrimTakesBlanks(b, value, c);
  }

  // ---------------------------------------------------------------------------------------------
  // Written filters are read
  // ---------------------------------------------------------------------------------------------

  /** What stands between the outer parentheses is looked at once the blanks round them and behind the first
      have gone. */
  lemma {:induction false} ParseEnclosed(front: string, inside: string, core: string, back: string)
    requires Blanks(front) && Blanks(inside) && Blanks(back) && (core != "" ==> !IsBlank(core[0]))
    ensures Parse(front + ("(" + inside + core + ")") + back) == ParseInner(core)
  {
    hide Trim, ParseInner;
    var t := "(" + inside + core + ")";
    assert t[0] == '(' && t[|t| - 1] == ')';
    TrimTakesBlanks(front, t, back);
    assert t[1..|t| - 1] == inside + core;
    BlanksInFrontGo(inside, core);
  }

  lemma {:induction false} JunctionInside(s: string)
    ensures ParseInner("&" + s) == Junction('&', ParseChildren(SkipSpace(s)))
    ensures ParseInner("|" + s) == Junction('|', ParseChildren(SkipSpace(s)))
  {
    hide ParseChildren, ParseFirst, ParseComparison, SkipSpace;
    assert ("&" + s)[1..] == s && ("|" + s)[1..] == s;
  }

  lemma {:induction false} NegationInside(s: string)
    ensures ParseInner("!" + s) == Negation(ParseFirst(SkipSpace(s)))
  {
    hide ParseChildren, ParseFirst, ParseComparison, SkipSpace;
    assert ("!" + s)[1..] == s;
  }

  lemma ComparisonInside(s: string)
    requires s != "" && s[0] != '&' && s[0] != '|' && s[0] != '!'
    ensures ParseInner(s) == var c := ParseComparison(s); if c.Failure? then Failure(c.error) else Success(Some(c.value))
  {
    hide ParseChildren, ParseFirst, ParseComparison, SkipSpace;
  }

  lemma CoreStarts(l: Layout)
    requires Proper(l)
    ensures Core(l) != "" && !IsBlank(Core(l)[0])
    ensures l.ComparisonOf? ==> Core(l)[0] != '&' && Core(l)[0] != '|' && Core(l)[0] != '!'
  {
    if l.ComparisonOf? {
      assert Core(l)[0] == l.key[0] && l.key[0] in l.key;
    }
  }

  lemma BodiesStart(ls: seq<Layout>)
    ensures Bodies(ls) != "" ==> Bodies(ls)[0] == '('
  {
    hide Body;
  }

  lemma BodiesNext(ls: seq<Layout>)
    requires ls != []
    ensures Bodies(ls) == Body(ls[0]) + (ls[0].behind + Bodies(ls[1..])) && Bodies(ls) != ""
    ensures Trees(ls) == [Tree(ls[0])] + Trees(ls[1..])
  {
    hide Body, Tree;
  }

  lemma ChildrenAreRead(gap: string, ls: seq<Layout>)
    requires Spaces(gap) && ls != [] && ParseChildren(Bodies(ls)) == Success(Trees(ls))
    ensures ParseInner("&" + gap + Bodies(ls)) == Success(Some(And(Trees(ls))))
    ensures ParseInner("|" + gap + Bodies(ls)) == Success(Some(Or(Trees(ls))))
  {
    hide ParseInner, ParseChildren, SkipSpace, Trees, Bodies;
    var t := Bodies(ls);
    BodiesNext(ls);
    BodiesStart(ls);
    SpacesAreSkipped(gap, t);
    assert "&" + gap + t == "&" + (gap + t) && "|" + gap + t == "|" + (gap + t);
    JunctionInside(gap + t);
    SomeChildren(ls);
  }

  lemma SomeChildren(ls: seq<Layout>)
    ensures ls != [] ==> Trees(ls) != []
  {
  }

  lemma ChildIsRead(gap: string, l: Layout)
    requires Spaces(gap) && ParseFirst(Body(l) + l.behind) == Success((Tree(l), |Body(l)|))
    ensures ParseInner("!" + gap + Body(l) + l.behind) == Success(Some(Not(Tree(l))))
  {
    hide ParseInner, ParseFirst, SkipSpace, Tree, Body, Spaces;
    var t := Body(l) + l.behind;
    SpacesAreSkipped(gap, t);
    Regroup("!", gap, Body(l), l.behind);
    NegationInside(gap + t);
  }

  lemma Regroup(a: string, b: string, c: string, d: string)
    ensures a + b + c + d == a + (b + (c + d))
  {
  }

  lemma {:induction false} CoreIsRead(l: Layout)
    requires Proper(l)
    ensures ParseInner(Core(l)) == Success(Some(Tree(l)))
    decreases l, 0
  {
    hide ParseInner, ParseFirst, ParseChildren, ParseComparison, Plain, Tight, Body, Bodies, Trees;
    match l {
      case AndOf(_, gap, ls, _) =>
        BodiesAreReadBack(ls);
        ChildrenAreRead(gap, ls);
      case OrOf(_, gap, ls, _) =>
        BodiesAreReadBack(ls);
        ChildrenAreRead(gap, ls);
      case NotOf(_, gap, c, _) =>
        FirstIsReadBack(c, c.behind);
        ChildIsRead(gap, c);
      case ComparisonOf(_, op, key, a, b, value, c, _) =>
        CoreStarts(l);
        ComparisonInside(Core(l));
        ComparisonReadBack(op, key, a, b, value, c);
    }
  }

  /** However a filter is written, with blanks round every parenthesis, name and value, it is read as it is
      meant. */
  lemma {:induction false} LayoutIsReadBack(front: string, l: Layout, back: string)
    requires Proper(l) && Blanks(front) && Blanks(back)
    ensures Parse(front + Body(l) + back) == Success(Some(Tree(l)))
    decreases l, 1
  {
    hide Parse, ParseInner, Core, Tree;
    CoreIsRead(l);
    CoreStarts(l);
    ParseEnclosed(front, l.inside, Core(l), back);
  }

  lemma {:induction false} FirstIsReadBack(l: Layout, rest: string)
    requires Proper(l)
    ensures ParseFirst(Body(l) + rest) == Success((Tree(l), |Body(l)|))
    decreases l, 2
  {
    hide Parse, Core, Proper, Tree, CloseLength, Body;
    var s := Body(l) + rest;
    InsideCloses(l, rest);
    NoBlanks();
    LayoutIsReadBack("", l, "");
    assert s[..|Body(l)|] == Body(l) && "" + Body(l) + "" == Body(l);
  }

  lemma InsideCloses(l: Layout, rest: string)
    requires Proper(l)
    ensures CloseLength((Body(l) + rest)[1..], 1) == Some(|Body(l)| - 1)
  {
    hide CloseLength, Core;
    InsideIsPlain(l);
    var tail := ")" + rest;
    assert (Body(l) + rest)[1..] == l.inside + (Core(l) + tail);
    NoParensArePassedOver(l.inside, Core(l) + tail, 1);
    CoreIsBalanced(l, tail, 1);
    LastCloses(rest);
  }

  lemma LastCloses(rest: string)
    ensures CloseLength(")" + rest, 1) == Some(1)
  {
  }

  lemma {:induction false} BodiesAreReadBack(ls: seq<Layout>)
    requires forall l :: l in ls ==> Proper(l)
    ensures ParseChildren(Bodies(ls)) == Success(Trees(ls))
    decreases ls
  {
    hide *;
    if ls == [] {
      NoChildrenLeft();
      NoBodies();
    } else {
      var first, tail := Body(ls[0]), ls[0].behind + Bodies(ls[1..]);
      BodiesNext(ls);
      FirstIsReadBack(ls[0], tail);
      ChildrenNext(first + tail);
      assert (first + tail)[|first|..] == tail;
      BodiesStart(ls[1..]);
      BehindIsSpaces(ls[0]);
      NotSpace();
      SpacesAreSkipped(ls[0].behind, Bodies(ls[1..]));
      BodiesAreReadBack(ls[1..]);
    }
  }

  lemma NoBodies()
    ensures Bodies([]) == "" && Trees([]) == []
  {
  }

  lemma BehindIsSpaces(l: Layout)
    requires Proper(l)
    ensures Spaces(l.behind)
  {
  }

  lemma NotSpace()
    ensures !IsSpace('(')
  {
  }

  /** In particular a comparison, with blanks wherever they may stand. */
  lemma ComparisonWithBlanks(op: Operator, key: string, value: string, b1: string, b2: string, b3: string, b4: string)
    requires ProperComparison(op, key, value) && Blanks(b1) && Blanks(b2) && Blanks(b3) && Blanks(b4)
    ensures Parse("(" + b1 + key + b2 + OperatorText(op) + b3 + value + b4 + ")") == Success(Some(Comparison(op, key, value)))
  {
    hide Parse, ProperComparison, Blanks;
    var l := ComparisonOf(b1, op, key, b2, b3, value, b4, "");
    NoBlanks();
    LayoutIsReadBack("", l, "");
    assert "" + Body(l) + "" == "(" + b1 + key + b2 + OperatorText(op) + b3 + value + b4 + ")";
  }

  lemma NoBlanks()
    ensures Blanks("") && Spaces("")
  {
  }

  // ---------------------------------------------------------------------------------------------
  // Printing
  // ---------------------------------------------------------------------------------------------

  function Print(f: Filter): string
    decreases f
  {
    match f
    case And(cs) => "(&" + PrintAll(cs) + ")"
    case Or(cs) => "(|" + PrintAll(cs) + ")"
    case Not(c) => "(!" + Print(c) + ")"
    case Comparison(op, key, value) => "(" + key + OperatorText(op) + value + ")"
  }

  function PrintAll(fs: seq<Filter>): string
    decreases fs
  {
    if fs == [] then "" else Print(fs[0]) + PrintAll(fs[1..])
  }

  /** Trees that the language can express. */
  predicate Canonical(f: Filter)
    decreases f
  {
    match f
    case And(cs) => cs != [] && forall c :: c in cs ==> Canonical(c)
    case Or(cs) => cs != [] && forall c :: c in cs ==> Canonical(c)
    case Not(c) => Canonical(c)
    case Comparison(op, key, value) => ProperComparison(op, key, value)
  }

  /** The layout without blanks. */
  function Bare(f: Filter): Layout
    decreases f
  {
    match f
    case And(cs) => AndOf("", "", BareAll(cs), "")
    case Or(cs) => OrOf("", "", BareAll(cs), "")
    case Not(c) => NotOf("", "", Bare(c), "")
    case Comparison(op, key, value) => ComparisonOf("", op, key, "", "", value, "", "")
  }

  function BareAll(fs: seq<Filter>): (ls: seq<Layout>)
    ensures |ls| == |fs|
    decreases fs
  {
    if fs == [] then [] else [Bare(fs[0])] + BareAll(fs[1..])
  }

  lemma {:induction false} BareIsPrinted(f: Filter)
    ensures Body(Bare(f)) == Print(f) && Bare(f).behind == "" && Tree(Bare(f)) == f
    decreases f
  {
    hide Bodies, PrintAll, Trees, BareAll, Body;
    match f {
      case And(cs) =>
        AllBareArePrinted(cs);
        BareJunction(cs);
      case Or(cs) =>
        AllBareArePrinted(cs);
        BareJunction(cs);
      case Not(c) =>
        BareIsPrinted(c);
        BareNegation(c);
      case Comparison(op, key, value) =>
        BareComparison(op, key, value);
    }
  }

  lemma BareJunction(fs: seq<Filter>)
    requires Bodies(BareAll(fs)) == PrintAll(fs)
    ensures Body(Bare(And(fs))) == Print(And(fs)) && Body(Bare(Or(fs))) == Print(Or(fs))
  {
    hide Bodies, PrintAll, BareAll;
    NoGaps("&", PrintAll(fs));
    NoGaps("|", PrintAll(fs));
  }

  lemma BareNegation(f: Filter)
    requires Body(Bare(f)) == Print(f) && Bare(f).behind == ""
    ensures Body(Bare(Not(f))) == Print(Not(f))
  {
    NoGaps("!", Print(f));
  }

  lemma BareComparison(op: Operator, key: string, value: string)
    ensures Body(Bare(Comparison(op, key, value))) == Print(Comparison(op, key, value))
  {
    hide OperatorText;
    var t := OperatorText(op);
    assert (key + "") + t + ("" + value + "") == key + t + value;
    assert "(" + "" + (key + t + value) + ")" == "(" + key + t + value + ")";
  }

  lemma {:induction false} BareIsProper(f: Filter)
    requires Canonical(f)
    ensures Proper(Bare(f))
    decreases f
  {
    hide ProperComparison;
    match f {
      case And(cs) => AllBareAreProper(cs);
      case Or(cs) => AllBareAreProper(cs);
      case Not(c) => BareIsProper(c);
      case Comparison(op, key, value) =>
    }
  }

  lemma {:induction false} AllBareAreProper(fs: seq<Filter>)
    requires forall f :: f in fs ==> Canonical(f)
    ensures forall l :: l in BareAll(fs) ==> Proper(l)
    decreases fs
  {
    hide Canonical, Proper, Bare;
    if fs != [] {
      BareIsProper(fs[0]);
      AllBareAreProper(fs[1..]);
    }
  }

  lemma NoGaps(operator: string, s: string)
    ensures "(" + "" + (operator + "" + s) + ")" == "(" + operator + s + ")"
    ensures "(" + "" + (operator + "" + s + "") + ")" == "(" + operator + s + ")"
  {
  }

  lemma {:induction false} AllBareArePrinted(fs: seq<Filter>)
    ensures Bodies(BareAll(fs)) == PrintAll(fs) && Trees(BareAll(fs)) == fs
    decreases fs
  {
    hide Body, Print, Tree, Bare;
    if fs != [] {
      BareIsPrinted(fs[0]);
      AllBareArePrinted(fs[1..]);
      var ls := BareAll(fs);
      assert ls[1..] == BareAll(fs[1..]);
      assert "" + Bodies(ls[1..]) == Bodies(ls[1..]);
      assert fs == [fs[0]] + fs[1..];
      assert ls == [Bare(fs[0])] + BareAll(fs[1..]);
    }
  }

  /** Parsing the printed form of a canonical filter gives the filter. */
  lemma PrintedIsReadBack(f: Filter)
    requires Canonical(f)
    ensures Parse(Print(f)) == Success(Some(f))
  {
    hide Parse, Print, Canonical, Proper, Body, Tree;
    BareIsPrinted(f);
    BareIsProper(f);
    NoBlanks();
    LayoutIsReadBack("", Bare(f), "");
    assert "" + Body(Bare(f)) + "" == Body(Bare(f));
  }

  // ---------------------------------------------------------------------------------------------
  // What is refused
  // ---------------------------------------------------------------------------------------------

  /** Blanks only are no filter, and what is not in parentheses is none either. */
  lemma NothingOrNotEnclosed(front: string, s: string, back: string)
    requires Blanks(front) && Blanks(back) && Tight(s)
    ensures s == "" ==> Parse(front + s + back) == Success(None)
    ensures s != "" && (s[0] != '(' || s[|s| - 1] != ')') ==> Parse(front + s + back) == Failure(NotEnclosed)
  {
    TrimTakesBlanks(front, s, back);
  }

  /** Parentheses with blanks only. */
  lemma NothingInside(inside: string)
    requires Blanks(inside)
    ensures Parse("(" + inside + ")") == Failure(EmptyExpression)
  {
    hide Parse, Blanks;
    EnclosedParts(inside, "");
    assert "(" + inside + "" + ")" == "(" + inside + ")";
  }

  /** A logical operator without operands. */
  lemma NoOperands(inside: string, operator: char, gap: string)
    requires Blanks(inside) && Spaces(gap) && (operator == '&' || operator == '|' || operator == '!')
    ensures Parse("(" + inside + [operator] + gap + ")") == Failure(if operator == '!' then ParenExpected else NoChildren)
  {
    hide Parse, SkipSpace, ParseChildren, ParseInner, Blanks, Spaces;
    var core := [operator] + gap;
    EnclosedParts(inside, core);
    assert "(" + inside + core + ")" == "(" + inside + [operator] + gap + ")";
    SpacesAreSkipped(gap, "");
    assert gap + "" == gap;
    if operator == '!' {
      assert core == "!" + gap;
      NegationInside(gap);
      NoFirst("");
    } else {
      assert core == "&" + gap || core == "|" + gap;
      JunctionInside(gap);
      NoChildrenLeft();
    }
  }

  lemma {:induction false} EnclosedParts(inside: string, core: string)
    requires Blanks(inside) && (core != "" ==> !IsBlank(core[0]))
    ensures Parse("(" + inside + core + ")") == ParseInner(core)
  {
    hide Parse, ParseInner, Blanks;
    NoBlanks();
    ParseEnclosed("", inside, core, "");
    assert "" + ("(" + inside + core + ")") + "" == "(" + inside + core + ")";
  }

  /** An operand that is not in parentheses. */
  lemma OperandNotEnclosed(inside: string, operator: char, gap: string, s: string)
    requires Blanks(inside) && Spaces(gap) && s != "" && s[0] != '(' && !IsSpace(s[0])
    requires operator == '&' || operator == '|' || operator == '!'
    ensures Parse("(" + inside + [operator] + gap + s + ")") == Failure(ParenExpected)
  {
    hide Parse, SkipSpace;
    EnclosedParts(inside, [operator] + (gap + s));
    assert "(" + inside + ([operator] + (gap + s)) + ")" == "(" + inside + [operator] + gap + s + ")";
    SpacesAreSkipped(gap, s);
    JunctionInside(gap + s);
    NegationInside(gap + s);
    assert ["&"[0]] == "&" && ["|"[0]] == "|" && ["!"[0]] == "!";
  }

  /** An operand whose parenthesis stays open. */
  lemma OperandStaysOpen(inside: string, operator: char, gap: string, s: string)
    requires Blanks(inside) && Spaces(gap) && StaysOpen(s, 1)
    requires operator == '&' || operator == '|' || operator == '!'
    ensures Parse("(" + inside + [operator] + gap + "(" + s + ")") == Failure(Unmatched)
  {
    hide Parse, SkipSpace, CloseLength, StaysOpen;
    var t := "(" + s;
    EnclosedParts(inside, [operator] + (gap + t));
    assert "(" + inside + ([operator] + (gap + t)) + ")" == "(" + inside + [operator] + gap + "(" + s + ")";
    SpacesAreSkipped(gap, t);
    JunctionInside(gap + t);
    NegationInside(gap + t);
    assert t[1..] == s;
    NothingClosesIn(s);
    assert ["&"[0]] == "&" && ["|"[0]] == "|" && ["!"[0]] == "!";
  }

  lemma NothingClosesIn(s: string)
    requires StaysOpen(s, 1)
    ensures CloseLength(s, 1).None?
  {
    hide CloseLength;
    ClosesOrStaysOpen(s, 1);
  }

  /** A text without `=`, `<` and `>` compares nothing; one that begins with an operator has no name. */
  lemma NotAComparison(inside: string, s: string)
    requires Blanks(inside) && s != "" && !IsBlank(s[0]) && s[0] != '&' && s[0] != '|' && s[0] != '!'
    requires '=' !in s && '<' !in s && '>' !in s
    ensures Parse("(" + inside + s + ")") == Failure(NoOperator)
  {
    hide Parse, FindText, SkipSpace, Blanks;
    EnclosedParts(inside, s);
    AbsentText(s, "!=", '=');
    AbsentText(s, "<=", '<');
    AbsentText(s, ">=", '>');
    AbsentText(s, "<", '<');
    AbsentText(s, ">", '>');
    AbsentText(s, "=", '=');
    ComparisonInside(s);
  }

  lemma NoName(inside: string, op: Operator, right: string)
    requires Blanks(inside) && Plain(right) && op != NotEqual
    ensures Parse("(" + inside + OperatorText(op) + right + ")") == Failure(EmptyKey)
  {
    hide Parse, FindOperator, Trim, Plain, Blanks;
    var s := OperatorText(op) + right;
    EnclosedParts(inside, s);
    assert "(" + inside + s + ")" == "(" + inside + OperatorText(op) + right + ")";
    ComparisonInside(s);
    NothingIsPlain();
    OperatorFound(op, "", right);
    assert "" + OperatorText(op) + right == s;
    OnlyBlanks("");
    assert s[..0] == "";
  }

  lemma NothingIsPlain()
    ensures Plain("") && Blanks("")
  {
  }
}
