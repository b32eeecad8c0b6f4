/** The event filter language (workspace/src/framework/impl/core/event_filter.cpp): a parser that
    works its way inward between matching parentheses, and the printing that it reads back. */
module EventFilter {
  import opened Wrappers

  datatype Operator = Equal | NotEqual | LessThan | GreaterThan | LessEqual | GreaterEqual | Present

  datatype Filter =
    | And(children: seq<Filter>)
    | Or(children: seq<Filter>)
    | Not(child: Filter)
    | Comparison(op: Operator, key: string, value: string)

  datatype Error = Unmatched | NotEnclosed | EmptyExpression | ParenExpected | NoChildren | NoOperator | EmptyKey

  // ---------------------------------------------------------------------------------------------
  // Characters and blanks
  // ---------------------------------------------------------------------------------------------

  /** What the trimming code strips. */
  predicate IsBlank(c: char) {
    c == ' ' || c == '\t' || c == '\n' || c == '\r'
  }

  /** What `std::isspace` accepts: the blanks, vertical tab and form feed. */
  predicate IsSpace(c: char) {
    c == ' ' || '\t' <= c <= '\r'
  }

  function TrimLeft(s: string): (t: string)
    ensures |t| <= |s|
    ensures t != "" ==> !IsBlank(t[0]) && t[|t| - 1] == s[|s| - 1]
  {
    if s != "" && IsBlank(s[0]) then TrimLeft(s[1..]) else s
  }

  function TrimRight(s: string): (t: string)
    ensures |t| <= |s|
    ensures t != "" ==> !IsBlank(t[|t| - 1]) && t[0] == s[0]
  {
    if s != "" && IsBlank(s[|s| - 1]) then TrimRight(s[..|s| - 1]) else s
  }

  function Trim(s: string): string {
    TrimRight(TrimLeft(s))
  }

  function SkipSpace(s: string): (t: string)
    ensures |t| <= |s| && t == s[|s| - |t|..]
  {
    if s != "" && IsSpace(s[0]) then SkipSpace(s[1..]) else s
  }

  // ---------------------------------------------------------------------------------------------
  // Matching parentheses
  // ---------------------------------------------------------------------------------------------

  /** How many characters it takes to close `depth` open parentheses. */
  function CloseLength(s: string, depth: nat): (n: Option<nat>)
    requires depth >= 1
    ensures n.Some? ==> 1 <= n.value <= |s| && s[n.value - 1] == ')'
  {
    if s == "" then None
    else
      var depth' := if s[0] == '(' then depth + 1 else if s[0] == ')' then depth - 1 else depth;
      if depth' == 0 then Some(1)
      else
        var n := CloseLength(s[1..], depth');
        if n.None? then None else Some(n.value + 1)
  }

  /** `n` more characters. */
  function Plus(n: Option<nat>, more: nat): Option<nat> {
    if n.None? then None else Some(n.value + more)
  }

  // ---------------------------------------------------------------------------------------------
  // The grammar, as the parser reads it
  // ---------------------------------------------------------------------------------------------

  /** Where `pattern` first occurs in `s`, or nowhere. */
  function FindText(s: string, pattern: string): (place: Option<nat>)
    requires pattern != ""
    ensures place.Some? ==> place.value + |pattern| <= |s| && pattern <= s[place.value..]
  {
    if |s| < |pattern| then None
    else if s[..|pattern|] == pattern then Some(0)
    else Plus(FindText(s[1..], pattern), 1)
  }

  /** The operator of a comparison and where it stands: two-character operators are looked for first. */
  function FindOperator(s: string): (r: Option<(Operator, nat, nat)>)
    ensures r.Some? ==> r.value.1 + r.value.2 <= |s|
  {
    var ne := FindText(s, "!=");
    if ne.Some? then Some((NotEqual, ne.value, 2)) else
    var le := FindText(s, "<=");
    if le.Some? then Some((LessEqual, le.value, 2)) else
    var ge := FindText(s, ">=");
    if ge.Some? then Some((GreaterEqual, ge.value, 2)) else
    var lt := FindText(s, "<");
    if lt.Some? then Some((LessThan, lt.value, 1)) else
    var gt := FindText(s, ">");
    if gt.Some? then Some((GreaterThan, gt.value, 1)) else
    var eq := FindText(s, "=");
    if eq.Some? then Some((Equal, eq.value, 1)) else None
  }

  function ParseComparison(s: string): Result<Filter, Error> {
    var found := FindOperator(s);
    if found.None? then Failure(NoOperator)
    else
      var (op, at, length) := found.value;
      var key, value := Trim(s[..at]), Trim(s[at + length..]);
      if key == "" then Failure(EmptyKey)
      else Success(Comparison(if value == "*" then Present else op, key, value))
  }

  function Junction(operator: char, children: Result<seq<Filter>, Error>): (r: Result<Option<Filter>, Error>)
    ensures r != Success(None)
  {
    if children.Failure? then Failure(children.error)
    else if children.value == [] then Failure(NoChildren)
    else Success(Some(if operator == '&' then And(children.value) else Or(children.value)))
  }

  function Negation(child: Result<(Filter, nat), Error>): (r: Result<Option<Filter>, Error>)
    ensures r != Success(None)
  {
    if child.Failure? then Failure(child.error) else Success(Some(Not(child.value.0)))
  }

  /** `None` is the filter that was not given: blanks only. */
  function Parse(s: string): (r: Result<Option<Filter>, Error>)
    ensures r == Success(None) ==> Trim(s) == ""
    decreases |s|, 0
  {
    var t := Trim(s);
    if t == "" then Success(None)
    else if t[0] != '(' || t[|t| - 1] != ')' then Failure(NotEnclosed)
    else
      ParseInner(TrimLeft(t[1..|t| - 1]))
  }

  /** What stands between the outer parentheses, blanks in front stripped. */
  function ParseInner(inner: string): (r: Result<Option<Filter>, Error>)
    ensures r != Success(None)
    decreases |inner|, 3
  {
    if inner == "" then Failure(EmptyExpression)
    else if inner[0] == '&' || inner[0] == '|' then Junction(inner[0], ParseChildren(SkipSpace(inner[1..])))
    else if inner[0] == '!' then Negation(ParseFirst(SkipSpace(inner[1..])))
    else
      var c := ParseComparison(inner);
      if c.Failure? then Failure(c.error) else Success(Some(c.value))
  }

  /** The parenthesised expression at the front of `s`, and how long it is. */
  function ParseFirst(s: string): (r: Result<(Filter, nat), Error>)
    ensures r.Success? ==> 1 <= r.value.1 <= |s|
    decreases |s|, 1
  {
    if s == "" || s[0] != '(' then Failure(ParenExpected)
    else
      var n := CloseLength(s[1..], 1);
      if n.None? then Failure(Unmatched)
      else
        StartsWithParen(s[..n.value + 1]);
        var c := Parse(s[..n.value + 1]);
        if c.Failure? then Failure(c.error) else Success((c.value.value, n.value + 1))
  }

  function ParseChildren(s: string): Result<seq<Filter>, Error>
    decreases |s|, 2
  {
    if s == "" then Success([])
    else
      var c := ParseFirst(s);
      if c.Failure? then Failure(c.error)
      else
        var cs := ParseChildren(SkipSpace(s[c.value.1..]));
        if cs.Failure? then Failure(cs.error) else Success([c.value.0] + cs.value)
  }

  lemma StartsWithParen(s: string)
    requires s != "" && s[0] == '('
    ensures Trim(s) != ""
  {
    TrimRightKeepsFirst(s);
  }

  lemma {:induction false} TrimRightKeepsFirst(s: string)
    requires s != "" && !IsBlank(s[0])
    ensures TrimRight(s) != ""
    decreases |s|
  {
    if IsBlank(s[|s| - 1]) {
      TrimRightKeepsFirst(s[..|s| - 1]);
    }
  }

  /** One turn of the loop over children. */
  lemma ChildrenNext(s: string)
    requires s != "" && ParseFirst(s).Success?
    ensures var c := ParseFirst(s).value;
            var cs := ParseChildren(SkipSpace(s[c.1..]));
            ParseChildren(s) == if cs.Failure? then Failure(cs.error) else Success([c.0] + cs.value)
  {
    hide ParseFirst, SkipSpace;
  }

  lemma NoChildrenLeft()
    ensures ParseChildren("") == Success([])
  {
  }

  // ---------------------------------------------------------------------------------------------
  // The parser
  // ---------------------------------------------------------------------------------------------

  method SkipWhitespace(s: string, pos: nat) returns (next: nat)
    requires pos <= |s|
    ensures pos <= next <= |s| && s[next..] == SkipSpace(s[pos..])
  {
    next := pos;
    while next < |s| && IsSpace(s[next])
      invariant pos <= next <= |s| && SkipSpace(s[next..]) == SkipSpace(s[pos..])
    {
      assert s[next..][1..] == s[next + 1..];
      next := next + 1;
    }
  }

  lemma {:induction false} CloseLengthNext(s: string, pos: nat, depth: nat)
    requires pos < |s| && depth >= 1
    ensures var next := if s[pos] == '(' then depth + 1 else if s[pos] == ')' then depth - 1 else depth;
            CloseLength(s[pos..], depth) == if next == 0 then Some(1) else Plus(CloseLength(s[pos + 1..], next), 1)
  {
    assert s[pos..][0] == s[pos] && s[pos..][1..] == s[pos + 1..];
  }

  lemma NothingCloses(depth: nat)
    requires depth >= 1
    ensures CloseLength("", depth) == None
  {
  }

  /** The index of the parenthesis that closes the one at `start`. */
  method FindMatchingParen(s: string, start: nat) returns (r: Option<nat>)
    requires start < |s|
    ensures r == Plus(CloseLength(s[start + 1..], 1), start)
  {
    hide CloseLength;
    ghost var rest := s[start + 1..];
    var depth, pos := 1, start + 1;
    while pos < |s| && depth > 0
      invariant start < pos <= |s| && depth >= 0
      invariant depth > 0 ==> CloseLength(rest, 1) == Plus(CloseLength(s[pos..], depth), pos - start - 1)
      invariant depth == 0 ==> CloseLength(rest, 1) == Some(pos - start - 1)
    {
      CloseLengthNext(s, pos, depth);
      if s[pos] == '(' {
        depth := depth + 1;
      } else if s[pos] == ')' {
        depth := depth - 1;
      }
      pos := pos + 1;
    }
    if depth != 0 {
      assert s[pos..] == "";
      NothingCloses(depth);
      return None;
    }
    return Some(pos - 1);
  }

  /** `children` in front of what is still to be parsed. */
  ghost function Behind(children: seq<Filter>, rest: Result<seq<Filter>, Error>): Result<seq<Filter>, Error> {
    if rest.Failure? then rest else Success(children + rest.value)
  }

  /** The child at `pos`, and the place behind it. */
  method ParseChildAt(inner: string, pos: nat) returns (r: Result<(Filter, nat), Error>)
    requires 1 <= pos < |inner|
    ensures var c := ParseFirst(inner[pos..]);
            r == if c.Failure? then Failure(c.error) else Success((c.value.0, pos + c.value.1))
    decreases |inner|, 0
  {
    hide Parse, CloseLength, Trim;
    if inner[pos] != '(' {
      return Failure(ParenExpected);
    }
    assert inner[pos..][1..] == inner[pos + 1..];
    var end := FindMatchingParen(inner, pos);
    if end.None? {
      return Failure(Unmatched);
    }
    var sub := inner[pos..end.value + 1];
    assert sub == inner[pos..][..end.value + 1 - pos];
    StartsWithParen(sub);
    var child := ParseFilter(sub);
    if child.Failure? {
      return Failure(child.error);
    }
    return Success((child.value.value, end.value + 1));
  }

  /** The children of an AND or OR expression; the operator is at the front of `inner`. */
  method ParseOperands(inner: string) returns (r: Result<seq<Filter>, Error>)
    requires inner != ""
    ensures r == ParseChildren(SkipSpace(inner[1..]))
    decreases |inner|, 1
  {
    hide *;
    var children: seq<Filter> := [];
    var pos := SkipWhitespace(inner, 1);
    ghost var all := ParseChildren(inner[pos..]);
    NothingBefore(all);
    while pos < |inner|
      invariant 1 <= pos <= |inner|
      invariant all == Behind(children, ParseChildren(inner[pos..]))
    {
      var child := ParseChildAt(inner, pos);
      if child.Failure? {
        ChildrenFail(inner[pos..], children);
        return Failure(child.error);
      }
      ChildrenNext(inner[pos..]);
      ghost var c := ParseFirst(inner[pos..]).value;
      assert inner[pos..][c.1..] == inner[child.value.1..];
      OneMoreBehind(children, child.value.0, ParseChildren(SkipSpace(inner[child.value.1..])));
      children := children + [child.value.0];
      pos := SkipWhitespace(inner, child.value.1);
    }
    NoChildrenLeft();
    assert inner[pos..] == "";
    AllBehind(children);
    return Success(children);
  }

  lemma NothingBefore(rest: Result<seq<Filter>, Error>)
    ensures Behind([], rest) == rest
  {
    assert rest.Success? ==> [] + rest.value == rest.value;
  }

  lemma AllBehind(children: seq<Filter>)
    ensures Behind(children, Success([])) == Success(children)
  {
    assert children + [] == children;
  }

  lemma ChildrenFail(s: string, children: seq<Filter>)
    requires s != "" && ParseFirst(s).Failure?
    ensures Behind(children, ParseChildren(s)) == Failure(ParseFirst(s).error)
  {
    hide ParseFirst;
  }

  lemma OneMoreBehind(children: seq<Filter>, c: Filter, rest: Result<seq<Filter>, Error>)
    ensures Behind(children, if rest.Failure? then Failure(rest.error) else Success([c] + rest.value)) == Behind(children + [c], rest)
  {
    if rest.Success? {
      assert children + ([c] + rest.value) == (children + [c]) + rest.value;
    }
  }

  method ParseFilter(filter: string) returns (r: Result<Option<Filter>, Error>)
    ensures r == Parse(filter)
    decreases |filter|, 2
  {
    hide Trim, TrimLeft, ParseChildren, ParseFirst, ParseComparison, SkipSpace;
    TrimShrinks(filter);
    var trimmed := Trim(filter);
    if trimmed == "" {
      return Success(None);
    }
    if trimmed[0] != '(' || trimmed[|trimmed| - 1] != ')' {
      return Failure(NotEnclosed);
    }
    var inner := TrimLeft(trimmed[1..|trimmed| - 1]);
    if inner == "" {
      return Failure(EmptyExpression);
    }
    if inner[0] == '&' {
      var children := ParseOperands(inner);
      if children.Failure? {
        return Failure(children.error);
      }
      return if children.value == [] then Failure(NoChildren) else Success(Some(And(children.value)));
    } else if inner[0] == '|' {
      var children := ParseOperands(inner);
      if children.Failure? {
        return Failure(children.error);
      }
      return if children.value == [] then Failure(NoChildren) else Success(Some(Or(children.value)));
    } else if inner[0] == '!' {
      var pos := SkipWhitespace(inner, 1);
      NoFirst("");
      if pos >= |inner| {
        assert inner[pos..] == "";
        return Failure(ParenExpected);
      }
      var child := ParseChildAt(inner, pos);
      return if child.Failure? then Failure(child.error) else Success(Some(Not(child.value.0)));
    } else {
      var comparison := ParseComparison(inner);
      return if comparison.Failure? then Failure(comparison.error) else Success(Some(comparison.value));
    }
  }

  lemma NoFirst(s: string)
    ensures s == "" ==> ParseFirst(s) == Failure(ParenExpected)
  {
  }

  lemma TrimShrinks(s: string)
    ensures |Trim(s)| <= |s|
  {
  }
}
