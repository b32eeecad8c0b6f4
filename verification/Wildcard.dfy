/** The wildcard matcher that decides whether a permission's target pattern covers a target
    (workspace/src/framework/impl/security/permission.cpp).

    `Glob` is the usual meaning of a pattern: `*` covers any run of characters, `?` covers exactly
    one, everything else covers itself.  The matcher tests for equal characters before it tests for
    a star, so a star in the pattern that meets a star in the target is taken as a literal;
    `LiteralStarGlob` is the relation that this order of tests computes.  */
module Wildcard {

  /** `cuts[i]` is where the part of the target covered by `pattern[i]` begins. */
  ghost predicate IsAlignment(pattern: string, target: string, cuts: seq<nat>) {
    && |cuts| == |pattern| + 1
    && cuts[0] == 0 && cuts[|pattern|] == |target|
    && forall i :: 0 <= i < |pattern| ==> Covers(pattern[i], target, cuts[i], cuts[i + 1])
  }

  /** One pattern character covers `target[from..to]`. */
  predicate Covers(c: char, target: string, from: nat, to: nat) {
    && from <= to <= |target|
    && (c != '*' ==> to == from + 1 && (c == '?' || c == target[from]))
  }

  /** A star that starts on a star of the target covers that one character and nothing else. */
  ghost predicate TakesTargetStarsLiterally(pattern: string, target: string, cuts: seq<nat>)
    requires IsAlignment(pattern, target, cuts)
  {
    forall i :: 0 <= i < |pattern| && pattern[i] == '*' && cuts[i] < |target| && target[cuts[i]] == '*'
      ==> cuts[i + 1] == cuts[i] + 1
  }

  ghost predicate Glob(pattern: string, target: string) {
    exists cuts :: IsAlignment(pattern, target, cuts)
  }

  ghost predicate LiteralStarGlob(pattern: string, target: string) {
    exists cuts :: IsAlignment(pattern, target, cuts) && TakesTargetStarsLiterally(pattern, target, cuts)
  }

  // ---------------------------------------------------------------------------------------------
  // The same relation, one pattern character at a time
  // ---------------------------------------------------------------------------------------------

  /** `pattern[p..]` matches `target[t..]`, stars of the target taken literally. */
  ghost predicate MatchesFrom(pattern: string, target: string, p: nat, t: nat)
    requires p <= |pattern|
    decreases |pattern| - p
  {
    if p == |pattern| then t == |target|
    else exists next: nat :: Step(pattern[p], target, t, next) && MatchesFrom(pattern, target, p + 1, next)
  }

  /** `c` covers `target[from..to]` under the literal reading of target stars. */
  predicate Step(c: char, target: string, from: nat, to: nat) {
    && Covers(c, target, from, to)
    && (c == '*' && from < |target| && target[from] == '*' ==> to == from + 1)
  }

  /** A suffix alignment: `cuts` starts at `t` and aligns `pattern[p..]` with the rest of the target. */
  ghost predicate StepsFrom(pattern: string, target: string, p: nat, t: nat, cuts: seq<nat>)
    requires p <= |pattern|
  {
    && |cuts| == |pattern| - p + 1
    && cuts[0] == t && cuts[|cuts| - 1] == |target|
    && forall i :: 0 <= i < |cuts| - 1 ==> Step(pattern[p + i], target, cuts[i], cuts[i + 1])
  }

  lemma {:induction false} MatchesFromIsAlignment(pattern: string, target: string, p: nat, t: nat)
    requires p <= |pattern|
    ensures MatchesFrom(pattern, target, p, t) <==> exists cuts :: StepsFrom(pattern, target, p, t, cuts)
    decreases |pattern| - p
  {
    if p == |pattern| {
      if t == |target| {
        assert StepsFrom(pattern, target, p, t, [t]);
      }
    } else {
      if MatchesFrom(pattern, target, p, t) {
        var next: nat :| Step(pattern[p], target, t, next) && MatchesFrom(pattern, target, p + 1, next);
        MatchesFromIsAlignment(pattern, target, p + 1, next);
        var rest :| StepsFrom(pattern, target, p + 1, next, rest);
        assert StepsFrom(pattern, target, p, t, [t] + rest);
      }
      if cuts :| StepsFrom(pattern, target, p, t, cuts) {
        assert Step(pattern[p + 0], target, cuts[0], cuts[1]);
        assert StepsFrom(pattern, target, p + 1, cuts[1], cuts[1..]) by {
          forall i | 0 <= i < |cuts[1..]| - 1
            ensures Step(pattern[p + 1 + i], target, cuts[1..][i], cuts[1..][i + 1])
          {
            assert Step(pattern[p + (i + 1)], target, cuts[i + 1], cuts[i + 2]);
          }
        }
        MatchesFromIsAlignment(pattern, target, p + 1, cuts[1]);
      }
    }
  }

  lemma MatchesFromStart(pattern: string, target: string)
    ensures MatchesFrom(pattern, target, 0, 0) <==> LiteralStarGlob(pattern, target)
  {
    MatchesFromIsAlignment(pattern, target, 0, 0);
    forall cuts: seq<nat>
      ensures StepsFrom(pattern, target, 0, 0, cuts) <==>
              IsAlignment(pattern, target, cuts) && TakesTargetStarsLiterally(pattern, target, cuts)
    {
      if |cuts| == |pattern| + 1 {
        forall i | 0 <= i < |pattern|
          ensures Step(pattern[0 + i], target, cuts[i], cuts[i + 1]) <==>
                  Covers(pattern[i], target, cuts[i], cuts[i + 1]) &&
                  (pattern[i] == '*' && cuts[i] < |target| && target[cuts[i]] == '*' ==> cuts[i + 1] == cuts[i] + 1)
        {
        }
      }
    }
  }

  // ---------------------------------------------------------------------------------------------
  // Why one backtrack point suffices
  // ---------------------------------------------------------------------------------------------

  /** The characters `pattern[p..q]` have been consumed one for one by the target from `t` on. */
  ghost predicate ConsumedOneForOne(pattern: string, target: string, p: nat, q: nat, t: nat)
    requires p <= q <= |pattern|
  {
    && t + (q - p) <= |target|
    && forall i :: p <= i < q ==> pattern[i] == target[t + (i - p)] || pattern[i] == '?'
  }

  /** A one-for-one attempt is the leftmost one: an attempt that starts further right is, at every
      later pattern position, at least as far along in the target. */
  lemma {:induction false} LeftmostAttempt(pattern: string, target: string, p: nat, q: nat, t: nat, later: nat)
    requires p <= q <= |pattern|
    requires ConsumedOneForOne(pattern, target, p, q, t)
    requires t <= later && MatchesFrom(pattern, target, p, later)
    ensures exists u: nat :: t + (q - p) <= u <= |target| && MatchesFrom(pattern, target, q, u)
    decreases q - p
  {
    if p == q {
      MatchesFromBounded(pattern, target, p, later);
    } else {
      var next: nat :| Step(pattern[p], target, later, next) && MatchesFrom(pattern, target, p + 1, next);
      assert t + 1 <= next;
      assert ConsumedOneForOne(pattern, target, p + 1, q, t + 1) by {
        forall i | p + 1 <= i < q
          ensures pattern[i] == target[t + 1 + (i - (p + 1))] || pattern[i] == '?'
        {
          assert t + 1 + (i - (p + 1)) == t + (i - p);
        }
      }
      LeftmostAttempt(pattern, target, p + 1, q, t + 1, next);
    }
  }

  lemma {:induction false} MatchesFromBounded(pattern: string, target: string, p: nat, t: nat)
    requires p <= |pattern| && MatchesFrom(pattern, target, p, t)
    ensures t <= |target|
  {
  }

  /** At the end of the target only stars may be left over. */
  lemma {:induction false} OnlyStarsLeft(pattern: string, target: string, p: nat)
    requires p <= |pattern|
    ensures MatchesFrom(pattern, target, p, |target|) <==> forall i :: p <= i < |pattern| ==> pattern[i] == '*'
    decreases |pattern| - p
  {
    if p < |pattern| {
      OnlyStarsLeft(pattern, target, p + 1);
      if pattern[p] == '*' {
        assert Step(pattern[p], target, |target|, |target|);
        assert forall next: nat :: Step(pattern[p], target, |target|, next) ==> next == |target|;
      }
    }
  }

  /** A star that does not face a star either ends here or moves one character on. */
  lemma StarCoversARun(pattern: string, target: string, p: nat, t: nat)
    requires p < |pattern| && pattern[p] == '*'
    requires t < |target| && target[t] != '*'
    ensures MatchesFrom(pattern, target, p, t) <==> SomeLaterStart(pattern, target, p + 1, t)
  {
    forall u: nat
      ensures Step(pattern[p], target, t, u) <==> t <= u <= |target|
    {
    }
    if SomeLaterStart(pattern, target, p + 1, t) {
      var u: nat :| t <= u <= |target| && MatchesFrom(pattern, target, p + 1, u);
      assert Step(pattern[p], target, t, u);
    }
  }

  /** The rest of the pattern matches from somewhere at or after `t`. */
  ghost predicate SomeLaterStart(pattern: string, target: string, p: nat, t: nat)
    requires p <= |pattern|
  {
    exists u: nat :: t <= u <= |target| && MatchesFrom(pattern, target, p, u)
  }

  /** Everything that is still possible: go on from here, or retry the last star one character on. */
  ghost predicate StillMatches(pattern: string, target: string, p: nat, t: nat, star: int, retry: nat)
    requires p <= |pattern| && -1 <= star < |pattern|
  {
    MatchesFrom(pattern, target, p, t) || (star >= 0 && SomeLaterStart(pattern, target, star + 1, retry + 1))
  }

  // ---------------------------------------------------------------------------------------------
  // The matcher
  // ---------------------------------------------------------------------------------------------

  method WildcardMatch(pattern: string, target: string) returns (matched: bool)
    ensures matched <==> LiteralStarGlob(pattern, target)
  {
    MatchesFromStart(pattern, target);
    var p, t := 0, 0;
    var star, retry := -1, 0;

    while t < |target|
      invariant p <= |pattern| && t <= |target|
      invariant -1 <= star < p || (star == -1 && p == 0)
      invariant retry <= t
      invariant star >= 0 ==> t == retry + (p - (star + 1)) &&
                              ConsumedOneForOne(pattern, target, star + 1, p, retry)
      invariant LiteralStarGlob(pattern, target) <==> StillMatches(pattern, target, p, t, star, retry)
      decreases |pattern| - star, |target| - retry, |target| - t
    {
      if p < |pattern| && (pattern[p] == target[t] || pattern[p] == '?') {
        assert Step(pattern[p], target, t, t + 1);
        assert forall u: nat :: Step(pattern[p], target, t, u) ==> u == t + 1;
        p, t := p + 1, t + 1;
      } else if p < |pattern| && pattern[p] == '*' {
        if star >= 0 && SomeLaterStart(pattern, target, star + 1, retry + 1) {
          var u: nat :| retry + 1 <= u <= |target| && MatchesFrom(pattern, target, star + 1, u);
          LeftmostAttempt(pattern, target, star + 1, p, retry, u);
          var v: nat :| t <= v <= |target| && MatchesFrom(pattern, target, p, v);
          var w: nat :| Step(pattern[p], target, v, w) && MatchesFrom(pattern, target, p + 1, w);
          MatchesFromBounded(pattern, target, p + 1, w);
          assert SomeLaterStart(pattern, target, p + 1, t);
        }
        StarCoversARun(pattern, target, p, t);
        star, retry, p := p, t, p + 1;
      } else if star != -1 {
        assert !MatchesFrom(pattern, target, p, t);
        p, retry := star + 1, retry + 1;
        t := retry;
      } else {
        return false;
      }
    }

    if star >= 0 && SomeLaterStart(pattern, target, star + 1, retry + 1) {
      var u: nat :| retry + 1 <= u <= |target| && MatchesFrom(pattern, target, star + 1, u);
      LeftmostAttempt(pattern, target, star + 1, p, retry, u);
    }
    OnlyStarsLeft(pattern, target, p);

    while p < |pattern| && pattern[p] == '*'
      invariant p <= |pattern|
      invariant LiteralStarGlob(pattern, target) <==> forall i :: p <= i < |pattern| ==> pattern[i] == '*'
    {
      p := p + 1;
    }
    matched := p == |pattern|;
  }

  // ---------------------------------------------------------------------------------------------
  // How the matcher relates to the usual meaning of a pattern
  // ---------------------------------------------------------------------------------------------

  /** `*` does not cover `*a`: the star is spent on the first character. */
  lemma StarMissesATargetThatBeginsWithAStar()
    ensures Glob("*", "*a") && !LiteralStarGlob("*", "*a")
  {
    assert IsAlignment("*", "*a", [0, 2]);
  }

  /** A pattern that the literal reading of `before + "*" + after` cannot cover, though a glob would. */
  function MissedPattern(before: string, after: string): string {
    before + if after == "" then "*?" else "*"
  }

  /** Along a star-free prefix the pattern and the target advance together. */
  lemma {:induction false} PrefixAdvancesTogether(before: string, rest: string, after: string, p: nat)
    requires '*' !in before && p <= |before|
    requires MatchesFrom(before + rest, before + "*" + after, p, p)
    ensures MatchesFrom(before + rest, before + "*" + after, |before|, |before|)
    decreases |before| - p
  {
    if p < |before| {
      assert (before + rest)[p] == before[p] && before[p] in before;
      PrefixAdvancesTogether(before, rest, after, p + 1);
    }
  }

  lemma StarInTargetIsMissed(before: string, after: string)
    requires '*' !in before
    ensures Glob(MissedPattern(before, after), before + "*" + after)
    ensures !LiteralStarGlob(MissedPattern(before, after), before + "*" + after)
  {
    var pattern, target := MissedPattern(before, after), before + "*" + after;
    var rest := if after == "" then "*?" else "*";
    assert pattern == before + rest;
    var n := |before|;
    var cuts := seq(n + 1, i requires 0 <= i => i) + if after == "" then [n, n + 1] else [|target|];
    assert IsAlignment(pattern, target, cuts) by {
      forall i | 0 <= i < |pattern|
        ensures Covers(pattern[i], target, cuts[i], cuts[i + 1])
      {
      }
    }
    MatchesFromStart(pattern, target);
    if MatchesFrom(pattern, target, 0, 0) {
      PrefixAdvancesTogether(before, rest, after, 0);
    }
  }

  /** Where a character first occurs. */
  lemma FirstStar(target: string) returns (before: string, after: string)
    requires '*' in target
    ensures '*' !in before && target == before + "*" + after
  {
    if target[0] == '*' {
      before, after := "", target[1..];
    } else {
      before, after := FirstStar(target[1..]);
      assert target == [target[0]] + target[1..];
      before := [target[0]] + before;
    }
  }

  /** A permission covers its own target, stars and all. */
  lemma PatternCoversItself(pattern: string)
    ensures LiteralStarGlob(pattern, pattern)
  {
    var cuts := seq(|pattern| + 1, i requires 0 <= i => i);
    assert IsAlignment(pattern, pattern, cuts);
  }

  /** What the matcher accepts is always a glob match. */
  lemma MatcherIsSound(pattern: string, target: string)
    requires LiteralStarGlob(pattern, target)
    ensures Glob(pattern, target)
  {
  }

  /** The matcher implements the usual meaning on a target, for every pattern, exactly when the target
      holds no star. */
  lemma MatcherAgreesExactlyOnStarFreeTargets(target: string)
    ensures (forall pattern :: LiteralStarGlob(pattern, target) <==> Glob(pattern, target)) <==> '*' !in target
  {
    if '*' in target {
      var before, after := FirstStar(target);
      StarInTargetIsMissed(before, after);
    } else {
      forall pattern | Glob(pattern, target)
        ensures LiteralStarGlob(pattern, target)
      {
        var cuts :| IsAlignment(pattern, target, cuts);
        assert TakesTargetStarsLiterally(pattern, target, cuts);
      }
    }
  }
}
