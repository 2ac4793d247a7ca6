/**
  * Evaluation of a normalised condition object against the selector's value
  * (`handleOrConditions`, `handleAndConditions` and the dispatch in `handleConditions`).
  * Values are compared as exact strings.
  */
module Evaluation {
  import opened Wrappers
  import opened Conditions

  /** OR: some `!=` value differs from `value`, or some `==` value equals it. */
  predicate OrVerdict(or: OpMap, value: string) {
    (exists x :: x in Lookup(or, "!=") && x != value) || value in Lookup(or, "==")
  }

  /** AND: every `!=` value differs from `value` and every `==` value equals it. */
  predicate AndVerdict(and: OpMap, value: string) {
    (forall x :: x in Lookup(and, "!=") ==> x != value) && (forall x :: x in Lookup(and, "==") ==> x == value)
  }

  /** The verdict `handleConditions` applies for one catalog entry: `and` first, then `or`, else none. */
  function Dispatch(ob: CondObj, value: string): Option<bool> {
    if ob.and.Some? then Some(AndVerdict(ob.and.value, value))
    else if ob.or.Some? then Some(OrVerdict(ob.or.value, value))
    else None
  }

  /** `handleOrConditions`: the accumulator starts as `[false]` and gains a `true` per hit. */
  method HandleOrConditions(or: OpMap, value: string) returns (r: bool)
    ensures r <==> OrVerdict(or, value)
    ensures Lookup(or, "!=") == [] && Lookup(or, "==") == [] ==> !r
  {
    var arr := [false];
    if "!=" in or {
      var ne := or["!="];
      var i := 0;
      while i < |ne|
        invariant 0 <= i <= |ne|
        invariant (true in arr) <==> exists k :: 0 <= k < i && ne[k] != value
      {
        if value != ne[i] {
          arr := arr + [true];
        }
        i := i + 1;
      }
      assert (exists x :: x in ne && x != value) <==> exists k :: 0 <= k < |ne| && ne[k] != value by {
        if exists x :: x in ne && x != value {
          var x :| x in ne && x != value;
          var k :| 0 <= k < |ne| && ne[k] == x;
        }
        if exists k :: 0 <= k < |ne| && ne[k] != value {
          var k :| 0 <= k < |ne| && ne[k] != value;
          assert ne[k] in ne;
        }
      }
    }
    ghost var fromNe := true in arr;
    assert fromNe <==> exists x :: x in Lookup(or, "!=") && x != value;
    if "==" in or {
      var eq := or["=="];
      var j := 0;
      while j < |eq|
        invariant 0 <= j <= |eq|
        invariant (true in arr) <==> fromNe || value in eq[..j]
      {
        assert eq[..j + 1] == eq[..j] + [eq[j]];
        if value == eq[j] {
          arr := arr + [true];
        }
        j := j + 1;
      }
      assert eq[..j] == eq;
    }
    r := true in arr;
  }

  /** `handleAndConditions`: one boolean per recorded value, true when no `false` is among them. */
  method HandleAndConditions(and: OpMap, value: string) returns (r: bool)
    ensures r <==> AndVerdict(and, value)
    ensures Lookup(and, "!=") == [] && Lookup(and, "==") == [] ==> r
  {
    var arr: seq<bool> := [];
    if "!=" in and {
      var ne := and["!="];
      var i := 0;
      while i < |ne|
        invariant 0 <= i <= |ne|
        invariant (false in arr) <==> exists k :: 0 <= k < i && ne[k] == value
      {
        arr := arr + [value != ne[i]];
        i := i + 1;
      }
      assert value in ne <==> exists k :: 0 <= k < |ne| && ne[k] == value by {
        if value in ne {
          var k :| 0 <= k < |ne| && ne[k] == value;
        }
        if exists k :: 0 <= k < |ne| && ne[k] == value {
          var k :| 0 <= k < |ne| && ne[k] == value;
          assert ne[k] in ne;
        }
      }
    }
    ghost var fromNe := false in arr;
    assert fromNe <==> !(forall x :: x in Lookup(and, "!=") ==> x != value);
    if "==" in and {
      var eq := and["=="];
      var j := 0;
      while j < |eq|
        invariant 0 <= j <= |eq|
        invariant (false in arr) <==> fromNe || exists k :: 0 <= k < j && eq[k] != value
      {
        arr := arr + [value == eq[j]];
        j := j + 1;
      }
      assert (exists x :: x in eq && x != value) <==> exists k :: 0 <= k < |eq| && eq[k] != value by {
        if exists x :: x in eq && x != value {
          var x :| x in eq && x != value;
          var k :| 0 <= k < |eq| && eq[k] == x;
        }
        if exists k :: 0 <= k < |eq| && eq[k] != value {
          var k :| 0 <= k < |eq| && eq[k] != value;
          assert eq[k] in eq;
        }
      }
    }
    assert (false in arr) <==> fromNe || exists x :: x in Lookup(and, "==") && x != value;
    r := !(false in arr);
  }

  /** A clause's own meaning, for the two operators the engine evaluates. */
  predicate ClauseHolds(c: Clause, value: string) {
    if c.operator == "==" then value == c.value else value != c.value
  }

  predicate Evaluated(c: Clause) {
    c.operator == "==" || c.operator == "!="
  }

  /**
    * Normalising one AND-group and dispatching gives the conjunction of its clauses that
    * concern the selector; clauses about other fields, or with other operators, do not count.
    */
  lemma AndGroupVerdict(cs: seq<Clause>, sibling: ElemId, key: string, value: string)
    requires |cs| > 1
    ensures Dispatch(Normalise(Empty, [Clauses(cs)], sibling, key), value)
            == Some(forall i :: 0 <= i < |cs| && MatchesAnd(cs[i], key) && Evaluated(cs[i]) ==> ClauseHolds(cs[i], value))
  {
    var r := Normalise(Empty, [Clauses(cs)], sibling, key);
    assert [Clauses(cs)][1..] == [];
    assert r == Normalise(Step(Empty, Clauses(cs), sibling, key), [], sibling, key);
    assert r == AndStep(Empty, cs, sibling, key);
    AndStepValues(Empty, cs, sibling, key, "!=");
    AndStepValues(Empty, cs, sibling, key, "==");
    assert Lookup(r.and.value, "!=") == ValuesFor(cs, key, "!=");
    assert Lookup(r.and.value, "==") == ValuesFor(cs, key, "==");
    var all := forall i :: 0 <= i < |cs| && MatchesAnd(cs[i], key) && Evaluated(cs[i]) ==> ClauseHolds(cs[i], value);
    if AndVerdict(r.and.value, value) {
      forall i | 0 <= i < |cs| && MatchesAnd(cs[i], key) && Evaluated(cs[i])
        ensures ClauseHolds(cs[i], value)
      {
        ValuesForMembers(cs, key, cs[i].operator, cs[i].value);
      }
    }
    if all {
      forall x | x in Lookup(r.and.value, "!=") ensures x != value {
        ValuesForMembers(cs, key, "!=", x);
      }
      forall x | x in Lookup(r.and.value, "==") ensures x == value {
        ValuesForMembers(cs, key, "==", x);
      }
    }
  }

  /** An AND-group none of whose clauses concern the selector leaves an empty `and`: always shown. */
  lemma UnmatchedAndGroupShown(cs: seq<Clause>, sibling: ElemId, key: string, value: string)
    requires |cs| > 1
    requires forall i :: 0 <= i < |cs| ==> !MatchesAnd(cs[i], key)
    ensures Normalise(Empty, [Clauses(cs)], sibling, key).el == Some(sibling)
    ensures Dispatch(Normalise(Empty, [Clauses(cs)], sibling, key), value) == Some(true)
  {
    AndGroupVerdict(cs, sibling, key, value);
  }

  predicate IsOrClauseFor(g: Group, key: string) {
    !IsAndGroup(g) && MatchesOr(g, key)
  }

  /** The group's first clause is evaluated and holds of `value`. */
  predicate FirstClauseHolds(g: Group, value: string) {
    g.Clauses? && |g.clauses| > 0 && Evaluated(g.clauses[0]) && ClauseHolds(g.clauses[0], value)
  }

  /**
    * Normalising only single-clause groups about the selector and dispatching gives the
    * disjunction of those clauses (clauses with other operators contribute nothing).
    */
  lemma OrGroupsVerdict(gs: seq<Group>, sibling: ElemId, key: string, value: string)
    requires |gs| > 0
    requires forall j :: 0 <= j < |gs| ==> IsOrClauseFor(gs[j], key)
    ensures Dispatch(Normalise(Empty, gs, sibling, key), value)
            == Some(exists j :: 0 <= j < |gs| && FirstClauseHolds(gs[j], value))
  {
    var r := Normalise(Empty, gs, sibling, key);
    assert NoReset(gs, key);
    NormaliseRecords(Empty, gs, sibling, key, "!=");
    NormaliseRecords(Empty, gs, sibling, key, "==");
    NormaliseTracksField(Empty, gs, sibling, key);
    OrBucketExists(Empty, gs, sibling, key);
    NoAndBucket(Empty, gs, sibling, key);
    assert Lookup(r.or.value, "!=") == OrValues(gs, key, "!=");
    assert Lookup(r.or.value, "==") == OrValues(gs, key, "==");
    if exists j :: 0 <= j < |gs| && FirstClauseHolds(gs[j], value) {
      var j :| 0 <= j < |gs| && FirstClauseHolds(gs[j], value);
      var c := gs[j].clauses[0];
      OrValuesMembers(gs, key, c.operator, c.value);
      assert OrVerdict(r.or.value, value) by {
        if c.operator == "!=" {
          assert c.value in Lookup(r.or.value, "!=") && c.value != value;
        } else {
          assert value in Lookup(r.or.value, "==");
        }
      }
    }
    if OrVerdict(r.or.value, value) {
      if exists x :: x in Lookup(r.or.value, "!=") && x != value {
        var x :| x in Lookup(r.or.value, "!=") && x != value;
        OrValuesMembers(gs, key, "!=", x);
        var j :| 0 <= j < |gs| && !IsAndGroup(gs[j]) && MatchesOr(gs[j], key)
                 && gs[j].clauses[0].operator == "!=" && gs[j].clauses[0].value == x;
        assert FirstClauseHolds(gs[j], value);
      } else {
        OrValuesMembers(gs, key, "==", value);
        var j :| 0 <= j < |gs| && !IsAndGroup(gs[j]) && MatchesOr(gs[j], key)
                 && gs[j].clauses[0].operator == "==" && gs[j].clauses[0].value == value;
        assert FirstClauseHolds(gs[j], value);
      }
    }
  }

  lemma {:induction false} OrBucketExists(ob: CondObj, gs: seq<Group>, sibling: ElemId, key: string)
    requires |gs| > 0
    requires forall j :: 0 <= j < |gs| ==> IsOrClauseFor(gs[j], key)
    ensures Normalise(ob, gs, sibling, key).or.Some?
    decreases |gs|
  {
    if |gs| > 1 {
      OrBucketExists(Step(ob, gs[0], sibling, key), gs[1..], sibling, key);
    }
  }

  lemma {:induction false} NoAndBucket(ob: CondObj, gs: seq<Group>, sibling: ElemId, key: string)
    requires ob.and.None?
    requires forall j :: 0 <= j < |gs| ==> IsOrClauseFor(gs[j], key)
    ensures Normalise(ob, gs, sibling, key).and.None?
    decreases |gs|
  {
    if gs != [] {
      NoAndBucket(Step(ob, gs[0], sibling, key), gs[1..], sibling, key);
    }
  }

  /**
    * A condition mixing an AND-group with later OR-groups about the selector keeps both
    * buckets, and the entry is judged by its `and` bucket alone.
    */
  lemma AndWinsOverOr(cs: seq<Clause>, rest: seq<Group>, sibling: ElemId, key: string, value: string)
    requires |cs| > 1
    requires forall j :: 0 <= j < |rest| ==> IsOrClauseFor(rest[j], key)
    ensures var r := Normalise(Empty, [Clauses(cs)] + rest, sibling, key);
            r.and.Some? && (rest != [] ==> r.or.Some?) && Dispatch(r, value) == Some(AndVerdict(r.and.value, value))
  {
    var gs := [Clauses(cs)] + rest;
    assert gs[1..] == rest;
    assert NoReset(gs, key) by {
      forall j | 0 <= j < |gs| ensures !IsReset(gs[j], key) {
        if j > 0 { assert gs[j] == rest[j - 1]; }
      }
    }
    assert IsAndGroup(gs[0]);
    AndBucketPersists(Empty, gs, sibling, key);
    if rest != [] {
      OrBucketExists(Step(Empty, gs[0], sibling, key), rest, sibling, key);
    }
  }
}
