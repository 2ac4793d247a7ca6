/**
  * Normalisation of a dependent field's `data-conditions` into the `{and, or, el}`
  * object the image-select engine evaluates (`buildConditionsObject`,
  * `structureAndObject`, `structureOrObject`, `setObValue`).
  */
module Conditions {
  import opened Wrappers

  /** Identity of a DOM element inside the post box. */
  type ElemId = nat

  /** One `{field, operator, value}` clause. `field` is None when the property is missing. */
  datatype Clause = Clause(field: Option<string>, operator: string, value: string)

  /** One element of the parsed condition array: an array of clauses, or anything else. */
  datatype Group = Clauses(clauses: seq<Clause>) | NotAnArray

  /** A bucket object: operator to the values recorded under it, in order. */
  type OpMap = map<string, seq<string>>

  datatype Bucket = And | Or

  /**
    * The accumulating object `ob`. Each component is None while the property is absent;
    * `Empty` is the literal `{}`.
    */
  datatype CondObj = CondObj(and: Option<OpMap>, or: Option<OpMap>, el: Option<ElemId>)

  const Empty := CondObj(None, None, None)

  /** A `.acf-field` element as the engine sees it. `parsed` is what JSON.parse gave for
    * `data-conditions` when that is a truthy array, and None when it threw, was falsy or
    * was not an array. */
  datatype Field = Field(id: ElemId, hasConditions: bool, hasKey: bool,
                         parsed: Option<seq<Group>>, isRepeater: bool)

  /** What `buildConditionsObject` returns: `false`, `undefined` or an object. */
  datatype Built = Missing | Undefined | Obj(ob: CondObj)

  /** The list under `op`, or the empty list when `op` is not a property. */
  function Lookup(m: OpMap, op: string): seq<string> {
    if op in m then m[op] else []
  }

  /** `Lookup` through an absent bucket. */
  function LookupIn(b: Option<OpMap>, op: string): seq<string> {
    if b.Some? then Lookup(b.value, op) else []
  }

  predicate Has(ob: CondObj, key: Bucket) {
    if key == And then ob.and.Some? else ob.or.Some?
  }

  function Get(ob: CondObj, key: Bucket): OpMap
    requires Has(ob, key)
  {
    if key == And then ob.and.value else ob.or.value
  }

  /** `setObValue`: append `value` to `ob[key][operator]`, creating the list when absent. */
  function SetObValue(ob: CondObj, operator: string, value: string, key: Bucket): (r: CondObj)
    requires Has(ob, key)
    ensures Has(r, key) && operator in Get(r, key)
    ensures Lookup(Get(r, key), operator) == Lookup(Get(ob, key), operator) + [value]
    ensures forall op :: op != operator ==>
              (op in Get(r, key) <==> op in Get(ob, key)) && Lookup(Get(r, key), op) == Lookup(Get(ob, key), op)
    ensures key == And ==> r.or == ob.or
    ensures key == Or ==> r.and == ob.and
    ensures r.el == ob.el
  {
    var m := Get(ob, key);
    var m' := if operator !in m then m[operator := [value]] else m[operator := m[operator] + [value]];
    if key == And then ob.(and := Some(m')) else ob.(or := Some(m'))
  }

  /** The test `and.field == this.imageSelectFieldKey` inside an AND-group. */
  predicate MatchesAnd(c: Clause, key: string) {
    c.field == Some(key)
  }

  /** The test `condition[0]?.field && condition[0].field == key`: the field must also be truthy. */
  predicate MatchesOr(g: Group, key: string) {
    g.Clauses? && |g.clauses| > 0 && g.clauses[0].field.Some?
    && g.clauses[0].field.value != "" && g.clauses[0].field.value == key
  }

  /** A group that `buildConditionsObject` hands to `structureAndObject`. */
  predicate IsAndGroup(g: Group) {
    g.Clauses? && |g.clauses| > 1
  }

  /** A group that sends `structureOrObject` down its `return {}` path. */
  predicate IsReset(g: Group, key: string) {
    !IsAndGroup(g) && !MatchesOr(g, key)
  }

  /** The values of the clauses of `cs` that concern `key` and use `op`, in order. */
  function ValuesFor(cs: seq<Clause>, key: string, op: string): seq<string> {
    if cs == [] then []
    else (if MatchesAnd(cs[0], key) && cs[0].operator == op then [cs[0].value] else [])
         + ValuesFor(cs[1..], key, op)
  }

  /** The effect of the clause loop of `structureAndObject` on an object that has its `and` bucket. */
  function RecordAnd(ob: CondObj, cs: seq<Clause>, key: string): (r: CondObj)
    requires ob.and.Some?
    ensures r.and.Some? && r.or == ob.or && r.el == ob.el
    decreases |cs|
  {
    if cs == [] then ob
    else
      var next := if MatchesAnd(cs[0], key) then SetObValue(ob, cs[0].operator, cs[0].value, And) else ob;
      RecordAnd(next, cs[1..], key)
  }

  /** The clause loop appends, under each operator, the values of the matching clauses. */
  lemma {:induction false} RecordAndValues(ob: CondObj, cs: seq<Clause>, key: string, op: string)
    requires ob.and.Some?
    ensures Lookup(RecordAnd(ob, cs, key).and.value, op) == Lookup(ob.and.value, op) + ValuesFor(cs, key, op)
    decreases |cs|
  {
    if cs != [] {
      var next := if MatchesAnd(cs[0], key) then SetObValue(ob, cs[0].operator, cs[0].value, And) else ob;
      RecordAndValues(next, cs[1..], key, op);
    }
  }

  function WithAnd(ob: CondObj): (r: CondObj)
    ensures r.and.Some? && r.or == ob.or && r.el == ob.el
    ensures forall op :: Lookup(r.and.value, op) == LookupIn(ob.and, op)
  {
    if ob.and.None? then ob.(and := Some(map[])) else ob
  }

  /** What `structureAndObject(ob, cs, sibling)` returns. */
  function AndStep(ob: CondObj, cs: seq<Clause>, sibling: ElemId, key: string): (r: CondObj)
    ensures r.and.Some? && r.or == ob.or && r.el == Some(sibling)
  {
    RecordAnd(WithAnd(ob), cs, key).(el := Some(sibling))
  }

  /** `structureAndObject` appends the matching clauses' values after what `and` held. */
  lemma AndStepValues(ob: CondObj, cs: seq<Clause>, sibling: ElemId, key: string, op: string)
    ensures Lookup(AndStep(ob, cs, sibling, key).and.value, op) == LookupIn(ob.and, op) + ValuesFor(cs, key, op)
  {
    RecordAndValues(WithAnd(ob), cs, key, op);
  }

  /**
    * `structureAndObject`: make sure the `and` bucket exists, record every clause that
    * concerns the selector key, and point `el` at the field (even when nothing matched).
    */
  method StructureAndObject(ob: CondObj, condition: seq<Clause>, sibling: ElemId, key: string)
    returns (r: CondObj)
    ensures r == AndStep(ob, condition, sibling, key)
  {
    r := ob;
    if r.and.None? {
      r := r.(and := Some(map[]));
    }
    var i := 0;
    while i < |condition|
      invariant 0 <= i <= |condition|
      invariant r.and.Some?
      invariant RecordAnd(r, condition[i..], key) == RecordAnd(WithAnd(ob), condition, key)
    {
      if MatchesAnd(condition[i], key) {
        r := SetObValue(r, condition[i].operator, condition[i].value, And);
      }
      // otherwise the callback's `return {}` only leaves the callback
      assert condition[i..][1..] == condition[i + 1..];
      i := i + 1;
    }
    r := r.(el := Some(sibling));
  }

  /**
    * `structureOrObject`: a group judged by its first element only. A match is recorded
    * under `or`; anything else replaces the whole accumulated object by `{}`.
    */
  function StructureOrObject(ob: CondObj, condition: Group, sibling: ElemId, key: string): (r: CondObj)
    ensures !MatchesOr(condition, key) ==> r == Empty
    ensures MatchesOr(condition, key) ==>
              r.or.Some? && r.and == ob.and
              && r.el == (if ob.or.None? then Some(sibling) else ob.el)
              && forall op :: Lookup(r.or.value, op) ==
                   LookupIn(ob.or, op) + (if op == condition.clauses[0].operator then [condition.clauses[0].value] else [])
  {
    var ob1 := if ob.or.None? then ob.(or := Some(map[]), el := Some(sibling)) else ob;
    if MatchesOr(condition, key) then
      SetObValue(ob1, condition.clauses[0].operator, condition.clauses[0].value, Or)
    else
      Empty
  }

  /** One iteration of the loop in `buildConditionsObject`. */
  function Step(ob: CondObj, g: Group, sibling: ElemId, key: string): CondObj {
    if IsAndGroup(g) then AndStep(ob, g.clauses, sibling, key) else StructureOrObject(ob, g, sibling, key)
  }

  /** The loop of `buildConditionsObject` over the groups, from the accumulator `ob`. */
  function Normalise(ob: CondObj, gs: seq<Group>, sibling: ElemId, key: string): CondObj
    decreases |gs|
  {
    if gs == [] then ob else Normalise(Step(ob, gs[0], sibling, key), gs[1..], sibling, key)
  }

  /** What `buildConditionsObject(field)` returns. */
  function BuildSpec(f: Field, key: string): Built {
    if f.hasConditions && f.hasKey then
      if f.parsed.None? then Undefined else Obj(Normalise(Empty, f.parsed.value, f.id, key))
    else
      Missing
  }

  /** `buildConditionsObject`. */
  method BuildConditionsObject(field: Field, key: string) returns (r: Built)
    ensures r == BuildSpec(field, key)
    ensures r.Obj? <==> field.hasConditions && field.hasKey && field.parsed.Some?
    ensures r.Obj? && (r.ob.and.Some? || r.ob.or.Some?) ==> r.ob.el == Some(field.id)
  {
    var ob := Empty;
    if field.hasConditions && field.hasKey {
      if field.parsed.None? {
        return Undefined;
      }
      var conditions := field.parsed.value;
      var i := 0;
      while i < |conditions|
        invariant 0 <= i <= |conditions|
        invariant Normalise(ob, conditions[i..], field.id, key) == Normalise(Empty, conditions, field.id, key)
      {
        var condition := conditions[i];
        if IsAndGroup(condition) {
          ob := StructureAndObject(ob, condition.clauses, field.id, key);
        } else {
          ob := StructureOrObject(ob, condition, field.id, key);
        }
        assert conditions[i..][1..] == conditions[i + 1..];
        i := i + 1;
      }
      NormaliseTracksField(Empty, conditions, field.id, key);
      return Obj(ob);
    }
    return Missing;
  }

  /** `el` names the field exactly when a bucket exists; `{}` has neither. */
  predicate Consistent(ob: CondObj, sibling: ElemId) {
    if ob.and.Some? || ob.or.Some? then ob.el == Some(sibling) else ob.el.None?
  }

  lemma {:induction false} NormaliseTracksField(ob: CondObj, gs: seq<Group>, sibling: ElemId, key: string)
    requires Consistent(ob, sibling)
    ensures Consistent(Normalise(ob, gs, sibling, key), sibling)
    decreases |gs|
  {
    if gs != [] {
      NormaliseTracksField(Step(ob, gs[0], sibling, key), gs[1..], sibling, key);
    }
  }

  /** A group taking the `return {}` path discards everything accumulated before it. */
  lemma {:induction false} ResetDiscards(ob: CondObj, gs: seq<Group>, i: nat, sibling: ElemId, key: string)
    requires i < |gs| && IsReset(gs[i], key)
    ensures Normalise(ob, gs, sibling, key) == Normalise(Empty, gs[i + 1..], sibling, key)
    decreases i
  {
    if i > 0 {
      assert gs[1..][i - 1] == gs[i];
      assert gs[1..][i..] == gs[i + 1..];
      ResetDiscards(Step(ob, gs[0], sibling, key), gs[1..], i - 1, sibling, key);
    }
  }

  /** The values one group adds under `op` to the `and` bucket. */
  function AndHead(g: Group, key: string, op: string): seq<string> {
    if IsAndGroup(g) then ValuesFor(g.clauses, key, op) else []
  }

  /** The values one group adds under `op` to the `or` bucket. */
  function OrHead(g: Group, key: string, op: string): seq<string> {
    if !IsAndGroup(g) && MatchesOr(g, key) && g.clauses[0].operator == op then [g.clauses[0].value] else []
  }

  /** Concatenated AND-values of the AND-groups of `gs`. */
  function AndValues(gs: seq<Group>, key: string, op: string): seq<string> {
    if gs == [] then [] else AndHead(gs[0], key, op) + AndValues(gs[1..], key, op)
  }

  /** Values of the single-clause groups of `gs` that match `key` and use `op`. */
  function OrValues(gs: seq<Group>, key: string, op: string): seq<string> {
    if gs == [] then [] else OrHead(gs[0], key, op) + OrValues(gs[1..], key, op)
  }

  predicate NoReset(gs: seq<Group>, key: string) {
    forall j :: 0 <= j < |gs| ==> !IsReset(gs[j], key)
  }

  /** One group that does not reset appends its own values to the bucket of its kind. */
  lemma StepRecords(ob: CondObj, g: Group, sibling: ElemId, key: string, op: string)
    requires !IsReset(g, key)
    ensures LookupIn(Step(ob, g, sibling, key).and, op) == LookupIn(ob.and, op) + AndHead(g, key, op)
    ensures LookupIn(Step(ob, g, sibling, key).or, op) == LookupIn(ob.or, op) + OrHead(g, key, op)
  {
    if IsAndGroup(g) {
      AndStepValues(ob, g.clauses, sibling, key, op);
      assert LookupIn(ob.or, op) + [] == LookupIn(ob.or, op);
    } else {
      assert LookupIn(ob.and, op) + [] == LookupIn(ob.and, op);
    }
  }

  /**
    * Without a resetting group, each bucket ends up holding the values of the clauses of
    * its kind, appended after what it held before, in the order they were written.
    */
  lemma {:induction false} NormaliseRecords(ob: CondObj, gs: seq<Group>, sibling: ElemId, key: string, op: string)
    requires NoReset(gs, key)
    ensures LookupIn(Normalise(ob, gs, sibling, key).and, op) == LookupIn(ob.and, op) + AndValues(gs, key, op)
    ensures LookupIn(Normalise(ob, gs, sibling, key).or, op) == LookupIn(ob.or, op) + OrValues(gs, key, op)
    decreases |gs|
  {
    if gs != [] {
      var g, rest := gs[0], gs[1..];
      var next := Step(ob, g, sibling, key);
      assert Normalise(ob, gs, sibling, key) == Normalise(next, rest, sibling, key);
      assert !IsReset(g, key);
      assert NoReset(rest, key) by {
        forall j | 0 <= j < |rest| ensures !IsReset(rest[j], key) {
          assert rest[j] == gs[j + 1];
        }
      }
      StepRecords(ob, g, sibling, key, op);
      NormaliseRecords(next, rest, sibling, key, op);
      var result := Normalise(next, rest, sibling, key);
      ConcatAssoc(LookupIn(ob.and, op), AndHead(g, key, op), AndValues(rest, key, op));
      ConcatAssoc(LookupIn(ob.or, op), OrHead(g, key, op), OrValues(rest, key, op));
      calc {
        LookupIn(result.and, op);
        LookupIn(next.and, op) + AndValues(rest, key, op);
        (LookupIn(ob.and, op) + AndHead(g, key, op)) + AndValues(rest, key, op);
        LookupIn(ob.and, op) + (AndHead(g, key, op) + AndValues(rest, key, op));
        LookupIn(ob.and, op) + AndValues(gs, key, op);
      }
      calc {
        LookupIn(result.or, op);
        LookupIn(next.or, op) + OrValues(rest, key, op);
        (LookupIn(ob.or, op) + OrHead(g, key, op)) + OrValues(rest, key, op);
        LookupIn(ob.or, op) + (OrHead(g, key, op) + OrValues(rest, key, op));
        LookupIn(ob.or, op) + OrValues(gs, key, op);
      }
    }
  }

  /**
    * Associativity of concatenation, as a named step: the calc steps above regroup
    * three bucket lists, and without this call the solver's cost of finding the
    * regrouping varies widely between random seeds.
    */
  lemma ConcatAssoc(a: seq<string>, b: seq<string>, c: seq<string>)
    ensures (a + b) + c == a + (b + c)
  {
  }

  /** Once an AND-group has been seen and nothing resets, the `and` bucket stays. */
  lemma {:induction false} AndBucketPersists(ob: CondObj, gs: seq<Group>, sibling: ElemId, key: string)
    requires NoReset(gs, key)
    requires ob.and.Some? || exists j :: 0 <= j < |gs| && IsAndGroup(gs[j])
    ensures Normalise(ob, gs, sibling, key).and.Some?
    decreases |gs|
  {
    if gs != [] {
      var next := Step(ob, gs[0], sibling, key);
      assert !IsReset(gs[0], key);
      assert NoReset(gs[1..], key) by {
        forall j | 0 <= j < |gs[1..]| ensures !IsReset(gs[1..][j], key) {
          assert gs[1..][j] == gs[j + 1];
        }
      }
      if !next.and.Some? {
        var j :| 0 <= j < |gs| && IsAndGroup(gs[j]);
        assert j != 0;
        assert IsAndGroup(gs[1..][j - 1]);
      }
      AndBucketPersists(next, gs[1..], sibling, key);
    }
  }

  /** Membership in `ValuesFor`: exactly the values of matching clauses with that operator. */
  lemma {:induction false} ValuesForMembers(cs: seq<Clause>, key: string, op: string, x: string)
    ensures x in ValuesFor(cs, key, op) <==>
              exists i :: 0 <= i < |cs| && MatchesAnd(cs[i], key) && cs[i].operator == op && cs[i].value == x
    decreases |cs|
  {
    if cs != [] {
      ValuesForMembers(cs[1..], key, op, x);
      if exists i :: 0 <= i < |cs[1..]| && MatchesAnd(cs[1..][i], key) && cs[1..][i].operator == op && cs[1..][i].value == x {
        var i :| 0 <= i < |cs[1..]| && MatchesAnd(cs[1..][i], key) && cs[1..][i].operator == op && cs[1..][i].value == x;
        assert cs[i + 1] == cs[1..][i];
      }
      if exists i :: 0 <= i < |cs| && MatchesAnd(cs[i], key) && cs[i].operator == op && cs[i].value == x {
        var i :| 0 <= i < |cs| && MatchesAnd(cs[i], key) && cs[i].operator == op && cs[i].value == x;
        if i > 0 {
          assert cs[1..][i - 1] == cs[i];
        }
      }
    }
  }

  /** Membership in `OrValues`: exactly the first clauses of matching single-clause groups. */
  lemma {:induction false} OrValuesMembers(gs: seq<Group>, key: string, op: string, x: string)
    ensures x in OrValues(gs, key, op) <==>
              exists i :: 0 <= i < |gs| && !IsAndGroup(gs[i]) && MatchesOr(gs[i], key)
                          && gs[i].clauses[0].operator == op && gs[i].clauses[0].value == x
    decreases |gs|
  {
    if gs != [] {
      OrValuesMembers(gs[1..], key, op, x);
      if exists i :: 0 <= i < |gs[1..]| && !IsAndGroup(gs[1..][i]) && MatchesOr(gs[1..][i], key)
                     && gs[1..][i].clauses[0].operator == op && gs[1..][i].clauses[0].value == x {
        var i :| 0 <= i < |gs[1..]| && !IsAndGroup(gs[1..][i]) && MatchesOr(gs[1..][i], key)
                 && gs[1..][i].clauses[0].operator == op && gs[1..][i].clauses[0].value == x;
        assert gs[i + 1] == gs[1..][i];
      }
      if exists i :: 0 <= i < |gs| && !IsAndGroup(gs[i]) && MatchesOr(gs[i], key)
                     && gs[i].clauses[0].operator == op && gs[i].clauses[0].value == x {
        var i :| 0 <= i < |gs| && !IsAndGroup(gs[i]) && MatchesOr(gs[i], key)
                 && gs[i].clauses[0].operator == op && gs[i].clauses[0].value == x;
        if i > 0 {
          assert gs[1..][i - 1] == gs[i];
        }
      }
    }
  }
}
