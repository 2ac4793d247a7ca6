/**
  * Worked cases for a selector keyed `photo`: the single-clause OR case, the two-clause
  * AND case, a row added while `sunset` is selected, an unreadable condition attribute, and
  * a non-matching single-clause group discarding an earlier match.
  */
module Scenarios {
  import opened Wrappers
  import opened Conditions
  import opened Evaluation
  import opened Visibility
  import opened Engine

  const Photo := "photo"

  /** The group `[{field: "photo", operator: "==", value: "sunset"}]`. */
  const IsSunset: Group := Clauses([Clause(Some(Photo), "==", "sunset")])

  /** `[[{photo == sunset}]]`: shown for `sunset`, hidden for `forest`. */
  lemma SingleEqualityClause(sibling: ElemId)
    ensures Dispatch(Normalise(Empty, [IsSunset], sibling, Photo), "sunset") == Some(true)
    ensures Dispatch(Normalise(Empty, [IsSunset], sibling, Photo), "forest") == Some(false)
  {
    OrGroupsVerdict([IsSunset], sibling, Photo, "sunset");
    OrGroupsVerdict([IsSunset], sibling, Photo, "forest");
  }

  /** `[[{photo != sunset}, {photo != forest}]]`: hidden for `sunset`, shown for `mountain`. */
  lemma TwoInequalityClauses(sibling: ElemId)
    ensures var cs := [Clause(Some(Photo), "!=", "sunset"), Clause(Some(Photo), "!=", "forest")];
            Dispatch(Normalise(Empty, [Clauses(cs)], sibling, Photo), "sunset") == Some(false)
            && Dispatch(Normalise(Empty, [Clauses(cs)], sibling, Photo), "mountain") == Some(true)
  {
    var cs := [Clause(Some(Photo), "!=", "sunset"), Clause(Some(Photo), "!=", "forest")];
    AndGroupVerdict(cs, sibling, Photo, "sunset");
    AndGroupVerdict(cs, sibling, Photo, "mountain");
    assert MatchesAnd(cs[0], Photo) && Evaluated(cs[0]) && !ClauseHolds(cs[0], "sunset");
  }

  /**
    * A row added while `sunset` is selected: its field, whose condition is
    * `[[{photo == sunset}]]`, is shown by the pass that follows the append.
    */
  lemma RowAddedWhileSelected(nodes: map<ElemId, Element>, es: seq<CondObj>, f: Field)
    requires f.id in nodes
    requires f == Field(f.id, true, true, Some([IsSunset]), false)
    requires forall k :: 0 <= k < |es| ==> es[k].el != Some(f.id)
    ensures var e := ApplyEntries(nodes, es + Tracked([f], Photo), "sunset")[f.id];
            !e.acfHidden && !e.hiddenAttr && !e.disabledAttr
  {
    var ob := Normalise(Empty, [IsSunset], f.id, Photo);
    assert [f][1..] == [];
    assert Tracked([f], Photo) == [ob];
    SingleEqualityClause(f.id);
    NormaliseTracksField(Empty, [IsSunset], f.id, Photo);
    var all := es + [ob];
    LastEntryDecides(nodes, all, "sunset", |es|, f.id);
  }

  /** A field whose condition attribute does not parse contributes nothing to the catalog. */
  lemma UnparsableConditionIgnored(nodes: map<ElemId, Element>, es: seq<CondObj>, f: Field, value: string)
    requires f.hasConditions && f.hasKey && f.parsed.None?
    ensures BuildSpec(f, Photo) == Undefined
    ensures Tracked([f], Photo) == []
    ensures ApplyEntries(nodes, es + Tracked([f], Photo), value) == ApplyEntries(nodes, es, value)
  {
    assert [f][1..] == [];
    assert es + [] == es;
  }

  /**
    * `[[{photo == sunset}], [{other == x}]]`: the second group does not concern the
    * selector, its `return {}` discards the recorded match, and the field is left alone.
    */
  lemma LaterUnrelatedGroupDiscardsMatch(sibling: ElemId, value: string)
    ensures var other := Clauses([Clause(Some("other"), "==", "x")]);
            Normalise(Empty, [IsSunset, other], sibling, Photo) == Empty
            && Dispatch(Normalise(Empty, [IsSunset, other], sibling, Photo), value).None?
  {
    var other := Clauses([Clause(Some("other"), "==", "x")]);
    var gs := [IsSunset, other];
    assert gs[2..] == [];
    ResetDiscards(Empty, gs, 1, sibling, Photo);
  }
}
