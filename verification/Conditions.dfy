/** Merging domain conditions (`implies` and `mergeConditions`, packages/cas/src/conditions.ts). A subject is known
    by its source text; a valuation gives every subject a real value. */
module Conditions {

  datatype Relation = Positive | Negative | Nonnegative | Nonzero

  datatype Condition = Condition(subject: nat, relation: Relation, reason: nat)

  predicate Implies(d: Relation, c: Relation) {
    d == c || (c == Nonzero && d != Nonnegative) || (d == Positive && c == Nonnegative)
  }

  predicate Meets(x: real, r: Relation) {
    match r
    case Positive => x > 0.0
    case Negative => x < 0.0
    case Nonnegative => x >= 0.0
    case Nonzero => x != 0.0
  }

  /** `implies` is exactly implication between the relations. */
  lemma ImpliesIsExact(d: Relation, c: Relation)
    ensures Implies(d, c) <==> forall x: real :: Meets(x, d) ==> Meets(x, c)
  {
    if !Implies(d, c) {
      var x := if Meets(1.0, d) && !Meets(1.0, c) then 1.0 else if Meets(0.0, d) && !Meets(0.0, c) then 0.0 else -1.0;
      assert Meets(x, d) && !Meets(x, c);
    }
  }

  ghost predicate Satisfied(cs: seq<Condition>, value: nat -> real) {
    forall i :: 0 <= i < |cs| ==> Meets(value(cs[i].subject), cs[i].relation)
  }

  // ---- mergeConditions ----

  function Flat(lists: seq<seq<Condition>>): seq<Condition> {
    if lists == [] then [] else lists[0] + Flat(lists[1..])
  }

  predicate BesideNonzero(flat: seq<Condition>, c: Condition) {
    exists d :: d in flat && d.relation == Nonzero && d.reason == c.reason && d.subject == c.subject
  }

  /** `u >= 0` beside `u != 0` for one reason becomes `u > 0`. */
  function Combine(flat: seq<Condition>, c: Condition): Condition {
    if c.relation == Nonnegative && BesideNonzero(flat, c) then c.(relation := Positive) else c
  }

  function Combined(flat: seq<Condition>): (all: seq<Condition>)
    ensures |all| == |flat|
  {
    seq(|flat|, i requires 0 <= i < |flat| => Combine(flat, flat[i]))
  }

  /** Condition `j` makes condition `i` redundant. */
  predicate Drops(all: seq<Condition>, j: nat, i: nat)
    requires i < |all| && j < |all|
  {
    && j != i
    && all[j].subject == all[i].subject
    && Implies(all[j].relation, all[i].relation)
    && (all[j].relation != all[i].relation || j < i)
  }

  predicate Kept(all: seq<Condition>, i: nat)
    requires i < |all|
  {
    !exists j: nat :: j < |all| && Drops(all, j, i)
  }

  /** The kept ones among the first `n`, in order. */
  function Filter(all: seq<Condition>, n: nat): seq<Condition>
    requires n <= |all|
  {
    if n == 0 then [] else Filter(all, n - 1) + (if Kept(all, n - 1) then [all[n - 1]] else [])
  }

  function Merge(lists: seq<seq<Condition>>): seq<Condition> {
    var all := Combined(Flat(lists));
    Filter(all, |all|)
  }

  // ---- what the filter keeps ----

  /** The kept conditions are those at these positions, in order. */
  function Positions(all: seq<Condition>, n: nat): (ps: seq<nat>)
    requires n <= |all|
    ensures forall k :: 0 <= k < |ps| ==> ps[k] < n
  {
    if n == 0 then [] else Positions(all, n - 1) + (if Kept(all, n - 1) then [n - 1] else [])
  }

  lemma {:induction false} FilterPositions(all: seq<Condition>, n: nat)
    requires n <= |all|
    ensures |Filter(all, n)| == |Positions(all, n)|
    ensures forall k :: 0 <= k < |Positions(all, n)| ==>
              Kept(all, Positions(all, n)[k]) && Filter(all, n)[k] == all[Positions(all, n)[k]]
    ensures forall i: nat :: i < n && Kept(all, i) ==> i in Positions(all, n)
    ensures forall k, l :: 0 <= k < l < |Positions(all, n)| ==> Positions(all, n)[k] < Positions(all, n)[l]
  {
    hide Kept;
    if n > 0 { FilterPositions(all, n - 1); }
  }

  function Rank(r: Relation): nat {
    match r
    case Positive => 0
    case Negative => 0
    case Nonnegative => 1
    case Nonzero => 2
  }

  /** A dropped condition always has a kept one that implies it: dropping goes down in (strength, position). */
  lemma {:induction false} KeptImplier(all: seq<Condition>, i: nat) returns (k: nat)
    requires i < |all|
    ensures k < |all| && Kept(all, k)
    ensures all[k].subject == all[i].subject && Implies(all[k].relation, all[i].relation)
    decreases Rank(all[i].relation), i
  {
    if Kept(all, i) {
      k := i;
    } else {
      var j: nat :| j < |all| && Drops(all, j, i);
      k := KeptImplier(all, j);
    }
  }

  lemma FilterKeepsMeaning(all: seq<Condition>, value: nat -> real)
    ensures Satisfied(Filter(all, |all|), value) <==> Satisfied(all, value)
  {
    var kept, ps := Filter(all, |all|), Positions(all, |all|);
    FilterPositions(all, |all|);
    if Satisfied(kept, value) {
      forall i | 0 <= i < |all| ensures Meets(value(all[i].subject), all[i].relation) {
        var k := KeptImplier(all, i);
        var at :| 0 <= at < |ps| && ps[at] == k;
        assert kept[at] == all[k];
      }
    }
    if Satisfied(all, value) {
      forall i | 0 <= i < |kept| ensures Meets(value(kept[i].subject), kept[i].relation) {
        assert kept[i] == all[ps[i]];
      }
    }
  }

  lemma CombineKeepsMeaning(flat: seq<Condition>, value: nat -> real)
    ensures Satisfied(Combined(flat), value) <==> Satisfied(flat, value)
  {
    var all := Combined(flat);
    if Satisfied(flat, value) {
      forall i | 0 <= i < |all| ensures Meets(value(all[i].subject), all[i].relation) {
        var c := flat[i];
        if c.relation == Nonnegative && BesideNonzero(flat, c) {
          var d :| d in flat && d.relation == Nonzero && d.reason == c.reason && d.subject == c.subject;
          var j :| 0 <= j < |flat| && flat[j] == d;
          assert Meets(value(flat[j].subject), Nonzero) && Meets(value(c.subject), Nonnegative);
        }
      }
    }
    if Satisfied(all, value) {
      forall i | 0 <= i < |flat| ensures Meets(value(flat[i].subject), flat[i].relation) {
        assert Meets(value(all[i].subject), all[i].relation);
      }
    }
  }

  lemma SatisfiedConcat(a: seq<Condition>, b: seq<Condition>, value: nat -> real)
    ensures Satisfied(a + b, value) <==> Satisfied(a, value) && Satisfied(b, value)
  {
    if Satisfied(a + b, value) {
      forall i | 0 <= i < |a| ensures Meets(value(a[i].subject), a[i].relation) { assert (a + b)[i] == a[i]; }
      forall i | 0 <= i < |b| ensures Meets(value(b[i].subject), b[i].relation) { assert (a + b)[|a| + i] == b[i]; }
    }
  }

  lemma {:induction false} FlatMeaning(lists: seq<seq<Condition>>, value: nat -> real)
    ensures Satisfied(Flat(lists), value) <==> forall l :: l in lists ==> Satisfied(l, value)
  {
    if lists != [] {
      hide Satisfied;
      FlatMeaning(lists[1..], value);
      SatisfiedConcat(lists[0], Flat(lists[1..]), value);
      assert forall l :: l in lists <==> l == lists[0] || l in lists[1..];
    }
  }

  /** The merged list says exactly what all the lists say together. */
  lemma MergeKeepsMeaning(lists: seq<seq<Condition>>, value: nat -> real)
    ensures Satisfied(Merge(lists), value) <==> forall l :: l in lists ==> Satisfied(l, value)
  {
    hide Satisfied, Filter, Flat;
    var flat := Flat(lists);
    FlatMeaning(lists, value);
    CombineKeepsMeaning(flat, value);
    FilterKeepsMeaning(Combined(flat), value);
  }

  /** No condition implies another on its subject. */
  predicate Irredundant(cs: seq<Condition>) {
    forall i, j :: 0 <= i < |cs| && 0 <= j < |cs| && i != j && cs[i].subject == cs[j].subject ==>
      !Implies(cs[i].relation, cs[j].relation)
  }

  lemma MergeIsIrredundant(lists: seq<seq<Condition>>)
    ensures Irredundant(Merge(lists))
  {
    var all := Combined(Flat(lists));
    var kept, ps := Filter(all, |all|), Positions(all, |all|);
    FilterPositions(all, |all|);
    forall i, j | 0 <= i < |kept| && 0 <= j < |kept| && i != j && kept[i].subject == kept[j].subject
      ensures !Implies(kept[i].relation, kept[j].relation)
    {
      assert kept[i] == all[ps[i]] && kept[j] == all[ps[j]];
      assert Kept(all, ps[i]) && Kept(all, ps[j]);
      assert !Drops(all, ps[i], ps[j]) && !Drops(all, ps[j], ps[i]);
    }
  }

  lemma {:induction false} FilterHas(all: seq<Condition>, k: nat)
    requires k < |all| && Kept(all, k)
    ensures all[k] in Filter(all, |all|)
  {
    FilterPositions(all, |all|);
    var at :| 0 <= at < |Positions(all, |all|)| && Positions(all, |all|)[at] == k;
    assert Filter(all, |all|)[at] == all[k];
  }

  /** `u >= 0` beside `u != 0` for one reason becomes `u > 0`: it is kept, and nothing weaker on its subject is. */
  lemma MergeCombines(lists: seq<seq<Condition>>, c: Condition)
    requires c.relation == Nonnegative && c in Flat(lists) && c.(relation := Nonzero) in Flat(lists)
    ensures exists d :: d in Merge(lists) && d.subject == c.subject && d.relation == Positive
    ensures forall d :: d in Merge(lists) && d.subject == c.subject ==> d.relation != Nonnegative && d.relation != Nonzero
  {
    var flat := Flat(lists);
    var all := Combined(flat);
    var i :| 0 <= i < |flat| && flat[i] == c;
    assert BesideNonzero(flat, c);
    assert all[i] == c.(relation := Positive);
    var k := KeptImplier(all, i);
    FilterHas(all, k);
    MergeIsIrredundant(lists);
    forall d | d in Merge(lists) && d.subject == c.subject ensures d.relation != Nonnegative && d.relation != Nonzero {
      var x :| 0 <= x < |Merge(lists)| && Merge(lists)[x] == all[k];
      var y :| 0 <= y < |Merge(lists)| && Merge(lists)[y] == d;
    }
  }

  /** Every kept condition is one of the given ones, or the combination of two of them. */
  lemma MergeInventsNothing(lists: seq<seq<Condition>>, c: Condition)
    requires c in Merge(lists)
    ensures c in Flat(lists)
         || (c.relation == Positive && c.(relation := Nonnegative) in Flat(lists) && c.(relation := Nonzero) in Flat(lists))
  {
    var flat := Flat(lists);
    var all := Combined(flat);
    FilterPositions(all, |all|);
    var k :| 0 <= k < |Merge(lists)| && Merge(lists)[k] == c;
    var i := Positions(all, |all|)[k];
    assert all[i] == Combine(flat, flat[i]);
  }

  /** The result keeps the order of the lists, and of equal conditions the first. */
  lemma MergeKeepsTheFirst(lists: seq<seq<Condition>>) returns (ps: seq<nat>)
    ensures |ps| == |Merge(lists)|
    ensures forall k, l :: 0 <= k < l < |ps| ==> ps[k] < ps[l]
    ensures var all := Combined(Flat(lists));
            forall k :: 0 <= k < |ps| ==>
              && ps[k] < |all| && Merge(lists)[k] == all[ps[k]]
              && forall j :: 0 <= j < ps[k] ==> all[j].(reason := 0) != all[ps[k]].(reason := 0)
  {
    var all := Combined(Flat(lists));
    ps := Positions(all, |all|);
    FilterPositions(all, |all|);
    forall k, j: nat | 0 <= k < |ps| && j < ps[k] ensures all[j].(reason := 0) != all[ps[k]].(reason := 0) {
      assert Kept(all, ps[k]);
      assert !Drops(all, j, ps[k]);
    }
  }

  /** Merging what is already irredundant and combined changes nothing. */
  lemma {:induction false} FilterAll(all: seq<Condition>, n: nat)
    requires Irredundant(all) && n <= |all|
    ensures Filter(all, n) == all[..n]
  {
    if n > 0 {
      FilterAll(all, n - 1);
      assert Kept(all, n - 1);
    }
  }

  /** Merging again changes nothing. */
  lemma MergeIsIdempotent(lists: seq<seq<Condition>>)
    ensures Merge([Merge(lists)]) == Merge(lists)
  {
    var flat, merged := Flat(lists), Merge(lists);
    var all := Combined(flat);
    assert Flat([merged]) == merged by {
      var none: seq<seq<Condition>> := [];
      assert [merged][1..] == none;
      assert merged + [] == merged;
    }
    forall i | 0 <= i < |merged| ensures Combine(merged, merged[i]) == merged[i] {
      FilterPositions(all, |all|);
      var c := merged[i];
      var p := Positions(all, |all|)[i];
      assert all[p] == Combine(flat, flat[p]) == c;
      if c.relation == Nonnegative && BesideNonzero(merged, c) {
        var d :| d in merged && d.relation == Nonzero && d.reason == c.reason && d.subject == c.subject;
        MergeInventsNothing(lists, d);
        assert d in flat;
        assert BesideNonzero(flat, flat[p]);
      }
    }
    assert Combined(merged) == merged;
    MergeIsIrredundant(lists);
    FilterAll(merged, |merged|);
  }
}
