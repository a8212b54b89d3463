/** A list of conditions that stands for a map keyed by type: SetConditions, DedupeConditions
    and the sort-based ConditionedStatus.Equal. */
module Conditions {
  import opened GoInt

  type Text = seq<byte>

  datatype Condition = Condition(
    typ: Text, status: Text, observedGeneration: int, lastTransitionTime: int, reason: Text, message: Text)
  {
    /** Condition.Equal: everything but the transition time. */
    predicate Equal(other: Condition) {
      && typ == other.typ
      && status == other.status
      && reason == other.reason
      && message == other.message
      && observedGeneration == other.observedGeneration
    }
  }

  /** Equal says that two conditions become the same once one is given the other's transition
      time: every other field counts, and that one does not. */
  lemma EqualIff(a: Condition, b: Condition, t: int)
    ensures a.Equal(b) <==> a.(lastTransitionTime := b.lastTransitionTime) == b
    ensures a.(lastTransitionTime := t).Equal(b) <==> a.Equal(b)
  {
  }

  function Types(cs: seq<Condition>): (ts: seq<Text>)
    ensures |ts| == |cs| && forall i :: 0 <= i < |cs| ==> ts[i] == cs[i].typ
  {
    seq(|cs|, i requires 0 <= i < |cs| => cs[i].typ)
  }

  /** At most one condition of each type. */
  predicate Unique(cs: seq<Condition>) {
    forall i, j :: 0 <= i < j < |cs| ==> cs[i].typ != cs[j].typ
  }

  /** The first condition of the type. */
  function Lookup(cs: seq<Condition>, t: Text): (r: Option<Condition>)
    ensures r != None ==> r.value in cs && r.value.typ == t
    ensures r == None <==> t !in Types(cs)
  {
    if cs == [] then None
    else if cs[0].typ == t then assert Types(cs)[0] == t; Some(cs[0])
    else
      var r := Lookup(cs[1..], t);
      assert Types(cs) == [cs[0].typ] + Types(cs[1..]);
      r
  }

  lemma {:induction false} LookupUnique(cs: seq<Condition>, c: Condition)
    requires Unique(cs) && c in cs
    ensures Lookup(cs, c.typ) == Some(c)
  {
    if cs[0] != c { LookupUnique(cs[1..], c); }
  }

  lemma LookupCons(c: Condition, cs: seq<Condition>, t: Text)
    ensures Lookup([c] + cs, t) == if c.typ == t then Some(c) else Lookup(cs, t)
  {
    assert ([c] + cs)[1..] == cs;
  }

  lemma {:induction false} LookupAppend(cs: seq<Condition>, ds: seq<Condition>, t: Text)
    ensures Lookup(cs + ds, t) == if t in Types(cs) then Lookup(cs, t) else Lookup(ds, t)
  {
    if cs == [] {
      assert cs + ds == ds;
    } else {
      assert (cs + ds)[1..] == cs[1..] + ds;
      assert Types(cs) == [cs[0].typ] + Types(cs[1..]);
      LookupAppend(cs[1..], ds, t);
    }
  }

  /** Two entries that differ at most in their transition time, or none at all. */
  predicate SameEntry(a: Option<Condition>, b: Option<Condition>) {
    (a == None) == (b == None) && (a != None && b != None ==> a.value.Equal(b.value))
  }

  // ----- SetConditions

  /** The inner loop: entries of the type are replaced until one is already equal. */
  function Overwrite(cs: seq<Condition>, c: Condition): seq<Condition> {
    if cs == [] then []
    else if cs[0].typ != c.typ then [cs[0]] + Overwrite(cs[1..], c)
    else if cs[0].Equal(c) then cs
    else [c] + Overwrite(cs[1..], c)
  }

  function SetOne(cs: seq<Condition>, c: Condition): seq<Condition> {
    if c.typ in Types(cs) then Overwrite(cs, c) else cs + [c]
  }

  function SetAll(cs: seq<Condition>, more: seq<Condition>): seq<Condition>
    decreases |more|
  {
    if more == [] then cs else SetAll(SetOne(cs, more[0]), more[1..])
  }

  lemma {:induction false} OverwriteTypes(cs: seq<Condition>, c: Condition)
    ensures Types(Overwrite(cs, c)) == Types(cs)
  {
    if cs != [] {
      OverwriteTypes(cs[1..], c);
      assert Types(cs) == [cs[0].typ] + Types(cs[1..]);
      var rest := Overwrite(cs[1..], c);
      assert forall d: Condition :: Types([d] + rest) == [d.typ] + Types(rest);
    }
  }

  lemma OverwriteCons(d: Condition, rest: seq<Condition>, c: Condition)
    ensures Overwrite([d] + rest, c)
         == if d.typ != c.typ then [d] + Overwrite(rest, c)
            else if d.Equal(c) then [d] + rest
            else [c] + Overwrite(rest, c)
  {
    assert ([d] + rest)[1..] == rest;
  }

  lemma {:induction false} OverwriteLookup(cs: seq<Condition>, c: Condition, t: Text)
    ensures Lookup(Overwrite(cs, c), t)
         == if t != c.typ || Lookup(cs, t) == None || Lookup(cs, t).value.Equal(c) then Lookup(cs, t) else Some(c)
  {
    if cs != [] {
      hide Lookup, Overwrite, Types;
      var rest := Overwrite(cs[1..], c);
      assert cs == [cs[0]] + cs[1..];
      OverwriteLookup(cs[1..], c, t);
      OverwriteCons(cs[0], cs[1..], c);
      LookupCons(cs[0], cs[1..], t);
      LookupCons(cs[0], rest, t);
      LookupCons(c, rest, t);
    }
  }

  lemma {:induction false} UniqueTypes(cs: seq<Condition>, ds: seq<Condition>)
    requires Types(cs) == Types(ds)
    ensures Unique(cs) <==> Unique(ds)
  {
    forall i | 0 <= i < |cs| ensures cs[i].typ == ds[i].typ {
      assert Types(cs)[i] == Types(ds)[i];
    }
  }

  /** Setting one condition updates the map: an equal entry keeps its old transition time,
      a new type is appended, the order of the others and their values do not change. */
  lemma SetOneRefinesUpdate(cs: seq<Condition>, c: Condition, t: Text)
    ensures Types(SetOne(cs, c)) == if c.typ in Types(cs) then Types(cs) else Types(cs) + [c.typ]
    ensures Unique(cs) ==> Unique(SetOne(cs, c))
    ensures Lookup(SetOne(cs, c), t)
         == if t != c.typ then Lookup(cs, t)
            else if Lookup(cs, t) != None && Lookup(cs, t).value.Equal(c) then Lookup(cs, t)
            else Some(c)
  {
    if c.typ in Types(cs) {
      OverwriteTypes(cs, c);
      OverwriteLookup(cs, c, t);
      UniqueTypes(cs, Overwrite(cs, c));
    } else {
      assert Types(cs + [c]) == Types(cs) + [c.typ];
      forall i | 0 <= i < |cs| ensures cs[i].typ != c.typ { assert Types(cs)[i] == cs[i].typ; }
      LookupAppend(cs, [c], t);
    }
  }

  /** The last condition of the type. */
  function LastOf(cs: seq<Condition>, t: Text): Option<Condition> {
    if cs == [] then None
    else if cs[|cs| - 1].typ == t then Some(cs[|cs| - 1])
    else LastOf(cs[..|cs| - 1], t)
  }

  lemma {:induction false} LastOfCons(cs: seq<Condition>, t: Text)
    requires cs != []
    ensures LastOf(cs, t) == if LastOf(cs[1..], t) != None then LastOf(cs[1..], t)
                             else if cs[0].typ == t then Some(cs[0]) else None
  {
    var init := cs[..|cs| - 1];
    if |cs| == 1 {
      assert init == [] && cs[1..] == [];
    } else {
      assert cs[1..][|cs| - 2] == cs[|cs| - 1];
      assert cs[1..][..|cs| - 2] == init[1..];
      LastOfCons(init, t);
    }
  }

  /** A batch leaves, up to transition time, the last condition supplied for each type and
      the old one for types not supplied; types stay unique. */
  lemma {:induction false} SetAllLookup(cs: seq<Condition>, more: seq<Condition>, t: Text)
    ensures Unique(cs) ==> Unique(SetAll(cs, more))
    ensures SameEntry(Lookup(SetAll(cs, more), t), if LastOf(more, t) == None then Lookup(cs, t) else LastOf(more, t))
    decreases |more|
  {
    if more != [] {
      SetOneRefinesUpdate(cs, more[0], t);
      SetAllLookup(SetOne(cs, more[0]), more[1..], t);
      LastOfCons(more, t);
    }
  }

  /** Supplying conditions that are all equal to those already set changes nothing, not
      even a transition time or the order. */
  lemma {:induction false} SetNothingNew(cs: seq<Condition>, more: seq<Condition>)
    requires forall c <- more :: Lookup(cs, c.typ) != None && Lookup(cs, c.typ).value.Equal(c)
    ensures SetAll(cs, more) == cs
    decreases |more|
  {
    if more != [] {
      OverwriteEqual(cs, more[0]);
      SetNothingNew(cs, more[1..]);
    }
  }

  lemma {:induction false} OverwriteEqual(cs: seq<Condition>, c: Condition)
    requires Lookup(cs, c.typ) != None && Lookup(cs, c.typ).value.Equal(c)
    ensures Overwrite(cs, c) == cs
  {
    if cs[0].typ != c.typ {
      OverwriteEqual(cs[1..], c);
      assert cs == [cs[0]] + cs[1..];
    }
  }

  /** A condition that is supplied again with another transition time is not set: the list, the
      old time included, stays as it is. */
  lemma OldTimeKept(cs: seq<Condition>, c: Condition, t: int)
    requires Unique(cs) && c in cs
    ensures SetAll(cs, [c.(lastTransitionTime := t)]) == cs
  {
    LookupUnique(cs, c);
    SetNothingNew(cs, [c.(lastTransitionTime := t)]);
  }

  /** A list that holds a type several times, place by place: entries of the type are replaced
      up to the first one that is already equal, the others are left. */
  lemma {:induction false} SetOneAt(cs: seq<Condition>, c: Condition, j: nat)
    requires j < |cs|
    ensures |cs| <= |SetOne(cs, c)| <= |cs| + 1
    ensures SetOne(cs, c)[j] == if cs[j].typ == c.typ && NoneEqual(cs, c, j) then c else cs[j]
    ensures |SetOne(cs, c)| == |cs| + 1 ==> SetOne(cs, c)[|cs|] == c && forall d <- cs :: d.typ != c.typ
  {
    OverwriteAt(cs, c, j);
    OverwriteTypes(cs, c);
    forall i | 0 <= i < |cs| ensures cs[i].typ in Types(cs) { assert Types(cs)[i] == cs[i].typ; }
  }

  /** None of the first j + 1 entries is equal to c. */
  predicate NoneEqual(cs: seq<Condition>, c: Condition, j: nat)
    requires j < |cs|
  {
    forall i :: 0 <= i <= j ==> !cs[i].Equal(c)
  }

  lemma NoneEqualCons(d: Condition, rest: seq<Condition>, c: Condition, j: nat)
    requires j <= |rest|
    ensures NoneEqual([d] + rest, c, j) <==> !d.Equal(c) && (j == 0 || NoneEqual(rest, c, j - 1))
  {
    forall i | 0 < i <= j ensures ([d] + rest)[i] == rest[i - 1] {}
    if NoneEqual([d] + rest, c, j) {
      assert ([d] + rest)[0] == d;
      forall i | 0 <= i < j ensures !rest[i].Equal(c) { assert ([d] + rest)[i + 1] == rest[i]; }
    }
  }

  lemma {:induction false} OverwriteAt(cs: seq<Condition>, c: Condition, j: nat)
    requires j < |cs|
    ensures |Overwrite(cs, c)| == |cs|
    ensures Overwrite(cs, c)[j] == if cs[j].typ == c.typ && NoneEqual(cs, c, j) then c else cs[j]
    decreases |cs|
  {
    hide Overwrite, NoneEqual, Types;
    var d, rest := cs[0], cs[1..];
    assert cs == [d] + rest;
    OverwriteTypes(cs, c);
    OverwriteTypes(rest, c);
    OverwriteCons(d, rest, c);
    NoneEqualCons(d, rest, c, j);
    if j > 0 { OverwriteAt(rest, c, j - 1); }
  }

  class ConditionedStatus {
    var conditions: seq<Condition>

    constructor ()
      ensures conditions == []
    {
      conditions := [];
    }

    method SetConditions(cs: seq<Condition>)
      modifies this
      ensures conditions == SetAll(old(conditions), cs)
    {
      assert cs[0..] == cs;
      for n := 0 to |cs|
        invariant SetAll(conditions, cs[n..]) == SetAll(old(conditions), cs)
      {
        assert cs[n..][1..] == cs[n + 1..];
        SetOneCondition(cs[n]);
      }
    }

    /** The body of the outer loop. */
    method SetOneCondition(c: Condition)
      modifies this
      ensures conditions == SetOne(old(conditions), c)
    {
      hide Overwrite, Types;
      ghost var was := conditions;
      ghost var done: seq<Condition> := [];
      var found := false;
      var i := 0;
      OverwriteEnds(was, c);
      while i < |conditions|
        invariant |conditions| == |was| && i == |done| <= |was|
        invariant conditions[..i] == done && conditions[i..] == was[i..]
        invariant done + Overwrite(was[i..], c) == Overwrite(was, c)
        invariant if found then c.typ in Types(was) else done == was[..i] && c.typ !in Types(was[..i])
      {
        var existing := conditions[i];
        assert existing == was[i..][0] && conditions[i + 1..] == conditions[i..][1..] == was[i..][1..] == was[i + 1..];
        OverwriteStep(was, i, c);
        ghost var rest := Overwrite(was[i + 1..], c);
        if existing.typ == c.typ {
          found := true;
          if existing.Equal(c) {
            assert conditions == conditions[..i] + conditions[i..];
            return;
          }
          conditions := conditions[i := c];
        }
        assert done + ([conditions[i]] + rest) == done + [conditions[i]] + rest;
        done := done + [conditions[i]];
        assert conditions[..i + 1] == conditions[..i] + [conditions[i]];
        i := i + 1;
      }
      assert conditions == conditions[..i] && was[..|was|] == was;
      if !found {
        conditions := conditions + [c];
      }
    }
  }

  lemma OverwriteEnds(was: seq<Condition>, c: Condition)
    ensures was[0..] == was && Overwrite(was[|was|..], c) == []
    ensures c.typ !in Types(was[..0])
  {
  }

  lemma OverwriteStep(was: seq<Condition>, i: nat, c: Condition)
    requires i < |was|
    ensures Overwrite(was[i..], c)
         == if was[i].typ != c.typ then [was[i]] + Overwrite(was[i + 1..], c)
            else if was[i].Equal(c) then was[i..]
            else [c] + Overwrite(was[i + 1..], c)
    ensures was[i].typ in Types(was)
    ensures c.typ in Types(was[..i + 1]) <==> c.typ in Types(was[..i]) || was[i].typ == c.typ
  {
    assert was[i..][1..] == was[i + 1..];
    assert Types(was)[i] == was[i].typ;
    assert Types(was[..i + 1]) == Types(was[..i]) + [was[i].typ];
  }

  // ----- DedupeConditions

  method DedupeConditions(conds: seq<Condition>) returns (out: seq<Condition>)
    ensures Deduped(conds, out)
  {
    hide Lookup, LastOf, SetAll, Deduped;
    var index: map<Text, nat> := map[];
    out := [];
    NothingDeduped();
    for n := 0 to |conds|
      invariant Indexes(index, out)
      invariant Deduped(conds[..n], out) && Unique(out)
    {
      var c := conds[n];
      ghost var was := out;
      if c.typ in index {
        out := out[index[c.typ] := c];
        ReplaceOne(was, index[c.typ], c);
      } else {
        index := index[c.typ := |out|];
        out := out + [c];
        AppendOne(was, c);
      }
      assert conds[..n + 1] == conds[..n] + [c];
      DedupedStep(conds[..n], was, c, out);
    }
    assert conds[..|conds|] == conds;
  }

  /** The index map points at the entry of each type. */
  predicate Indexes(index: map<Text, nat>, out: seq<Condition>) {
    && index.Keys == (set t <- Types(out))
    && forall t <- index :: index[t] < |out| && out[index[t]].typ == t
  }

  ghost predicate Deduped(conds: seq<Condition>, out: seq<Condition>) {
    && Unique(out)
    && (forall t :: Lookup(out, t) == LastOf(conds, t))
    && Types(out) == Types(SetAll([], conds))
  }

  lemma NothingDeduped()
    ensures Deduped([], [])
  {
  }

  /** out is was with c put in, at the place of its type or at the end. */
  ghost predicate PutIn(was: seq<Condition>, c: Condition, out: seq<Condition>) {
    && Unique(out)
    && Types(out) == (if c.typ in Types(was) then Types(was) else Types(was) + [c.typ])
    && forall t :: Lookup(out, t) == if t == c.typ then Some(c) else Lookup(was, t)
  }

  lemma ReplaceOne(was: seq<Condition>, i: nat, c: Condition)
    requires Unique(was) && i < |was| && was[i].typ == c.typ
    ensures PutIn(was, c, was[i := c])
  {
    assert Types(was)[i] == c.typ;
    assert Types(was[i := c]) == Types(was);
    forall t ensures Lookup(was[i := c], t) == if t == c.typ then Some(c) else Lookup(was, t) {
      Replaced(was, i, c, t);
    }
  }

  lemma {:induction false} Replaced(cs: seq<Condition>, i: nat, c: Condition, t: Text)
    requires Unique(cs) && i < |cs| && cs[i].typ == c.typ
    ensures Lookup(cs[i := c], t) == if t == c.typ then Some(c) else Lookup(cs, t)
  {
    if i == 0 {
      assert cs[0 := c][1..] == cs[1..];
    } else {
      assert cs[i := c][1..] == cs[1..][i - 1 := c];
      Replaced(cs[1..], i - 1, c, t);
    }
  }

  lemma AppendOne(was: seq<Condition>, c: Condition)
    requires Unique(was) && c.typ !in Types(was)
    ensures PutIn(was, c, was + [c])
  {
    assert Types(was + [c]) == Types(was) + [c.typ];
    forall i | 0 <= i < |was| ensures was[i].typ != c.typ { assert Types(was)[i] == was[i].typ; }
    forall t ensures Lookup(was + [c], t) == if t == c.typ then Some(c) else Lookup(was, t) {
      LookupAppend(was, [c], t);
    }
  }

  lemma DedupedStep(conds: seq<Condition>, was: seq<Condition>, c: Condition, out: seq<Condition>)
    requires Deduped(conds, was) && PutIn(was, c, out)
    ensures Deduped(conds + [c], out) && Unique(out)
  {
    hide SetAll, SetOne, Lookup;
    SetAllAppend([], conds, c);
    SetOneRefinesUpdate(SetAll([], conds), c, c.typ);
    assert (conds + [c])[..|conds|] == conds;
  }

  lemma {:induction false} SetAllAppend(cs: seq<Condition>, more: seq<Condition>, c: Condition)
    ensures SetAll(cs, more + [c]) == SetOne(SetAll(cs, more), c)
    decreases |more|
  {
    hide SetOne;
    if more == [] {
      assert ([] + [c])[1..] == [];
    } else {
      assert (more + [c])[1..] == more[1..] + [c];
      SetAllAppend(SetOne(cs, more[0]), more[1..], c);
    }
  }

  /** DedupeConditions(c...) and SetConditions(c...) on an empty status hold the same types in
      the same order, and equal conditions up to transition time. */
  lemma DedupeAgrees(conds: seq<Condition>, out: seq<Condition>, i: nat)
    requires Deduped(conds, out) && i < |out|
    ensures |SetAll([], conds)| == |out| && SetAll([], conds)[i].Equal(out[i])
  {
    var other := SetAll([], conds);
    assert Types(other)[i] == Types(out)[i];
    SetAllLookup([], conds, out[i].typ);
    LookupUnique(out, out[i]);
    LookupUnique(other, other[i]);
  }

  // ----- ConditionedStatus.Equal

  /** Go's < on strings. */
  predicate Less(a: Text, b: Text) {
    if b == [] then false
    else if a == [] then true
    else a[0] < b[0] || (a[0] == b[0] && Less(a[1..], b[1..]))
  }

  lemma {:induction false} LessTotal(a: Text, b: Text)
    ensures !(Less(a, b) && Less(b, a))
    ensures !Less(a, b) && !Less(b, a) <==> a == b
  {
    if a != [] && b != [] {
      LessTotal(a[1..], b[1..]);
      assert a == [a[0]] + a[1..] && b == [b[0]] + b[1..];
    }
  }

  lemma {:induction false} LessTransitive(a: Text, b: Text, c: Text)
    ensures Less(a, b) && Less(b, c) ==> Less(a, c)
    ensures !Less(b, a) && !Less(c, b) ==> !Less(c, a)
  {
    if a != [] && b != [] && c != [] {
      LessTransitive(a[1..], b[1..], c[1..]);
    }
  }

  predicate Sorted(cs: seq<Condition>) {
    forall i, j :: 0 <= i < j < |cs| ==> !Less(cs[j].typ, cs[i].typ)
  }

  /** sort.Slice by type: some sorted permutation, which one among equal types is not said. */
  method SortByType(cs: seq<Condition>) returns (out: seq<Condition>)
    ensures Sorted(out) && multiset(out) == multiset(cs)
  {
    out := [];
    for n := 0 to |cs|
      invariant Sorted(out) && multiset(out) == multiset(cs[..n])
    {
      assert cs[..n + 1] == cs[..n] + [cs[n]];
      out := Insert(out, cs[n]);
    }
    assert cs[..|cs|] == cs;
  }

  method Insert(cs: seq<Condition>, c: Condition) returns (out: seq<Condition>)
    requires Sorted(cs)
    ensures Sorted(out) && multiset(out) == multiset(cs) + multiset{c}
  {
    var i := |cs|;
    while i > 0 && Less(c.typ, cs[i - 1].typ)
      invariant 0 <= i <= |cs|
      invariant forall j :: i <= j < |cs| ==> Less(c.typ, cs[j].typ)
    {
      i := i - 1;
    }
    out := cs[..i] + [c] + cs[i..];
    InsertSorted(cs, i, c);
    assert cs == cs[..i] + cs[i..];
  }

  lemma InsertSorted(cs: seq<Condition>, i: nat, c: Condition)
    requires Sorted(cs) && i <= |cs|
    requires i > 0 ==> !Less(c.typ, cs[i - 1].typ)
    requires forall j :: i <= j < |cs| ==> Less(c.typ, cs[j].typ)
    ensures Sorted(cs[..i] + [c] + cs[i..])
  {
    hide Less;
    forall j | 0 <= j < i ensures !Less(c.typ, cs[j].typ) {
      LessTransitive(cs[j].typ, cs[i - 1].typ, c.typ);
    }
    forall j | i <= j < |cs| ensures !Less(cs[j].typ, c.typ) {
      LessTotal(c.typ, cs[j].typ);
    }
  }

  /** The two statuses hold the same types, with equal conditions up to transition time. */
  ghost predicate SameMap(cs: seq<Condition>, ds: seq<Condition>) {
    forall t :: SameEntry(Lookup(cs, t), Lookup(ds, t))
  }

  lemma {:induction false} UniqueCount(cs: seq<Condition>, c: Condition)
    requires Unique(cs)
    ensures multiset(cs)[c] <= 1
  {
    if cs != [] {
      UniqueCount(cs[1..], c);
      assert cs == [cs[0]] + cs[1..];
      if c == cs[0] {
        assert c !in cs[1..];
      }
    }
  }

  lemma CountTwice(ds: seq<Condition>, i: nat, j: nat)
    requires i < j < |ds| && ds[i] == ds[j]
    ensures multiset(ds)[ds[i]] >= 2
  {
    assert ds == ds[..j] + ds[j..] && ds[i] == ds[..j][i] && ds[j] == ds[j..][0];
    assert ds[i] in multiset(ds[..j]) && ds[i] in multiset(ds[j..]);
  }

  /** Order does not matter to a type-unique list. */
  lemma PermutedSameMap(cs: seq<Condition>, ds: seq<Condition>)
    requires Unique(cs) && multiset(cs) == multiset(ds)
    ensures Unique(ds) && forall t :: Lookup(cs, t) == Lookup(ds, t)
  {
    assert forall c :: c in cs <==> c in multiset(cs);
    assert forall c :: c in ds <==> c in multiset(ds);
    forall i, j | 0 <= i < j < |ds|
      ensures ds[i].typ != ds[j].typ
    {
      if ds[i].typ == ds[j].typ {
        LookupUnique(cs, ds[i]);
        LookupUnique(cs, ds[j]);
        CountTwice(ds, i, j);
        UniqueCount(cs, ds[i]);
      }
    }
    forall t
      ensures Lookup(cs, t) == Lookup(ds, t)
    {
      if Lookup(cs, t) != None { LookupUnique(ds, Lookup(cs, t).value); }
      if Lookup(ds, t) != None { LookupUnique(cs, Lookup(ds, t).value); }
    }
  }

  function TypeSet(cs: seq<Condition>): set<Text> {
    if cs == [] then {} else {cs[0].typ} + TypeSet(cs[1..])
  }

  lemma {:induction false} TypeSetLookup(cs: seq<Condition>, t: Text)
    ensures t in TypeSet(cs) <==> Lookup(cs, t) != None
  {
    if cs != [] { TypeSetLookup(cs[1..], t); }
  }

  lemma {:induction false} TypeSetSize(cs: seq<Condition>)
    requires Unique(cs)
    ensures |TypeSet(cs)| == |cs|
  {
    if cs != [] {
      hide Lookup;
      TypeSetSize(cs[1..]);
      TypeSetLookup(cs[1..], cs[0].typ);
      assert Lookup(cs[1..], cs[0].typ) == None by {
        forall i | 0 <= i < |cs[1..]| ensures Types(cs[1..])[i] != cs[0].typ { assert cs[1..][i] == cs[i + 1]; }
      }
    }
  }

  lemma SameMapSameSize(cs: seq<Condition>, ds: seq<Condition>)
    requires Unique(cs) && Unique(ds) && SameMap(cs, ds)
    ensures |cs| == |ds|
  {
    TypeSetSize(cs);
    TypeSetSize(ds);
    forall t ensures t in TypeSet(cs) <==> t in TypeSet(ds) {
      TypeSetLookup(cs, t);
      TypeSetLookup(ds, t);
      assert SameEntry(Lookup(cs, t), Lookup(ds, t));
    }
    assert TypeSet(cs) == TypeSet(ds);
  }

  lemma {:induction false} PointwiseSame(sc: seq<Condition>, oc: seq<Condition>, t: Text)
    requires |sc| == |oc| && forall i :: 0 <= i < |sc| ==> sc[i].Equal(oc[i])
    ensures SameEntry(Lookup(sc, t), Lookup(oc, t))
  {
    if sc != [] { PointwiseSame(sc[1..], oc[1..], t); }
  }

  lemma HeadIsLeast(sc: seq<Condition>, oc: seq<Condition>)
    requires Sorted(oc) && sc != [] && SameMap(sc, oc)
    ensures oc != [] && !Less(sc[0].typ, oc[0].typ)
  {
    var t := sc[0].typ;
    assert SameEntry(Lookup(sc, t), Lookup(oc, t));
    var c := Lookup(oc, t).value;
    var k :| 0 <= k < |oc| && oc[k] == c;
    if k == 0 { LessTotal(t, t); }
  }

  lemma {:induction false} SortedSame(sc: seq<Condition>, oc: seq<Condition>)
    requires Unique(sc) && Unique(oc) && Sorted(sc) && Sorted(oc)
    requires SameMap(sc, oc) && |sc| == |oc|
    ensures forall i :: 0 <= i < |sc| ==> sc[i].Equal(oc[i])
    decreases |sc|
  {
    if sc != [] {
      HeadIsLeast(sc, oc);
      assert SameMap(oc, sc) by {
        forall t ensures SameEntry(Lookup(oc, t), Lookup(sc, t)) { assert SameEntry(Lookup(sc, t), Lookup(oc, t)); }
      }
      HeadIsLeast(oc, sc);
      var t0 := sc[0].typ;
      LessTotal(t0, oc[0].typ);
      assert SameEntry(Lookup(sc, t0), Lookup(oc, t0));
      forall t ensures SameEntry(Lookup(sc[1..], t), Lookup(oc[1..], t)) {
        assert SameEntry(Lookup(sc, t), Lookup(oc, t));
      }
      SortedSame(sc[1..], oc[1..]);
    }
  }

  lemma SortedAgree(cs: seq<Condition>, ds: seq<Condition>, sc: seq<Condition>, oc: seq<Condition>)
    requires Unique(cs) && Unique(ds) && |sc| == |oc|
    requires Sorted(sc) && multiset(sc) == multiset(cs) && Sorted(oc) && multiset(oc) == multiset(ds)
    ensures (forall i :: 0 <= i < |sc| ==> sc[i].Equal(oc[i])) <==> SameMap(cs, ds)
  {
    PermutedSameMap(cs, sc);
    PermutedSameMap(ds, oc);
    if forall i :: 0 <= i < |sc| ==> sc[i].Equal(oc[i]) {
      forall t ensures SameEntry(Lookup(cs, t), Lookup(ds, t)) { PointwiseSame(sc, oc, t); }
    }
    if SameMap(cs, ds) {
      forall t ensures SameEntry(Lookup(sc, t), Lookup(oc, t)) { assert SameEntry(Lookup(cs, t), Lookup(ds, t)); }
      SortedSame(sc, oc);
    }
  }

  lemma SameSize(a: seq<Condition>, b: seq<Condition>)
    requires multiset(a) == multiset(b)
    ensures |a| == |b|
  {
    assert |multiset(a)| == |a|;
  }

  /** Equal on two statuses; None stands for a nil pointer. */
  method StatusEqual(r: Option<seq<Condition>>, other: Option<seq<Condition>>) returns (equal: bool)
    ensures r == None || other == None ==> (equal <==> r == other)
    ensures r != None && other != None && Unique(r.value) && Unique(other.value) ==>
              (equal <==> SameMap(r.value, other.value))
  {
    if r == None || other == None { return r == None && other == None; }
    if |other.value| != |r.value| {
      if Unique(r.value) && Unique(other.value) && SameMap(r.value, other.value) {
        SameMapSameSize(r.value, other.value);
      }
      return false;
    }
    var sc := SortByType(r.value);
    var oc := SortByType(other.value);
    SameSize(sc, r.value);
    SameSize(oc, other.value);
    equal := true;
    var i := 0;
    while i < |sc| && equal
      invariant 0 <= i <= |sc|
      invariant equal <==> forall j :: 0 <= j < i ==> sc[j].Equal(oc[j])
    {
      equal := sc[i].Equal(oc[i]);
      i := i + 1;
    }
    if Unique(r.value) && Unique(other.value) {
      SortedAgree(r.value, other.value, sc, oc);
    }
  }

  /** What StatusEqual decides is an equivalence, blind to order ... */
  lemma SameMapEquivalence(cs: seq<Condition>, ds: seq<Condition>, es: seq<Condition>)
    ensures SameMap(cs, cs)
    ensures SameMap(cs, ds) ==> SameMap(ds, cs)
    ensures SameMap(cs, ds) && SameMap(ds, es) ==> SameMap(cs, es)
    ensures Unique(cs) && multiset(cs) == multiset(ds) ==> SameMap(cs, ds)
  {
    if SameMap(cs, ds) {
      forall t ensures SameEntry(Lookup(ds, t), Lookup(cs, t)) { assert SameEntry(Lookup(cs, t), Lookup(ds, t)); }
      if SameMap(ds, es) {
        forall t ensures SameEntry(Lookup(cs, t), Lookup(es, t)) {
          assert SameEntry(Lookup(cs, t), Lookup(ds, t)) && SameEntry(Lookup(ds, t), Lookup(es, t));
        }
      }
    }
    if Unique(cs) && multiset(cs) == multiset(ds) { PermutedSameMap(cs, ds); }
  }

  /** ... and to re-applying conditions: setting on cs what another status holds of the same
      types makes the two Equal; setting a status's own conditions changes nothing. */
  lemma ReapplyEqual(cs: seq<Condition>, ds: seq<Condition>)
    requires Unique(cs) && Unique(ds)
    ensures (forall t :: t in Types(cs) ==> t in Types(ds)) ==> SameMap(SetAll(cs, ds), ds)
    ensures SetAll(cs, cs) == cs
  {
    if forall t :: t in Types(cs) ==> t in Types(ds) {
      forall t ensures SameEntry(Lookup(SetAll(cs, ds), t), Lookup(ds, t)) {
        SetAllLookup(cs, ds, t);
        LastOfUnique(ds, t);
      }
    }
    forall c | c in cs ensures Lookup(cs, c.typ) == Some(c) { LookupUnique(cs, c); }
    SetNothingNew(cs, cs);
  }

  lemma {:induction false} LastOfUnique(cs: seq<Condition>, t: Text)
    requires Unique(cs)
    ensures LastOf(cs, t) == Lookup(cs, t)
  {
    if cs != [] {
      LastOfUnique(cs[1..], t);
      LastOfCons(cs, t);
      if cs[0].typ == t {
        assert forall i :: 0 <= i < |cs[1..]| ==> Types(cs[1..])[i] == cs[i + 1].typ != t;
      }
    }
  }

  /** So two lists of conditions that differ only in transition times are the same map, and
      StatusEqual on them is true if their types are unique. */
  lemma TimesDoNotCount(cs: seq<Condition>, ds: seq<Condition>)
    requires |cs| == |ds|
    requires forall i :: 0 <= i < |cs| ==> cs[i].(lastTransitionTime := ds[i].lastTransitionTime) == ds[i]
    ensures SameMap(cs, ds) && (Unique(cs) <==> Unique(ds))
  {
    forall t ensures SameEntry(Lookup(cs, t), Lookup(ds, t)) { PointwiseSame(cs, ds, t); }
    assert Types(cs) == Types(ds);
    UniqueTypes(cs, ds);
  }

  /** ... and any other difference does: the same map means the same condition of each type but
      for its time. */
  lemma SameMapIff(cs: seq<Condition>, ds: seq<Condition>)
    requires Unique(cs) && Unique(ds)
    ensures SameMap(cs, ds) <==>
              && |cs| == |ds|
              && forall c <- cs :: exists t :: c.(lastTransitionTime := t) in ds
  {
    if SameMap(cs, ds) {
      SameMapSameSize(cs, ds);
      forall c | c in cs
        ensures exists t :: c.(lastTransitionTime := t) in ds
      {
        LookupUnique(cs, c);
        assert SameEntry(Lookup(cs, c.typ), Lookup(ds, c.typ));
        var d := Lookup(ds, c.typ).value;
        assert c.(lastTransitionTime := d.lastTransitionTime) == d;
      }
    }
    if |cs| == |ds| && forall c <- cs :: exists t :: c.(lastTransitionTime := t) in ds {
      AllTypes(cs, ds);
      forall t
        ensures SameEntry(Lookup(cs, t), Lookup(ds, t))
      {
        if Lookup(cs, t) != None {
          var c := Lookup(cs, t).value;
          var u :| c.(lastTransitionTime := u) in ds;
          LookupUnique(ds, c.(lastTransitionTime := u));
        }
      }
    }
  }

  /** Type-unique lists of one length: if the types of one are all in the other, they are the same. */
  lemma AllTypes(cs: seq<Condition>, ds: seq<Condition>)
    requires Unique(cs) && Unique(ds) && |cs| == |ds|
    requires forall c <- cs :: exists t :: c.(lastTransitionTime := t) in ds
    ensures forall t :: Lookup(cs, t) == None ==> Lookup(ds, t) == None
  {
    TypeSetSize(cs);
    TypeSetSize(ds);
    forall t | t in TypeSet(cs)
      ensures t in TypeSet(ds)
    {
      TypeSetLookup(cs, t);
      var c := Lookup(cs, t).value;
      var u :| c.(lastTransitionTime := u) in ds;
      LookupUnique(ds, c.(lastTransitionTime := u));
      TypeSetLookup(ds, t);
    }
    SubsetOfSameSize(TypeSet(cs), TypeSet(ds));
    forall t | Lookup(cs, t) == None
      ensures Lookup(ds, t) == None
    {
      TypeSetLookup(cs, t);
      TypeSetLookup(ds, t);
    }
  }

  lemma SubsetOfSameSize<T>(a: set<T>, b: set<T>)
    requires a <= b && |a| == |b|
    ensures a == b
  {
    assert |b - a| == |b| - |a|;
  }
}
