/** Where the variables of a state lie in its data: insertion in order, and the overlap check. */
module Layout {
  import opened Bytes

  /** A state variable: its place in the data and the bytes of its value. */
  datatype Variable = Variable(name: string, start: nat, size: nat, raw: seq<byte>)

  /** start and size are 32-bit words, and their sum is still one. */
  predicate InRange(v: Variable) {
    v.start + v.size < TWO_32 && |v.raw| == v.size
  }

  predicate AllInRange(vars: seq<Variable>) {
    forall i :: 0 <= i < |vars| ==> InRange(vars[i])
  }

  predicate Sorted(vars: seq<Variable>) {
    forall i, j :: 0 <= i < j < |vars| ==> vars[i].start <= vars[j].start
  }

  predicate Disjoint(a: Variable, b: Variable) {
    a.start + a.size <= b.start || b.start + b.size <= a.start
  }

  predicate PairwiseDisjoint(vars: seq<Variable>) {
    forall i, j :: 0 <= i < j < |vars| ==> Disjoint(vars[i], vars[j])
  }

  /** state_add_var: insert before the first entry that does not start below the new one. */
  method AddSorted(vars: seq<Variable>, v: Variable) returns (r: seq<Variable>)
    requires Sorted(vars)
    ensures Sorted(r) && multiset(r) == multiset(vars) + multiset{v}
    ensures exists k :: 0 <= k <= |vars| && r == Inserted(vars, v, k)
                        && (forall i :: 0 <= i < k ==> vars[i].start < v.start)
                        && (k < |vars| ==> v.start <= vars[k].start)
  {
    var insert := 0;
    while insert < |vars| && vars[insert].start < v.start
      invariant 0 <= insert <= |vars|
      invariant forall i :: 0 <= i < insert ==> vars[i].start < v.start
    {
      insert := insert + 1;
    }
    r := Inserted(vars, v, insert);
    InsertedInOrder(vars, v, insert);
  }

  function Inserted(vars: seq<Variable>, v: Variable, k: nat): (r: seq<Variable>)
    requires k <= |vars|
    ensures |r| == |vars| + 1 && r[k] == v
    ensures forall i :: 0 <= i < k ==> r[i] == vars[i]
    ensures forall i :: k <= i < |vars| ==> r[i + 1] == vars[i]
  {
    vars[..k] + [v] + vars[k..]
  }

  lemma InsertedInOrder(vars: seq<Variable>, v: Variable, k: nat)
    requires Sorted(vars) && k <= |vars| && (k < |vars| ==> v.start <= vars[k].start)
    requires forall i :: 0 <= i < k ==> vars[i].start < v.start
    ensures Sorted(Inserted(vars, v, k)) && multiset(Inserted(vars, v, k)) == multiset(vars) + multiset{v}
  {
    InsertedMultiset(vars, v, k);
    hide Inserted;
    var r := Inserted(vars, v, k);
    forall i, j | 0 <= i < j < |r|
      ensures r[i].start <= r[j].start
    {
      InsertedPair(vars, v, k, i, j);
    }
  }

  lemma InsertedMultiset(vars: seq<Variable>, v: Variable, k: nat)
    requires k <= |vars|
    ensures multiset(Inserted(vars, v, k)) == multiset(vars) + multiset{v}
  {
    assert vars == vars[..k] + vars[k..];
  }

  lemma InsertedPair(vars: seq<Variable>, v: Variable, k: nat, i: nat, j: nat)
    requires Sorted(vars) && k <= |vars| && (k < |vars| ==> v.start <= vars[k].start)
    requires forall i :: 0 <= i < k ==> vars[i].start < v.start
    requires i < j <= |vars|
    ensures Inserted(vars, v, k)[i].start <= Inserted(vars, v, k)[j].start
  {
    hide Inserted;
    var r := Inserted(vars, v, k);
    if i > k {
      assert r[i - 1 + 1] == vars[i - 1];
    }
    if j > k {
      assert r[j - 1 + 1] == vars[j - 1];
    }
  }

  /** The check of two neighbours, in 32-bit arithmetic: the last byte of one lies before the
      start of the next. */
  predicate Follows(last: Variable, sv: Variable) {
    (last.start + last.size + TWO_32 - 1) % TWO_32 < sv.start
  }

  predicate NeighboursFollow(vars: seq<Variable>) {
    forall i :: 0 < i < |vars| ==> Follows(vars[i - 1], vars[i])
  }

  /** The loop over all neighbours. */
  method CheckOverlap(vars: seq<Variable>) returns (ok: bool)
    ensures ok <==> NeighboursFollow(vars)
  {
    ok := true;
    var i := 1;
    while i < |vars|
      invariant 1 <= i && (|vars| > 0 ==> i <= |vars|)
      invariant ok <==> forall k :: 0 < k < i && k < |vars| ==> Follows(vars[k - 1], vars[k])
    {
      if !Follows(vars[i - 1], vars[i]) {
        ok := false;
      }
      i := i + 1;
    }
  }

  /** The end of every entry but the last one is still a 32-bit word. */
  predicate NoInnerWrap(vars: seq<Variable>) {
    forall i :: 0 <= i < |vars| - 1 ==> vars[i].start + vars[i].size < TWO_32
  }

  /** Checking neighbours is enough: each range ends before every later one starts, so all ranges
      are disjoint and the last entry ends last. */
  lemma NeighboursSuffice(vars: seq<Variable>)
    requires NoInnerWrap(vars) && NeighboursFollow(vars)
    ensures forall i, j :: 0 <= i < j < |vars| ==> vars[i].start + vars[i].size <= vars[j].start
    ensures PairwiseDisjoint(vars)
    ensures forall i :: 0 <= i < |vars| ==>
      vars[i].start + vars[i].size <= vars[|vars| - 1].start + vars[|vars| - 1].size
  {
    forall i, j | 0 <= i < j < |vars|
      ensures vars[i].start + vars[i].size <= vars[j].start
    {
      EndsBefore(vars, i, j);
    }
  }

  lemma {:induction false} EndsBefore(vars: seq<Variable>, i: nat, j: nat)
    requires NoInnerWrap(vars) && NeighboursFollow(vars) && i < j < |vars|
    ensures vars[i].start + vars[i].size <= vars[j].start
    decreases j
  {
    assert Follows(vars[j - 1], vars[j]) && vars[j - 1].start + vars[j - 1].size < TWO_32;
    if i < j - 1 {
      EndsBefore(vars, i, j - 1);
    }
  }

  /** The check never rejects a disjoint layout, and it is fooled exactly when the end of an entry
      other than the last one wraps around. */
  lemma CheckIsExact(vars: seq<Variable>)
    requires Sorted(vars)
    requires forall i :: 0 <= i < |vars| ==> vars[i].start < TWO_32 && 0 < vars[i].size < TWO_32
    ensures PairwiseDisjoint(vars) <==> NeighboursFollow(vars) && NoInnerWrap(vars)
  {
    if PairwiseDisjoint(vars) {
      forall i | 0 <= i < |vars| - 1
        ensures vars[i].start + vars[i].size < TWO_32
      {
        assert Disjoint(vars[i], vars[i + 1]);
      }
      forall i | 0 < i < |vars|
        ensures Follows(vars[i - 1], vars[i])
      {
        assert Disjoint(vars[i - 1], vars[i]);
      }
    }
    if NeighboursFollow(vars) && NoInnerWrap(vars) {
      NeighboursSuffice(vars);
    }
  }

  /** A pair that fools the check: the end of the first entry wraps around. */
  lemma CheckWrapsAround()
    ensures var a := Variable("a", TWO_32 - 16, 32, Zeros(32));
            var b := Variable("b", TWO_32 - 8, 4, Zeros(4));
            Sorted([a, b]) && NeighboursFollow([a, b]) && !PairwiseDisjoint([a, b])
  {
    var a := Variable("a", TWO_32 - 16, 32, Zeros(32));
    var b := Variable("b", TWO_32 - 8, 4, Zeros(4));
    assert !Disjoint([a, b][0], [a, b][1]);
  }
}
