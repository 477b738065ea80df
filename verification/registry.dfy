/** A reference definition of an ordered operator registry, and the proof
    that `BasicMutators` is the registry of `MutateEqNeq` then `MutateIncDec`. */
module Registry {
  import opened Syntax
  import opened Mutators

  /** Try the operators in order, each on the node the previous one handed
      back, and stop at the first that reports a mutation. */
  function FirstMatch(ms: seq<Mutator>, n: Node): (r: Mutation)
    ensures !r.mutated ==> r.node == n
    ensures Skeleton(r.node) == Skeleton(n)
    decreases |ms|
  {
    if |ms| == 0 then Mutation(n, false)
    else
      var first := Mutate(ms[0], n);
      if first.mutated then first else FirstMatch(ms[1..], first.node)
  }

  /** The registry mutates exactly when one of its operators would mutate
      the original node. */
  lemma {:induction false} FirstMatchMutatedIff(ms: seq<Mutator>, n: Node)
    ensures FirstMatch(ms, n).mutated <==> exists i :: 0 <= i < |ms| && Mutate(ms[i], n).mutated
    decreases |ms|
  {
    if |ms| > 0 && !Mutate(ms[0], n).mutated {
      FirstMatchMutatedIff(ms[1..], n);
      if exists i :: 0 <= i < |ms| && Mutate(ms[i], n).mutated {
        var i :| 0 <= i < |ms| && Mutate(ms[i], n).mutated;
        assert ms[1..][i - 1] == ms[i];
      }
    }
  }

  /** When operator `i` is the first to mutate the node, the registry returns
      exactly what operator `i` returns on the original node; the operators
      after it are not consulted. */
  lemma {:induction false} FirstMatchIsFirst(ms: seq<Mutator>, n: Node, i: nat)
    requires i < |ms|
    requires Mutate(ms[i], n).mutated
    requires forall j :: 0 <= j < i ==> !Mutate(ms[j], n).mutated
    ensures FirstMatch(ms, n) == Mutate(ms[i], n)
    decreases i
  {
    if i > 0 {
      assert !Mutate(ms[0], n).mutated;
      forall j | 0 <= j < i - 1
        ensures !Mutate(ms[1..][j], n).mutated
      {
        assert ms[1..][j] == ms[j + 1];
      }
      FirstMatchIsFirst(ms[1..], n, i - 1);
    }
  }

  /** When no operator matches, the node comes back unchanged and unmutated. */
  lemma {:induction false} FirstMatchNone(ms: seq<Mutator>, n: Node)
    requires forall i :: 0 <= i < |ms| ==> !Mutate(ms[i], n).mutated
    ensures FirstMatch(ms, n) == Mutation(n, false)
    decreases |ms|
  {
    if |ms| > 0 {
      forall j | 0 <= j < |ms| - 1
        ensures !Mutate(ms[1..][j], n).mutated
      {
        assert ms[1..][j] == ms[j + 1];
      }
      FirstMatchNone(ms[1..], n);
    }
  }

  /** The standard operator set, in priority order. */
  const Standard: seq<Mutator> := [MutateEqNeq, MutateIncDec]

  /** `BasicMutators` behaves as the registry of the standard operators. */
  lemma BasicIsFirstMatch(n: Node)
    ensures Mutate(BasicMutators, n) == FirstMatch(Standard, n)
  {
  }

  /** `BasicMutators` mutates exactly when one of its two operators does, and
      a mutation by `MutateEqNeq` is returned without consulting
      `MutateIncDec`. */
  lemma BasicFirstMatchShortCircuit(n: Node)
    ensures Mutate(BasicMutators, n).mutated <==> exists i :: 0 <= i < |Standard| && Mutate(Standard[i], n).mutated
    ensures Mutate(MutateEqNeq, n).mutated ==> Mutate(BasicMutators, n) == Mutate(MutateEqNeq, n)
    ensures !Mutate(BasicMutators, n).mutated ==> Mutate(BasicMutators, n) == Mutation(n, false)
  {
    BasicIsFirstMatch(n);
    FirstMatchMutatedIff(Standard, n);
    if Mutate(MutateEqNeq, n).mutated {
      FirstMatchIsFirst(Standard, n, 0);
    }
  }
}
