/** The names the generator hands out: a base name, or the base with the first free suffix from 2. */
module CodegenNames {
  import opened DecimalText

  function Suffixed(base: string, suffix: nat): string {
    base + IntText(suffix)
  }

  lemma SuffixedInjective(base: string, m: nat, n: nat)
    requires Suffixed(base, m) == Suffixed(base, n)
    ensures m == n
  {
    assert Suffixed(base, m)[|base|..] == IntText(m);
    assert Suffixed(base, n)[|base|..] == IntText(n);
    IntTextInjective(m, n);
  }

  lemma LaterDiffers(base: string, m: nat, n: nat)
    requires m < n
    ensures Suffixed(base, m) != Suffixed(base, n)
  {
    if Suffixed(base, m) == Suffixed(base, n) {
      SuffixedInjective(base, m, n);
    }
  }

  /** The first suffix, counting up, whose name is not among `taken`; each taken name is met at most once. */
  function FirstFree(base: string, taken: set<string>, suffix: nat): (free: nat)
    ensures free >= suffix
    decreases |taken|
  {
    if Suffixed(base, suffix) in taken
    then FirstFree(base, taken - {Suffixed(base, suffix)}, suffix + 1)
    else suffix
  }

  function UniqueName(base: string, used: set<string>): string {
    if base !in used then base else Suffixed(base, FirstFree(base, used, 2))
  }

  lemma {:induction false} FirstFreeIsFree(base: string, taken: set<string>, suffix: nat)
    ensures Suffixed(base, FirstFree(base, taken, suffix)) !in taken
    decreases |taken|
  {
    if Suffixed(base, suffix) in taken {
      var rest := taken - {Suffixed(base, suffix)};
      FirstFreeIsFree(base, rest, suffix + 1);
      LaterDiffers(base, suffix, FirstFree(base, rest, suffix + 1));
    }
  }

  lemma {:induction false} SmallerAreTaken(base: string, taken: set<string>, suffix: nat, k: nat)
    requires suffix <= k < FirstFree(base, taken, suffix)
    ensures Suffixed(base, k) in taken
    decreases |taken|
  {
    if k != suffix {
      SmallerAreTaken(base, taken - {Suffixed(base, suffix)}, suffix + 1, k);
    }
  }

  /** The suffix found is free and all smaller ones are taken. */
  lemma FirstFreeIsFirst(base: string, taken: set<string>, suffix: nat)
    ensures var free := FirstFree(base, taken, suffix);
            && Suffixed(base, free) !in taken
            && forall k | suffix <= k < free :: Suffixed(base, k) in taken
  {
    FirstFreeIsFree(base, taken, suffix);
    forall k | suffix <= k < FirstFree(base, taken, suffix) ensures Suffixed(base, k) in taken {
      SmallerAreTaken(base, taken, suffix, k);
    }
  }

  /** The name given is always new: the base when it is free, else the base with the least free suffix from 2. */
  lemma UniqueNameIsNew(base: string, used: set<string>)
    ensures UniqueName(base, used) !in used
    ensures base !in used ==> UniqueName(base, used) == base
    ensures base in used ==> exists k :: k >= 2 && UniqueName(base, used) == Suffixed(base, k)
                                         && forall j | 2 <= j < k :: Suffixed(base, j) in used
  {
    FirstFreeIsFirst(base, used, 2);
  }

  /** The search stops because every suffix tried names another member of the finite set. */
  method EnsureUniqueName(base: string, used: set<string>) returns (name: string, usedAfter: set<string>)
    ensures name == UniqueName(base, used)
    ensures usedAfter == used + {name}
  {
    if base !in used {
      return base, used + {base};
    }
    var suffix := 2;
    ghost var untried := used;
    while Suffixed(base, suffix) in used
      invariant suffix >= 2
      invariant untried <= used
      invariant forall k | k >= suffix :: Suffixed(base, k) in used ==> Suffixed(base, k) in untried
      invariant FirstFree(base, untried, suffix) == FirstFree(base, used, 2)
      decreases |untried|
    {
      ghost var tried := Suffixed(base, suffix);
      forall k | k > suffix ensures Suffixed(base, k) != tried {
        LaterDiffers(base, suffix, k);
      }
      untried := untried - {tried};
      suffix := suffix + 1;
    }
    name := Suffixed(base, suffix);
    usedAfter := used + {name};
  }

  function Members(names: seq<string>): set<string> {
    set n | n in names
  }

  /** The names one pass gives to its base names, in order. */
  function PassNames(bases: seq<string>): (names: seq<string>)
    ensures |names| == |bases|
  {
    if bases == [] then []
    else
      var n := |bases| - 1;
      var earlier := PassNames(bases[..n]);
      earlier + [UniqueName(bases[n], Members(earlier))]
  }

  /** Whatever the base names, the names given in one pass are pairwise distinct. */
  lemma {:induction false} PassNamesDistinct(bases: seq<string>)
    ensures forall i, j | 0 <= i < j < |bases| :: PassNames(bases)[i] != PassNames(bases)[j]
  {
    if bases != [] {
      var n := |bases| - 1;
      PassNamesDistinct(bases[..n]);
      var earlier := PassNames(bases[..n]);
      UniqueNameIsNew(bases[n], Members(earlier));
      forall i | 0 <= i < n ensures earlier[i] != UniqueName(bases[n], Members(earlier)) {
        assert earlier[i] in Members(earlier);
      }
    }
  }

  /** One more base name only adds one more name. */
  lemma PassNamesExtend(bases: seq<string>, base: string)
    ensures PassNames(bases + [base]) == PassNames(bases) + [UniqueName(base, Members(PassNames(bases)))]
  {
    assert (bases + [base])[..|bases|] == bases;
  }
}
