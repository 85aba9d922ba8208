/** Compile-time checking and selection of named parameters: pure functions over the list of the parameter
    types of a call, in the order the caller wrote them. */
module NamedParameters {
  import opened Sequences
  import opened Wrappers

  /** The largest value of size_t, which says that a parameter was not found. */
  const NOT_FOUND: nat := 0xFFFF_FFFF_FFFF_FFFF

  // ----- finding parameters -----

  /** Position of the first argument of type p, counting from index. The last argument has a case of its own. */
  function FindPos<T(==)>(p: T, index: nat, args: seq<T>): nat
    decreases |args|
  {
    if args == [] then NOT_FOUND
    else if |args| == 1 then (if args[0] == p then index else NOT_FOUND)
    else if args[0] == p then index
    else FindPos(p, index + 1, args[1..])
  }

  /** The search finds the first occurrence, and NOT_FOUND means that there is none. */
  lemma {:induction false} FindPosIsFirst<T>(p: T, index: nat, args: seq<T>)
    requires index + |args| <= NOT_FOUND
    ensures p !in args <==> FindPos(p, index, args) == NOT_FOUND
    ensures p in args ==> index <= FindPos(p, index, args) < index + |args|
    ensures p in args ==> args[FindPos(p, index, args) - index] == p
    ensures p in args ==> p !in args[..FindPos(p, index, args) - index]
    decreases |args|
  {
    if |args| > 1 && args[0] != p {
      FindPosIsFirst(p, index + 1, args[1..]);
      if p in args {
        var k := FindPos(p, index, args) - index;
        assert args[1..][..k - 1] == args[1..k];
        assert args[..k] == [args[0]] + args[1..k];
      }
    }
  }

  predicate HasParameterType<T(==)>(p: T, args: seq<T>) {
    FindPos(p, 0, args) < |args|
  }

  lemma HasParameterTypeIff<T>(p: T, args: seq<T>)
    requires |args| <= NOT_FOUND
    ensures HasParameterType(p, args) <==> p in args
  {
    FindPosIsFirst(p, 0, args);
  }

  // ----- the check -----

  /** No type occurs again to its right. */
  predicate AllUnique<T(==)>(args: seq<T>) {
    args == [] || (args[0] !in args[1..] && AllUnique(args[1..]))
  }

  lemma {:induction false} AllUniqueIff<T>(args: seq<T>)
    ensures AllUnique(args) <==> Distinct(args)
  {
    if args != [] {
      AllUniqueIff(args[1..]);
      if AllUnique(args) {
        forall p, q | 0 <= p < q < |args| ensures args[p] != args[q] {
          assert args[q] == args[1..][q - 1];
        }
      }
      if Distinct(args) {
        forall p, q | 0 <= p < q < |args[1..]| ensures args[1..][p] != args[1..][q] {
          assert args[p + 1] != args[q + 1];
        }
      }
    }
  }

  /** The available parameters that are not passed. */
  function NotPassed<T(==)>(available: seq<T>, args: seq<T>): seq<T> {
    if available == [] then []
    else
      var rest := NotPassed(available[..|available| - 1], args);
      if HasParameterType(available[|available| - 1], args) then rest else rest + [available[|available| - 1]]
  }

  function NumberDistinctParameters<T(==)>(available: seq<T>, args: seq<T>): nat {
    |NotPassed(available, args)| + |args|
  }

  predicate HasNoUnusedParameters<T(==)>(required: seq<T>, optional: seq<T>, args: seq<T>) {
    |required + optional| >= NumberDistinctParameters(required + optional, args)
  }

  /** The whole check of a call. */
  predicate Accepts<T(==)>(required: seq<T>, optional: seq<T>, args: seq<T>) {
    && (forall i | 0 <= i < |required| :: HasParameterType(required[i], args))
    && HasNoUnusedParameters(required, optional, args)
    && AllUnique(args)
  }

  lemma SplitLast<T>(s: seq<T>)
    requires s != []
    ensures Elements(s) == Elements(s[..|s| - 1]) + {s[|s| - 1]}
    ensures Distinct(s) ==> Distinct(s[..|s| - 1]) && s[|s| - 1] !in Elements(s[..|s| - 1])
  {
    assert s == s[..|s| - 1] + [s[|s| - 1]];
  }

  /** What is not passed complements what is: counted over a duplicate-free list of available parameters. */
  lemma {:induction false} NotPassedCount<T>(available: seq<T>, args: seq<T>)
    requires Distinct(available) && |args| <= NOT_FOUND
    ensures |NotPassed(available, args)| + |Elements(available) * Elements(args)| == |available|
  {
    if available == [] {
      assert Elements(available) * Elements(args) == {};
    } else {
      var init, last := available[..|available| - 1], available[|available| - 1];
      SplitLast(available);
      NotPassedCount(init, args);
      HasParameterTypeIff(last, args);
      var common := Elements(init) * Elements(args);
      if last in args {
        assert Elements(available) * Elements(args) == common + {last};
      } else {
        assert Elements(available) * Elements(args) == common;
      }
    }
  }

  lemma {:induction false} ElementsAtMost<T>(s: seq<T>)
    ensures |Elements(s)| <= |s|
    ensures |Elements(s)| == |s| ==> Distinct(s)
  {
    if s == [] {
      assert Elements(s) == {};
    } else {
      var init, last := s[..|s| - 1], s[|s| - 1];
      SplitLast(s);
      ElementsAtMost(init);
      if |Elements(s)| == |s| {
        assert last in Elements(init) ==> Elements(s) == Elements(init);
        forall p, q | 0 <= p < q < |s| ensures s[p] != s[q] {
          assert q < |init| ==> init[p] != init[q];
          assert init[p] in init;
        }
      }
    }
  }

  /** The test by counting says exactly that the arguments are duplicate-free and all available. */
  lemma CountingTestIff<T>(required: seq<T>, optional: seq<T>, args: seq<T>)
    requires Distinct(required + optional) && |args| <= NOT_FOUND
    ensures HasNoUnusedParameters(required, optional, args) <==>
      (Distinct(args) && Elements(args) <= Elements(required + optional))
  {
    var available := required + optional;
    var common := Elements(available) * Elements(args);
    NotPassedCount(available, args);
    ElementsAtMost(args);
    SubsetCardinality(common, Elements(args));
    if HasNoUnusedParameters(required, optional, args) {
      SubsetOfSameSize(common, Elements(args));
    }
    if Distinct(args) && Elements(args) <= Elements(available) {
      DistinctCardinality(args);
      assert common == Elements(args);
    }
  }

  /** So the test for duplicates after it can never fail, */
  lemma UniquenessTestIsRedundant<T>(required: seq<T>, optional: seq<T>, args: seq<T>)
    requires Distinct(required + optional) && |args| <= NOT_FOUND
    requires HasNoUnusedParameters(required, optional, args)
    ensures AllUnique(args)
  {
    CountingTestIff(required, optional, args);
    AllUniqueIff(args);
  }

  /** and the whole check accepts exactly the duplicate-free lists between the required parameters and
      the required and optional ones together. */
  lemma AcceptsIff<T>(required: seq<T>, optional: seq<T>, args: seq<T>)
    requires Distinct(required + optional) && |args| <= NOT_FOUND
    ensures Accepts(required, optional, args)
       <==> Distinct(args) && Elements(required) <= Elements(args) <= Elements(required + optional)
  {
    CountingTestIff(required, optional, args);
    AllUniqueIff(args);
    forall i | 0 <= i < |required| ensures HasParameterType(required[i], args) <==> required[i] in Elements(args) {
      HasParameterTypeIff(required[i], args);
    }
    if Elements(required) <= Elements(args) {
      forall i | 0 <= i < |required| ensures HasParameterType(required[i], args) {
        assert required[i] in Elements(required);
      }
    }
  }

  /** The condition on the lists of a call is needed: naming a parameter twice lets an unused one through. */
  lemma RepeatedOptionHidesUnused(a: nat, b: nat)
    requires a != b
    ensures HasNoUnusedParameters([], [a, a], [a, b]) && b !in [a, a]
  {
    var none: seq<nat> := [];
    assert none + [a, a] == [a, a] && [a, a][..1] == [a] && [a][..0] == none;
    assert HasParameterType(a, [a, b]);
    assert NotPassed([a], [a, b]) == NotPassed(none, [a, b]) == none;
    assert NotPassed([a, a], [a, b]) == none;
  }

  // ----- selection -----

  /** A named parameter: its type and what the caller passed. */
  datatype Parameter<T, V> = Parameter(ptype: T, value: V)

  function Types<T, V>(args: seq<Parameter<T, V>>): (types: seq<T>)
    ensures |types| == |args|
  {
    seq(|args|, i requires 0 <= i < |args| => args[i].ptype)
  }

  /** select_parameter_type_or_default. */
  function SelectOrDefault<T(==), V>(p: T, args: seq<Parameter<T, V>>, default: V): V {
    var pos := FindPos(p, 0, Types(args));
    if pos < |args| then args[pos].value else default
  }

  /** In a call that passes the check the selected value is the one the caller named, and the default
      only if there is none. */
  lemma SelectsNamed<T, V>(p: T, args: seq<Parameter<T, V>>, default: V, i: nat)
    requires Distinct(Types(args)) && |args| <= NOT_FOUND
    ensures i < |args| && args[i].ptype == p ==> SelectOrDefault(p, args, default) == args[i].value
    ensures p !in Types(args) ==> SelectOrDefault(p, args, default) == default
  {
    var types := Types(args);
    FindPosIsFirst(p, 0, types);
    if i < |args| && args[i].ptype == p {
      assert types[i] == p;
    }
  }

  /** Named parameters may be passed in any order: neither the check nor any selection depends on it. */
  lemma OrderIsIrrelevant<T, V>(required: seq<T>, optional: seq<T>, args: seq<Parameter<T, V>>,
      args': seq<Parameter<T, V>>, p: T, default: V)
    requires Distinct(required + optional) && |args| <= NOT_FOUND && multiset(args) == multiset(args')
    requires Accepts(required, optional, Types(args))
    ensures Accepts(required, optional, Types(args'))
    ensures SelectOrDefault(p, args', default) == SelectOrDefault(p, args, default)
  {
    PermutationLength(args, args');
    AcceptsIff(required, optional, Types(args));
    TypesOfPermutation(args, args');
    AcceptsIff(required, optional, Types(args'));
    if p in Types(args) {
      var i :| 0 <= i < |args| && Types(args)[i] == p;
      var i' := PermutationMember(args', args, i);
      SelectsNamed(p, args, default, i);
      SelectsNamed(p, args', default, i');
    } else {
      assert p !in Elements(Types(args));
      SelectsNamed(p, args, default, 0);
      SelectsNamed(p, args', default, 0);
    }
  }

  lemma TypesOfPermutation<T, V>(args: seq<Parameter<T, V>>, args': seq<Parameter<T, V>>)
    requires multiset(args) == multiset(args') && Distinct(Types(args))
    ensures Elements(Types(args')) == Elements(Types(args)) && Distinct(Types(args'))
  {
    PermutationLength(args, args');
    forall x | x in Elements(Types(args)) ensures x in Elements(Types(args')) {
      var i :| 0 <= i < |args| && Types(args)[i] == x;
      var i' := PermutationMember(args', args, i);
      assert Types(args')[i'] == x;
    }
    forall x | x in Elements(Types(args')) ensures x in Elements(Types(args)) {
      var i :| 0 <= i < |args'| && Types(args')[i] == x;
      var i' := PermutationMember(args, args', i);
      assert Types(args)[i'] == x;
    }
    DistinctCardinality(Types(args));
    assert Elements(Types(args')) == Elements(Types(args));
    ElementsAtMost(Types(args'));
  }
}
