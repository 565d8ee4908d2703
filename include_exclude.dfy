/** A model of org.eclipse.jetty.util.IncludeExclude: an include (allow) set and
    an exclude (deny) set of elements, updated in place, and the decision
    `Contains` that combines them. A non-empty include set is a strict
    whitelist, an empty one admits everything, and exclusion always wins. */
module Util {

  /** The elements of a varargs array, as a set. */
  function Elements<E>(a: seq<E>): set<E>
  {
    set x | x in a
  }

  /** The set reached by adding the elements of `a` to `s` one at a time, first
      to last, as the for-each loops of the varargs `include` and `exclude` do. */
  function AddEach<E>(s: set<E>, a: seq<E>): set<E>
    decreases |a|
  {
    if a == [] then s else AddEach(s, a[..|a| - 1]) + {a[|a| - 1]}
  }

  /** Adding the elements one at a time yields the old set joined with exactly
      the elements of the array, nothing more and nothing less. */
  lemma {:induction false} AddEachIsUnion<E>(s: set<E>, a: seq<E>)
    ensures AddEach(s, a) == s + Elements(a)
  {
    if a != [] {
      var init, last := a[..|a| - 1], a[|a| - 1];
      AddEachIsUnion(s, init);
      assert a == init + [last];
      assert Elements(a) == Elements(init) + {last};
    }
  }

  /** Adding the same array a second time changes nothing. */
  lemma AddEachIdempotent<E>(s: set<E>, a: seq<E>)
    ensures AddEach(AddEach(s, a), a) == AddEach(s, a)
  {
    AddEachIsUnion(s, a);
    AddEachIsUnion(AddEach(s, a), a);
  }

  /** An array whose elements are all present already, the empty array among
      them, leaves the set as it was. */
  lemma AddEachPresent<E>(s: set<E>, a: seq<E>)
    requires Elements(a) <= s
    ensures AddEach(s, a) == s
  {
    AddEachIsUnion(s, a);
  }

  class IncludeExclude<E(==)> {
    var includes: set<E>
    var excludes: set<E>

    /** The default constructor: both sets start empty, so the policy is open. */
    constructor ()
      ensures includes == {} && excludes == {}
      ensures forall e :: Contains(e)
    {
      includes := {};
      excludes := {};
    }

    /** The constructor that adopts the caller's two sets as they are. */
    constructor WithSets(includes: set<E>, excludes: set<E>)
      ensures this.includes == includes && this.excludes == excludes
    {
      this.includes := includes;
      this.excludes := excludes;
    }

    /** Adds one element to the include set; the exclude set is untouched.
        Including an element that is already there changes nothing. */
    method Include(e: E)
      modifies this
      ensures includes == old(includes) + {e} && excludes == old(excludes)
      ensures e in old(includes) ==> includes == old(includes)
      ensures Contains(e) <==> e !in excludes
    {
      includes := includes + {e};
    }

    /** The varargs `include`: adds every element of the array, in order, to
        the include set and touches nothing else. */
    method IncludeAll(a: seq<E>)
      modifies this
      ensures includes == AddEach(old(includes), a) && excludes == old(excludes)
      ensures includes == old(includes) + Elements(a)
      ensures Elements(a) <= old(includes) ==> includes == old(includes)
    {
      for i := 0 to |a|
        invariant includes == AddEach(old(includes), a[..i])
        invariant excludes == old(excludes)
      {
        assert a[..i + 1][..i] == a[..i];
        includes := includes + {a[i]};
      }
      assert a[..|a|] == a;
      AddEachIsUnion(old(includes), a);
      if Elements(a) <= old(includes) {
        AddEachPresent(old(includes), a);
      }
    }

    /** Adds one element to the exclude set; the include set is untouched.
        Afterwards the element is refused whatever the include set holds. */
    method Exclude(e: E)
      modifies this
      ensures excludes == old(excludes) + {e} && includes == old(includes)
      ensures e in old(excludes) ==> excludes == old(excludes)
      ensures !Contains(e)
    {
      excludes := excludes + {e};
    }

    /** The varargs `exclude`: adds every element of the array, in order, to
        the exclude set and touches nothing else. */
    method ExcludeAll(a: seq<E>)
      modifies this
      ensures excludes == AddEach(old(excludes), a) && includes == old(includes)
      ensures excludes == old(excludes) + Elements(a)
      ensures Elements(a) <= old(excludes) ==> excludes == old(excludes)
    {
      for i := 0 to |a|
        invariant excludes == AddEach(old(excludes), a[..i])
        invariant includes == old(includes)
      {
        assert a[..i + 1][..i] == a[..i];
        excludes := excludes + {a[i]};
      }
      assert a[..|a|] == a;
      AddEachIsUnion(old(excludes), a);
      if Elements(a) <= old(excludes) {
        AddEachPresent(old(excludes), a);
      }
    }

    /** The decision: a non-empty include set rejects what it lacks, and
        otherwise the element is admitted exactly when it is not excluded. */
    function Contains(e: E): (r: bool)
      reads this
      ensures r <==> (includes == {} || e in includes) && e !in excludes
    {
      if |includes| > 0 && e !in includes then false else e !in excludes
    }

    /** The include set itself, as it currently is. */
    function GetIncluded(): (r: set<E>)
      reads this
      ensures r == includes
    {
      includes
    }

    /** The exclude set itself, as it currently is. */
    function GetExcluded(): (r: set<E>)
      reads this
      ensures r == excludes
    {
      excludes
    }

    /** Empties both sets, which reopens the policy to every element. */
    method Clear()
      modifies this
      ensures includes == {} && excludes == {}
      ensures forall e :: Contains(e)
    {
      includes := {};
      excludes := {};
    }
  }

  /** A non-empty include set is a strict whitelist: an element it lacks is
      refused, whatever the exclude set holds. */
  lemma WhitelistRejects<E>(p: IncludeExclude<E>, e: E)
    requires p.includes != {} && e !in p.includes
    ensures !p.Contains(e)
  {
  }

  /** Exclusion wins: an excluded element is refused even when it is included. */
  lemma ExclusionWins<E>(p: IncludeExclude<E>, e: E)
    requires e in p.excludes
    ensures !p.Contains(e)
  {
  }

  /** With no inclusions configured, everything not excluded is admitted. */
  lemma EmptyIncludesAdmitUnexcluded<E>(p: IncludeExclude<E>, e: E)
    requires p.includes == {} && e !in p.excludes
    ensures p.Contains(e)
  {
  }
}
