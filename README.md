# IncludeExclude in Dafny

This project models `org.eclipse.jetty.util.IncludeExclude<E>` from jetty-util. The class keeps two
sets of elements, the inclusions and the exclusions. Its predicate `contains(e)` combines them under
one rule:

- a non-empty include set is a strict whitelist;
- an empty include set admits every element that is not excluded;
- exclusion always wins over inclusion.

The rest of the class updates the two sets in place: `include` and `exclude` for one element, their
varargs overloads that loop over an array, and `clear`.

The Dafny model (`include_exclude.dfy`, module `Util`) is a class `IncludeExclude<E>` with two
`set<E>` fields, `includes` and `excludes`. The mutating operations are methods with `modifies this`
whose postconditions give both new sets in terms of the old ones. The varargs overloads keep the
source's loop. They are proved against `AddEach`, a pure fold that adds the array's elements one at a
time. A lemma proves that this fold is the union of the old set with the array's elements. `contains`
and the two getters are functions that read the fields.

## Model

| member | source | states |
|---|---|---|
| `Util.IncludeExclude.constructor` | jetty-util/src/main/java/org/eclipse/jetty/util/IncludeExclude.java:35-39 | both sets start empty, and then every element is admitted |
| `Util.IncludeExclude.WithSets` | jetty-util/src/main/java/org/eclipse/jetty/util/IncludeExclude.java:54-58 | the object holds exactly the two sets the caller passes |
| `Util.IncludeExclude.Include` | jetty-util/src/main/java/org/eclipse/jetty/util/IncludeExclude.java:60-63 | the include set gains `e` and the exclude set is unchanged; including a present element changes nothing; afterwards `e` is admitted exactly when it is not excluded |
| `Util.IncludeExclude.IncludeAll` | jetty-util/src/main/java/org/eclipse/jetty/util/IncludeExclude.java:65-69 | the loop leaves the include set equal to the one-at-a-time fold, which is the old set joined with the array's elements; the exclude set is unchanged; an array of present elements (the empty array among them) changes nothing |
| `Util.IncludeExclude.Exclude` | jetty-util/src/main/java/org/eclipse/jetty/util/IncludeExclude.java:71-74 | the exclude set gains `e` and the include set is unchanged; excluding a present element changes nothing; afterwards `e` is refused |
| `Util.IncludeExclude.ExcludeAll` | jetty-util/src/main/java/org/eclipse/jetty/util/IncludeExclude.java:76-80 | the loop leaves the exclude set equal to the old set joined with the array's elements; the include set is unchanged; an array of present elements changes nothing |
| `Util.IncludeExclude.Contains` | jetty-util/src/main/java/org/eclipse/jetty/util/IncludeExclude.java:82-87 | an element is admitted if and only if the include set is empty or holds it, and the exclude set does not hold it |
| `Util.IncludeExclude.GetIncluded` | jetty-util/src/main/java/org/eclipse/jetty/util/IncludeExclude.java:89-92 | returns exactly the current include set and changes nothing |
| `Util.IncludeExclude.GetExcluded` | jetty-util/src/main/java/org/eclipse/jetty/util/IncludeExclude.java:94-97 | returns exactly the current exclude set and changes nothing |
| `Util.IncludeExclude.Clear` | jetty-util/src/main/java/org/eclipse/jetty/util/IncludeExclude.java:99-103 | both sets become empty, and then every element is admitted |
| `Util.WhitelistRejects` | jetty-util/src/main/java/org/eclipse/jetty/util/IncludeExclude.java:84-85 | with a non-empty include set that lacks `e`, `e` is refused whatever the exclude set holds |
| `Util.ExclusionWins` | jetty-util/src/main/java/org/eclipse/jetty/util/IncludeExclude.java:84-86 | an excluded element is refused even when it is also included |
| `Util.EmptyIncludesAdmitUnexcluded` | jetty-util/src/main/java/org/eclipse/jetty/util/IncludeExclude.java:84-86 | with an empty include set, every element that is not excluded is admitted |
| `Util.AddEachIsUnion` | jetty-util/src/main/java/org/eclipse/jetty/util/IncludeExclude.java:65-69 | adding an array's elements one at a time gives the old set joined with exactly those elements |
| `Util.AddEachIdempotent` | jetty-util/src/main/java/org/eclipse/jetty/util/IncludeExclude.java:65-80 | for either varargs loop, adding the same array a second time gives the same set as adding it once |
| `Util.AddEachPresent` | jetty-util/src/main/java/org/eclipse/jetty/util/IncludeExclude.java:65-80 | for either varargs loop, an array whose elements are all present already, the empty array among them, leaves the set as it was |

## Left out

- The reflective constructor `IncludeExclude(Class<? extends Set<E>>)` (IncludeExclude.java:41-52) is not modelled. It instantiates a set class through Java reflection. Only `InstantiationException` and `IllegalAccessException` are caught and rethrown wrapped in `RuntimeException` (lines 48-50); anything the set class's own no-argument constructor throws passes through `Class.newInstance` unwrapped. On success it gives two empty sets, the same state as the default constructor.
- Aliasing is not modelled. The sets are values here. In Java, the two-argument constructor keeps the caller's set objects and the getters hand out the live sets. So a change made through such a reference, or through one set object passed as both arguments, also changes the policy. The model does not capture that.
- Custom `Set` classes whose `contains` is not equality (the Servlet PathMap mentioned at IncludeExclude.java:26-27) are not modelled. Their membership test is code outside this class. Every set here uses mathematical membership.
- Java's `HashSet` is not thread-safe, and the class does no locking. The model is sequential.
- WithSets: takes Dafny sets, which are never null and always accept new elements. In Java the two-argument constructor (IncludeExclude.java:54-58) also accepts a `null` set or a set whose `add` and `clear` throw, such as an unmodifiable one. The model never reaches the failures that follow:
  - a `null` include set makes `include` throw (line 62, and line 68 for a non-empty array), `contains` throw at line 84 and `clear` throw at line 101;
  - a `null` exclude set makes `exclude` throw (line 73, and line 79 for a non-empty array), makes `contains` throw once it reaches line 86 (it still returns `false` at line 85 when a non-empty include set lacks the element), and makes `clear` throw at line 102, after line 101 has already emptied the include set;
  - an unmodifiable set makes only the adds (lines 62 and 73, and lines 68 and 79 for a non-empty array) and `clear` (line 101 or 102) throw; `contains` and the getters still work. If only the exclude set is unmodifiable, `clear` throws at line 102 after emptying the include set.
- A `null` varargs array, which makes the Java loop throw `NullPointerException`, has no counterpart. A Dafny sequence is never null.
- `jetty-http2/src/main/java/org/eclipse/jetty/http2/frames/DataFrame.java` is not part of this model. It only holds fields and has no logic to verify.
