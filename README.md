# SdkCodelist, modelled in Dafny

The EFX translator keeps codelists in its symbols map as `SdkCodelist`
values. An `SdkCodelist` holds three final fields: a codelist identifier, the
codelist's own version (the Version tag of the codelist file, not the SDK
version) and an ordered list of codes. It does four things:

- it renders its codes as a list for the translator to splice into a
  generated expression: a `StringJoiner` over a delimiter, a prefix and a
  suffix receives every code wrapped in a quote character, in list order;
- it renders its name as `identifier-version` (`toString()`);
- it defines identity by identifier and version only (`equals`, `hashCode`),
  ignoring the codes;
- it orders codelists by `String.compareTo` of the identifier immediately
  followed by the version (`compareTo`).

The project has four modules:

- `Options` (`options.dfy`): an optional value.
- `JavaLang` (`java_lang.dfy`): the Java library behaviour the class relies
  on. This covers 32-bit `int` wrap-around (`Int32`) and `String.compareTo`
  (`StringCompareTo`). It also covers `String.hashCode` (`StringHashCode`,
  hashing step by step with wrap-around) and `Objects.hash` of two strings
  (`ObjectsHash`).
- `StringJoining` (`string_joining.dfy`): the join specification `Join` and
  a `StringJoiner` class. The class holds no builder until the first element is
  added. `Add` updates the builder in place and keeps it
  equal to the prefix followed by `Join` of the elements added so far.
- `Codelist` (`sdk_codelist.dfy`): the `SdkCodelist` datatype (its
  constructor and destructors are the Java constructor and getters), the
  looping `ToJoinedString` method, `ToString`, `CompareTo`, `HashCode`, and a
  model of what `equals(Object)` receives. A `CodelistObject` is an object's
  identity, its runtime class and its field values. A `Reference` is `null`,
  such an object, or an object of an unrelated class.

## Model

| member | source | states |
|---|---|---|
| `Codelist.ConstructorKeepsArguments` | src/main/java/eu/europa/ted/efx/model/SdkCodelist.java:14-47 | the getters return exactly the identifier, version and codes given to the constructor; the fields are never reassigned because the value is immutable |
| `Codelist.SdkCodelist.ToJoinedString` | src/main/java/eu/europa/ted/efx/model/SdkCodelist.java:49-56 | the loop over a fresh joiner returns the prefix, then each code wrapped as quote+code+quote in list order joined by the delimiter, then the suffix; with no code it is exactly prefix+suffix; with one code it is prefix+quoted code+suffix |
| `StringJoining.StringJoiner.constructor` | src/main/java/eu/europa/ted/efx/model/SdkCodelist.java:51 | a new joiner keeps the delimiter, prefix and suffix it was given and holds no element |
| `StringJoining.StringJoiner.Add` | src/main/java/eu/europa/ted/efx/model/SdkCodelist.java:52-54 | adding appends exactly that element to the joiner's elements; the builder stays the prefix followed by the join of all elements so far |
| `StringJoining.StringJoiner.ToString` | src/main/java/eu/europa/ted/efx/model/SdkCodelist.java:55 | the joiner renders as prefix + join of its elements + suffix, including the empty case where nothing was ever built |
| `StringJoining.JoinIsInterleaving` | src/main/java/eu/europa/ted/efx/model/SdkCodelist.java:51-55 | the joined string is the concatenation of element 0, delimiter, element 1, …, element n-1: n elements in order and exactly n-1 delimiters, one between each pair of neighbours |
| `StringJoining.JoinLength` | src/main/java/eu/europa/ted/efx/model/SdkCodelist.java:51-55 | a join of n elements is as long as the elements together plus n-1 delimiters |
| `StringJoining.JoinAppend` | src/main/java/eu/europa/ted/efx/model/SdkCodelist.java:52-54 | joining two non-empty runs of codes puts exactly one delimiter between the joins of the runs |
| `Codelist.SplitAtFirstDash` | src/main/java/eu/europa/ted/efx/model/SdkCodelist.java:59-61 | the inverse of the short name: it fails exactly when the name has no dash; otherwise the name is the left part, a dash and the right part, and the left part has no dash |
| `Codelist.SdkCodelist.ToString` | src/main/java/eu/europa/ted/efx/model/SdkCodelist.java:59-61 | toString() is the identifier, a dash and the version; when the identifier has no dash, splitting it at its first dash gives back the identifier and the version |
| `Codelist.DashSplitUnique` | src/main/java/eu/europa/ted/efx/model/SdkCodelist.java:60 | an `a-b` name whose left part has no dash has only one such reading |
| `Codelist.ToStringIgnoresCodes` | src/main/java/eu/europa/ted/efx/model/SdkCodelist.java:59-61 | toString() does not depend on the codes |
| `Codelist.ToStringAmbiguousWithDashes` | src/main/java/eu/europa/ted/efx/model/SdkCodelist.java:59-61 | with a dash in the identifier, identifier `a-b` with version `c` and identifier `a` with version `b-c` have the same toString() |
| `Codelist.SdkCodelist.CompareTo` | src/main/java/eu/europa/ted/efx/model/SdkCodelist.java:63-67 | compareTo is 0 exactly when identifier+version of the two codelists are the same string |
| `JavaLang.StringCompareTo` | src/main/java/eu/europa/ted/efx/model/SdkCodelist.java:65-66 | String.compareTo is 0 exactly when the strings are equal |
| `JavaLang.StringCompareToAtFirstDifference` | src/main/java/eu/europa/ted/efx/model/SdkCodelist.java:65-66 | String.compareTo returns s[k]-t[k] at the first index k where the strings differ, and otherwise the difference of their lengths |
| `JavaLang.StringCompareToAntisymmetric` | src/main/java/eu/europa/ted/efx/model/SdkCodelist.java:65-66 | swapping the arguments of String.compareTo negates its result |
| `JavaLang.StringCompareToTransitive` | src/main/java/eu/europa/ted/efx/model/SdkCodelist.java:65-66 | String.compareTo is transitive |
| `Codelist.CompareToAtFirstDifference` | src/main/java/eu/europa/ted/efx/model/SdkCodelist.java:63-67 | compareTo is the lexicographic comparison of identifier+version: its value at the first differing char, or the difference of lengths when one key is a prefix of the other |
| `Codelist.CompareToAntisymmetric` | src/main/java/eu/europa/ted/efx/model/SdkCodelist.java:63-67 | a.compareTo(b) == -b.compareTo(a), so the sign flips when the arguments are swapped |
| `Codelist.CompareToTransitive` | src/main/java/eu/europa/ted/efx/model/SdkCodelist.java:63-67 | compareTo is transitive |
| `Codelist.CompareToZeroSubstitutes` | src/main/java/eu/europa/ted/efx/model/SdkCodelist.java:63-67 | codelists that compare as 0 compare identically against every other codelist |
| `Codelist.EqualsImpliesCompareToZero` | src/main/java/eu/europa/ted/efx/model/SdkCodelist.java:63-83 | equal codelists compare as 0 |
| `Codelist.CompareToInconsistentWithEquals` | src/main/java/eu/europa/ted/efx/model/SdkCodelist.java:63-83 | the order is not consistent with equals: identifier `ab` with version `c` and identifier `a` with version `bc` compare as 0 but are not equal |
| `Codelist.CodelistObject.Equals` | src/main/java/eu/europa/ted/efx/model/SdkCodelist.java:69-83 | equals is true exactly when the argument is a codelist object of the same runtime class with the same identifier and version; so it is false for null and for other classes, true for the object itself, and the codes do not matter |
| `Codelist.EqualsReflexive` | src/main/java/eu/europa/ted/efx/model/SdkCodelist.java:71-73 | every codelist object equals itself |
| `Codelist.EqualsSymmetric` | src/main/java/eu/europa/ted/efx/model/SdkCodelist.java:80-82 | a.equals(b) == b.equals(a) |
| `Codelist.EqualsTransitive` | src/main/java/eu/europa/ted/efx/model/SdkCodelist.java:80-82 | equals is transitive |
| `Codelist.EqualsIgnoresCodes` | src/main/java/eu/europa/ted/efx/model/SdkCodelist.java:80-82 | two distinct objects of one class with the same identifier and version are equal whatever their codes |
| `Codelist.SdkCodelist.HashCode` | src/main/java/eu/europa/ted/efx/model/SdkCodelist.java:85-88 | hashCode is a 32-bit int computed from the identifier and the version only |
| `Codelist.EqualsImpliesSameHashCode` | src/main/java/eu/europa/ted/efx/model/SdkCodelist.java:69-88 | equal codelists have equal hash codes |
| `Codelist.HashCodeCollision` | src/main/java/eu/europa/ted/efx/model/SdkCodelist.java:69-88 | equal hash codes do not imply equality: identifiers `Aa` and `BB` with the same version hash alike but are not equal |
| `JavaLang.ObjectsHash` | src/main/java/eu/europa/ted/efx/model/SdkCodelist.java:87 | Objects.hash of two strings is a 32-bit int |
| `JavaLang.StringHashCode` | src/main/java/eu/europa/ted/efx/model/SdkCodelist.java:87 | String.hashCode, computed with wrap-around at every step, is a 32-bit int |
| `JavaLang.StringHashCodeIsWrappedPolynomial` | src/main/java/eu/europa/ted/efx/model/SdkCodelist.java:87 | wrapping to 32 bits at every step of h := 31·h + c equals running the same recurrence exactly and wrapping once at the end |
| `JavaLang.Int32` | src/main/java/eu/europa/ted/efx/model/SdkCodelist.java:87 | int overflow yields the unique value in [-2^31, 2^31) congruent to the exact result modulo 2^32 |

## Left out

- Null: every string, the code list and the quote character are non-null in the model. In Java a null quote renders as the text `null` around each code. A null identifier or version would be printed as `null` and compared and hashed through the null branches of `Objects`. A null argument to `compareTo` throws. None of this is modelled.
- UTF-16: Dafny's `char` is a Unicode scalar value, while Java's `String.compareTo` and `String.hashCode` work on UTF-16 code units. The model agrees with Java for text in the Basic Multilingual Plane and may differ for supplementary characters.
- `Objects.compare` first returns 0 when both arguments are the same reference. `String.compareTo` would return 0 for them as well, so the model applies `String.compareTo` directly.
- Aliasing of the code list: `getCodes()` hands out the list the constructor received, and a caller could mutate it. The model treats the codes as an immutable sequence.
- `StringJoiner` is modelled only for what the class uses (constructor, `add`, `toString`); `setEmptyValue`, `length` and `merge` are not used and are not modelled.
- `SdkCodelist07` (src/main/java/eu/europa/ted/efx/sdk0/v7/model/SdkCodelist07.java) only forwards its constructor to `SdkCodelistBase`, and `SdkCodelistBase` is not part of this model. Its annotation-driven version registration works by runtime reflection and is not modelled.
- The template and expression translator exercised by the tests under src/test/java/ is not part of this model; its implementation is a separate part of the translator and is outside this model.
- Runtime classes: `equals` compares `getClass()` values. The model names the runtime class of a codelist object (`SdkCodelist` itself or a subclass) and treats any object outside that family as an unrelated class.
