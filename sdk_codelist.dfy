/**
 * SdkCodelist: the codelist value the translator keeps in its symbols map. It
 * holds a codelist identifier, the codelist's own version (not the SDK version)
 * and the ordered codes. It renders its codes as a quoted, delimited list,
 * renders its name as identifier-version, and bases equality, hashing and
 * ordering on the identifier and the version only.
 */
module Codelist {

  import opened Options
  import opened JavaLang
  import opened StringJoining

  /** One code between two quote characters. */
  function Quote(code: string, quote: char): string
  {
    [quote] + code + [quote]
  }

  /** Every code quoted, in list order. */
  function QuoteAll(codes: seq<string>, quote: char): seq<string>
  {
    seq(|codes|, i requires 0 <= i < |codes| => Quote(codes[i], quote))
  }

  /**
   * The codelist. Its three fields are final and are set by the constructor only,
   * so the value type's constructor and destructors are the Java constructor and getters
   * (codelistId for getCodelistId, codelistVersion for getVersion, codes for getCodes).
   */
  datatype SdkCodelist = SdkCodelist(codelistId: string, codelistVersion: string, codes: seq<string>)
  {
    /**
     * toString(delimiter, prefix, suffix, quote): a StringJoiner over delimiter,
     * prefix and suffix receives every code, quoted, in list order.
     */
    method ToJoinedString(delimiter: string, prefix: string, suffix: string, quote: char) returns (r: string)
      ensures r == prefix + Join(QuoteAll(codes, quote), delimiter) + suffix
      ensures codes == [] ==> r == prefix + suffix
      ensures |codes| == 1 ==> r == prefix + Quote(codes[0], quote) + suffix
    {
      var joiner := new StringJoiner(delimiter, prefix, suffix);
      for i := 0 to |codes|
        invariant joiner.Valid()
        invariant joiner.delimiter == delimiter && joiner.prefix == prefix && joiner.suffix == suffix
        invariant joiner.elements == QuoteAll(codes[..i], quote)
      {
        assert QuoteAll(codes[..i + 1], quote) == QuoteAll(codes[..i], quote) + [Quote(codes[i], quote)];
        joiner.Add(Quote(codes[i], quote));
      }
      assert codes[..|codes|] == codes;
      r := joiner.ToString();
    }

    /**
     * toString(): the identifier, a dash, the version. When the identifier has no
     * dash, splitting the name at its first dash gives back identifier and version.
     */
    function ToString(): (r: string)
      ensures '-' !in codelistId ==> SplitAtFirstDash(r) == Some((codelistId, codelistVersion))
    {
      var name := codelistId + "-" + codelistVersion;
      if '-' in codelistId then name
      else
        assert name[|codelistId|] == '-';
        var split := SplitAtFirstDash(name);
        DashSplitUnique(split.value.0, split.value.1, codelistId, codelistVersion);
        name
    }

    /** The string compareTo orders by: the identifier immediately followed by the version. */
    function SortKey(): string
    {
      codelistId + codelistVersion
    }

    /** compareTo(cl): String.compareTo of the two sort keys. */
    function CompareTo(cl: SdkCodelist): (r: int)
      ensures r == 0 <==> SortKey() == cl.SortKey()
    {
      StringCompareTo(SortKey(), cl.SortKey())
    }

    /** hashCode(): Objects.hash(codelistId, codelistVersion). */
    function HashCode(): (h: int)
      ensures -TwoTo31 <= h < TwoTo31
    {
      ObjectsHash(codelistId, codelistVersion)
    }
  }

  /** The runtime class of an object that is an SdkCodelist: the class itself or one of its subclasses. */
  datatype RuntimeClass = SdkCodelistClass | Subclass(name: string)

  /**
   * A live SdkCodelist object: its identity, its runtime class and the value of
   * its final fields. Two such objects are the same object when all three agree.
   */
  datatype CodelistObject = CodelistObject(identity: nat, runtimeClass: RuntimeClass, value: SdkCodelist)
  {
    /**
     * equals(obj): true for this very object; false for null and for an object of
     * another runtime class; otherwise true when the identifiers and the versions agree.
     */
    function Equals(obj: Reference): (r: bool)
      ensures r <==> obj.ToCodelist?
                     && obj.target.runtimeClass == runtimeClass
                     && obj.target.value.codelistId == value.codelistId
                     && obj.target.value.codelistVersion == value.codelistVersion
    {
      if obj == ToCodelist(this) then true
      else match obj
        case Null => false
        case ToOther(_, _) => false
        case ToCodelist(other) =>
          if other.runtimeClass != runtimeClass then false
          else other.value.codelistId == value.codelistId && other.value.codelistVersion == value.codelistVersion
    }
  }

  /** What equals(Object) may receive: null, an SdkCodelist object, or an object of an unrelated class. */
  datatype Reference = Null | ToCodelist(target: CodelistObject) | ToOther(identity: nat, className: string)

  /** The inverse of toString() as far as one exists: split a name at its first dash. */
  function SplitAtFirstDash(s: string): (r: Option<(string, string)>)
    ensures r.None? <==> '-' !in s
    ensures r.Some? ==> s == r.value.0 + "-" + r.value.1 && '-' !in r.value.0
  {
    if s == [] then None
    else if s[0] == '-' then Some(([], s[1..]))
    else
      match SplitAtFirstDash(s[1..])
      case None => None
      case Some((id, version)) =>
        assert s == [s[0]] + s[1..];
        Some(([s[0]] + id, version))
  }

  /** The constructor stores its three arguments and the getters give them back unchanged. */
  lemma ConstructorKeepsArguments(id: string, version: string, codes: seq<string>)
    ensures SdkCodelist(id, version, codes).codelistId == id
    ensures SdkCodelist(id, version, codes).codelistVersion == version
    ensures SdkCodelist(id, version, codes).codes == codes
  {
  }

  /** toString() does not look at the codes. */
  lemma ToStringIgnoresCodes(c: SdkCodelist, codes: seq<string>)
    ensures c.ToString() == c.(codes := codes).ToString()
  {
  }

  /** A string cut at a dash that occurs in neither left part is cut at the same place. */
  lemma DashSplitUnique(a: string, b: string, x: string, y: string)
    requires '-' !in a && '-' !in x
    requires a + "-" + b == x + "-" + y
    ensures a == x && b == y
  {
    var s := a + "-" + b;
    assert s[|a|] == '-' && s[|x|] == '-';
    assert forall i :: 0 <= i < |a| ==> s[i] == a[i] != '-';
    assert forall i :: 0 <= i < |x| ==> s[i] == x[i] != '-';
    assert |a| == |x|;
    assert a == s[..|a|] == x;
    assert b == s[|a| + 1..] == y;
  }

  /** With a dash inside the identifier, two codelists that are not equal can share their toString(). */
  lemma ToStringAmbiguousWithDashes()
    ensures SdkCodelist("a-b", "c", []).ToString() == SdkCodelist("a", "b-c", []).ToString()
  {
    assert SdkCodelist("a-b", "c", []).ToString() == ['a', '-', 'b', '-', 'c'];
    assert SdkCodelist("a", "b-c", []).ToString() == ['a', '-', 'b', '-', 'c'];
  }

  /** Swapping the two codelists negates compareTo, so the sign flips. */
  lemma CompareToAntisymmetric(a: SdkCodelist, b: SdkCodelist)
    ensures a.CompareTo(b) == -b.CompareTo(a)
  {
    StringCompareToAntisymmetric(a.SortKey(), b.SortKey());
  }

  /** compareTo is transitive. */
  lemma CompareToTransitive(a: SdkCodelist, b: SdkCodelist, c: SdkCodelist)
    requires a.CompareTo(b) < 0 && b.CompareTo(c) < 0
    ensures a.CompareTo(c) < 0
  {
    StringCompareToTransitive(a.SortKey(), b.SortKey(), c.SortKey());
  }

  /** Codelists that compare as 0 compare alike with every third codelist. */
  lemma CompareToZeroSubstitutes(a: SdkCodelist, b: SdkCodelist, c: SdkCodelist)
    requires a.CompareTo(b) == 0
    ensures a.CompareTo(c) == b.CompareTo(c)
  {
  }

  /** compareTo is the lexicographic order of the sort keys: its value at the first difference. */
  lemma CompareToAtFirstDifference(a: SdkCodelist, b: SdkCodelist, k: nat)
    requires k <= |a.SortKey()| && k <= |b.SortKey()| && a.SortKey()[..k] == b.SortKey()[..k]
    requires k == |a.SortKey()| || k == |b.SortKey()| || a.SortKey()[k] != b.SortKey()[k]
    ensures a.CompareTo(b) == if k < |a.SortKey()| && k < |b.SortKey()|
                              then a.SortKey()[k] as int - b.SortKey()[k] as int
                              else |a.SortKey()| - |b.SortKey()|
  {
    StringCompareToAtFirstDifference(a.SortKey(), b.SortKey(), k);
  }

  /** Equal codelists compare as 0. */
  lemma EqualsImpliesCompareToZero(a: CodelistObject, b: CodelistObject)
    requires a.Equals(ToCodelist(b))
    ensures a.value.CompareTo(b.value) == 0
  {
  }

  /**
   * The ordering is not consistent with equals: identifier "ab" with version "c"
   * and identifier "a" with version "bc" compare as 0 but are not equal.
   */
  lemma CompareToInconsistentWithEquals()
    ensures var a := CodelistObject(1, SdkCodelistClass, SdkCodelist("ab", "c", []));
            var b := CodelistObject(2, SdkCodelistClass, SdkCodelist("a", "bc", []));
            a.value.CompareTo(b.value) == 0 && !a.Equals(ToCodelist(b))
  {
    assert SdkCodelist("ab", "c", []).SortKey() == ['a', 'b', 'c'];
    assert SdkCodelist("a", "bc", []).SortKey() == ['a', 'b', 'c'];
  }

  /** equals is reflexive. */
  lemma EqualsReflexive(a: CodelistObject)
    ensures a.Equals(ToCodelist(a))
  {
  }

  /** equals is symmetric. */
  lemma EqualsSymmetric(a: CodelistObject, b: CodelistObject)
    ensures a.Equals(ToCodelist(b)) == b.Equals(ToCodelist(a))
  {
  }

  /** equals is transitive. */
  lemma EqualsTransitive(a: CodelistObject, b: CodelistObject, c: CodelistObject)
    requires a.Equals(ToCodelist(b)) && b.Equals(ToCodelist(c))
    ensures a.Equals(ToCodelist(c))
  {
  }

  /** Two distinct objects of the same class with equal identifier and version are equal whatever their codes. */
  lemma EqualsIgnoresCodes(a: CodelistObject, identity: nat, codes: seq<string>)
    ensures a.Equals(ToCodelist(CodelistObject(identity, a.runtimeClass, a.value.(codes := codes))))
  {
  }

  /** Equal codelists have equal hash codes. */
  lemma EqualsImpliesSameHashCode(a: CodelistObject, obj: Reference)
    requires a.Equals(obj)
    ensures obj.ToCodelist? && a.value.HashCode() == obj.target.value.HashCode()
  {
  }

  /** Equal hash codes do not make codelists equal: "Aa" and "BB" hash alike. */
  lemma HashCodeCollision()
    ensures SdkCodelist("Aa", "1", []).HashCode() == SdkCodelist("BB", "1", []).HashCode()
    ensures !CodelistObject(1, SdkCodelistClass, SdkCodelist("Aa", "1", [])).Equals(
               ToCodelist(CodelistObject(2, SdkCodelistClass, SdkCodelist("BB", "1", []))))
  {
    assert StringHashCode("A") == 65 by { Int32InRange(65); }
    assert StringHashCode("B") == 66 by { Int32InRange(66); }
    assert StringHashCode("Aa") == 2112 by {
      assert "Aa"[..1] == "A";
      Int32InRange(2112);
    }
    assert StringHashCode("BB") == 2112 by {
      assert "BB"[..1] == "B";
      Int32InRange(2112);
    }
  }
}
