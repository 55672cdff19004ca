/**
 * java.util.StringJoiner as SdkCodelist uses it: a prefix, the added elements
 * separated by a delimiter, and a suffix. The empty value is never replaced, so
 * a joiner to which nothing was added renders as prefix followed by suffix.
 */
module StringJoining {

  import opened Options

  /** The elements separated by the delimiter, built the way a joiner adds them: at the end. */
  function Join(elements: seq<string>, delimiter: string): string
  {
    if |elements| == 0 then ""
    else if |elements| == 1 then elements[0]
    else Join(elements[..|elements| - 1], delimiter) + delimiter + elements[|elements| - 1]
  }

  /** The concatenation of a sequence of pieces. */
  function Concat(pieces: seq<string>): string
  {
    if pieces == [] then "" else Concat(pieces[..|pieces| - 1]) + pieces[|pieces| - 1]
  }

  /** Total number of chars in the elements. */
  function TotalLength(elements: seq<string>): nat
  {
    if elements == [] then 0 else TotalLength(elements[..|elements| - 1]) + |elements[|elements| - 1]|
  }

  /**
   * The pieces of a joined string in order: element 0, delimiter, element 1, ...,
   * delimiter, element n-1. Elements stand at the even positions and the n - 1
   * delimiters at the odd ones.
   */
  function Interleave(elements: seq<string>, delimiter: string): seq<string>
  {
    if elements == [] then []
    else seq(2 * |elements| - 1, i requires 0 <= i < 2 * |elements| - 1 => if i % 2 == 0 then elements[i / 2] else delimiter)
  }

  /** Adding an element at the end adds a delimiter and that element to the pieces. */
  lemma InterleaveSnoc(elements: seq<string>, delimiter: string)
    requires |elements| > 1
    ensures Interleave(elements, delimiter)
         == Interleave(elements[..|elements| - 1], delimiter) + [delimiter, elements[|elements| - 1]]
  {
    var n := |elements|;
    var ps, qs := Interleave(elements[..n - 1], delimiter), Interleave(elements, delimiter);
    assert |qs| == |ps| + 2;
    forall i | 0 <= i < |ps|
      ensures qs[i] == ps[i]
    {
      if i % 2 == 0 {
        assert i / 2 < n - 1;
      }
    }
    assert qs[|ps|] == delimiter by {
      assert |ps| % 2 == 1;
    }
    assert qs[|ps| + 1] == elements[n - 1] by {
      assert (|ps| + 1) % 2 == 0 && (|ps| + 1) / 2 == n - 1;
    }
  }

  /** Joining is concatenating the elements with exactly one delimiter between neighbours and none elsewhere. */
  lemma {:induction false} JoinIsInterleaving(elements: seq<string>, delimiter: string)
    ensures Join(elements, delimiter) == Concat(Interleave(elements, delimiter))
    decreases |elements|
  {
    var n := |elements|;
    if n == 1 {
      assert Interleave(elements, delimiter) == [elements[0]];
      assert Interleave(elements, delimiter)[..0] == [];
    } else if n > 1 {
      var init := elements[..n - 1];
      JoinIsInterleaving(init, delimiter);
      var ps, qs := Interleave(init, delimiter), Interleave(elements, delimiter);
      InterleaveSnoc(elements, delimiter);
      assert qs[..|qs| - 1] == ps + [delimiter];
      assert (ps + [delimiter])[..|ps|] == ps;
    }
  }

  /** A joined string is as long as its elements together plus one delimiter per gap. */
  lemma {:induction false} JoinLength(elements: seq<string>, delimiter: string)
    requires elements != []
    ensures |Join(elements, delimiter)| == TotalLength(elements) + (|elements| - 1) * |delimiter|
    decreases |elements|
  {
    var n := |elements|;
    if n == 1 {
      assert elements[..0] == [];
    } else {
      JoinLength(elements[..n - 1], delimiter);
    }
  }

  /** Joining two non-empty runs of elements puts one delimiter between their two joins. */
  lemma {:induction false} JoinAppend(xs: seq<string>, ys: seq<string>, delimiter: string)
    requires xs != [] && ys != []
    ensures Join(xs + ys, delimiter) == Join(xs, delimiter) + delimiter + Join(ys, delimiter)
    decreases |ys|
  {
    var zs := xs + ys;
    var m := |ys|;
    if m == 1 {
      assert zs[..|zs| - 1] == xs;
    } else {
      var init := ys[..m - 1];
      assert zs[..|zs| - 1] == xs + init;
      JoinAppend(xs, init, delimiter);
    }
  }

  /**
   * A StringJoiner in the style of its builder-based implementation: nothing is
   * built until the first element is added; then the builder holds the prefix and
   * the elements so far, separated by the delimiter, and toString appends the suffix.
   */
  class StringJoiner {
    const prefix: string
    const delimiter: string
    const suffix: string
    var value: Option<string>
    ghost var elements: seq<string>

    ghost predicate Valid()
      reads this
    {
      value == if elements == [] then None else Some(prefix + Join(elements, delimiter))
    }

    /** new StringJoiner(delimiter, prefix, suffix) */
    constructor (delimiter: string, prefix: string, suffix: string)
      ensures Valid() && elements == []
      ensures this.delimiter == delimiter && this.prefix == prefix && this.suffix == suffix
    {
      this.delimiter := delimiter;
      this.prefix := prefix;
      this.suffix := suffix;
      value := None;
      elements := [];
    }

    /** add(element): the delimiter goes in front of every element but the first. */
    method Add(element: string)
      requires Valid()
      modifies this
      ensures Valid() && elements == old(elements) + [element]
    {
      ghost var added := elements + [element];
      assert added[..|elements|] == elements;
      if value.None? {
        assert Join(added, delimiter) == element;
        value := Some(prefix + element);
      } else {
        assert Join(added, delimiter) == Join(elements, delimiter) + delimiter + element;
        value := Some(value.value + delimiter + element);
        assert value.value == prefix + Join(added, delimiter);
      }
      elements := added;
    }

    /** toString(): the prefix, the joined elements and the suffix; with no element, the prefix and the suffix. */
    function ToString(): (r: string)
      reads this
      requires Valid()
      ensures r == prefix + Join(elements, delimiter) + suffix
    {
      match value
      case None => prefix + suffix
      case Some(built) => built + suffix
    }
  }
}
