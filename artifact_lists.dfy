/**
 * The serialisation of a repeated form field (a list of object-storage
 * references) into one column value, `", ".join(refs)`, and its reading back.
 */
module ArtifactLists {

  const Separator: string := ", "

  /** Total number of characters in the references. */
  function TotalLength(parts: seq<string>): nat {
    if parts == [] then 0 else |parts[0]| + TotalLength(parts[1..])
  }

  /** Python's `", ".join(parts)`. */
  function Join(parts: seq<string>): (r: string)
    ensures |r| == if parts == [] then 0 else TotalLength(parts) + |Separator| * (|parts| - 1)
  {
    if parts == [] then ""
    else if |parts| == 1 then parts[0]
    else parts[0] + Separator + Join(parts[1..])
  }

  /** Python's `s.split(", ")`: cut at every separator, scanning left to right. */
  function Split(s: string): (r: seq<string>)
    ensures |r| >= 1
    decreases |s|
  {
    if |s| >= 2 && s[..2] == Separator then [""] + Split(s[2..])
    else if s == "" then [""]
    else
      var rest := Split(s[1..]);
      [[s[0]] + rest[0]] + rest[1..]
  }

  /** No character of `s` is a comma, so no separator can start inside it. */
  predicate CommaFree(s: string) {
    forall k :: 0 <= k < |s| ==> s[k] != ','
  }

  /** The empty list is stored as "", a one-element list as that element. */
  lemma JoinSmall(x: string)
    ensures Join([]) == ""
    ensures Join([x]) == x
  {
  }

  /** Appending a reference appends a separator and that reference. */
  lemma {:induction false} JoinSnoc(parts: seq<string>, x: string)
    requires parts != []
    ensures Join(parts + [x]) == Join(parts) + Separator + x
    decreases |parts|
  {
    if |parts| == 1 {
      assert parts + [x] == [parts[0], x];
    } else {
      assert (parts + [x])[1..] == parts[1..] + [x];
      JoinSnoc(parts[1..], x);
    }
  }

  lemma {:induction false} SplitCommaFree(x: string)
    requires CommaFree(x)
    ensures Split(x) == [x]
    decreases |x|
  {
    if x != "" {
      assert x[0] != ',';
      assert |x| >= 2 ==> x[..2][0] == x[0];
      SplitCommaFree(x[1..]);
      assert [x[0]] + x[1..] == x;
    }
  }

  lemma {:induction false} SplitAfterCommaFree(x: string, t: string)
    requires CommaFree(x)
    ensures Split(x + Separator + t) == [x] + Split(t)
    decreases |x|
  {
    var s := x + Separator + t;
    if x == "" {
      assert s[..2] == Separator && s[2..] == t;
    } else {
      assert s[0] == x[0] != ',';
      assert s[1..] == x[1..] + Separator + t;
      SplitAfterCommaFree(x[1..], t);
      assert [x[0]] + x[1..] == x;
    }
  }

  /**
   * The stored string determines the list whenever no reference contains a
   * comma: splitting it at the separator gives the list back. (A non-empty
   * list is needed because `[]` and `[""]` are both stored as "".)
   */
  lemma {:induction false} SplitJoin(parts: seq<string>)
    requires parts != []
    requires forall i :: 0 <= i < |parts| ==> CommaFree(parts[i])
    ensures Split(Join(parts)) == parts
    decreases |parts|
  {
    if |parts| == 1 {
      SplitCommaFree(parts[0]);
    } else {
      SplitAfterCommaFree(parts[0], Join(parts[1..]));
      SplitJoin(parts[1..]);
    }
  }

  /**
   * The serialisation loses information: the empty list and the list holding
   * one empty reference are stored alike, and so are one reference containing
   * the separator and the two references on either side of it.
   */
  lemma JoinCollisions()
    ensures Join([]) == Join([""])
    ensures Join(["a, b"]) == Join(["a", "b"])
  {
  }
}
