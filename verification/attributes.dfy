/** The variant's attribute assignments and the slug-to-value map the page
    folds them into. */
module Attributes {

  datatype Attribute = Attribute(name: string, slug: string, values: seq<string>)

  /** One entry of `variant.attributes`: an attribute and the value chosen
      for this variant. */
  datatype AttributeAssignment = AttributeAssignment(attribute: Attribute, value: string)

  /** The slugs named by `attrs`. */
  ghost function Slugs(attrs: seq<AttributeAssignment>): set<string>
  {
    set i | 0 <= i < |attrs| :: attrs[i].attribute.slug
  }

  /** Folds the assignments left to right into one map, each assignment
      overwriting the entry of its slug; written here as the fold of all but
      the last assignment, updated by the last one. */
  function AttributeMap(attrs: seq<AttributeAssignment>): (m: map<string, string>)
    ensures m.Keys == Slugs(attrs)
  {
    if |attrs| == 0 then map[]
    else
      var init := attrs[..|attrs| - 1];
      var last := attrs[|attrs| - 1];
      assert forall i :: 0 <= i < |init| ==> init[i] == attrs[i];
      assert Slugs(attrs) == Slugs(init) + {last.attribute.slug};
      AttributeMap(init)[last.attribute.slug := last.value]
  }

  /** No later entry of `attrs` assigns the slug of entry `i`. */
  ghost predicate IsLastOccurrence(attrs: seq<AttributeAssignment>, i: int)
  {
    && 0 <= i < |attrs|
    && forall j :: i < j < |attrs| ==> attrs[j].attribute.slug != attrs[i].attribute.slug
  }

  /** Last write wins: each slug maps to the value of the last entry that
      assigns it. */
  lemma {:induction false} LastWriteWins(attrs: seq<AttributeAssignment>, i: int)
    requires IsLastOccurrence(attrs, i)
    ensures AttributeMap(attrs)[attrs[i].attribute.slug] == attrs[i].value
    decreases |attrs|
  {
    var n := |attrs| - 1;
    if i < n {
      var init := attrs[..n];
      assert init[i] == attrs[i];
      assert IsLastOccurrence(init, i);
      LastWriteWins(init, i);
    }
  }

  /** Every slug of the map has a last occurrence, and the map holds its
      value. */
  lemma {:induction false} ValueIsLastAssigned(attrs: seq<AttributeAssignment>, slug: string)
    requires slug in AttributeMap(attrs)
    ensures exists i :: IsLastOccurrence(attrs, i) && attrs[i].attribute.slug == slug
                        && AttributeMap(attrs)[slug] == attrs[i].value
  {
    var i :| 0 <= i < |attrs| && attrs[i].attribute.slug == slug;
    while !IsLastOccurrence(attrs, i)
      invariant 0 <= i < |attrs| && attrs[i].attribute.slug == slug
      decreases |attrs| - i
    {
      var j :| i < j < |attrs| && attrs[j].attribute.slug == slug;
      i := j;
    }
    LastWriteWins(attrs, i);
  }
}
