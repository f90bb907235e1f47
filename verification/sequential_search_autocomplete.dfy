/** `SequentialSearchAutocomplete`: the terms in insertion order, and a
    linear scan that keeps every term starting with the prefix. */
module SequentialSearch {
  import opened Terms

  class SequentialSearchAutocomplete {
    /** The added terms, in the order they were added, duplicates kept. */
    var elements: seq<Term>

    /** An empty instance. */
    constructor ()
      ensures elements == []
    {
      elements := [];
    }

    /** Appends every term, in the collection's iteration order. */
    method AddAll(terms: seq<Term>)
      modifies this
      ensures elements == old(elements) + terms
    {
      var k := 0;
      while k < |terms|
        invariant 0 <= k <= |terms|
        invariant elements == old(elements) + terms[..k]
      {
        assert terms[..k + 1] == terms[..k] + [terms[k]];
        elements := elements + [terms[k]];
        k := k + 1;
      }
      assert terms[..k] == terms;
    }

    /** Every stored term that starts with `prefix`, in insertion order;
        `elements` is left as it was. */
    method AllMatches(prefix: Term) returns (matchList: seq<Term>)
      ensures matchList == Filter(elements, prefix)
    {
      matchList := [];
      var i := 0;
      while i < |elements|
        invariant 0 <= i <= |elements|
        invariant matchList == Filter(elements[..i], prefix)
      {
        assert elements[..i + 1] == elements[..i] + [elements[i]];
        FilterSnoc(elements[..i], elements[i], prefix);
        if StartsWith(elements[i], prefix) {
          matchList := matchList + [elements[i]];
        }
        i := i + 1;
      }
      assert elements[..i] == elements;
    }

    /** With the empty prefix every stored term is a match. */
    method AllMatchesEmptyPrefix() returns (matchList: seq<Term>)
      ensures matchList == elements
    {
      matchList := AllMatches([]);
      FilterEmptyPrefix(elements);
    }
  }
}
