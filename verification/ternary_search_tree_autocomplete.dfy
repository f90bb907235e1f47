/** `TernarySearchTreeAutocomplete`: a ternary search tree, held as a
    `TstTrees.Tree` value in the `overallRoot` field. `put` rebuilds the
    path it changes and its result is assigned back to the root, as the
    Java code assigns the node `put` returns. */
module TernarySearchTree {
  import opened Wrappers
  import opened Terms
  import opened TstTrees
  import opened Lists

  /** `java.lang.StringBuilder`, as far as `collect` uses it. */
  class StringBuilder {
    var contents: seq<char>

    constructor (s: Term)
      ensures contents == s
    {
      contents := s;
    }

    function Length(): nat
      reads this
    {
      |contents|
    }

    method Append(c: char)
      modifies this
      ensures contents == old(contents) + [c]
    {
      contents := contents + [c];
    }

    /** Removes the char at `index`; an index out of range throws. */
    method DeleteCharAt(index: int) returns (o: Outcome)
      modifies this
      ensures 0 <= index < |old(contents)| ==>
        o == Pass && contents == old(contents)[..index] + old(contents)[index + 1..]
      ensures !(0 <= index < |old(contents)|) ==>
        o == Fail(StringIndexOutOfBoundsException) && contents == old(contents)
    {
      if 0 <= index < |contents| {
        contents := contents[..index] + contents[index + 1..];
        o := Pass;
      } else {
        o := Fail(StringIndexOutOfBoundsException);
      }
    }
  }

  /** The `List<CharSequence>` that `collect` appends to. */
  class TermList {
    var items: seq<Term>

    constructor ()
      ensures items == []
    {
      items := [];
    }

    method Add(x: Term)
      modifies this
      ensures items == old(items) + [x]
    {
      items := items + [x];
    }
  }

  /** `get(node, key, i)`: the node reached by spelling `key[i..]`, or
      `Nil`; an empty key on a non-empty subtree throws. */
  function Get(node: Tree, key: Term, i: nat): (r: Result<Tree>)
    requires key == [] || i < |key|
  {
    if node.Nil? then Success(Nil)
    else if |key| == 0 then Failure(IllegalArgumentException)
    else Success(Find(node, key, i))
  }

  /** `collect(node, prefix, matches)`: appends the subtree's words, behind
      `prefix`, in order; `prefix` ends as it started, since every append
      to it is undone. */
  method Collect(node: Tree, prefix: StringBuilder, matches: TermList)
    modifies prefix, matches
    ensures prefix.contents == old(prefix.contents)
    ensures matches.items == old(matches.items) + CollectOrder(old(prefix.contents), node)
  {
    if node.Nil? {
      return;
    }
    ghost var p, found := prefix.contents, matches.items;
    ghost var own: seq<Term> := if node.isTerm then [p + [node.data]] else [];
    ghost var l, m, r := CollectOrder(p, node.left), CollectOrder(p + [node.data], node.mid), CollectOrder(p, node.right);
    Collect(node.left, prefix, matches);
    assert matches.items == found + l;
    if node.isTerm {
      matches.Add(prefix.contents + [node.data]);
    }
    assert matches.items == found + l + own;
    prefix.Append(node.data);
    Collect(node.mid, prefix, matches);
    assert matches.items == found + l + own + m;
    var o := prefix.DeleteCharAt(prefix.Length() - 1);
    assert (p + [node.data])[..|p|] == p && (p + [node.data])[|p| + 1..] == [];
    assert prefix.contents == p;
    Collect(node.right, prefix, matches);
    assert matches.items == found + l + own + m + r;
    assert CollectOrder(p, node) == l + own + m + r;
    Regroup(found, l, own, m, r);
  }

  class TernarySearchTreeAutocomplete {
    /** The tree, `Nil` while no term is stored. */
    var overallRoot: Tree

    ghost predicate Valid()
      reads this
    {
      Ordered(overallRoot)
    }

    /** An empty instance. */
    constructor ()
      ensures Valid() && overallRoot == Nil
    {
      overallRoot := Nil;
    }

    /** `addAll(terms)`: puts each term in order. An empty term throws
        `StringIndexOutOfBoundsException` from `charAt(0)`, with the terms
        before it already stored. */
    method AddAll(terms: seq<Term>) returns (o: Outcome)
      requires Valid()
      modifies this
      ensures Valid()
      ensures o.Pass? <==> forall k :: 0 <= k < |terms| ==> terms[k] != []
      ensures o.Pass? ==> overallRoot == PutAll(old(overallRoot), terms)
      ensures o.Fail? ==>
        && o.error == StringIndexOutOfBoundsException
        && exists k ::
          && 0 <= k < |terms| && terms[k] == []
          && (forall j :: 0 <= j < k ==> terms[j] != [])
          && overallRoot == PutAll(old(overallRoot), terms[..k])
    {
      var k := 0;
      while k < |terms|
        invariant 0 <= k <= |terms|
        invariant Valid()
        invariant forall j :: 0 <= j < k ==> terms[j] != []
        invariant overallRoot == PutAll(old(overallRoot), terms[..k])
      {
        if terms[k] == [] {
          return Fail(StringIndexOutOfBoundsException);
        }
        PutOrdered(overallRoot, terms[k], 0);
        overallRoot := PutTree(overallRoot, terms[k], 0);
        assert terms[..k + 1][..k] == terms[..k];
        k := k + 1;
      }
      assert terms[..k] == terms;
      return Pass;
    }

    /** `allMatches(prefix)`: every stored term that starts with `prefix`,
        in increasing order. A `null` prefix throws, and so does an empty
        prefix on a non-empty tree. */
    method AllMatches(prefix: Option<Term>) returns (r: Result<seq<Term>>)
      requires Valid()
      ensures r.Failure? <==> prefix.None? || (prefix.value == [] && overallRoot != Nil)
      ensures r.Failure? ==> r.error == IllegalArgumentException
      ensures r.Success? ==> r.value == Filter(Words(overallRoot), prefix.value)
      ensures r.Success? ==> StrictlySorted(r.value)
    {
      if prefix.None? {
        return Failure(IllegalArgumentException);
      }
      var key := prefix.value;
      WordsStrictlySorted(overallRoot);
      FilterStrictlySorted(Words(overallRoot), key);
      var matches := new TermList();
      var x := Get(overallRoot, key, 0);
      if x.Failure? {
        return Failure(x.error);
      }
      if key != [] {
        FilterFind(overallRoot, key, 0);
        assert key[0..] == key;
      }
      if x.value.Nil? {
        return Success(matches.items);
      }
      if x.value.isTerm {
        matches.Add(key);
      }
      var sb := new StringBuilder(key);
      Collect(x.value.mid, sb, matches);
      CollectOrderIsWords(key, x.value.mid);
      return Success(matches.items);
    }
  }
}
