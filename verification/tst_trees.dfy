/** The value behind a ternary search tree: each node holds a char, whether
    the path to it spells a stored term, and three children. Left and right
    hold other chars at the same key position, mid the next position.
    `PutTree` and `Find` follow `put` and `get` of
    `TernarySearchTreeAutocomplete`, `Words` lists the stored terms in the
    order `collect` emits them. */
module TstTrees {
  import opened Terms
  import opened Lists

  datatype Tree = Nil | Branch(data: char, isTerm: bool, left: Tree, mid: Tree, right: Tree)

  /** The chars at the top key position: those reached by left/right links. */
  function Level(t: Tree): set<char>
  {
    match t
    case Nil => {}
    case Branch(c, _, l, _, r) => Level(l) + {c} + Level(r)
  }

  /** At every node, the left links hold smaller chars and the right links
      larger ones. */
  ghost predicate Ordered(t: Tree)
  {
    match t
    case Nil => true
    case Branch(c, _, l, m, r) =>
      && (forall x :: x in Level(l) ==> x < c)
      && (forall x :: x in Level(r) ==> c < x)
      && Ordered(l) && Ordered(m) && Ordered(r)
  }

  /** `p` put in front of every term of `s`. */
  function Prepend(p: Term, s: seq<Term>): (r: seq<Term>)
    ensures |r| == |s|
    ensures forall k {:trigger r[k]} :: 0 <= k < |s| ==> r[k] == p + s[k]
  {
    seq(|s|, k requires 0 <= k < |s| => p + s[k])
  }

  /** The stored terms, in the order `collect` emits them: the left subtree,
      the node's own term, the mid subtree behind the node's char, the right
      subtree. */
  function Words(t: Tree): seq<Term>
  {
    match t
    case Nil => []
    case Branch(c, term, l, m, r) =>
      Words(l) + (if term then [[c]] else []) + Prepend([c], Words(m)) + Words(r)
  }

  /** `put(node, key, i)`: stores `key[i..]` below `t`. A missing node is
      created with the char at `i`. */
  function PutTree(t: Tree, key: Term, i: nat): Tree
    requires i < |key|
    decreases |key| - i, t
  {
    var c := key[i];
    var n := if t.Nil? then Branch(c, false, Nil, Nil, Nil) else t;
    if c < n.data then n.(left := PutTree(n.left, key, i))
    else if c > n.data then n.(right := PutTree(n.right, key, i))
    else if i < |key| - 1 then n.(mid := PutTree(n.mid, key, i + 1))
    else n.(isTerm := true)
  }

  /** `get(node, key, i)` for a non-empty key: the node reached by spelling
      `key[i..]`, or `Nil`. */
  function Find(t: Tree, key: Term, i: nat): Tree
    requires i < |key|
    decreases t
  {
    match t
    case Nil => Nil
    case Branch(c, _, l, m, r) =>
      if key[i] < c then Find(l, key, i)
      else if key[i] > c then Find(r, key, i)
      else if i < |key| - 1 then Find(m, key, i + 1)
      else t
  }

  /** What `allMatches` returns for the node `n` found for prefix `q`: `q`
      itself when it is a term, then the terms below `n.mid` behind `q`. */
  function Matches(n: Tree, q: Term): seq<Term>
  {
    match n
    case Nil => []
    case Branch(_, term, _, m, _) => (if term then [q] else []) + Prepend(q, Words(m))
  }

  /** The terms stored after each of `terms` is put, in order. */
  function PutAll(t: Tree, terms: seq<Term>): Tree
    requires forall k :: 0 <= k < |terms| ==> terms[k] != []
  {
    if terms == [] then t
    else PutTree(PutAll(t, terms[..|terms| - 1]), terms[|terms| - 1], 0)
  }

  // ---------------------------------------------------------------------
  // Prepend
  // ---------------------------------------------------------------------

  lemma PrependMember(p: Term, s: seq<Term>, w: Term)
    ensures w in Prepend(p, s) <==> |p| <= |w| && w[..|p|] == p && w[|p|..] in s
  {
    if w in Prepend(p, s) {
      var k :| 0 <= k < |s| && Prepend(p, s)[k] == w;
      assert w[|p|..] == s[k];
    }
    if |p| <= |w| && w[..|p|] == p && w[|p|..] in s {
      var k :| 0 <= k < |s| && s[k] == w[|p|..];
      assert w == p + s[k];
      assert Prepend(p, s)[k] == w;
    }
  }

  lemma PrependAppend(p: Term, a: seq<Term>, b: seq<Term>)
    ensures Prepend(p, a + b) == Prepend(p, a) + Prepend(p, b)
  {
  }

  lemma PrependTwice(c: Term, q: Term, s: seq<Term>)
    ensures Prepend(c, Prepend(q, s)) == Prepend(c + q, s)
  {
    forall k | 0 <= k < |s|
      ensures Prepend(c, Prepend(q, s))[k] == Prepend(c + q, s)[k]
    {
      assert c + (q + s[k]) == (c + q) + s[k];
    }
  }

  /** Filtering terms behind a common first part filters the rest. */
  lemma FilterPrepend(c: Term, s: seq<Term>, q: Term)
    ensures Filter(Prepend(c, s), c + q) == Prepend(c, Filter(s, q))
    decreases |s|
  {
    if s != [] {
      assert Prepend(c, s) == [c + s[0]] + Prepend(c, s[1..]);
      FilterPrepend(c, s[1..], q);
      assert StartsWith(c + s[0], c + q) <==> StartsWith(s[0], q) by {
        if StartsWith(s[0], q) {
          assert (c + s[0])[..|c + q|] == c + q;
        }
        if StartsWith(c + s[0], c + q) {
          assert s[0][..|q|] == (c + s[0])[|c|..|c + q|];
        }
      }
      assert s == [s[0]] + s[1..];
      assert Filter(s, q) == (if StartsWith(s[0], q) then [s[0]] else []) + Filter(s[1..], q);
      PrependAppend(c, if StartsWith(s[0], q) then [s[0]] else [], Filter(s[1..], q));
    }
  }

  // ---------------------------------------------------------------------
  // What the stored words look like
  // ---------------------------------------------------------------------

  /** Every stored word is non-empty and starts with a char of the top level. */
  lemma {:induction false} WordsShape(t: Tree)
    ensures forall w :: w in Words(t) ==> w != [] && w[0] in Level(t)
  {
    match t
    case Nil =>
    case Branch(c, term, l, m, r) =>
      WordsShape(l);
      WordsShape(r);
      forall w | w in Words(t)
        ensures w != [] && w[0] in Level(t)
      {
        if w in Prepend([c], Words(m)) {
          PrependMember([c], Words(m), w);
          assert w[0] == w[..1][0] == c;
        } else if w in Words(l) {
          assert w[0] in Level(l);
        } else if w in Words(r) {
          assert w[0] in Level(r);
        } else {
          assert w == [c];
        }
      }
  }

  /** A term matches a node exactly when the node is found for it and marks
      a term. */
  lemma MatchesHoldsPrefix(n: Tree, q: Term)
    requires q != []
    ensures q in Matches(n, q) <==> n.Branch? && n.isTerm
  {
    if n.Branch? && q in Prepend(q, Words(n.mid)) {
      PrependMember(q, Words(n.mid), q);
      WordsShape(n.mid);
    }
  }

  // ---------------------------------------------------------------------
  // Put
  // ---------------------------------------------------------------------

  /** Putting a key adds its char to the top level, when the key position
      is the top one, and nothing else. */
  lemma {:induction false} PutLevel(t: Tree, key: Term, i: nat)
    requires i < |key|
    ensures Level(PutTree(t, key, i)) == Level(t) + {key[i]}
    decreases |key| - i, t
  {
    var c := key[i];
    if t.Branch? {
      if c < t.data {
        PutLevel(t.left, key, i);
      } else if c > t.data {
        PutLevel(t.right, key, i);
      }
    }
  }

  /** `put` keeps the left/right links ordered. */
  lemma {:induction false} PutOrdered(t: Tree, key: Term, i: nat)
    requires i < |key| && Ordered(t)
    ensures Ordered(PutTree(t, key, i))
    decreases |key| - i, t
  {
    var c := key[i];
    var n := if t.Nil? then Branch(c, false, Nil, Nil, Nil) else t;
    if c < n.data {
      PutOrdered(n.left, key, i);
      PutLevel(n.left, key, i);
    } else if c > n.data {
      PutOrdered(n.right, key, i);
      PutLevel(n.right, key, i);
    } else if i < |key| - 1 {
      PutOrdered(n.mid, key, i + 1);
    }
  }

  /** A word is stored at a node when it is in one of the node's four parts. */
  lemma WordsMember(t: Tree, w: Term)
    requires t.Branch?
    ensures w in Words(t) <==> w in Words(t.left) || (t.isTerm && w == [t.data])
                               || w in Prepend([t.data], Words(t.mid)) || w in Words(t.right)
  {
  }

  /** After `put`, the word `w` is stored exactly when it was stored before
      or is the key's suffix. */
  lemma {:induction false} PutWordsAt(t: Tree, key: Term, i: nat, w: Term)
    requires i < |key|
    ensures w in Words(PutTree(t, key, i)) <==> w in Words(t) || w == key[i..]
    decreases |key| - i, t
  {
    var c := key[i];
    var n := if t.Nil? then Branch(c, false, Nil, Nil, Nil) else t;
    var t' := PutTree(t, key, i);
    assert Words(n) == Words(t);
    WordsMember(n, w);
    WordsMember(t', w);
    assert key[i..] == [c] + key[i + 1..];
    if c < n.data {
      PutWordsAt(n.left, key, i, w);
      assert w == key[i..] ==> w !in Prepend([n.data], Words(n.mid)) by {
        PrependMember([n.data], Words(n.mid), w);
      }
    } else if c > n.data {
      PutWordsAt(n.right, key, i, w);
      assert w == key[i..] ==> w !in Prepend([n.data], Words(n.mid)) by {
        PrependMember([n.data], Words(n.mid), w);
      }
    } else if i < |key| - 1 {
      PrependMember([c], Words(PutTree(n.mid, key, i + 1)), w);
      PrependMember([c], Words(n.mid), w);
      if |w| >= 1 {
        PutWordsAt(n.mid, key, i + 1, w[1..]);
        assert w[..1] == [c] && w[1..] == key[i + 1..] <==> w == key[i..];
      }
    } else {
      assert key[i..] == [c];
      PrependMember([c], Words(n.mid), w);
    }
  }

  /** After `put`, the stored words are the old ones and the key's suffix. */
  lemma PutWords(t: Tree, key: Term, i: nat)
    requires i < |key|
    ensures forall w :: w in Words(PutTree(t, key, i)) <==> w in Words(t) || w == key[i..]
  {
    forall w
      ensures w in Words(PutTree(t, key, i)) <==> w in Words(t) || w == key[i..]
    {
      PutWordsAt(t, key, i, w);
    }
  }

  /** Re-putting a stored key changes nothing: no node is created and no
      word is added. */
  lemma {:induction false} PutStored(t: Tree, key: Term, i: nat)
    requires i < |key| && Ordered(t) && key[i..] in Words(t)
    ensures PutTree(t, key, i) == t
    decreases |key| - i, t
  {
    var c := key[i];
    var q := key[i..];
    assert q[0] == c;
    match t
    case Nil =>
    case Branch(d, term, l, m, r) =>
      WordsShape(l);
      WordsShape(m);
      WordsShape(r);
      if q in Prepend([d], Words(m)) {
        PrependMember([d], Words(m), q);
        assert q[1..] in Words(m);
      }
      if c < d {
        assert q in Words(l);
        PutStored(l, key, i);
      } else if c > d {
        assert q in Words(r);
        PutStored(r, key, i);
      } else if i < |key| - 1 {
        assert q in Prepend([d], Words(m));
        assert q[1..] == key[i + 1..];
        PutStored(m, key, i + 1);
      } else {
        assert q == [c];
        assert q !in Words(l) && q !in Words(r);
        assert q !in Prepend([d], Words(m));
        assert term;
      }
  }

  /** After putting each of `terms`, the stored words are the old ones and
      the terms; the links stay ordered. */
  lemma {:induction false} PutAllWords(t: Tree, terms: seq<Term>)
    requires Ordered(t)
    requires forall k :: 0 <= k < |terms| ==> terms[k] != []
    ensures Ordered(PutAll(t, terms))
    ensures forall w :: w in Words(PutAll(t, terms)) <==> w in Words(t) || w in terms
  {
    if terms != [] {
      var front := terms[..|terms| - 1];
      var last := terms[|terms| - 1];
      PutAllWords(t, front);
      PutOrdered(PutAll(t, front), last, 0);
      PutWords(PutAll(t, front), last, 0);
      assert last[0..] == last;
      assert terms == front + [last];
    }
  }

  // ---------------------------------------------------------------------
  // Find
  // ---------------------------------------------------------------------

  /** No word of `s` starts with `q` when every word starts with a char
      other than `q`'s first. */
  lemma NoneStartWith(s: seq<Term>, q: Term, chars: set<char>)
    requires q != [] && q[0] !in chars
    requires forall w :: w in s ==> w != [] && w[0] in chars
    ensures Filter(s, q) == []
  {
    forall k | 0 <= k < |s|
      ensures !StartsWith(s[k], q)
    {
      assert s[k] in s;
    }
    FilterNone(s, q);
  }

  /** The words of a node behind a prefix `p`, part by part, as `collect`
      emits them: the left words, the node's term, the mid words behind
      `p` and the node's char, the right words. */
  lemma PrependWords(p: Term, t: Tree)
    requires t.Branch?
    ensures Prepend(p, Words(t))
         == Prepend(p, Words(t.left))
          + (if t.isTerm then [p + [t.data]] else [])
          + Prepend(p + [t.data], Words(t.mid))
          + Prepend(p, Words(t.right))
  {
    var Branch(c, term, l, m, r) := t;
    var own: seq<Term> := if term then [[c]] else [];
    PrependAppend(p, Words(l) + own + Prepend([c], Words(m)), Words(r));
    PrependAppend(p, Words(l) + own, Prepend([c], Words(m)));
    PrependAppend(p, Words(l), own);
    PrependTwice(p, [c], Words(m));
  }

  /** The words of `t` behind `p`, in the order `collect` appends them when
      its builder holds `p`. */
  function CollectOrder(p: Term, t: Tree): seq<Term>
    decreases t
  {
    match t
    case Nil => []
    case Branch(c, term, l, m, r) =>
      CollectOrder(p, l) + (if term then [p + [c]] else []) + CollectOrder(p + [c], m) + CollectOrder(p, r)
  }

  /** `collect` appends exactly the stored words behind the prefix, in the
      order of `Words`. */
  lemma {:induction false} CollectOrderIsWords(p: Term, t: Tree)
    ensures CollectOrder(p, t) == Prepend(p, Words(t))
    decreases t
  {
    match t
    case Nil =>
    case Branch(c, term, l, m, r) =>
      CollectOrderIsWords(p, l);
      CollectOrderIsWords(p + [c], m);
      CollectOrderIsWords(p, r);
      PrependWords(p, t);
  }

  /** Filtering a list of four parts filters each part. */
  lemma FilterFour(a: seq<Term>, b: seq<Term>, c: seq<Term>, d: seq<Term>, q: Term)
    ensures Filter(a + b + c + d, q) == Filter(a, q) + Filter(b, q) + Filter(c, q) + Filter(d, q)
  {
    FilterAppend(a + b + c, d, q);
    FilterAppend(a + b, c, q);
    FilterAppend(a, b, q);
  }

  /** The words behind a node's char start with that char and are longer. */
  lemma BelowShape(c: char, m: Tree)
    ensures forall w :: w in Prepend([c], Words(m)) ==> |w| >= 2 && w[0] == c
  {
    WordsShape(m);
    forall w | w in Prepend([c], Words(m))
      ensures |w| >= 2 && w[0] == c
    {
      PrependMember([c], Words(m), w);
      assert w[1..] in Words(m);
      assert w[0] == w[..1][0];
    }
  }

  /** The words behind a node's char all start with that char. */
  lemma BelowStartsWith(c: char, m: Tree)
    ensures forall k :: 0 <= k < |Prepend([c], Words(m))| ==> StartsWith(Prepend([c], Words(m))[k], [c])
  {
  }

  /** No word of a subtree matches a key whose first char is not on the
      subtree's top level. */
  lemma SideUnmatched(t: Tree, q: Term)
    requires q != [] && q[0] !in Level(t)
    ensures Filter(Words(t), q) == []
  {
    WordsShape(t);
    NoneStartWith(Words(t), q, Level(t));
  }

  /** Neither a node's own term nor the words behind it match a key that
      starts with another char. */
  lemma HereUnmatched(c: char, term: bool, m: Tree, q: Term)
    requires q != [] && q[0] != c
    ensures Filter(if term then [[c]] else [], q) == []
    ensures Filter(Prepend([c], Words(m)), q) == []
  {
    NoneStartWith(if term then [[c]] else [], q, {c});
    BelowShape(c, m);
    NoneStartWith(Prepend([c], Words(m)), q, {c});
  }

  /** Filtering a node's words filters its four parts. */
  lemma FilterNode(t: Tree, q: Term)
    requires t.Branch?
    ensures Filter(Words(t), q)
         == Filter(Words(t.left), q) + Filter(if t.isTerm then [[t.data]] else [], q)
          + Filter(Prepend([t.data], Words(t.mid)), q) + Filter(Words(t.right), q)
  {
    FilterFour(Words(t.left), if t.isTerm then [[t.data]] else [], Prepend([t.data], Words(t.mid)), Words(t.right), q);
  }

  /** At a node whose char is above the key's, only the left words can match. */
  lemma FilterAtLeft(t: Tree, q: Term)
    requires t.Branch? && Ordered(t) && q != [] && q[0] < t.data
    ensures Filter(Words(t), q) == Filter(Words(t.left), q)
  {
    var Branch(c, term, l, m, r) := t;
    HereUnmatched(c, term, m, q);
    SideUnmatched(r, q);
    FilterNode(t, q);
  }

  /** At a node whose char is below the key's, only the right words can match. */
  lemma FilterAtRight(t: Tree, q: Term)
    requires t.Branch? && Ordered(t) && q != [] && q[0] > t.data
    ensures Filter(Words(t), q) == Filter(Words(t.right), q)
  {
    var Branch(c, term, l, m, r) := t;
    SideUnmatched(l, q);
    HereUnmatched(c, term, m, q);
    FilterNode(t, q);
  }

  /** With more key to come, a node's own term does not match, and the
      words behind it match as the mid words match the rest of the key. */
  lemma MidParts(c: char, term: bool, m: Tree, q: Term)
    requires |q| >= 2 && q[0] == c
    ensures Filter(if term then [[c]] else [], q) == []
    ensures Filter(Prepend([c], Words(m)), q) == Prepend([c], Filter(Words(m), q[1..]))
  {
    if term {
      assert !StartsWith([c], q);
    }
    FilterNone(if term then [[c]] else [], q);
    assert q == [c] + q[1..];
    FilterPrepend([c], Words(m), q[1..]);
  }

  /** At a node with the key's char and more key to come, the matches are
      the mid words matching the rest of the key. */
  lemma FilterAtMid(t: Tree, q: Term)
    requires t.Branch? && Ordered(t) && |q| >= 2 && q[0] == t.data
    ensures Filter(Words(t), q) == Prepend([t.data], Filter(Words(t.mid), q[1..]))
  {
    FilterNode(t, q);
    SideUnmatched(t.left, q);
    SideUnmatched(t.right, q);
    MidParts(t.data, t.isTerm, t.mid, q);
  }

  /** With the key spelled out, a node's own term and all the words behind
      it match. */
  lemma EndParts(c: char, term: bool, m: Tree)
    ensures Filter(if term then [[c]] else [], [c]) == if term then [[c]] else []
    ensures Filter(Prepend([c], Words(m)), [c]) == Prepend([c], Words(m))
  {
    FilterAll(if term then [[c]] else [], [c]);
    BelowStartsWith(c, m);
    FilterAll(Prepend([c], Words(m)), [c]);
  }

  /** At a node spelling the whole key, the matches are the node's own term
      and every word behind it. */
  lemma FilterAtEnd(t: Tree, q: Term)
    requires t.Branch? && Ordered(t) && q == [t.data]
    ensures Filter(Words(t), q) == Matches(t, q)
  {
    FilterNode(t, q);
    SideUnmatched(t.left, q);
    SideUnmatched(t.right, q);
    EndParts(t.data, t.isTerm, t.mid);
    var own, below := if t.isTerm then [[t.data]] else [], Prepend([t.data], Words(t.mid));
    EmptyAroundTwo(Filter(Words(t.left), q), Filter(own, q), Filter(below, q), Filter(Words(t.right), q));
    assert Matches(t, q) == own + below;
  }

  /** Prepending a char to what a node matches for `q` gives what it matches
      for the char followed by `q`. */
  lemma PrependMatches(c: char, n: Tree, q: Term)
    ensures Prepend([c], Matches(n, q)) == Matches(n, [c] + q)
  {
    if n.Branch? {
      PrependAppend([c], if n.isTerm then [q] else [], Prepend(q, Words(n.mid)));
      PrependTwice([c], q, Words(n.mid));
    }
  }

  /** The terms starting with `key[i..]` are exactly those `allMatches`
      collects from the node that `get` finds. */
  lemma {:induction false} FilterFind(t: Tree, key: Term, i: nat)
    requires i < |key| && Ordered(t)
    ensures Filter(Words(t), key[i..]) == Matches(Find(t, key, i), key[i..])
    decreases t
  {
    var q := key[i..];
    assert q[0] == key[i];
    match t
    case Nil =>
    case Branch(c, _, l, m, r) =>
      if key[i] < c {
        FilterAtLeft(t, q);
        FilterFind(l, key, i);
      } else if key[i] > c {
        FilterAtRight(t, q);
        FilterFind(r, key, i);
      } else if i < |key| - 1 {
        assert q[1..] == key[i + 1..];
        FilterAtMid(t, q);
        FilterFind(m, key, i + 1);
        PrependMatches(c, Find(m, key, i + 1), q[1..]);
        assert q == [c] + q[1..];
      } else {
        assert q == [c];
        FilterAtEnd(t, q);
      }
  }

  /** `get` after `put` finds a node marking the key as a term. */
  lemma FindAfterPut(t: Tree, key: Term)
    requires key != [] && Ordered(t)
    ensures var n := Find(PutTree(t, key, 0), key, 0); n.Branch? && n.isTerm
  {
    PutOrdered(t, key, 0);
    PutWords(t, key, 0);
    assert key[0..] == key;
    FindStored(PutTree(t, key, 0), key);
  }

  /** `get` finds a node marking the key as a term exactly when it is stored. */
  lemma FindStored(t: Tree, key: Term)
    requires key != [] && Ordered(t)
    ensures var n := Find(t, key, 0); n.Branch? && n.isTerm <==> key in Words(t)
  {
    FilterFind(t, key, 0);
    assert key[0..] == key;
    MatchesHoldsPrefix(Find(t, key, 0), key);
    FilterMember(Words(t), key, key);
  }

  // ---------------------------------------------------------------------
  // Order of the words
  // ---------------------------------------------------------------------

  lemma ComparePrepend(p: Term, a: Term, b: Term)
    ensures Compare(p + a, p + b) == Compare(a, b)
    decreases |p|
  {
    if p != [] {
      assert (p + a)[1..] == p[1..] + a && (p + b)[1..] == p[1..] + b;
      assert (p + a)[0] == (p + b)[0] == p[0];
      assert Compare(p + a, p + b) == Compare((p + a)[1..], (p + b)[1..]);
      ComparePrepend(p[1..], a, b);
    } else {
      assert p + a == a && p + b == b;
    }
  }

  lemma PrependStrictlySorted(c: Term, s: seq<Term>)
    requires StrictlySorted(s)
    ensures StrictlySorted(Prepend(c, s))
  {
    forall i, j | 0 <= i < j < |s|
      ensures Compare(Prepend(c, s)[i], Prepend(c, s)[j]) < 0
    {
      ComparePrepend(c, s[i], s[j]);
    }
  }

  /** Two strictly sorted lists, all of the first below all of the second,
      concatenate to a strictly sorted list. */
  lemma ConcatStrictlySorted(a: seq<Term>, b: seq<Term>)
    requires StrictlySorted(a) && StrictlySorted(b)
    requires forall x, y :: x in a && y in b ==> Compare(x, y) < 0
    ensures StrictlySorted(a + b)
  {
    forall i, j | 0 <= i < j < |a + b|
      ensures Compare((a + b)[i], (a + b)[j]) < 0
    {
      if i < |a| && j >= |a| {
        assert (a + b)[i] in a && (a + b)[j] in b;
      }
    }
  }

  /** Two strictly sorted lists concatenate to a strictly sorted list when
      every word of the first starts with a char below the first char of
      every word of the second. */
  lemma ConcatByFirstChar(a: seq<Term>, b: seq<Term>, ca: set<char>, cb: set<char>)
    requires StrictlySorted(a) && StrictlySorted(b)
    requires forall x :: x in a ==> x != [] && x[0] in ca
    requires forall y :: y in b ==> y != [] && y[0] in cb
    requires forall u, v :: u in ca && v in cb ==> u < v
    ensures StrictlySorted(a + b)
  {
    forall x, y | x in a && y in b
      ensures Compare(x, y) < 0
    {
      assert x[0] < y[0];
    }
    ConcatStrictlySorted(a, b);
  }

  /** The node's own term and the words behind it: strictly sorted, each
      starting with the node's char. */
  lemma OwnAndBelowSorted(c: char, own: seq<Term>, m: Tree)
    requires own == [] || own == [[c]]
    requires StrictlySorted(Words(m))
    ensures StrictlySorted(own + Prepend([c], Words(m)))
    ensures forall w :: w in own + Prepend([c], Words(m)) ==> w != [] && w[0] == c
  {
    var below := Prepend([c], Words(m));
    PrependStrictlySorted([c], Words(m));
    BelowShape(c, m);
    forall x, y | x in own && y in below
      ensures Compare(x, y) < 0
    {
      assert x == [c] && y[..1] == [c];
      assert Compare(x, y) == Compare(x[1..], y[1..]);
    }
    ConcatStrictlySorted(own, below);
  }

  /** Left words, then the node's words, then right words, is strictly
      sorted when each part is and the parts' first chars are in order. */
  lemma NodeSorted(a: seq<Term>, h: seq<Term>, b: seq<Term>, ca: set<char>, c: char, cb: set<char>)
    requires StrictlySorted(a) && StrictlySorted(h) && StrictlySorted(b)
    requires forall w :: w in a ==> w != [] && w[0] in ca
    requires forall w :: w in h ==> w != [] && w[0] == c
    requires forall w :: w in b ==> w != [] && w[0] in cb
    requires forall x :: x in ca ==> x < c
    requires forall x :: x in cb ==> c < x
    ensures StrictlySorted(a + h + b)
  {
    ConcatByFirstChar(a, h, ca, {c});
    forall w | w in a + h
      ensures w != [] && w[0] in ca + {c}
    {
      if w in a {
        assert w[0] in ca;
      } else {
        assert w in h;
      }
    }
    ConcatByFirstChar(a + h, b, ca + {c}, cb);
  }

  /** A node's words, with its own term and the words behind it grouped. */
  lemma WordsGrouped(t: Tree)
    requires t.Branch?
    ensures Words(t) == Words(t.left) + ((if t.isTerm then [[t.data]] else []) + Prepend([t.data], Words(t.mid))) + Words(t.right)
  {
    Group(Words(t.left), if t.isTerm then [[t.data]] else [], Prepend([t.data], Words(t.mid)), Words(t.right));
  }

  /** A node's words are strictly sorted when its subtrees' words are. */
  lemma BranchSorted(t: Tree)
    requires t.Branch? && Ordered(t)
    requires StrictlySorted(Words(t.left)) && StrictlySorted(Words(t.mid)) && StrictlySorted(Words(t.right))
    ensures StrictlySorted(Words(t))
  {
    var Branch(c, term, l, m, r) := t;
    var own: seq<Term> := if term then [[c]] else [];
    OwnAndBelowSorted(c, own, m);
    WordsShape(l);
    WordsShape(r);
    NodeSorted(Words(l), own + Prepend([c], Words(m)), Words(r), Level(l), c, Level(r));
    WordsGrouped(t);
  }

  /** `collect` emits each stored term once, in increasing order. */
  lemma {:induction false} WordsStrictlySorted(t: Tree)
    requires Ordered(t)
    ensures StrictlySorted(Words(t))
  {
    if t.Branch? {
      WordsStrictlySorted(t.left);
      WordsStrictlySorted(t.mid);
      WordsStrictlySorted(t.right);
      BranchSorted(t);
    }
  }
}
