/** `Collections.reverse` on a list value. */
module Lists {

  /** The elements of `s` in the opposite order. */
  function Reverse<T>(s: seq<T>): (r: seq<T>)
    ensures |r| == |s|
    ensures forall i :: 0 <= i < |s| ==> r[i] == s[|s| - 1 - i]
  {
    seq(|s|, i requires 0 <= i < |s| => s[|s| - 1 - i])
  }

  /** Reversing twice gives the list back. */
  lemma ReverseReverse<T>(s: seq<T>)
    ensures Reverse(Reverse(s)) == s
  {
    assert forall i :: 0 <= i < |s| ==> Reverse(Reverse(s))[i] == s[i];
  }

  /** Reversing keeps the elements. */
  lemma ReverseMembers<T>(s: seq<T>, x: T)
    ensures x in Reverse(s) <==> x in s
  {
    if x in s {
      var i :| 0 <= i < |s| && s[i] == x;
      assert Reverse(s)[|s| - 1 - i] == x;
    }
    if x in Reverse(s) {
      var i :| 0 <= i < |s| && Reverse(s)[i] == x;
      assert s[|s| - 1 - i] == x;
    }
  }

  /** Reversing a list extended at the end puts the new element first. */
  lemma ReverseSnoc<T>(s: seq<T>, x: T)
    ensures Reverse(s + [x]) == [x] + Reverse(s)
  {
    assert forall i :: 0 <= i < |s| + 1 ==> Reverse(s + [x])[i] == ([x] + Reverse(s))[i];
  }

  /** What comes before position `|s| - 1 - i` of `s` comes after position `i` of its reverse. */
  lemma ReverseEarlier<T>(s: seq<T>, i: nat, x: T)
    requires i < |s| && x in s[..|s| - 1 - i]
    ensures x in Reverse(s)[i + 1..]
  {
    var n := |s|;
    var p := s[..n - 1 - i];
    var j :| 0 <= j < |p| && p[j] == x;
    var q := n - 1 - j;
    assert Reverse(s)[q] == x;
    assert Reverse(s)[i + 1..][q - i - 1] == x;
  }

  /** Empty lists around a list leave it as it is. */
  lemma EmptyAround<T>(x: seq<T>, a: seq<T>, y: seq<T>)
    requires x == [] && y == []
    ensures x + a + y == a
  {
  }

  /** Regrouping the middle two of four lists. */
  lemma Group<T>(a: seq<T>, b: seq<T>, c: seq<T>, d: seq<T>)
    ensures a + b + c + d == a + (b + c) + d
  {
  }

  /** Regrouping all but the first of five lists. */
  lemma Regroup<T>(a: seq<T>, b: seq<T>, c: seq<T>, d: seq<T>, e: seq<T>)
    ensures a + b + c + d + e == a + (b + c + d + e)
  {
  }

  /** Empty lists around two lists leave their concatenation. */
  lemma EmptyAroundTwo<T>(x: seq<T>, a: seq<T>, b: seq<T>, y: seq<T>)
    requires x == [] && y == []
    ensures x + a + b + y == a + b
  {
  }
}
