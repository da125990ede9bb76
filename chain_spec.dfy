/** The abstract sequence behind the container, and the functions that specify its operations. */
module ChainSpec {

  /** Position of the first element equal to `x`, or -1 when there is none. */
  function IndexOf<T(==)>(s: seq<T>, x: T): (r: int)
    ensures -1 <= r < |s|
    ensures r == -1 <==> x !in s
    ensures 0 <= r ==> s[r] == x && x !in s[..r]
  {
    if s == [] then -1
    else if s[0] == x then 0
    else
      var k := IndexOf(s[1..], x);
      if k == -1 then -1 else k + 1
  }

  /** The first occurrence is the only position that holds `x` with no `x` before it. */
  lemma IndexOfUnique<T>(s: seq<T>, x: T, p: int)
    requires 0 <= p < |s| && s[p] == x && x !in s[..p]
    ensures IndexOf(s, x) == p
  {
  }

  /** `s` without its first occurrence of `x`, defined element by element. */
  function RemoveFirst<T(==)>(s: seq<T>, x: T): (r: seq<T>)
  {
    if s == [] then []
    else if s[0] == x then s[1..]
    else [s[0]] + RemoveFirst(s[1..], x)
  }

  /** Removing the first occurrence cuts the sequence at `IndexOf`, and is the identity when `x` is absent. */
  lemma {:induction false} RemoveFirstSplices<T>(s: seq<T>, x: T)
    ensures x in s ==> RemoveFirst(s, x) == s[..IndexOf(s, x)] + s[IndexOf(s, x) + 1..]
    ensures x !in s ==> RemoveFirst(s, x) == s
  {
    if s != [] && s[0] != x {
      var t := s[1..];
      RemoveFirstSplices(t, x);
      assert x in s <==> x in t;
      if x in t {
        var k := IndexOf(t, x);
        assert IndexOf(s, x) == k + 1;
        assert s[..k + 1] == [s[0]] + t[..k];
        assert s[k + 2..] == t[k + 1..];
      } else {
        assert s == [s[0]] + t;
      }
    }
  }

  /** Exactly one copy of `x` leaves the multiset of elements, if there was one; nothing else changes. */
  lemma {:induction false} RemoveFirstMultiset<T>(s: seq<T>, x: T)
    ensures multiset(RemoveFirst(s, x)) == multiset(s) - multiset{x}
    ensures |RemoveFirst(s, x)| == if x in s then |s| - 1 else |s|
  {
    if s != [] {
      assert s == [s[0]] + s[1..];
      if s[0] != x {
        RemoveFirstMultiset(s[1..], x);
        assert x in s <==> x in s[1..];
      }
    }
  }

  /** The elements of `s` separated by ", ", as a StringBuilder joins them. */
  function Join(s: seq<string>): (r: string)
  {
    if |s| == 0 then ""
    else if |s| == 1 then s[0]
    else s[0] + ", " + Join(s[1..])
  }

  /** The text form of a chain of strings: its elements, comma-separated, in square brackets. */
  function Rendered(s: seq<string>): (r: string)
  {
    "[" + Join(s) + "]"
  }

  /** Appending one element to the chain extends its joined form by a separator and that element. */
  lemma {:induction false} JoinSnoc(s: seq<string>, x: string)
    ensures Join(s + [x]) == if s == [] then x else Join(s) + ", " + x
  {
    if |s| > 1 {
      assert (s + [x])[1..] == s[1..] + [x];
      JoinSnoc(s[1..], x);
    } else if |s| == 1 {
      assert (s + [x])[1..] == [x];
    }
  }

  /**
   * One step of building the text from the left: after `i` elements the builder holds "[", the
   * first `i` elements joined, and a trailing ", " when more elements follow; appending element
   * `i` and, if another follows, ", " gives the same for `i + 1`.
   */
  lemma JoinPrefixStep(s: seq<string>, i: nat)
    requires i < |s|
    ensures "[" + Join(s[..i + 1]) + (if i + 1 < |s| then ", " else "")
         == "[" + Join(s[..i]) + (if 0 < i then ", " else "") + s[i] + (if i + 1 < |s| then ", " else "")
  {
    assert s[..i + 1] == s[..i] + [s[i]];
    JoinSnoc(s[..i], s[i]);
  }

  /** An empty chain renders as "[]", and a chain of one element shows just that element. */
  lemma RenderedShort(x: string)
    ensures Rendered([]) == "[]"
    ensures Rendered([x]) == "[" + x + "]"
  {
  }
}
