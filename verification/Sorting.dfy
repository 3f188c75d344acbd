/** Sorting a list of keys the way Go does, by their UTF-8 bytes, and what that means for a set of keys. */
module Sorting {
  import opened Utf8

  function Insert(k: string, ks: seq<string>): seq<string> {
    if ks == [] || BytesLess(Encode(k), Encode(ks[0])) then [k] + ks else [ks[0]] + Insert(k, ks[1..])
  }

  function Sort(ks: seq<string>): seq<string> {
    if ks == [] then [] else Insert(ks[0], Sort(ks[1..]))
  }

  /** Strictly ascending by Unicode code points. */
  ghost predicate Ascending(ks: seq<string>) {
    forall i, j :: 0 <= i < j < |ks| ==> CodePointLess(ks[i], ks[j])
  }

  ghost predicate Distinct<T(!new)>(s: seq<T>) {
    forall i, j :: 0 <= i < j < |s| ==> s[i] != s[j]
  }

  ghost function Elements<T>(s: seq<T>): set<T> {
    set x | x in s
  }

  lemma NoElements<T>(s: seq<T>)
    ensures Elements(s) == {} <==> s == []
  {
    if s != [] {
      assert s[0] in Elements(s);
    }
  }

  lemma ElementsConcat<T>(s: seq<T>, t: seq<T>)
    ensures Elements(s + t) == Elements(s) + Elements(t)
  {
    forall x ensures x in s + t <==> x in s || x in t {
    }
  }

  lemma {:induction false} CodePointTransitive(s: string, t: string, u: string)
    requires CodePointLess(s, t) && CodePointLess(t, u)
    ensures CodePointLess(s, u)
  {
    if s != "" && s[0] == t[0] == u[0] {
      CodePointTransitive(s[1..], t[1..], u[1..]);
    }
  }

  lemma {:induction false} CodePointIrreflexive(s: string)
    ensures !CodePointLess(s, s)
  {
    if s != "" {
      CodePointIrreflexive(s[1..]);
    }
  }

  /** Putting a smaller key in front. */
  lemma AscendingCons(k: string, ks: seq<string>)
    requires Ascending(ks) && forall x :: x in ks ==> CodePointLess(k, x)
    ensures Ascending([k] + ks) && Elements([k] + ks) == Elements(ks) + {k}
  {
    ElementsConcat([k], ks);
  }

  lemma LeastOfAscending(k: string, ks: seq<string>)
    requires Ascending(ks) && ks != [] && CodePointLess(k, ks[0])
    ensures forall x :: x in ks ==> CodePointLess(k, x)
  {
    forall j | 0 <= j < |ks| ensures CodePointLess(k, ks[j]) {
      if j > 0 {
        CodePointTransitive(k, ks[0], ks[j]);
      }
    }
  }

  lemma SmallestFirst(k: string, r: seq<string>, tail: seq<string>, head: string)
    requires Elements(r) == Elements(tail) + {k} && CodePointLess(head, k)
    requires forall x :: x in tail ==> CodePointLess(head, x)
    ensures forall x :: x in r ==> CodePointLess(head, x)
  {
    forall x | x in r ensures CodePointLess(head, x) {
      assert x in Elements(r);
    }
  }

  /** Inserting behind the first key. */
  lemma InsertBehind(k: string, head: string, tail: seq<string>, r: seq<string>)
    requires Ascending([head] + tail) && CodePointLess(head, k)
    requires Ascending(r) && Elements(r) == Elements(tail) + {k}
    ensures Ascending([head] + r) && Elements([head] + r) == Elements([head] + tail) + {k}
  {
    forall x | x in tail ensures CodePointLess(head, x) {
      var j :| 0 <= j < |tail| && tail[j] == x;
      var all := [head] + tail;
      assert all[0] == head && all[j + 1] == x && CodePointLess(all[0], all[j + 1]);
    }
    SmallestFirst(k, r, tail, head);
    AscendingCons(head, r);
    ElementsConcat([head], tail);
    ElementsConcat([head], r);
  }

  lemma InsertFirst(k: string, ks: seq<string>)
    requires Ascending(ks) && (ks == [] || CodePointLess(k, ks[0]))
    ensures Ascending([k] + ks) && Elements([k] + ks) == Elements(ks) + {k}
  {
    if ks != [] {
      LeastOfAscending(k, ks);
    }
    AscendingCons(k, ks);
  }

  lemma {:induction false} InsertMeaning(k: string, ks: seq<string>)
    requires Ascending(ks) && k !in ks
    ensures Ascending(Insert(k, ks)) && Elements(Insert(k, ks)) == Elements(ks) + {k}
  {
    if ks == [] {
      InsertFirst(k, ks);
      assert [k] + ks == [k];
    } else {
      ByteOrderIsCodePointOrder(k, ks[0]);
      if CodePointLess(k, ks[0]) {
        InsertFirst(k, ks);
      } else {
        CodePointTrichotomy(k, ks[0]);
        InsertMeaning(k, ks[1..]);
        assert ks == [ks[0]] + ks[1..];
        InsertBehind(k, ks[0], ks[1..], Insert(k, ks[1..]));
      }
    }
  }

  /** A list without duplicates comes back strictly ascending by code points, with the same elements. */
  lemma {:induction false} SortMeaning(ks: seq<string>)
    requires Distinct(ks)
    ensures Ascending(Sort(ks)) && Elements(Sort(ks)) == Elements(ks)
  {
    if ks != [] {
      SortMeaning(ks[1..]);
      assert ks[0] !in Elements(Sort(ks[1..]));
      InsertMeaning(ks[0], Sort(ks[1..]));
      assert Elements(ks) == Elements(ks[1..]) + {ks[0]};
    }
  }

  /** A set of keys has only one ascending listing. */
  lemma {:induction false} AscendingUnique(a: seq<string>, b: seq<string>)
    requires Ascending(a) && Ascending(b) && Elements(a) == Elements(b)
    ensures a == b
  {
    NoElements(a);
    NoElements(b);
    if a != [] {
      assert a[0] in Elements(b) && b[0] in Elements(a);
      if a[0] != b[0] {
        CodePointTransitive(a[0], b[0], a[0]);
        CodePointIrreflexive(a[0]);
      }
      forall x ensures x in Elements(a[1..]) <==> x in Elements(b[1..]) {
        CodePointIrreflexive(a[0]);
        if x in a[1..] {
          assert x in Elements(a) && x != a[0];
        }
        if x in b[1..] {
          assert x in Elements(b) && x != b[0];
        }
      }
      AscendingUnique(a[1..], b[1..]);
      assert a == [a[0]] + a[1..] && b == [b[0]] + b[1..];
    }
  }

  /** Some listing of a finite set, in no particular order. */
  ghost function Listing(s: set<string>): (ks: seq<string>)
    ensures Distinct(ks) && Elements(ks) == s
  {
    if s == {} then [] else
    var k :| k in s;
    ElementsConcat([k], Listing(s - {k}));
    assert forall x :: x in Listing(s - {k}) ==> x in Elements(Listing(s - {k}));
    [k] + Listing(s - {k})
  }

  /** The ascending listing of a set of keys. */
  ghost function SortedKeys(s: set<string>): (ks: seq<string>)
    ensures Ascending(ks) && Elements(ks) == s
  {
    SortMeaning(Listing(s));
    Sort(Listing(s))
  }

  /** Sorting forgets the order in which a map was iterated. */
  lemma SortForgetsOrder(ks: seq<string>)
    requires Distinct(ks)
    ensures Sort(ks) == SortedKeys(Elements(ks))
  {
    SortMeaning(ks);
    AscendingUnique(Sort(ks), SortedKeys(Elements(ks)));
  }

  /** Iterating over a map yields its keys in any order; sorting them yields always the same list. */
  method CollectSorted(keys: set<string>) returns (out: seq<string>)
    ensures out == SortedKeys(keys)
  {
    out := [];
    var rest := keys;
    while rest != {}
      invariant rest <= keys && Elements(out) == keys - rest && Distinct(out)
      decreases rest
    {
      var k :| k in rest;
      assert forall x :: x in out ==> x in Elements(out);
      ElementsConcat(out, [k]);
      out := out + [k];
      rest := rest - {k};
    }
    assert Elements(out) == keys;
    SortForgetsOrder(out);
    out := Sort(out);
  }
}
