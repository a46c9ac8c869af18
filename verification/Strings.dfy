// Go's sort.Strings and strings.Join, and the facts about multisets of
// strings that the order-insensitive canonical form rests on.
module Strings {

  // Byte-wise lexicographic order, the order of sort.Strings.
  predicate Leq(a: string, b: string) {
    |a| == 0 || (|b| != 0 && (a[0] < b[0] || (a[0] == b[0] && Leq(a[1..], b[1..]))))
  }

  lemma {:induction false} LeqAntisymmetric(a: string, b: string)
    requires Leq(a, b) && Leq(b, a)
    ensures a == b
  {
    if |a| != 0 {
      LeqAntisymmetric(a[1..], b[1..]);
      assert a == [a[0]] + a[1..] && b == [b[0]] + b[1..];
    }
  }

  lemma {:induction false} LeqTransitive(a: string, b: string, c: string)
    requires Leq(a, b) && Leq(b, c)
    ensures Leq(a, c)
  {
    if |a| != 0 && a[0] == b[0] == c[0] {
      LeqTransitive(a[1..], b[1..], c[1..]);
    }
  }

  lemma {:induction false} LeqTotal(a: string, b: string)
    ensures Leq(a, b) || Leq(b, a)
  {
    if |a| != 0 && |b| != 0 && a[0] == b[0] {
      LeqTotal(a[1..], b[1..]);
    }
  }

  ghost predicate Sorted(ss: seq<string>) {
    forall i, j :: 0 <= i < j < |ss| ==> Leq(ss[i], ss[j])
  }

  function Insert(s: string, ss: seq<string>): (r: seq<string>)
    requires Sorted(ss)
    ensures Sorted(r)
    ensures multiset(r) == multiset{s} + multiset(ss)
  {
    if |ss| == 0 then [s]
    else if Leq(s, ss[0]) then
      assert Sorted([s] + ss) by {
        forall j | 0 <= j < |ss| ensures Leq(s, ss[j]) {
          if j > 0 { LeqTransitive(s, ss[0], ss[j]); }
        }
      }
      [s] + ss
    else
      var rest := Insert(s, ss[1..]);
      assert ss == [ss[0]] + ss[1..];
      assert Sorted([ss[0]] + rest) by {
        LeqTotal(s, ss[0]);
        forall t | t in rest ensures Leq(ss[0], t) {
          assert t in multiset(rest);
          assert t == s || t in ss[1..];
        }
      }
      [ss[0]] + rest
  }

  // sort.Strings: the result is the only sorted arrangement of its argument
  // (SortDetermined), so nothing about Go's algorithm is assumed.
  function Sort(ss: seq<string>): (r: seq<string>)
    ensures Sorted(r)
    ensures multiset(r) == multiset(ss)
    ensures |r| == |ss|
  {
    if |ss| == 0 then []
    else
      assert ss == [ss[0]] + ss[1..];
      var r := Insert(ss[0], Sort(ss[1..]));
      assert |multiset(r)| == |r| && |multiset(ss)| == |ss|;
      r
  }

  lemma BagTail(ss: seq<string>)
    requires |ss| > 0
    ensures multiset(ss[1..]) == multiset(ss) - multiset{ss[0]}
  {
    assert ss == [ss[0]] + ss[1..];
  }

  lemma SortedTail(ss: seq<string>)
    requires Sorted(ss) && |ss| > 0
    ensures Sorted(ss[1..])
  {
  }

  lemma SortedFirst(ss: seq<string>, s: string)
    requires Sorted(ss) && s in ss
    ensures Leq(ss[0], s)
  {
    var i :| 0 <= i < |ss| && ss[i] == s;
    LeqTotal(ss[0], ss[0]);
  }

  lemma {:induction false} SortedUnique(a: seq<string>, b: seq<string>)
    requires Sorted(a) && Sorted(b)
    requires multiset(a) == multiset(b)
    ensures a == b
  {
    hide Leq;
    assert |multiset(a)| == |a| && |multiset(b)| == |b|;
    if |a| != 0 {
      assert a[0] in multiset(b) && b[0] in multiset(a);
      SortedFirst(a, b[0]);
      SortedFirst(b, a[0]);
      LeqAntisymmetric(a[0], b[0]);
      BagTail(a);
      BagTail(b);
      SortedTail(a);
      SortedTail(b);
      hide Sorted;
      SortedUnique(a[1..], b[1..]);
      assert a == [a[0]] + a[1..] && b == [b[0]] + b[1..];
    }
  }

  lemma SortDetermined(a: seq<string>, b: seq<string>)
    ensures Sort(a) == Sort(b) <==> multiset(a) == multiset(b)
  {
    if multiset(a) == multiset(b) {
      SortedUnique(Sort(a), Sort(b));
    }
  }

  function Join(ss: seq<string>, sep: char): (r: string) {
    if |ss| == 0 then ""
    else if |ss| == 1 then ss[0]
    else ss[0] + [sep] + Join(ss[1..], sep)
  }

  // If the first components identify elements exactly as the second ones do,
  // then equal bags of first components means equal bags of second components.
  lemma {:induction false} SameBags<A, B>(f: seq<A>, g: seq<B>, f': seq<A>, g': seq<B>)
    requires |f| == |g| && |f'| == |g'|
    requires forall i, j :: 0 <= i < |f| && 0 <= j < |f'| ==> (f[i] == f'[j] <==> g[i] == g'[j])
    ensures multiset(f) == multiset(f') <==> multiset(g) == multiset(g')
  {
    assert |multiset(f)| == |f| && |multiset(f')| == |f'|;
    assert |multiset(g)| == |g| && |multiset(g')| == |g'|;
    if multiset(f) == multiset(f') {
      BagTransfer(f, g, f', g');
    }
    if multiset(g) == multiset(g') {
      BagTransfer(g, f, g', f');
    }
  }

  function RemoveAt<T>(s: seq<T>, i: nat): (r: seq<T>)
    requires i < |s|
    ensures |r| == |s| - 1
    ensures forall k :: 0 <= k < |r| ==> r[k] == s[if k < i then k else k + 1]
    ensures multiset(s) == multiset(r) + multiset{s[i]}
  {
    assert s == s[..i] + ([s[i]] + s[i + 1..]);
    s[..i] + s[i + 1..]
  }

  lemma {:induction false} BagTransfer<A, B>(f: seq<A>, g: seq<B>, f': seq<A>, g': seq<B>)
    requires |f| == |g| && |f'| == |g'|
    requires forall i, j :: 0 <= i < |f| && 0 <= j < |f'| && f[i] == f'[j] ==> g[i] == g'[j]
    requires multiset(f) == multiset(f')
    ensures multiset(g) == multiset(g')
    decreases |f|
  {
    assert |multiset(f)| == |f| && |multiset(f')| == |f'|;
    if |f| != 0 {
      assert f[0] in multiset(f');
      var j :| 0 <= j < |f'| && f'[j] == f[0];
      var f1, g1 := RemoveAt(f, 0), RemoveAt(g, 0);
      var f2, g2 := RemoveAt(f', j), RemoveAt(g', j);
      assert multiset(f1) == multiset(f2) by {
        assert multiset(f) - multiset{f[0]} == multiset(f1);
        assert multiset(f') - multiset{f[0]} == multiset(f2);
      }
      BagTransfer(f1, g1, f2, g2);
    }
  }

  // A sequence without repetitions holds each of its elements once.
  lemma {:induction false} DistinctCount<T>(s: seq<T>, x: T)
    requires forall i, j :: 0 <= i < j < |s| ==> s[i] != s[j]
    ensures multiset(s)[x] == if x in s then 1 else 0
  {
    if |s| != 0 {
      assert s == [s[0]] + s[1..];
      DistinctCount(s[1..], x);
    }
  }

  lemma DistinctBags<T>(s: seq<T>, t: seq<T>)
    requires forall i, j :: 0 <= i < j < |s| ==> s[i] != s[j]
    requires forall i, j :: 0 <= i < j < |t| ==> t[i] != t[j]
    requires forall x :: x in s <==> x in t
    ensures multiset(s) == multiset(t)
  {
    forall x ensures multiset(s)[x] == multiset(t)[x] {
      DistinctCount(s, x);
      DistinctCount(t, x);
    }
  }
}
