/**
 Strings as Go compares and sorts them.

 A Go string is a byte sequence and `<` compares bytes. Every string the service
 keeps came through a JSON decoder and is therefore valid UTF-8, on which byte
 order and code point order agree; a Dafny string is a sequence of code points.
 */
module Text {

  // ---- The order ----

  predicate Le(a: string, b: string)
  {
    |a| == 0 || (|b| != 0 && (a[0] < b[0] || (a[0] == b[0] && Le(a[1..], b[1..]))))
  }

  predicate Lt(a: string, b: string)
  {
    a != b && Le(a, b)
  }

  lemma {:induction false} LeReflexive(a: string)
    ensures Le(a, a)
  {
    if a != [] {
      LeReflexive(a[1..]);
    }
  }

  lemma {:induction false} LeTotal(a: string, b: string)
    ensures Le(a, b) || Le(b, a)
  {
    if a != [] && b != [] && a[0] == b[0] {
      LeTotal(a[1..], b[1..]);
    }
  }

  lemma {:induction false} LeAntisymmetric(a: string, b: string)
    requires Le(a, b) && Le(b, a)
    ensures a == b
  {
    if a != [] && b != [] {
      LeAntisymmetric(a[1..], b[1..]);
      assert a == [a[0]] + a[1..] && b == [b[0]] + b[1..];
    }
  }

  lemma {:induction false} LeTransitive(a: string, b: string, c: string)
    requires Le(a, b) && Le(b, c)
    ensures Le(a, c)
  {
    if a != [] && b != [] && c != [] && a[0] == b[0] == c[0] {
      LeTransitive(a[1..], b[1..], c[1..]);
    }
  }

  lemma LtLeTransitive(a: string, b: string, c: string)
    requires Lt(a, b) && Le(b, c)
    ensures Lt(a, c)
  {
    LeTransitive(a, b, c);
    if a == c {
      LeAntisymmetric(a, b);
    }
  }

  /** `!(a >= b)`, the form the store's guards take, is the strict order. */
  lemma NotLe(a: string, b: string)
    ensures !Le(b, a) <==> Lt(a, b)
  {
    LeTotal(a, b);
    LeReflexive(a);
    if Le(a, b) && Le(b, a) {
      LeAntisymmetric(a, b);
    }
  }

  /** Texts of equal length decide the order before anything that follows them. */
  lemma {:induction false} LeConcat(a: string, b: string, x: string, y: string)
    requires |a| == |b|
    ensures Le(a + x, b + y) <==> if a == b then Le(x, y) else Le(a, b)
  {
    if a == [] {
      assert a + x == x && b + y == y;
    } else {
      assert (a + x)[1..] == a[1..] + x && (b + y)[1..] == b[1..] + y;
      LeConcat(a[1..], b[1..], x, y);
      assert a == [a[0]] + a[1..] && b == [b[0]] + b[1..];
    }
  }

  // ---- Sorting ----

  predicate Ascending(s: seq<string>)
  {
    forall i, j :: 0 <= i < j < |s| ==> Le(s[i], s[j])
  }

  function Insert(x: string, s: seq<string>): seq<string>
  {
    if s == [] then [x]
    else if Le(x, s[0]) then [x] + s
    else [s[0]] + Insert(x, s[1..])
  }

  /** The outcome of `sort.Strings`. */
  function Sort(s: seq<string>): seq<string>
  {
    if s == [] then [] else Insert(s[0], Sort(s[1..]))
  }

  lemma LeastFirst(a: seq<string>, x: string)
    requires Ascending(a) && x in a
    ensures Le(a[0], x)
  {
    LeReflexive(a[0]);
  }

  lemma HeadAndTail(a: seq<string>)
    requires a != []
    ensures multiset(a) == multiset{a[0]} + multiset(a[1..])
  {
    assert a == [a[0]] + a[1..];
  }

  lemma Prepend(x: string, s: seq<string>)
    requires Ascending(s) && forall y :: y in multiset(s) ==> Le(x, y)
    ensures Ascending([x] + s) && multiset([x] + s) == multiset{x} + multiset(s)
  {
    hide Le;
    forall i | 0 <= i < |s| ensures Le(x, s[i]) {
      assert s[i] in multiset(s);
    }
  }

  lemma {:induction false} InsertSorts(x: string, s: seq<string>)
    requires Ascending(s)
    ensures Ascending(Insert(x, s)) && multiset(Insert(x, s)) == multiset{x} + multiset(s)
  {
    hide Le;
    if s == [] {
    } else if Le(x, s[0]) {
      forall y | y in multiset(s) ensures Le(x, y) {
        LeastFirst(s, y);
        LeTransitive(x, s[0], y);
      }
      Prepend(x, s);
    } else {
      HeadAndTail(s);
      InsertSorts(x, s[1..]);
      LeTotal(x, s[0]);
      forall y | y in multiset{x} + multiset(s[1..]) ensures Le(s[0], y) {
        if y != x { LeastFirst(s, y); }
      }
      Prepend(s[0], Insert(x, s[1..]));
    }
  }

  lemma {:induction false} SortSorts(s: seq<string>)
    ensures Ascending(Sort(s)) && multiset(Sort(s)) == multiset(s)
  {
    if s != [] {
      SortSorts(s[1..]);
      InsertSorts(s[0], Sort(s[1..]));
      assert s == [s[0]] + s[1..];
    }
  }

  lemma TailsAlike(a: seq<string>, b: seq<string>)
    requires a != [] && b != [] && a[0] == b[0] && multiset(a) == multiset(b)
    ensures multiset(a[1..]) == multiset(b[1..])
  {
    HeadAndTail(a);
    HeadAndTail(b);
    assert multiset(a[1..]) == multiset(a) - multiset{a[0]};
    assert multiset(b[1..]) == multiset(b) - multiset{b[0]};
  }

  lemma HeadsAlike(a: seq<string>, b: seq<string>)
    requires a != [] && b != [] && Ascending(a) && Ascending(b) && multiset(a) == multiset(b)
    ensures a[0] == b[0]
  {
    hide Le;
    assert a[0] in multiset(b) && b[0] in multiset(a);
    LeastFirst(a, b[0]);
    LeastFirst(b, a[0]);
    LeAntisymmetric(a[0], b[0]);
  }

  /** A sorted sequence is determined by what it holds. */
  lemma {:induction false} AscendingUnique(a: seq<string>, b: seq<string>)
    requires Ascending(a) && Ascending(b) && multiset(a) == multiset(b)
    ensures a == b
  {
    hide Le;
    assert |a| == |multiset(a)| == |multiset(b)| == |b|;
    if a != [] {
      HeadsAlike(a, b);
      TailsAlike(a, b);
      AscendingUnique(a[1..], b[1..]);
      assert a == [a[0]] + a[1..] && b == [b[0]] + b[1..];
    }
  }

  /** Sorting forgets everything but the multiset. */
  lemma SortedAlike(a: seq<string>, b: seq<string>)
    ensures Sort(a) == Sort(b) <==> multiset(a) == multiset(b)
  {
    SortSorts(a);
    SortSorts(b);
    if multiset(a) == multiset(b) {
      AscendingUnique(Sort(a), Sort(b));
    }
  }

  /** `sort.Strings`, known only by what it promises. */
  method SortStrings(s: seq<string>) returns (out: seq<string>)
    ensures multiset(out) == multiset(s) && Ascending(out)
  {
    SortSorts(s);
    out := Sort(s);
  }

  lemma AscendingIsSort(out: seq<string>, s: seq<string>)
    requires multiset(out) == multiset(s) && Ascending(out)
    ensures out == Sort(s)
  {
    hide Ascending;
    SortSorts(s);
    AscendingUnique(out, Sort(s));
  }

  // ---- The sorted listing of a set ----

  predicate IsLeast(m: string, s: set<string>)
  {
    m in s && forall y :: y in s ==> Le(m, y)
  }

  lemma LesserIsLeast(x: string, m: string, s: set<string>)
    requires x in s && IsLeast(m, s - {x})
    ensures IsLeast(x, s) || IsLeast(m, s)
  {
    hide Le;
    LeReflexive(x);
    LeTotal(x, m);
    if Le(x, m) {
      forall y | y in s ensures Le(x, y) {
        if y != x { LeTransitive(x, m, y); }
      }
    }
  }

  lemma {:induction false} LeastExists(s: set<string>)
    requires s != {}
    ensures exists m :: IsLeast(m, s)
  {
    var x :| x in s;
    if s == {x} {
      LeReflexive(x);
      assert IsLeast(x, s);
    } else {
      LeastExists(s - {x});
      var m :| IsLeast(m, s - {x});
      LesserIsLeast(x, m, s);
    }
  }

  lemma LeastUnique(s: set<string>)
    ensures forall m, n :: IsLeast(m, s) && IsLeast(n, s) ==> m == n
  {
    hide Le;
    forall m, n | IsLeast(m, s) && IsLeast(n, s) ensures m == n {
      LeAntisymmetric(m, n);
    }
  }

  /** The keys of a map in the order Go writes them: each once, ascending. */
  function Sorted(s: set<string>): (r: seq<string>)
    ensures multiset(r) == multiset(s)
  {
    if s == {} then []
    else
      LeastExists(s);
      LeastUnique(s);
      var m :| IsLeast(m, s);
      var rest := Sorted(s - {m});
      assert multiset([m] + rest) == multiset([m]) + multiset(rest);
      [m] + rest
  }

  predicate Distinct(s: seq<string>)
  {
    forall i, j :: 0 <= i < j < |s| ==> s[i] != s[j]
  }

  lemma {:induction false} SortedAscends(s: set<string>)
    ensures Ascending(Sorted(s))
  {
    hide Le;
    if s != {} {
      LeastExists(s);
      LeastUnique(s);
      var m :| IsLeast(m, s);
      SortedAscends(s - {m});
      Prepend(m, Sorted(s - {m}));
    }
  }

  lemma OnceEach(r: seq<string>)
    requires forall x :: x in r ==> multiset(r)[x] == 1
    ensures Distinct(r)
  {
    forall i, j | 0 <= i < j < |r| ensures r[i] != r[j] {
      assert r == r[..j] + [r[j]] + r[j + 1..];
      assert multiset(r) == multiset(r[..j]) + multiset{r[j]} + multiset(r[j + 1..]);
      assert r[..j][i] == r[i] && r[i] in multiset(r[..j]);
      assert r[j] in r;
    }
  }

  lemma SortedListsSet(s: set<string>)
    ensures Ascending(Sorted(s)) && Distinct(Sorted(s))
    ensures forall x :: x in Sorted(s) <==> x in s
  {
    hide Le, Ascending, Sorted;
    SortedAscends(s);
    var r := Sorted(s);
    forall x ensures x in r <==> x in s {
      assert x in r <==> x in multiset(r);
    }
    OnceEach(r);
  }

  /** Any listing of a set sorts to the same sequence, whatever order it came in. */
  lemma SortedUnique(r: seq<string>, s: set<string>)
    requires Ascending(r) && multiset(r) == multiset(s)
    ensures r == Sorted(s)
  {
    SortedListsSet(s);
    AscendingUnique(r, Sorted(s));
  }
}
