/** Text order, stable sorting by a text key, and filtered lists as multisets. */
module Ordering {
  import opened Basics

  /** Lexicographic order by code point, which is also the order of the UTF-8 bytes. */
  predicate TextLe(a: string, b: string) {
    a == "" || (b != "" && (a[0] < b[0] || (a[0] == b[0] && TextLe(a[1..], b[1..]))))
  }

  /** a is b or comes first in a dictionary: it is a prefix of b, or smaller at the first place where they differ. */
  ghost predicate NotAfter(a: string, b: string) {
    a <= b || exists k | 0 <= k < |a| && k < |b| :: a[..k] == b[..k] && a[k] < b[k]
  }

  lemma {:induction false} TextLeExactly(a: string, b: string)
    ensures TextLe(a, b) <==> NotAfter(a, b)
  {
    if a != "" && b != "" {
      var x, y := a[1..], b[1..];
      assert a == [a[0]] + x && b == [b[0]] + y;
      TextLeExactly(x, y);
      if a[0] < b[0] {
        assert a[..0] == b[..0];
      } else if a[0] == b[0] {
        NotAfterCons(a[0], x, y);
      }
      FirstDecides(a, b);
    }
  }

  lemma {:induction false} FirstDecides(a: string, b: string)
    requires a != "" && b != ""
    ensures NotAfter(a, b) ==> a[0] <= b[0]
  {
    forall k | 0 <= k < |a| && k < |b| && a[..k] == b[..k] && a[k] < b[k]
      ensures a[0] <= b[0]
    {
      assert k > 0 ==> a[..k][0] == b[..k][0];
    }
  }

  lemma {:induction false} NotAfterCons(c: char, x: string, y: string)
    ensures NotAfter([c] + x, [c] + y) <==> NotAfter(x, y)
  {
    var a, b := [c] + x, [c] + y;
    assert a[1..] == x && b[1..] == y;
    if x <= y {
      assert a <= b;
    } else if NotAfter(x, y) {
      var k :| 0 <= k < |x| && k < |y| && x[..k] == y[..k] && x[k] < y[k];
      assert a[..k + 1] == [c] + x[..k] && b[..k + 1] == [c] + y[..k] && a[k + 1] < b[k + 1];
    }
    if a <= b {
      assert x == y[..|x|];
    } else if NotAfter(a, b) {
      var k :| 0 <= k < |a| && k < |b| && a[..k] == b[..k] && a[k] < b[k];
      assert k > 0 && x[..k - 1] == a[..k][1..] && y[..k - 1] == b[..k][1..];
      assert x[k - 1] < y[k - 1];
    }
  }

  lemma {:induction false} TextLeTotal(a: string, b: string)
    ensures TextLe(a, b) || TextLe(b, a)
  {
    if a != "" && b != "" { TextLeTotal(a[1..], b[1..]); }
  }

  lemma {:induction false} TextLeAntisymmetric(a: string, b: string)
    requires TextLe(a, b) && TextLe(b, a)
    ensures a == b
  {
    if a != "" && b != "" {
      TextLeAntisymmetric(a[1..], b[1..]);
      assert a == [a[0]] + a[1..] && b == [b[0]] + b[1..];
    }
  }

  lemma {:induction false} TextLeTransitive(a: string, b: string, c: string)
    requires TextLe(a, b) && TextLe(b, c)
    ensures TextLe(a, c)
  {
    if a != "" && b != "" && c != "" && a[0] == b[0] == c[0] {
      TextLeTransitive(a[1..], b[1..], c[1..]);
    }
  }

  /** A value with the text it is sorted by. */
  datatype Keyed<T> = Keyed(key: string, value: T)

  predicate Sorted<T>(rows: seq<Keyed<T>>) {
    forall i, j | 0 <= i < j < |rows| :: TextLe(rows[i].key, rows[j].key)
  }

  /** Before the first row with a greater key, so that equal keys keep their order. */
  function Inserted<T>(row: Keyed<T>, rows: seq<Keyed<T>>): seq<Keyed<T>> {
    if rows == [] then [row]
    else if TextLe(rows[|rows| - 1].key, row.key) then rows + [row]
    else Inserted(row, rows[..|rows| - 1]) + [rows[|rows| - 1]]
  }

  function Sort<T>(rows: seq<Keyed<T>>): seq<Keyed<T>> {
    if rows == [] then [] else Inserted(rows[|rows| - 1], Sort(rows[..|rows| - 1]))
  }

  lemma {:induction false} InsertedSorts<T>(row: Keyed<T>, rows: seq<Keyed<T>>)
    requires Sorted(rows)
    ensures multiset(Inserted(row, rows)) == multiset(rows) + multiset{row}
    ensures Sorted(Inserted(row, rows))
  {
    if rows != [] {
      var front, last := rows[..|rows| - 1], rows[|rows| - 1];
      assert rows == front + [last];
      if TextLe(last.key, row.key) {
        forall i | 0 <= i < |rows|
          ensures TextLe(rows[i].key, row.key)
        {
          LastIsGreatest(rows, rows[i]);
          TextLeTransitive(rows[i].key, last.key, row.key);
        }
      } else {
        InsertedSorts(row, front);
        TextLeTotal(row.key, last.key);
        forall k | k in Inserted(row, front)
          ensures TextLe(k.key, last.key)
        {
          assert k in multiset(Inserted(row, front));
        }
      }
    }
  }

  lemma {:induction false} SortSorts<T>(rows: seq<Keyed<T>>)
    ensures multiset(Sort(rows)) == multiset(rows)
    ensures Sorted(Sort(rows))
  {
    if rows != [] {
      SortSorts(rows[..|rows| - 1]);
      InsertedSorts(rows[|rows| - 1], Sort(rows[..|rows| - 1]));
      WithoutLast(rows);
    }
  }

  /** Rows with one key are one row. */
  ghost predicate KeysDetermine<T>(rows: multiset<Keyed<T>>) {
    forall a, b | a in rows && b in rows && a.key == b.key :: a == b
  }

  lemma {:induction false} SameLast<T>(xs: seq<Keyed<T>>, ys: seq<Keyed<T>>)
    requires Sorted(xs) && Sorted(ys) && multiset(xs) == multiset(ys) && KeysDetermine(multiset(xs))
    requires xs != [] && ys != []
    ensures xs[|xs| - 1] == ys[|ys| - 1]
  {
    var x, y := xs[|xs| - 1], ys[|ys| - 1];
    assert x in multiset(ys) && y in multiset(xs);
    LastIsGreatest(ys, x);
    LastIsGreatest(xs, y);
    TextLeAntisymmetric(x.key, y.key);
  }

  lemma {:induction false} SortedFront<T>(xs: seq<Keyed<T>>)
    requires Sorted(xs) && KeysDetermine(multiset(xs)) && xs != []
    ensures
      var front := xs[..|xs| - 1];
      && Sorted(front) && KeysDetermine(multiset(front))
      && multiset(front) == multiset(xs) - multiset{xs[|xs| - 1]}
  {
    WithoutLast(xs);
    var front := xs[..|xs| - 1];
    assert multiset(front) <= multiset(xs);
  }

  /** A sorted list is determined by its rows. */
  lemma {:induction false} SortedIsUnique<T>(xs: seq<Keyed<T>>, ys: seq<Keyed<T>>)
    requires Sorted(xs) && Sorted(ys) && multiset(xs) == multiset(ys) && KeysDetermine(multiset(xs))
    ensures xs == ys
  {
    SameLength(xs, ys);
    if xs != [] {
      var n := |xs| - 1;
      SameLast(xs, ys);
      SortedFront(xs);
      SortedFront(ys);
      SortedIsUnique(xs[..n], ys[..n]);
      SameByFront(xs, ys);
    }
  }

  lemma {:induction false} SameByFront<T>(xs: seq<T>, ys: seq<T>)
    requires |xs| == |ys| > 0 && xs[..|xs| - 1] == ys[..|xs| - 1] && xs[|xs| - 1] == ys[|xs| - 1]
    ensures xs == ys
  {
    assert xs == xs[..|xs| - 1] + [xs[|xs| - 1]];
    assert ys == ys[..|xs| - 1] + [ys[|xs| - 1]];
  }

  lemma {:induction false} SameLength<T>(xs: seq<T>, ys: seq<T>)
    requires multiset(xs) == multiset(ys)
    ensures |xs| == |ys|
  {
    assert |multiset(xs)| == |xs| && |multiset(ys)| == |ys|;
  }

  lemma {:induction false} WithoutLast<T>(xs: seq<T>)
    requires xs != []
    ensures multiset(xs) == multiset(xs[..|xs| - 1]) + multiset{xs[|xs| - 1]}
  {
    assert xs == xs[..|xs| - 1] + [xs[|xs| - 1]];
  }

  lemma {:induction false} LastIsGreatest<T>(rows: seq<Keyed<T>>, row: Keyed<T>)
    requires Sorted(rows) && row in rows
    ensures TextLe(row.key, rows[|rows| - 1].key)
  {
    TextLeTotal(row.key, row.key);
  }

  /** The values a partial function gives, in order. */
  function FilterMap<T, U>(xs: seq<T>, f: T -> Option<U>): seq<U> {
    if xs == [] then []
    else match f(xs[|xs| - 1])
      case Some(u) => FilterMap(xs[..|xs| - 1], f) + [u]
      case None => FilterMap(xs[..|xs| - 1], f)
  }

  lemma {:induction false} FilterMapMembers<T, U>(xs: seq<T>, f: T -> Option<U>)
    ensures forall x | x in xs && f(x).Some? :: f(x).value in FilterMap(xs, f)
    ensures forall u | u in FilterMap(xs, f) :: exists x :: x in xs && f(x) == Some(u)
  {
    if xs != [] {
      FilterMapMembers(xs[..|xs| - 1], f);
      assert xs == xs[..|xs| - 1] + [xs[|xs| - 1]];
    }
  }

  lemma {:induction false} FilterMapAgree<T, U>(xs: seq<T>, f: T -> Option<U>, g: T -> Option<U>)
    requires forall x | x in xs :: f(x) == g(x)
    ensures FilterMap(xs, f) == FilterMap(xs, g)
  {
    if xs != [] { FilterMapAgree(xs[..|xs| - 1], f, g); }
  }

  lemma {:induction false} FilterMapAppend<T, U>(xs: seq<T>, ys: seq<T>, f: T -> Option<U>)
    ensures FilterMap(xs + ys, f) == FilterMap(xs, f) + FilterMap(ys, f)
  {
    if ys == [] {
      assert xs + ys == xs;
    } else {
      FilterMapAppend(xs, ys[..|ys| - 1], f);
      assert (xs + ys)[..|xs + ys| - 1] == xs + ys[..|ys| - 1];
    }
  }

  /** Taking one element out of the input takes its own value out of the output. */
  lemma {:induction false} FilterMapRemove<T, U>(before: seq<T>, x: T, later: seq<T>, f: T -> Option<U>)
    ensures multiset(FilterMap(before + [x] + later, f))
         == multiset(FilterMap(before + later, f)) + multiset(FilterMap([x], f))
  {
    FilterMapAppend(before + [x], later, f);
    FilterMapAppend(before, [x], f);
    FilterMapAppend(before, later, f);
  }

  lemma {:induction false} FilterMapLast<T, U>(xs: seq<T>, f: T -> Option<U>)
    requires xs != []
    ensures multiset(FilterMap(xs, f))
         == multiset(FilterMap(xs[..|xs| - 1], f)) + multiset(FilterMap([xs[|xs| - 1]], f))
  {
    FilterMapAppend(xs[..|xs| - 1], [xs[|xs| - 1]], f);
    assert xs == xs[..|xs| - 1] + [xs[|xs| - 1]];
  }

  /** A list split at one of its elements. */
  lemma {:induction false} Around<T>(ys: seq<T>, x: T) returns (before: seq<T>, later: seq<T>)
    requires x in multiset(ys)
    ensures ys == before + [x] + later
    ensures multiset(before + later) == multiset(ys) - multiset{x}
  {
    var k :| 0 <= k < |ys| && ys[k] == x;
    before, later := ys[..k], ys[k + 1..];
    assert ys == before + [x] + later;
  }

  /** Reordering the input reorders the output. */
  lemma {:induction false} FilterMapPermutes<T, U>(xs: seq<T>, ys: seq<T>, f: T -> Option<U>)
    requires multiset(xs) == multiset(ys)
    ensures multiset(FilterMap(xs, f)) == multiset(FilterMap(ys, f))
  {
    SameLength(xs, ys);
    if xs != [] {
      var n := |xs| - 1;
      WithoutLast(xs);
      assert xs[n] in multiset(xs);
      var before, later := Around(ys, xs[n]);
      FilterMapPermutes(xs[..n], before + later, f);
      FilterMapRemove(before, xs[n], later, f);
      FilterMapLast(xs, f);
    }
  }
}
