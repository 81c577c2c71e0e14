/**
 * String.split with a one-character separator and no limit, as the JDK
 * defines it: cut at every separator, keep a leading empty piece, then drop
 * every trailing empty piece; a string holding no separator is returned
 * whole, even when it is empty.
 */
module JavaSplit {

  /** The pieces between consecutive separators, empty ones included. */
  function Pieces<T(==)>(s: seq<T>, sep: T): (ps: seq<seq<T>>)
    ensures |ps| >= 1
    ensures forall i :: 0 <= i < |ps| ==> sep !in ps[i]
  {
    if |s| == 0 then [[]]
    else
      var rest := Pieces(s[1..], sep);
      if s[0] == sep then [[]] + rest
      else [[s[0]] + rest[0]] + rest[1..]
  }

  /** The pieces put back together with one separator between neighbours. */
  function Join<T>(ps: seq<seq<T>>, sep: T): seq<T> {
    if |ps| == 0 then []
    else if |ps| == 1 then ps[0]
    else ps[0] + [sep] + Join(ps[1..], sep)
  }

  /** n copies of x. */
  function Repeat<T>(x: T, n: nat): (r: seq<T>)
    ensures |r| == n && forall i :: 0 <= i < n ==> r[i] == x
  {
    if n == 0 then [] else [x] + Repeat(x, n - 1)
  }

  /** The longest prefix of ps that does not end in an empty piece. */
  function DropTrailingEmpty<T>(ps: seq<seq<T>>): (qs: seq<seq<T>>)
    ensures |qs| <= |ps| && qs == ps[..|qs|]
    ensures forall i :: |qs| <= i < |ps| ==> ps[i] == []
    ensures |qs| > 0 ==> qs[|qs| - 1] != []
  {
    if |ps| > 0 && ps[|ps| - 1] == [] then DropTrailingEmpty(ps[..|ps| - 1]) else ps
  }

  function Split<T(==)>(s: seq<T>, sep: T): (parts: seq<seq<T>>)
    ensures forall i :: 0 <= i < |parts| ==> sep !in parts[i]
  {
    if sep !in s then [s] else DropTrailingEmpty(Pieces(s, sep))
  }

  /** Pieces followed by Join gives back the input. */
  lemma {:induction false} JoinPieces<T>(s: seq<T>, sep: T)
    ensures Join(Pieces(s, sep), sep) == s
  {
    if |s| > 0 {
      var rest := Pieces(s[1..], sep);
      JoinPieces(s[1..], sep);
      if s[0] == sep {
        assert ([[]] + rest)[1..] == rest;
      } else {
        var ps := [[s[0]] + rest[0]] + rest[1..];
        if |rest| > 1 {
          assert ps[1..] == rest[1..];
        }
      }
      assert s == [s[0]] + s[1..];
    }
  }

  /** Cutting a joined string at a separator is concatenating its pieces. */
  lemma {:induction false} PiecesAppend<T>(a: seq<T>, b: seq<T>, sep: T)
    ensures Pieces(a + [sep] + b, sep) == Pieces(a, sep) + Pieces(b, sep)
  {
    if |a| == 0 {
      assert a + [sep] + b == [sep] + b;
      assert ([sep] + b)[1..] == b;
    } else {
      assert (a + [sep] + b)[1..] == a[1..] + [sep] + b;
      PiecesAppend(a[1..], b, sep);
    }
  }

  /** Join followed by Pieces gives back separator-free pieces. */
  lemma {:induction false} PiecesJoin<T>(ps: seq<seq<T>>, sep: T)
    requires |ps| >= 1 && forall i :: 0 <= i < |ps| ==> sep !in ps[i]
    ensures Pieces(Join(ps, sep), sep) == ps
    decreases |ps|
  {
    SeparatorFree(ps[0], sep);
    if |ps| > 1 {
      PiecesJoin(ps[1..], sep);
      PiecesAppend(ps[0], Join(ps[1..], sep), sep);
      assert ps == [ps[0]] + ps[1..];
    }
  }

  lemma {:induction false} SeparatorFree<T>(s: seq<T>, sep: T)
    requires sep !in s
    ensures Pieces(s, sep) == [s]
  {
    if |s| > 0 {
      SeparatorFree(s[1..], sep);
      assert s == [s[0]] + s[1..];
    }
  }

  lemma {:induction false} JoinPairAndEmpties<T>(u: seq<T>, p: seq<T>, k: nat, sep: T)
    ensures Join([u, p] + Repeat([], k), sep) == u + [sep] + p + Repeat(sep, k)
  {
    var ps := [u, p] + Repeat([], k);
    assert ps[1..] == [p] + Repeat([], k);
    JoinOneAndEmpties(p, k, sep);
  }

  lemma {:induction false} JoinOneAndEmpties<T>(p: seq<T>, k: nat, sep: T)
    ensures Join([p] + Repeat([], k), sep) == p + Repeat(sep, k)
    decreases k
  {
    if k > 0 {
      JoinOneAndEmpties([], k - 1, sep);
      assert ([p] + Repeat([], k))[1..] == [[]] + Repeat([], k - 1);
      assert Repeat(sep, k) == [sep] + Repeat(sep, k - 1);
    }
  }

  /**
   * A separator-free u, a separator and a non-empty separator-free p, with
   * any number of separators after it, split into exactly [u, p].
   */
  lemma SplitPair<T>(u: seq<T>, p: seq<T>, k: nat, sep: T)
    requires sep !in u && sep !in p && p != []
    ensures Split(u + [sep] + p + Repeat(sep, k), sep) == [u, p]
  {
    var s := u + [sep] + p + Repeat(sep, k);
    var ps := [u, p] + Repeat([], k);
    assert s[|u|] == sep;
    JoinPairAndEmpties(u, p, k, sep);
    PiecesJoin(ps, sep);
    var qs := DropTrailingEmpty(ps);
    assert ps[1] == p;
    assert |qs| == 2;
  }

  /** Conversely, a split into two parts has exactly that shape. */
  lemma SplitTwoShape<T>(s: seq<T>, sep: T)
    requires |Split(s, sep)| == 2
    ensures var parts := Split(s, sep);
      parts[1] != [] && |s| >= |parts[0]| + 1 + |parts[1]| &&
      s == parts[0] + [sep] + parts[1] + Repeat(sep, |s| - |parts[0]| - 1 - |parts[1]|)
  {
    var ps := Pieces(s, sep);
    var qs := Split(s, sep);
    JoinPieces(s, sep);
    var k := |ps| - 2;
    assert ps[2..] == Repeat([], k);
    assert ps == [qs[0], qs[1]] + Repeat([], k);
    JoinPairAndEmpties(qs[0], qs[1], k, sep);
  }

  /** A separator inside the second part gives three parts. */
  lemma SplitThree<T>(u: seq<T>, p1: seq<T>, p2: seq<T>, k: nat, sep: T)
    requires sep !in u && sep !in p1 && sep !in p2 && p2 != []
    ensures Split(u + [sep] + p1 + [sep] + p2 + Repeat(sep, k), sep) == [u, p1, p2]
  {
    var s := u + [sep] + p1 + [sep] + p2 + Repeat(sep, k);
    assert s[|u|] == sep;
    var ps := [u, p1, p2] + Repeat([], k);
    JoinPairAndEmpties(p1, p2, k, sep);
    assert ps[1..] == [p1, p2] + Repeat([], k);
    assert Join(ps, sep) == s;
    PiecesJoin(ps, sep);
    var qs := DropTrailingEmpty(ps);
    assert ps[2] == p2;
    assert |qs| == 3;
  }

  /** Separators only at the end leave at most one part: "user:" gives ["user"]. */
  lemma SplitTrailingOnly<T>(u: seq<T>, k: nat, sep: T)
    requires sep !in u && k >= 1
    ensures Split(u + Repeat(sep, k), sep) == if u == [] then [] else [u]
  {
    var s := u + Repeat(sep, k);
    assert s[|u|] == sep;
    var ps := [u] + Repeat([], k);
    JoinOneAndEmpties(u, k, sep);
    PiecesJoin(ps, sep);
    var qs := DropTrailingEmpty(ps);
    assert |qs| <= 1;
  }
}
