/** The order in which `os.ReadDir` hands back a directory's entries: sorted
    by file name, byte by byte. A storage area keyed by `k` holds the file
    `k + ext`, so its entries come back sorted by `k + ext`. */
module DirOrder {

  /** Byte-wise (here: character-wise) lexicographic order on names. */
  predicate LexLeq(a: string, b: string)
    decreases |a|
  {
    |a| == 0 || (|b| > 0 && (a[0] < b[0] || (a[0] == b[0] && LexLeq(a[1..], b[1..]))))
  }

  lemma {:induction false} LexLeqReflexive(a: string)
    ensures LexLeq(a, a)
    decreases |a|
  {
    if |a| > 0 { LexLeqReflexive(a[1..]); }
  }

  lemma {:induction false} LexLeqTotal(a: string, b: string)
    ensures LexLeq(a, b) || LexLeq(b, a)
    decreases |a|
  {
    if |a| > 0 && |b| > 0 && a[0] == b[0] { LexLeqTotal(a[1..], b[1..]); }
  }

  lemma {:induction false} LexLeqAntisymmetric(a: string, b: string)
    requires LexLeq(a, b) && LexLeq(b, a)
    ensures a == b
    decreases |a|
  {
    if |a| > 0 && |b| > 0 {
      LexLeqAntisymmetric(a[1..], b[1..]);
      assert a == [a[0]] + a[1..] && b == [b[0]] + b[1..];
    }
  }

  lemma {:induction false} LexLeqTransitive(a: string, b: string, c: string)
    requires LexLeq(a, b) && LexLeq(b, c)
    ensures LexLeq(a, c)
    decreases |a|
  {
    if |a| > 0 && a[0] == b[0] && b[0] == c[0] { LexLeqTransitive(a[1..], b[1..], c[1..]); }
  }

  /** `a` sorts no later than `b` once both carry the extension. */
  predicate NameLeq(a: string, b: string, ext: string)
  {
    LexLeq(a + ext, b + ext)
  }

  lemma NameLeqAntisymmetric(a: string, b: string, ext: string)
    requires NameLeq(a, b, ext) && NameLeq(b, a, ext)
    ensures a == b
  {
    LexLeqAntisymmetric(a + ext, b + ext);
    assert a == (a + ext)[..|a|] && b == (b + ext)[..|b|];
  }

  predicate IsLeast(m: string, names: set<string>, ext: string)
  {
    m in names && forall x :: x in names ==> NameLeq(m, x, ext)
  }

  lemma {:induction false} LeastExists(names: set<string>, ext: string)
    requires names != {}
    ensures exists m :: IsLeast(m, names, ext)
    decreases names
  {
    var x :| x in names;
    if names != {x} {
      LeastExists(names - {x}, ext);
      var m :| IsLeast(m, names - {x}, ext);
      LexLeqTotal(x + ext, m + ext);
      if NameLeq(x, m, ext) {
        forall y | y in names ensures NameLeq(x, y, ext) {
          if y != x {
            assert y in names - {x};
            LexLeqTransitive(x + ext, m + ext, y + ext);
          } else {
            LexLeqReflexive(x + ext);
          }
        }
        assert IsLeast(x, names, ext);
      } else {
        assert IsLeast(m, names, ext);
      }
    } else {
      LexLeqReflexive(x + ext);
      assert IsLeast(x, names, ext) by { assert forall y :: y in names ==> y == x; }
    }
  }

  lemma LeastUnique(m1: string, m2: string, names: set<string>, ext: string)
    requires IsLeast(m1, names, ext) && IsLeast(m2, names, ext)
    ensures m1 == m2
  {
    NameLeqAntisymmetric(m1, m2, ext);
  }

  ghost function Least(names: set<string>, ext: string): (m: string)
    requires names != {}
    ensures IsLeast(m, names, ext)
  {
    LeastExists(names, ext);
    var m :| IsLeast(m, names, ext); m
  }

  /** The names of a directory in the order `os.ReadDir` lists them. */
  ghost function SortedNames(names: set<string>, ext: string): (r: seq<string>)
    ensures |r| == |names|
    decreases |names|
  {
    if names == {} then []
    else
      var m := Least(names, ext);
      [m] + SortedNames(names - {m}, ext)
  }

  /** The listing holds exactly the directory's names. */
  lemma {:induction false} SortedNamesMembers(names: set<string>, ext: string)
    ensures forall x :: x in SortedNames(names, ext) <==> x in names
    decreases |names|
  {
    if names != {} {
      var m := Least(names, ext);
      SortedNamesMembers(names - {m}, ext);
      assert SortedNames(names, ext) == [m] + SortedNames(names - {m}, ext);
    }
  }

  /** Every listed name is one of the directory's names. */
  lemma SortedNameMember(names: set<string>, ext: string, i: nat)
    requires i < |SortedNames(names, ext)|
    ensures SortedNames(names, ext)[i] in names
  {
    SortedNamesMembers(names, ext);
  }

  /** Each name appears once and sorts before every later one. */
  predicate StrictlySorted(r: seq<string>, ext: string)
  {
    forall i, j :: 0 <= i < j < |r| ==> r[i] != r[j] && NameLeq(r[i], r[j], ext)
  }

  /** The listing holds each name once and sorts it before every later one. */
  lemma {:induction false} SortedNamesOrdered(names: set<string>, ext: string)
    ensures StrictlySorted(SortedNames(names, ext), ext)
    decreases |names|
  {
    if names != {} {
      var m := Least(names, ext);
      var rest := SortedNames(names - {m}, ext);
      SortedNamesOrdered(names - {m}, ext);
      SortedNamesMembers(names - {m}, ext);
      var r := SortedNames(names, ext);
      assert r == [m] + rest;
      forall i, j | 0 <= i < j < |r| ensures r[i] != r[j] && NameLeq(r[i], r[j], ext) {
        assert r[j] == rest[j - 1];
        if i == 0 {
          assert rest[j - 1] in names - {m};
        } else {
          assert r[i] == rest[i - 1];
        }
      }
    }
  }

  /** Any least name heads the listing. */
  lemma SortedNamesStep(names: set<string>, m: string, ext: string)
    requires IsLeast(m, names, ext)
    ensures SortedNames(names, ext) == [m] + SortedNames(names - {m}, ext)
  {
    LeastUnique(m, Least(names, ext), names, ext);
  }

  /** Picks the name that heads the listing of a non-empty directory. */
  method PickLeast(names: set<string>, ext: string) returns (m: string)
    requires names != {}
    ensures m in names
    ensures SortedNames(names, ext) == [m] + SortedNames(names - {m}, ext)
  {
    LeastExists(names, ext);
    m :| IsLeast(m, names, ext);
    SortedNamesStep(names, m, ext);
  }

  /** `os.ReadDir` reduced to its name order: repeatedly take the least name
      still unlisted. */
  method ReadDir(names: set<string>, ext: string) returns (r: seq<string>)
    ensures r == SortedNames(names, ext)
  {
    r := [];
    var rest := names;
    while rest != {}
      invariant r + SortedNames(rest, ext) == SortedNames(names, ext)
      decreases rest
    {
      var m := PickLeast(rest, ext);
      r := r + [m];
      rest := rest - {m};
    }
  }
}
