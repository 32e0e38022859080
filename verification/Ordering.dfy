/** The order in which strings are sorted (lexicographic by code point, which for UTF-8 is also
    the order of the bytes), and ascending listings of finite sets of strings. */
module Ordering {

  predicate Less(a: string, b: string) {
    b != [] && (a == [] || a[0] < b[0] || (a[0] == b[0] && Less(a[1..], b[1..])))
  }

  lemma {:induction false} LessTotal(a: string, b: string)
    ensures Less(a, b) || a == b || Less(b, a)
    ensures !(Less(a, b) && Less(b, a)) && !Less(a, a)
  {
    if a != [] && b != [] {
      LessTotal(a[1..], b[1..]);
      assert a[0] == b[0] && a[1..] == b[1..] ==> a == b by {
        assert a == [a[0]] + a[1..] && b == [b[0]] + b[1..];
      }
    }
    if a != [] {
      LessTotal(a[1..], a[1..]);
    }
  }

  /** At the first place where they differ `a` has the lower character, or it ends there. */
  ghost predicate DiffersAt(a: string, b: string, i: nat) {
    i <= |a| && i < |b| && a[..i] == b[..i] && (i == |a| || a[i] < b[i])
  }

  lemma {:induction false} LessMeans(a: string, b: string)
    ensures Less(a, b) <==> exists i: nat :: DiffersAt(a, b, i)
  {
    if b != [] && a != [] && a[0] == b[0] {
      LessMeans(a[1..], b[1..]);
      if i: nat :| DiffersAt(a[1..], b[1..], i) {
        assert a[..i + 1] == [a[0]] + a[1..][..i] && b[..i + 1] == [b[0]] + b[1..][..i];
        assert DiffersAt(a, b, i + 1);
      }
      if i: nat :| DiffersAt(a, b, i) {
        assert i > 0;
        assert a[1..][..i - 1] == a[..i][1..] && b[1..][..i - 1] == b[..i][1..];
        assert DiffersAt(a[1..], b[1..], i - 1);
      }
    } else {
      if Less(a, b) {
        assert DiffersAt(a, b, 0);
      }
      if i: nat :| DiffersAt(a, b, i) {
        assert i > 0 ==> a[..i][0] == b[..i][0];
      }
    }
  }

  lemma {:induction false} LessTransitive(a: string, b: string, c: string)
    requires Less(a, b) && Less(b, c)
    ensures Less(a, c)
  {
    if a != [] && a[0] == b[0] == c[0] {
      LessTransitive(a[1..], b[1..], c[1..]);
    }
  }

  ghost predicate IsLeast(m: string, s: set<string>) {
    m in s && forall x :: x in s && x != m ==> Less(m, x)
  }

  lemma LeastExists(s: set<string>) returns (m: string)
    requires s != {}
    ensures IsLeast(m, s)
  {
    m :| m in s;
    if s != {m} {
      var rest := s - {m};
      var r := LeastExists(rest);
      LessTotal(m, r);
      if Less(r, m) {
        m := r;
      } else {
        forall x | x in s && x != m ensures Less(m, x) {
          if x != r {
            LessTransitive(m, r, x);
          }
        }
      }
    }
  }

  ghost function Least(s: set<string>): (m: string)
    requires s != {}
    ensures IsLeast(m, s)
  {
    assert exists m :: IsLeast(m, s) by {
      var m := LeastExists(s);
    }
    var m :| IsLeast(m, s);
    m
  }

  ghost predicate Ascends(r: seq<string>) {
    forall i, j :: 0 <= i < j < |r| ==> Less(r[i], r[j])
  }

  /** The elements of a set in ascending order, each once. */
  ghost function Ascending(s: set<string>): (r: seq<string>)
    ensures Ascends(r) && |r| == |s|
    ensures forall x :: x in r <==> x in s
  {
    if s == {} then []
    else
      var m := Least(s);
      [m] + Ascending(s - {m})
  }

  lemma AscendsUnique(r: seq<string>, r': seq<string>)
    requires Ascends(r) && Ascends(r') && forall x :: x in r <==> x in r'
    ensures r == r'
  {
    assert forall i :: 0 <= i < |r| ==> r[i] in r';
    assert forall i :: 0 <= i < |r'| ==> r'[i] in r;
    if r != [] && r' != [] {
      LessTotal(r[0], r'[0]);
      assert r[0] in r && r'[0] in r';
      forall x ensures x in r[1..] <==> x in r'[1..] {
        LessTotal(r[0], r[0]);
        assert x in r <==> x == r[0] || x in r[1..];
        assert x in r' <==> x == r'[0] || x in r'[1..];
        assert r[0] !in r[1..] && r[0] !in r'[1..];
      }
      AscendsUnique(r[1..], r'[1..]);
      assert r == [r[0]] + r[1..] && r' == [r'[0]] + r'[1..];
    }
  }

  /** Sorting: insertion of one element at a time. */
  method Sort(s: set<string>) returns (r: seq<string>)
    ensures r == Ascending(s)
  {
    r := [];
    var rest := s;
    while rest != {}
      invariant Ascends(r) && rest <= s
      invariant forall x :: x in r <==> x in s - rest
      decreases |rest|
    {
      var x :| x in rest;
      var i := 0;
      while i < |r| && Less(r[i], x)
        invariant 0 <= i <= |r|
        invariant forall j :: 0 <= j < i ==> Less(r[j], x)
      {
        i := i + 1;
      }
      InsertAscends(r, i, x);
      r := r[..i] + [x] + r[i..];
      rest := rest - {x};
    }
    AscendsUnique(r, Ascending(s));
  }

  lemma InsertAscends(r: seq<string>, i: nat, x: string)
    requires Ascends(r) && x !in r && i <= |r|
    requires forall j :: 0 <= j < i ==> Less(r[j], x)
    requires i < |r| ==> !Less(r[i], x)
    ensures Ascends(r[..i] + [x] + r[i..])
    ensures forall y :: y in r[..i] + [x] + r[i..] <==> y == x || y in r
  {
    forall j | i <= j < |r| ensures Less(x, r[j]) {
      LessTotal(x, r[i]);
      if j > i {
        LessTransitive(x, r[i], r[j]);
      }
    }
    assert r == r[..i] + r[i..];
  }
}
