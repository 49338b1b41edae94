/**
 The list operations `get_gene_names` applies to a set of gene symbols:
 Python's `sorted` (string order compares code point by code point, a proper
 prefix first) and `','.join`.  `Split` is the reading side of `Join`, used
 to state what a joined column holds.
 */
module SymbolLists {

  /**
   The textbook lexicographic order: `a` is a prefix of `b`, or at the first
   position where they differ the code point of `a` is the smaller.
   */
  ghost predicate LexLeRef(a: string, b: string) {
    a <= b || exists k | 0 <= k < |a| && k < |b| :: a[..k] == b[..k] && a[k] < b[k]
  }

  /** The reference order, unfolded at the first character. */
  lemma LexLeRefStep(a: string, b: string)
    requires |a| > 0 && |b| > 0
    ensures LexLeRef(a, b) <==> a[0] < b[0] || (a[0] == b[0] && LexLeRef(a[1..], b[1..]))
  {
    assert a == [a[0]] + a[1..] && b == [b[0]] + b[1..];
    if a[0] < b[0] {
      assert a[..0] == b[..0];
    }
    if a[0] == b[0] && LexLeRef(a[1..], b[1..]) && !(a[1..] <= b[1..]) {
      var k :| 0 <= k < |a[1..]| && k < |b[1..]| && a[1..][..k] == b[1..][..k] && a[1..][k] < b[1..][k];
      assert a[..k + 1] == [a[0]] + a[1..][..k] && b[..k + 1] == [b[0]] + b[1..][..k];
    }
    if LexLeRef(a, b) && !(a[0] < b[0]) && !(a <= b) {
      var k :| 0 <= k < |a| && k < |b| && a[..k] == b[..k] && a[k] < b[k];
      assert k > 0;
      assert a[..k][0] == b[..k][0];
      assert a[1..][..k - 1] == a[..k][1..] && b[1..][..k - 1] == b[..k][1..];
    }
  }

  /** Python's `a <= b` on strings, which is the lexicographic order `LexLeRef`. */
  predicate LexLe(a: string, b: string)
    ensures LexLe(a, b) <==> LexLeRef(a, b)
    decreases |a|
  {
    if |a| == 0 then true
    else if |b| == 0 then false
    else
      LexLeRefStep(a, b);
      a[0] < b[0] || (a[0] == b[0] && LexLe(a[1..], b[1..]))
  }

  /** Python's `a < b` on strings. */
  predicate LexLess(a: string, b: string) {
    LexLe(a, b) && a != b
  }

  lemma {:induction false} LexLeReflexive(a: string)
    ensures LexLe(a, a)
  {
    if |a| > 0 {
      LexLeReflexive(a[1..]);
    }
  }

  lemma {:induction false} LexLeTotal(a: string, b: string)
    ensures LexLe(a, b) || LexLe(b, a)
  {
    if |a| > 0 && |b| > 0 && a[0] == b[0] {
      LexLeTotal(a[1..], b[1..]);
    }
  }

  lemma {:induction false} LexLeAntisymmetric(a: string, b: string)
    requires LexLe(a, b) && LexLe(b, a)
    ensures a == b
  {
    if |a| > 0 {
      LexLeAntisymmetric(a[1..], b[1..]);
      assert a == [a[0]] + a[1..] && b == [b[0]] + b[1..];
    }
  }

  lemma {:induction false} LexLeTransitive(a: string, b: string, c: string)
    requires LexLe(a, b) && LexLe(b, c)
    ensures LexLe(a, c)
  {
    if |a| > 0 && a[0] == b[0] && b[0] == c[0] {
      LexLeTransitive(a[1..], b[1..], c[1..]);
    }
  }

  /** Ascending with no element repeated. */
  predicate StrictlySorted(xs: seq<string>) {
    forall i, j | 0 <= i < j < |xs| :: LexLess(xs[i], xs[j])
  }

  /** `m` is the smallest element of `s`. */
  predicate IsLeast(m: string, s: set<string>) {
    m in s && forall x | x in s :: LexLe(m, x)
  }

  lemma {:induction false} LeastExists(s: set<string>)
    requires s != {}
    ensures exists m :: IsLeast(m, s)
    decreases |s|
  {
    var y :| y in s;
    LexLeReflexive(y);
    if s != {y} {
      LeastExists(s - {y});
      var m :| IsLeast(m, s - {y});
      LexLeTotal(m, y);
      if LexLe(m, y) {
        assert IsLeast(m, s);
      } else {
        forall x | x in s
          ensures LexLe(y, x)
        {
          if x != y {
            LexLeTransitive(y, m, x);
          }
        }
        assert IsLeast(y, s);
      }
    } else {
      assert IsLeast(y, s);
    }
  }

  lemma LeastUnique(s: set<string>)
    ensures forall m, m' | IsLeast(m, s) && IsLeast(m', s) :: m == m'
  {
    forall m, m' | IsLeast(m, s) && IsLeast(m', s)
      ensures m == m'
    {
      LexLeAntisymmetric(m, m');
    }
  }

  /** `sorted(s)` of a set: its elements, each once, in ascending order. */
  function SortedSymbols(s: set<string>): (r: seq<string>)
    ensures StrictlySorted(r)
    ensures forall x :: x in r <==> x in s
    ensures |r| == |s|
    decreases |s|
  {
    if s == {} then []
    else
      LeastExists(s);
      LeastUnique(s);
      var m :| IsLeast(m, s);
      var rest := SortedSymbols(s - {m});
      assert forall j | 0 <= j < |rest| :: rest[j] in s - {m};
      assert forall j | 0 < j < |[m] + rest| :: ([m] + rest)[j] == rest[j - 1];
      [m] + rest
  }

  lemma HeadIsShared(a: seq<string>, b: seq<string>)
    requires |a| > 0
    requires forall x :: x in a <==> x in b
    ensures a[0] in b
  {
  }

  /** A strictly sorted list is determined by its elements. */
  lemma {:induction false} SortedUnique(a: seq<string>, b: seq<string>)
    requires StrictlySorted(a) && StrictlySorted(b)
    requires forall x :: x in a <==> x in b
    ensures a == b
  {
    if |a| == 0 {
      if |b| > 0 {
        HeadIsShared(b, a);
        assert false;
      }
    } else if |b| == 0 {
      HeadIsShared(a, b);
      assert false;
    } else {
      if a[0] != b[0] {
        assert a[0] in b;
        assert b[0] in a;
        var i :| 0 <= i < |a| && a[i] == b[0];
        var j :| 0 <= j < |b| && b[j] == a[0];
        assert LexLess(a[0], a[i]) && LexLess(b[0], b[j]);
        LexLeAntisymmetric(a[0], b[0]);
        assert false;
      }
      forall x
        ensures x in a[1..] <==> x in b[1..]
      {
        if x in a[1..] {
          var k :| 1 <= k < |a| && a[k] == x;
          assert LexLess(a[0], a[k]);
          assert x in b;
        }
        if x in b[1..] {
          var k :| 1 <= k < |b| && b[k] == x;
          assert LexLess(b[0], b[k]);
          assert x in a;
        }
      }
      SortedUnique(a[1..], b[1..]);
      assert a == [a[0]] + a[1..] && b == [b[0]] + b[1..];
    }
  }

  /**
   `sep.join(xs)`: empty only for no pieces or a single empty one, and split
   again at `sep` it gives back pieces that are free of `sep`.
   */
  function Join(xs: seq<string>, sep: char): (r: string)
    ensures r == "" <==> |xs| == 0 || (|xs| == 1 && xs[0] == "")
    ensures |xs| > 0 && (forall i | 0 <= i < |xs| :: sep !in xs[i]) ==> Split(r, sep) == xs
  {
    if |xs| == 0 then ""
    else if |xs| == 1 then
      SplitWithoutSeparator(xs[0], sep);
      xs[0]
    else
      var rest := Join(xs[1..], sep);
      SplitAfterPiece(xs[0], sep, rest);
      assert xs == [xs[0]] + xs[1..];
      xs[0] + [sep] + rest
  }

  /** `s.split(sep)`: the pieces between separators, always at least one. */
  function Split(s: string, sep: char): (r: seq<string>)
    ensures |r| >= 1
    decreases |s|
  {
    if |s| == 0 then [""]
    else
      var rest := Split(s[1..], sep);
      if s[0] == sep then [""] + rest else [[s[0]] + rest[0]] + rest[1..]
  }

  lemma {:induction false} SplitWithoutSeparator(a: string, sep: char)
    ensures sep !in a ==> Split(a, sep) == [a]
    decreases |a|
  {
    if |a| > 0 {
      SplitWithoutSeparator(a[1..], sep);
      assert a == [a[0]] + a[1..];
    }
  }

  lemma {:induction false} SplitAfterPiece(a: string, sep: char, rest: string)
    ensures sep !in a ==> Split(a + [sep] + rest, sep) == [a] + Split(rest, sep)
    decreases |a|
  {
    var s := a + [sep] + rest;
    if |a| == 0 {
      assert s[1..] == rest;
    } else {
      assert s[1..] == a[1..] + [sep] + rest;
      SplitAfterPiece(a[1..], sep, rest);
      assert [s[0]] + a[1..] == a;
    }
  }


}
