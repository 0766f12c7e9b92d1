/** Python `str` operations the modelled code relies on, for a one-character separator. */
module Strings {
  import opened Seqs

  /** `s.count(c)` */
  function Count(s: string, c: char): nat
    decreases |s|
  {
    if s == [] then 0 else (if s[0] == c then 1 else 0) + Count(s[1..], c)
  }

  lemma {:induction false} CountAppend(a: string, b: string, c: char)
    ensures Count(a + b, c) == Count(a, c) + Count(b, c)
    decreases |a|
  {
    if a == [] {
      assert a + b == b;
    } else {
      assert (a + b)[1..] == a[1..] + b;
      CountAppend(a[1..], b, c);
    }
  }

  lemma {:induction false} CountZero(s: string, c: char)
    ensures Count(s, c) == 0 <==> c !in s
    decreases |s|
  {
    if s != [] {
      CountZero(s[1..], c);
      assert c in s <==> s[0] == c || c in s[1..];
    }
  }

  /** `s.startswith(prefix)` */
  predicate StartsWith(s: string, prefix: string) {
    |prefix| <= |s| && s[..|prefix|] == prefix
  }

  /** The position of the first `c` in `s`. */
  function IndexOf(s: string, c: char): (i: nat)
    requires c in s
    ensures i < |s| && s[i] == c && c !in s[..i]
    decreases |s|
  {
    if s[0] == c then 0
    else
      var i := IndexOf(s[1..], c);
      assert s[..i + 1] == [s[0]] + s[1..][..i];
      i + 1
  }

  /** The position of the last `c` in `s`. */
  function LastIndexOf(s: string, c: char): (i: nat)
    requires c in s
    ensures i < |s| && s[i] == c && c !in s[i + 1..]
    decreases |s|
  {
    if s[|s| - 1] == c then |s| - 1
    else
      assert s[..|s| - 1] + [s[|s| - 1]] == s;
      var i := LastIndexOf(s[..|s| - 1], c);
      assert s[i + 1..] == s[..|s| - 1][i + 1..] + [s[|s| - 1]];
      i
  }

  /** Only one position holds a `c` with no `c` after it. */
  lemma LastIndexUnique(s: string, c: char, i: nat, j: nat)
    requires i < |s| && s[i] == c && c !in s[i + 1..]
    requires j < |s| && s[j] == c && c !in s[j + 1..]
    ensures i == j
  {
  }

  /** `sep.join(parts)` */
  function Join(parts: seq<string>, sep: char): string
    decreases |parts|
  {
    if |parts| == 0 then ""
    else if |parts| == 1 then parts[0]
    else parts[0] + [sep] + Join(parts[1..], sep)
  }

  /** `s.split(sep)`: never empty, no part holds the separator, and joining gives `s` back. */
  function Split(s: string, sep: char): (parts: seq<string>)
    ensures |parts| == Count(s, sep) + 1
    ensures forall i :: 0 <= i < |parts| ==> sep !in parts[i]
    ensures Join(parts, sep) == s
    decreases |s|
  {
    if sep !in s then
      CountZero(s, sep);
      [s]
    else
      var i := IndexOf(s, sep);
      var rest := Split(s[i + 1..], sep);
      CountAt(s, sep, i);
      JoinCons(s[..i], rest, sep);
      [s[..i]] + rest
  }

  /** Cutting `s` at its first `c`: one `c` fewer after the cut. */
  lemma CountAt(s: string, c: char, i: nat)
    requires i < |s| && s[i] == c && c !in s[..i]
    ensures Count(s, c) == Count(s[i + 1..], c) + 1
    ensures s == s[..i] + [c] + s[i + 1..]
  {
    assert s == s[..i] + ([c] + s[i + 1..]);
    CountAppend(s[..i], [c] + s[i + 1..], c);
    assert Count([c], c) == 1;
    CountAppend([c], s[i + 1..], c);
    CountZero(s[..i], c);
  }

  /** Joining a longer list continues the join of its first `i` parts with the separator. */
  lemma {:induction false} JoinAt(parts: seq<string>, i: nat, sep: char)
    requires 1 <= i < |parts|
    ensures Join(parts, sep) == Join(parts[..i], sep) + [sep] + Join(parts[i..], sep)
    decreases i
  {
    if i > 1 {
      JoinAt(parts[1..], i - 1, sep);
      assert parts[1..][..i - 1] == parts[..i][1..];
      assert parts[1..][i - 1..] == parts[i..];
    }
  }

  /** Every separator position of `s` ends the join of a proper prefix of its parts. */
  lemma SeparatorEndsLevel(s: string, sep: char, p: nat)
    requires p < |s| && s[p] == sep
    ensures exists k :: 1 <= k < |Split(s, sep)| && Join(Split(s, sep)[..k], sep) == s[..p]
  {
    SeparatorEndsPartsLevel(Split(s, sep), sep, p);
  }

  lemma {:induction false} SeparatorEndsPartsLevel(parts: seq<string>, sep: char, p: nat)
    requires |parts| >= 1 && forall i :: 0 <= i < |parts| ==> sep !in parts[i]
    requires p < |Join(parts, sep)| && Join(parts, sep)[p] == sep
    ensures exists k :: 1 <= k < |parts| && Join(parts[..k], sep) == Join(parts, sep)[..p]
    decreases |parts|
  {
    var s := Join(parts, sep);
    if |parts| > 1 {
      var tail := Join(parts[1..], sep);
      assert s == parts[0] + [sep] + tail;
      var n := |parts[0]|;
      if p == n {
        assert parts[..1] == [parts[0]];
        assert Join(parts[..1], sep) == s[..p];
      } else if p > n {
        var q: nat := p - n - 1;
        assert tail[q] == s[p];
        SeparatorEndsPartsLevel(parts[1..], sep, q);
        var k :| 1 <= k < |parts| - 1 && Join(parts[1..][..k], sep) == tail[..q];
        assert parts[..k + 1] == [parts[0]] + parts[1..][..k];
        JoinCons(parts[0], parts[1..][..k], sep);
        assert s[..p] == parts[0] + [sep] + tail[..q];
        assert 1 <= k + 1 < |parts|;
      }
    }
  }

  lemma {:induction false} JoinCons(head: string, tail: seq<string>, sep: char)
    requires |tail| >= 1
    ensures Join([head] + tail, sep) == head + [sep] + Join(tail, sep)
  {
    assert ([head] + tail)[1..] == tail;
  }

  /** Python's `<` on `str`: lexicographic by code point. */
  predicate Below(a: string, b: string)
    decreases |a|
  {
    if a == [] then b != []
    else if b == [] then false
    else if a[0] != b[0] then a[0] < b[0]
    else Below(a[1..], b[1..])
  }

  lemma {:induction false} BelowIrreflexive(a: string)
    ensures !Below(a, a)
    decreases |a|
  {
    if a != [] {
      BelowIrreflexive(a[1..]);
    }
  }

  lemma {:induction false} BelowTransitive(a: string, b: string, c: string)
    requires Below(a, b) && Below(b, c)
    ensures Below(a, c)
    decreases |a|
  {
    if a != [] && b != [] && c != [] && a[0] == b[0] && b[0] == c[0] {
      BelowTransitive(a[1..], b[1..], c[1..]);
    }
  }

  lemma {:induction false} BelowTotal(a: string, b: string)
    ensures a == b || Below(a, b) || Below(b, a)
    decreases |a|
  {
    if a != [] && b != [] && a[0] == b[0] {
      BelowTotal(a[1..], b[1..]);
      if a[1..] == b[1..] {
        assert a == [a[0]] + a[1..] && b == [b[0]] + b[1..];
      }
    }
  }

  lemma {:induction false} BelowAsymmetric(a: string, b: string)
    requires Below(a, b)
    ensures !Below(b, a)
  {
    if Below(b, a) {
      BelowTransitive(a, b, a);
      BelowIrreflexive(a);
    }
  }

  /** Non-decreasing under Python's string order. */
  predicate Sorted(s: seq<string>) {
    forall i, j :: 0 <= i < j < |s| ==> !Below(s[j], s[i])
  }

  function Insert(x: string, s: seq<string>): (r: seq<string>)
    requires Sorted(s)
    ensures Sorted(r)
    ensures multiset(r) == multiset(s) + multiset{x}
    decreases |s|
  {
    if s == [] then [x]
    else if Below(s[0], x) then
      var rest := Insert(x, s[1..]);
      assert s == [s[0]] + s[1..];
      forall y | y in rest ensures !Below(y, s[0]) {
        assert y in multiset(rest);
        if y == x {
          BelowAsymmetric(s[0], x);
        } else {
          assert y in s[1..];
        }
      }
      [s[0]] + rest
    else
      forall j | 0 <= j < |s| ensures !Below(s[j], x) {
        BelowTotal(x, s[0]);
        if j > 0 && Below(s[j], x) && x != s[0] {
          BelowTransitive(s[j], x, s[0]);
        }
      }
      [x] + s
  }

  /** `sorted(s)` */
  function Sort(s: seq<string>): (r: seq<string>)
    ensures Sorted(r)
    ensures multiset(r) == multiset(s)
    decreases |s|
  {
    if s == [] then []
    else
      assert s == [s[0]] + s[1..];
      Insert(s[0], Sort(s[1..]))
  }

  /** `sorted(set(s))`: pyam's dimension lists. Strictly increasing, and the same names as `s`. */
  function SortedUnique(s: seq<string>): (r: seq<string>)
    ensures forall x :: x in r <==> x in s
    ensures NoDuplicates(r)
    ensures forall i, j :: 0 <= i < j < |r| ==> Below(r[i], r[j])
  {
    var d := Distinct(s);
    var r := Sort(d);
    forall x ensures x in r <==> x in d {
      assert x in r <==> x in multiset(r);
    }
    forall x | x in r ensures multiset(r)[x] <= 1 {
      MultisetOfDistinct(d, x);
    }
    DistinctOfMultiset(r);
    forall i, j | 0 <= i < j < |r| ensures Below(r[i], r[j]) {
      BelowTotal(r[i], r[j]);
    }
    r
  }

  /** Strictly increasing under Python's string order. */
  predicate StrictlySorted(s: seq<string>) {
    forall i, j :: 0 <= i < j < |s| ==> Below(s[i], s[j])
  }

  /** A set of names has only one strictly increasing listing. */
  lemma {:induction false} StrictlySortedUnique(a: seq<string>, b: seq<string>)
    requires StrictlySorted(a) && StrictlySorted(b)
    requires forall x :: x in a <==> x in b
    ensures a == b
    decreases |a|
  {
    if b != [] {
      assert b[0] in a;
    }
    if a != [] {
      assert a[0] in b;
      assert b != [];
      assert b[0] in a;
      var k :| 0 <= k < |b| && b[k] == a[0];
      var l :| 0 <= l < |a| && a[l] == b[0];
      if a[0] != b[0] {
        assert k > 0 && l > 0;
        assert Below(b[0], a[0]) && Below(a[0], b[0]);
        BelowAsymmetric(a[0], b[0]);
      }
      forall x ensures x in a[1..] <==> x in b[1..] {
        if x in a[1..] {
          var i :| 1 <= i < |a| && a[i] == x;
          BelowIrreflexive(x);
          assert x != a[0];
        }
        if x in b[1..] {
          var i :| 1 <= i < |b| && b[i] == x;
          BelowIrreflexive(x);
          assert x != b[0];
        }
        assert x in a <==> x == a[0] || x in a[1..];
        assert x in b <==> x == b[0] || x in b[1..];
      }
      StrictlySortedUnique(a[1..], b[1..]);
      assert a == [a[0]] + a[1..] && b == [b[0]] + b[1..];
    }
  }
}
