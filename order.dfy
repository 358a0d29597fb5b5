/**
 * Python's ordering of strings (lexicographic by code point) and
 * `sorted(list(set(xs)))`: the distinct elements of a list in ascending order.
 */
module Order {
  import opened Seqs

  /**
   * `a < b` on Python strings: the first differing character decides, and a
   * proper prefix comes first (so no string sorts before one of its prefixes).
   */
  function Below(a: string, b: string): (below: bool)
    ensures |a| < |b| && a == b[..|a|] ==> below
    ensures |b| <= |a| && b == a[..|b|] ==> !below
  {
    if |a| == 0 then |b| > 0
    else if |b| == 0 then false
    else if a[0] != b[0] then a[0] < b[0]
    else
      DropFirstOfPrefix(b, |a|);
      DropFirstOfPrefix(a, |b|);
      Below(a[1..], b[1..])
  }

  lemma {:induction false} BelowIrreflexive(a: string)
    ensures !Below(a, a)
  {
    if |a| > 0 {
      BelowIrreflexive(a[1..]);
    }
  }

  lemma {:induction false} BelowTransitive(a: string, b: string, c: string)
    requires Below(a, b) && Below(b, c)
    ensures Below(a, c)
  {
    if |a| > 0 && |b| > 0 && |c| > 0 && a[0] == b[0] && b[0] == c[0] {
      BelowTransitive(a[1..], b[1..], c[1..]);
    }
  }

  /** Distinct strings are always ordered one way or the other. */
  lemma {:induction false} BelowTotal(a: string, b: string)
    ensures a == b || Below(a, b) || Below(b, a)
  {
    if |a| > 0 && |b| > 0 && a[0] == b[0] {
      BelowTotal(a[1..], b[1..]);
      if a[1..] == b[1..] {
        assert a == [a[0]] + a[1..];
        assert b == [b[0]] + b[1..];
      }
    }
  }

  lemma BelowAsymmetric(a: string, b: string)
    requires Below(a, b)
    ensures !Below(b, a)
  {
    if Below(b, a) {
      BelowTransitive(a, b, a);
      BelowIrreflexive(a);
    }
  }

  /** Strictly ascending: sorted and without repeats. */
  predicate StrictlySorted(s: seq<string>) {
    forall i, j | 0 <= i < j < |s| :: Below(s[i], s[j])
  }

  function Elements(s: seq<string>): set<string> {
    set x | x in s
  }

  lemma ElementsCons(a: string, s: seq<string>)
    ensures Elements([a] + s) == {a} + Elements(s)
  {
  }

  /** Puts `x` into its place in a strictly ascending list, unless it is there already. */
  function Insert(s: seq<string>, x: string): (r: seq<string>)
    requires StrictlySorted(s)
    ensures StrictlySorted(r)
    ensures Elements(r) == Elements(s) + {x}
  {
    if |s| == 0 then [x]
    else if x == s[0] then s
    else if Below(x, s[0]) then
      assert forall k | 0 < k < |s| :: Below(x, s[k]) by {
        forall k | 0 < k < |s| ensures Below(x, s[k]) {
          BelowTransitive(x, s[0], s[k]);
        }
      }
      [x] + s
    else
      var rest := Insert(s[1..], x);
      BelowTotal(x, s[0]);
      assert s == [s[0]] + s[1..];
      ElementsCons(s[0], s[1..]);
      ElementsCons(s[0], rest);
      assert forall k | 0 <= k < |rest| :: Below(s[0], rest[k]) by {
        forall k | 0 <= k < |rest| ensures Below(s[0], rest[k]) {
          assert rest[k] in Elements(rest);
          if rest[k] != x {
            var m :| 0 <= m < |s[1..]| && s[1..][m] == rest[k];
            assert s[m + 1] == rest[k];
          }
        }
      }
      [s[0]] + rest
  }

  /** `sorted(list(set(xs)))`: each element is inserted into an ascending list without repeats. */
  method SortedDistinct(xs: seq<string>) returns (r: seq<string>)
    ensures StrictlySorted(r)
    ensures Elements(r) == Elements(xs)
  {
    r := [];
    for k := 0 to |xs|
      invariant StrictlySorted(r)
      invariant Elements(r) == Elements(xs[..k])
    {
      r := Insert(r, xs[k]);
      assert xs[..k + 1] == xs[..k] + [xs[k]];
    }
    assert xs[..|xs|] == xs;
  }

  /** A strictly ascending list is determined by its elements: any sort of the set gives the same list. */
  lemma {:induction false} SortedUnique(a: seq<string>, b: seq<string>)
    requires StrictlySorted(a) && StrictlySorted(b)
    requires Elements(a) == Elements(b)
    ensures a == b
  {
    if |a| > 0 && |b| > 0 {
      SmallestFirst(a, b[0]);
      SmallestFirst(b, a[0]);
      if a[0] != b[0] {
        BelowAsymmetric(a[0], b[0]);
      }
      assert a == [a[0]] + a[1..];
      assert b == [b[0]] + b[1..];
      DropFirst(a);
      DropFirst(b);
      SortedUnique(a[1..], b[1..]);
    } else {
      NoElements(a);
      NoElements(b);
    }
  }

  lemma NoElements(s: seq<string>)
    ensures Elements(s) == {} <==> |s| == 0
  {
    if |s| > 0 {
      assert s[0] in Elements(s);
    }
  }

  /** The head of a strictly ascending list is its least element. */
  lemma SmallestFirst(s: seq<string>, x: string)
    requires StrictlySorted(s) && |s| > 0 && x in Elements(s)
    ensures x == s[0] || Below(s[0], x)
  {
  }

  /** Dropping the head of a strictly ascending list removes exactly that element. */
  lemma DropFirst(s: seq<string>)
    requires StrictlySorted(s) && |s| > 0
    ensures StrictlySorted(s[1..])
    ensures Elements(s[1..]) == Elements(s) - {s[0]}
  {
    forall x | x in Elements(s[1..])
      ensures x != s[0]
    {
      var m :| 0 <= m < |s[1..]| && s[1..][m] == x;
      assert Below(s[0], s[m + 1]);
      BelowIrreflexive(s[0]);
    }
    assert s == [s[0]] + s[1..];
  }
}
