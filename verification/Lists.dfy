/** The kernel's linked lists seen as sequences. */
module Lists {
  /** A sequence without the first occurrence of `n`: `list_del`. */
  function Without<A(==)>(s: seq<A>, n: A): seq<A>
  {
    if s == [] then [] else if s[0] == n then s[1..] else [s[0]] + Without(s[1..], n)
  }

  lemma {:induction false} WithoutMiddle<A>(a: seq<A>, n: A, b: seq<A>)
    requires n !in a
    ensures Without(a + [n] + b, n) == a + b
  {
    var s := a + [n] + b;
    if a == [] {
      assert s[1..] == b;
    } else {
      assert s[1..] == a[1..] + [n] + b;
      WithoutMiddle(a[1..], n, b);
      assert [a[0]] + (a[1..] + b) == a + b;
    }
  }

  ghost function Elems<A>(s: seq<A>): set<A> { set x | x in s }

  ghost predicate Unique<A>(s: seq<A>)
  {
    forall i, j :: 0 <= i < j < |s| ==> s[i] != s[j]
  }

  lemma {:induction false} UniqueWithout<A>(s: seq<A>, n: A)
    requires Unique(s) && n in s
    ensures Unique(Without(s, n)) && Elems(Without(s, n)) == Elems(s) - {n} && |Without(s, n)| == |s| - 1
  {
    assert s == [s[0]] + s[1..];
    if s[0] != n {
      UniqueWithout(s[1..], n);
      assert s[0] !in Elems(Without(s[1..], n));
      UniquePush(Without(s[1..], n), s[0]);
      assert Elems(s) == Elems(s[1..]) + {s[0]};
    }
  }

  lemma UniquePush<A>(s: seq<A>, n: A)
    requires Unique(s) && n !in s
    ensures Unique([n] + s) && Elems([n] + s) == Elems(s) + {n}
  {
    assert forall x :: x in Elems(s) + {n} ==> x in [n] + s;
  }

  lemma {:induction false} UniqueSize<A>(s: seq<A>)
    requires Unique(s)
    ensures |Elems(s)| == |s|
  {
    if s != [] {
      UniqueSize(s[1..]);
      assert s == [s[0]] + s[1..];
      assert Elems(s) == Elems(s[1..]) + {s[0]} && s[0] !in Elems(s[1..]);
    }
  }

  predicate IsIndex(i: nat, n: nat) { i < n }

  ghost function Indices(n: nat): set<nat> { set i: nat | IsIndex(i, n) && i < n }

  lemma {:induction false} IndicesSize(n: nat)
    ensures |Indices(n)| == n
  {
    if n > 0 {
      IndicesSize(n - 1);
      assert Indices(n) == Indices(n - 1) + {n - 1};
    }
  }

  /** Different indices below `n`, one of them missing, are fewer than `n`. */
  lemma Pigeonhole(s: seq<nat>, n: nat, d: nat)
    requires Unique(s) && (forall x :: x in s ==> x < n) && d < n && d !in s
    ensures |s| < n
  {
    UniqueSize(s);
    IndicesSize(n);
    Subset(Elems(s) + {d}, Indices(n));
  }

  lemma {:induction false} Subset<A>(a: set<A>, b: set<A>)
    requires a <= b
    ensures |a| <= |b|
    decreases a
  {
    if x :| x in a { Subset(a - {x}, b - {x}); }
  }

  ghost function Removed<A>(s: seq<A>, i: nat): seq<A>
    requires i < |s|
  {
    s[..i] + s[i + 1..]
  }

  lemma RemovedAt<A>(s: seq<A>, i: nat)
    requires i < |s| && Unique(s)
    ensures Unique(Removed(s, i)) && Elems(Removed(s, i)) == Elems(s) - {s[i]}
  {
    var r := Removed(s, i);
    assert forall j :: 0 <= j < |r| ==> r[j] == s[if j < i then j else j + 1];
    forall a | a in s && a != s[i]
      ensures a in r
    {
      var j :| 0 <= j < |s| && s[j] == a;
      assert r[if j < i then j else j - 1] == a;
    }
  }

  lemma MovedToFront<A>(s: seq<A>, i: nat)
    requires i < |s| && Unique(s)
    ensures Unique([s[i]] + Removed(s, i)) && Elems([s[i]] + Removed(s, i)) == Elems(s)
  {
    RemovedAt(s, i);
    assert s[i] !in Elems(Removed(s, i));
  }

  lemma WithoutAt<A>(s: seq<A>, n: A) returns (i: nat)
    requires n in s && Unique(s)
    ensures i < |s| && s[i] == n && Without(s, n) == Removed(s, i)
  {
    i :| 0 <= i < |s| && s[i] == n;
    assert s == s[..i] + [n] + s[i + 1..];
    WithoutMiddle(s[..i], n, s[i + 1..]);
  }

  lemma SliceOfSlice<A>(s: seq<A>, base: nat, len: nat, k: nat, n: nat)
    requires base + len <= |s| && k + n <= len
    ensures s[base..base + len][k..k + n] == s[base + k..base + k + n]
  {
    var t, u := s[base..base + len][k..k + n], s[base + k..base + k + n];
    forall i | 0 <= i < n ensures t[i] == u[i] {
      assert t[i] == s[base..base + len][k + i] == s[base + (k + i)];
    }
  }

  /** A prefix with the piece that follows it is a prefix. */
  lemma PrefixGrows<A>(s: seq<A>, p: seq<A>, n: nat)
    requires p <= s && |p| + n <= |s|
    ensures p + s[|p|..|p| + n] <= s
  {
    assert p == s[..|p|];
    assert s[..|p|] + s[|p|..|p| + n] == s[..|p| + n];
  }
}
