/**
 The touched-key log of the store and the way `flushTouched` drains it:
 `touched.filter((key, i, arr) => arr.indexOf(key) === i)` keeps every key at
 the position of its first occurrence and drops every later repetition.
 */
module TouchLog {

  /** `arr.indexOf(x)`: the position of the first occurrence of `x` in `s`,
      or -1 when `x` does not occur in `s`. */
  function IndexOf<T(==)>(s: seq<T>, x: T): (r: int)
    ensures -1 <= r < |s|
    ensures r == -1 <==> x !in s
    ensures 0 <= r ==> s[r] == x && x !in s[..r]
  {
    if |s| == 0 then -1
    else if s[0] == x then 0
    else
      var j := IndexOf(s[1..], x);
      assert j >= 0 ==> s[..j + 1] == [s[0]] + s[1..][..j];
      if j == -1 then -1 else j + 1
  }

  /** The filter callback applied to the first `n` entries of `s`: entry `i`
      survives exactly when `IndexOf(s, s[i]) == i`. */
  function FilterFirst<T(==)>(s: seq<T>, n: nat): (r: seq<T>)
    requires n <= |s|
    ensures |r| <= n
    ensures forall i :: 0 <= i < |r| ==> r[i] in s[..n]
    decreases n
  {
    assert n > 0 ==> s[..n] == s[..n - 1] + [s[n - 1]];
    if n == 0 then []
    else FilterFirst(s, n - 1) + (if IndexOf(s, s[n - 1]) == n - 1 then [s[n - 1]] else [])
  }

  /** The result of `flushTouched` for a log `s`: every logged key, once. */
  function Dedup<T(==)>(s: seq<T>): (r: seq<T>)
    ensures forall i :: 0 <= i < |s| ==> s[i] in r
    ensures forall i :: 0 <= i < |r| ==> r[i] in s
    ensures Distinct(r)
  {
    FilterFirstSpec(s, |s|);
    assert s[..|s|] == s;
    FilterFirst(s, |s|)
  }

  /** No element occurs twice. */
  predicate Distinct<T(==)>(s: seq<T>)
  {
    forall i, j :: 0 <= i < j < |s| ==> s[i] != s[j]
  }

  /** An element of the first `n` entries has its first occurrence among them. */
  lemma IndexOfPrefix<T>(s: seq<T>, n: nat, x: T)
    requires n <= |s| && x in s[..n]
    ensures 0 <= IndexOf(s, x) < n
  {
  }

  /** What `FilterFirst(s, n)` keeps: exactly the keys among the first `n`
      entries, each once, in order of first occurrence, and only keys whose
      first occurrence lies among those entries. */
  lemma {:induction false} FilterFirstSpec<T>(s: seq<T>, n: nat)
    requires n <= |s|
    ensures forall x :: x in FilterFirst(s, n) <==> x in s[..n]
    ensures forall x :: x in FilterFirst(s, n) ==> 0 <= IndexOf(s, x) < n
    ensures forall i, j :: 0 <= i < j < |FilterFirst(s, n)| ==>
              IndexOf(s, FilterFirst(s, n)[i]) < IndexOf(s, FilterFirst(s, n)[j])
    decreases n
  {
    if n > 0 {
      FilterFirstSpec(s, n - 1);
      var y := s[n - 1];
      assert s[..n] == s[..n - 1] + [y];
      forall x | x in s[..n]
        ensures x in FilterFirst(s, n)
      {
        if x != y {
          assert x in s[..n - 1];
        } else if IndexOf(s, y) != n - 1 {
          IndexOfPrefix(s, n, y);
          assert s[IndexOf(s, y)] == s[..n - 1][IndexOf(s, y)];
        }
      }
      forall x | x in FilterFirst(s, n)
        ensures 0 <= IndexOf(s, x) < n
      {
        IndexOfPrefix(s, n, x);
      }
    }
  }

  /** `flushTouched` returns each distinct logged key exactly once, in the
      order of its first occurrence in the log. */
  lemma DedupSpec<T>(s: seq<T>)
    ensures forall x :: x in Dedup(s) <==> x in s
    ensures Distinct(Dedup(s))
    ensures forall i, j :: 0 <= i < j < |Dedup(s)| ==> IndexOf(s, Dedup(s)[i]) < IndexOf(s, Dedup(s)[j])
  {
    FilterFirstSpec(s, |s|);
    assert s[..|s|] == s;
  }

  /** Appending to a log does not move the first occurrence of a key already in it. */
  lemma {:induction false} IndexOfAppend<T>(s: seq<T>, t: seq<T>, x: T)
    requires x in s
    ensures IndexOf(s + t, x) == IndexOf(s, x)
  {
    if s[0] != x {
      assert (s + t)[1..] == s[1..] + t;
      IndexOfAppend(s[1..], t, x);
    }
  }

  /** Filtering a prefix of an extended log is the same as filtering that
      prefix of the original log. */
  lemma {:induction false} FilterFirstAppend<T>(s: seq<T>, t: seq<T>, n: nat)
    requires n <= |s|
    ensures FilterFirst(s + t, n) == FilterFirst(s, n)
    decreases n
  {
    if n > 0 {
      FilterFirstAppend(s, t, n - 1);
      assert (s + t)[n - 1] == s[n - 1];
      IndexOfAppend(s, t, s[n - 1]);
    }
  }

  /** Logging one more key: the flushed list grows by that key exactly when it
      was not logged before. */
  lemma DedupSnoc<T>(s: seq<T>, x: T)
    ensures Dedup(s + [x]) == Dedup(s) + (if x in s then [] else [x])
  {
    FilterFirstAppend(s, [x], |s|);
    assert (s + [x])[|s|] == x;
    if x in s {
      IndexOfAppend(s, [x], x);
    } else {
      assert IndexOf(s + [x], x) == |s| by {
        assert (s + [x])[..|s|] == s;
      }
    }
  }

  /** A log without repetitions flushes to itself. */
  lemma {:induction false} DedupDistinct<T>(s: seq<T>)
    requires Distinct(s)
    ensures Dedup(s) == s
    decreases |s|
  {
    if |s| > 0 {
      var init := s[..|s| - 1];
      var x := s[|s| - 1];
      assert s == init + [x];
      assert Distinct(init);
      DedupDistinct(init);
      DedupSnoc(init, x);
    }
  }

  /** Deduplicating an already flushed list changes nothing. */
  lemma DedupIdempotent<T>(s: seq<T>)
    ensures Dedup(Dedup(s)) == Dedup(s)
  {
    DedupSpec(s);
    DedupDistinct(Dedup(s));
  }

  /** A key logged twice in a row (as `writeEntityValue` does for a graph
      key) is flushed once, just as if it had been logged once. */
  lemma DedupRepeat<T>(s: seq<T>, x: T)
    ensures Dedup(s + [x, x]) == Dedup(s + [x])
  {
    assert s + [x, x] == (s + [x]) + [x];
    DedupSnoc(s + [x], x);
  }

  /** Flushing a log that is a prefix of another: the first flushed list is a
      prefix of the second, so later accesses only add keys at the end. */
  lemma {:induction false} DedupPrefix<T>(s: seq<T>, t: seq<T>)
    ensures |Dedup(s)| <= |Dedup(s + t)| && Dedup(s + t)[..|Dedup(s)|] == Dedup(s)
  {
    FilterFirstAppend(s, t, |s|);
    var u := s + t;
    assert u[..|s|] == s;
    FilterFirstPrefix(u, |s|, |u|);
  }

  /** Filtering fewer entries gives a prefix of filtering more. */
  lemma {:induction false} FilterFirstPrefix<T>(s: seq<T>, m: nat, n: nat)
    requires m <= n <= |s|
    ensures |FilterFirst(s, m)| <= |FilterFirst(s, n)|
    ensures FilterFirst(s, n)[..|FilterFirst(s, m)|] == FilterFirst(s, m)
    decreases n
  {
    if m < n {
      FilterFirstPrefix(s, m, n - 1);
    }
  }
}
