/** Failure-aware results shared by every module. */
module Wrappers {
  datatype Option<+T> = None | Some(value: T)

  datatype Result<+T, +E> = Ok(value: T) | Err(error: E)
}

/** Searching in sequences, and facts about them that Dafny has to be told. */
module Sequences {
  import opened Wrappers

  lemma AppendIsAssociative<T>(a: seq<T>, b: seq<T>, c: seq<T>)
    ensures (a + b) + c == a + (b + c)
  {
  }

  ghost predicate NoRepeats<T>(s: seq<T>) {
    forall i, j | 0 <= i < j < |s| :: s[i] != s[j]
  }

  /** The last `n` elements, or all of them. */
  function LastN<T>(s: seq<T>, n: nat): seq<T> {
    if |s| <= n then s else s[|s| - n..]
  }

  /** `iter().position(|b| b == x)`: the index of the first `x`. */
  function Position<T(==)>(b: seq<T>, x: T): (r: Option<nat>)
    ensures r.None? ==> x !in b
    ensures r.Some? ==> r.value < |b| && b[r.value] == x && x !in b[..r.value]
  {
    if b == [] then None
    else if b[0] == x then Some(0)
    else
      var rest := Position(b[1..], x);
      if rest.None? then None
      else
        assert b[..rest.value + 1] == [b[0]] + b[1..][..rest.value];
        Some(rest.value + 1)
  }

  /** What stands between the separators: `split`. */
  function Split(s: string, separator: char): (p: seq<string>)
    ensures p != [] && forall i | 0 <= i < |p| :: separator !in p[i]
  {
    if s == "" then [""]
    else
      var rest := Split(s[1..], separator);
      if s[0] == separator then [""] + rest else [[s[0]] + rest[0]] + rest[1..]
  }

  /** The first `x` of `a + b`, given that `a` holds none. */
  lemma {:induction false} PositionAfter<T>(a: seq<T>, b: seq<T>, x: T)
    requires x !in a
    ensures Position(a + b, x) == match Position(b, x) case None => None case Some(i) => Some(|a| + i)
  {
    if a == [] {
      assert a + b == b;
    } else {
      assert (a + b)[1..] == a[1..] + b;
      PositionAfter(a[1..], b, x);
    }
  }
}

/** Sizes of finite sets. */
module Sets {
  lemma SubsetSize<T>(a: set<T>, b: set<T>)
    requires a <= b
    ensures |a| <= |b|
    decreases |a|
  {
    if a != {} {
      var x :| x in a;
      SubsetSize(a - {x}, b - {x});
    }
  }

  lemma EqualSizedSubset<T>(a: set<T>, b: set<T>)
    requires a <= b && |a| == |b|
    ensures a == b
  {
    if x :| x in b && x !in a {
      SubsetSize(a, b - {x});
    }
  }

  /** Distinct members of a set are no more than it has. */
  lemma {:induction false} Pigeonhole<T>(s: seq<T>, all: set<T>)
    requires (forall i, j | 0 <= i < j < |s| :: s[i] != s[j]) && forall x | x in s :: x in all
    ensures |s| <= |all|
    decreases |s|
  {
    if s != [] {
      var n := |s| - 1;
      assert s[n] in s;
      forall x | x in s[..n] ensures x in all - {s[n]} {
        var i :| 0 <= i < n && s[i] == x;
        assert s[i] in s;
      }
      Pigeonhole(s[..n], all - {s[n]});
    }
  }

  /** Comparing sizes is comparing what each set has alone. */
  lemma SizesDifferBy<T>(a: set<T>, b: set<T>)
    ensures |a| - |b| == |a - b| - |b - a|
  {
    assert a == (a - b) + a * b && b == (b - a) + a * b;
  }
}

module Bytes {
  type Byte = x: int | 0 <= x < 256
}
