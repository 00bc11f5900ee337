/**
  * sort.Sort, seen through the interface it is given: Len, Less and Swap.  For a fixed length, a
  * deterministic sort is a finite tree that compares two places, swaps two places, or stops.
  */
module Sorting {
  import opened Bytes

  datatype Program =
    | Done
    | Compare(i: nat, j: nat, less: Program, notLess: Program)
    | Swap(i: nat, j: nat, next: Program)

  /** The program stays inside a slice of length `n`. */
  predicate Within(p: Program, n: nat) {
    match p
    case Done => true
    case Compare(i, j, less, notLess) => i < n && j < n && Within(less, n) && Within(notLess, n)
    case Swap(i, j, next) => i < n && j < n && Within(next, n)
  }

  /** The order of Go strings: by bytes. */
  predicate Before(x: Bytes, y: Bytes) {
    if y == [] then false
    else if x == [] then true
    else if x[0] != y[0] then x[0] < y[0]
    else Before(x[1..], y[1..])
  }

  /** At `k` the texts differ for the first time, and there `x` ends or has the smaller byte. */
  predicate SmallerAt(x: Bytes, y: Bytes, k: nat) {
    k <= |x| && k < |y| && x[..k] == y[..k] && (k == |x| || x[k] < y[k])
  }

  lemma {:induction false} BeforeExactlyWhen(x: Bytes, y: Bytes)
    ensures Before(x, y) <==> exists k: nat :: SmallerAt(x, y, k)
  {
    if y != [] && x != [] && x[0] == y[0] {
      BeforeExactlyWhen(x[1..], y[1..]);
      if k: nat :| SmallerAt(x[1..], y[1..], k) {
        assert x[..k + 1] == [x[0]] + x[1..][..k] && y[..k + 1] == [y[0]] + y[1..][..k];
        assert SmallerAt(x, y, k + 1);
      }
      if k: nat :| SmallerAt(x, y, k) {
        assert 0 < k;
        assert x[1..][..k - 1] == x[..k][1..] == y[..k][1..] == y[1..][..k - 1];
        assert SmallerAt(x[1..], y[1..], k - 1);
      }
    } else if y != [] {
      if x == [] || x[0] < y[0] {
        assert SmallerAt(x, y, 0);
      }
    }
  }

  predicate AtMost(x: Bytes, y: Bytes) {
    !Before(y, x)
  }

  function Swapped<T>(a: seq<T>, i: nat, j: nat): (b: seq<T>)
    requires i < |a| && j < |a|
    ensures |b| == |a|
  {
    a[i := a[j]][j := a[i]]
  }

  /** What the program makes of a slice whose elements are compared by their host. */
  function Execute<T>(p: Program, a: seq<T>, host: T -> Bytes): (b: seq<T>)
    requires Within(p, |a|)
    ensures |b| == |a|
    decreases p
  {
    match p
    case Done => a
    case Compare(i, j, less, notLess) =>
      if Before(host(a[i]), host(a[j])) then Execute(less, a, host) else Execute(notLess, a, host)
    case Swap(i, j, next) => Execute(next, Swapped(a, i, j), host)
  }

  method SortInPlace<T>(p: Program, a: array<T>, host: T -> Bytes)
    requires Within(p, a.Length)
    modifies a
    ensures a[..] == Execute(p, old(a[..]), host)
  {
    var rest := p;
    ghost var sorted := Execute(p, a[..], host);
    while !rest.Done?
      invariant Within(rest, a.Length)
      invariant sorted == Execute(rest, a[..], host)
      decreases rest
    {
      match rest {
        case Compare(i, j, less, notLess) =>
          if Before(host(a[i]), host(a[j])) {
            rest := less;
          } else {
            rest := notLess;
          }
        case Swap(i, j, next) =>
          ghost var was := a[..];
          a[i], a[j] := a[j], a[i];
          assert a[..] == Swapped(was, i, j);
          rest := next;
      }
    }
  }

  // ----- the same comparisons lead to the same swaps

  /** Where each place of the result comes from, told by the hosts alone. */
  function Moves(p: Program, places: seq<nat>, hosts: seq<Bytes>): (moved: seq<nat>)
    requires Within(p, |places|) && forall k :: 0 <= k < |places| ==> places[k] < |hosts|
    ensures |moved| == |places| && forall k :: 0 <= k < |moved| ==> moved[k] < |hosts|
    decreases p
  {
    match p
    case Done => places
    case Compare(i, j, less, notLess) =>
      if Before(hosts[places[i]], hosts[places[j]]) then Moves(less, places, hosts) else Moves(notLess, places, hosts)
    case Swap(i, j, next) => Moves(next, Swapped(places, i, j), hosts)
  }

  lemma {:induction false} ExecuteMoves<T>(
    p: Program, base: seq<T>, host: T -> Bytes, hosts: seq<Bytes>, a: seq<T>, places: seq<nat>)
    requires |hosts| == |base| && forall k :: 0 <= k < |base| ==> hosts[k] == host(base[k])
    requires |a| == |places| && Within(p, |a|)
    requires forall k :: 0 <= k < |a| ==> places[k] < |base| && a[k] == base[places[k]]
    ensures var moved := Moves(p, places, hosts);
            forall k :: 0 <= k < |a| ==> Execute(p, a, host)[k] == base[moved[k]]
    decreases p
  {
    match p
    case Done =>
    case Compare(i, j, less, notLess) =>
      ExecuteMoves(less, base, host, hosts, a, places);
      ExecuteMoves(notLess, base, host, hosts, a, places);
    case Swap(i, j, next) =>
      ExecuteMoves(next, base, host, hosts, Swapped(a, i, j), Swapped(places, i, j));
  }

  function Places(n: nat): seq<nat> {
    seq(n, i => i)
  }

  /** The permutation that the program performs on slices with these hosts. */
  function Permutation(p: Program, hosts: seq<Bytes>): (moved: seq<nat>)
    requires Within(p, |hosts|)
    ensures |moved| == |hosts| && forall k :: 0 <= k < |moved| ==> moved[k] < |hosts|
  {
    Moves(p, Places(|hosts|), hosts)
  }

  /** Any slice with these hosts, whatever its elements are, is rearranged by that one permutation. */
  lemma SortFollowsHosts<T>(p: Program, a: seq<T>, host: T -> Bytes, hosts: seq<Bytes>)
    requires |hosts| == |a| && Within(p, |a|) && forall k :: 0 <= k < |a| ==> hosts[k] == host(a[k])
    ensures forall k :: 0 <= k < |a| ==> Execute(p, a, host)[k] == a[Permutation(p, hosts)[k]]
  {
    ExecuteMoves(p, a, host, hosts, a, Places(|a|));
  }

  lemma {:induction false} MovesPermute(p: Program, places: seq<nat>, hosts: seq<Bytes>)
    requires Within(p, |places|) && forall k :: 0 <= k < |places| ==> places[k] < |hosts|
    ensures multiset(Moves(p, places, hosts)) == multiset(places)
    decreases p
  {
    match p
    case Done =>
    case Compare(i, j, less, notLess) =>
      MovesPermute(less, places, hosts);
      MovesPermute(notLess, places, hosts);
    case Swap(i, j, next) =>
      MovesPermute(next, Swapped(places, i, j), hosts);
  }

  lemma {:induction false} PlacesOnce(n: nat, x: nat)
    ensures multiset(Places(n))[x] <= 1
    ensures n <= x ==> multiset(Places(n))[x] == 0
  {
    if n != 0 {
      assert Places(n) == Places(n - 1) + [n - 1];
      PlacesOnce(n - 1, x);
    }
  }

  lemma TwiceCountsTwo(s: seq<nat>, i: nat, j: nat)
    requires i < j < |s|
    ensures s[i] == s[j] ==> 2 <= multiset(s)[s[i]]
  {
    assert s == s[..j] + s[j..];
    assert s[i] == s[..j][i];
    assert s[j] == s[j..][0];
  }

  /** Nothing is lost and nothing is doubled: no two places get the same element. */
  lemma PermutationIsInjective(p: Program, hosts: seq<Bytes>)
    requires Within(p, |hosts|)
    ensures var moved := Permutation(p, hosts);
            && (forall i, j :: 0 <= i < j < |moved| ==> moved[i] != moved[j])
            && (forall x :: 0 <= x < |hosts| ==> x in moved)
  {
    var n := |hosts|;
    var moved := Permutation(p, hosts);
    MovesPermute(p, Places(n), hosts);
    forall x | 0 <= x < n ensures x in moved {
      assert Places(n)[x] == x;
      assert x in multiset(Places(n));
    }
    forall i, j | 0 <= i < j < n ensures moved[i] != moved[j] {
      PlacesOnce(n, moved[i]);
      TwiceCountsTwo(moved, i, j);
    }
  }

  // ----- programs that sort

  function Itself(h: Bytes): Bytes {
    h
  }

  ghost predicate Ordered(hosts: seq<Bytes>) {
    forall i, j :: 0 <= i < j < |hosts| ==> AtMost(hosts[i], hosts[j])
  }

  /** The contract of sort.Sort for slices of length `n`. */
  ghost predicate Sorts(p: Program, n: nat) {
    Within(p, n) && forall hosts: seq<Bytes> :: |hosts| == n ==> Ordered(Execute(p, hosts, Itself))
  }

  lemma {:induction false} BeforeIsTotal(x: Bytes, y: Bytes)
    ensures AtMost(x, y) || AtMost(y, x)
    ensures AtMost(x, y) && AtMost(y, x) ==> x == y
  {
    if x != [] && y != [] && x[0] == y[0] {
      BeforeIsTotal(x[1..], y[1..]);
      assert x == [x[0]] + x[1..] && y == [y[0]] + y[1..];
    }
  }

  lemma {:induction false} AtMostIsTransitive(x: Bytes, y: Bytes, z: Bytes)
    requires AtMost(x, y) && AtMost(y, z)
    ensures AtMost(x, z)
  {
    if x != [] && y != [] && z != [] && x[0] == y[0] == z[0] {
      AtMostIsTransitive(x[1..], y[1..], z[1..]);
    }
  }

  /** Sorting elements by host sorts their hosts. */
  lemma HostsOfSorted<T>(p: Program, a: seq<T>, host: T -> Bytes, hosts: seq<Bytes>)
    requires |hosts| == |a| && Within(p, |a|) && forall k :: 0 <= k < |a| ==> hosts[k] == host(a[k])
    ensures forall k :: 0 <= k < |a| ==> host(Execute(p, a, host)[k]) == Execute(p, hosts, Itself)[k]
  {
    SortFollowsHosts(p, a, host, hosts);
    SortFollowsHosts(p, hosts, Itself, hosts);
    var moved := Permutation(p, hosts);
    forall k | 0 <= k < |a| ensures host(Execute(p, a, host)[k]) == Execute(p, hosts, Itself)[k] {
      assert Execute(p, a, host)[k] == a[moved[k]];
    }
  }

  function Hosts<T>(a: seq<T>, host: T -> Bytes): (hosts: seq<Bytes>)
    ensures |hosts| == |a| && forall k :: 0 <= k < |a| ==> hosts[k] == host(a[k])
  {
    seq(|a|, k requires 0 <= k < |a| => host(a[k]))
  }

  lemma SortsHosts(p: Program, hosts: seq<Bytes>)
    requires Sorts(p, |hosts|)
    ensures Within(p, |hosts|) && Ordered(Execute(p, hosts, Itself))
  {
  }

  /** The elements come out in the order of their hosts. */
  lemma SortedByHost<T>(p: Program, a: seq<T>, host: T -> Bytes, i: nat, j: nat)
    requires Sorts(p, |a|) && i < j < |a|
    ensures AtMost(host(Execute(p, a, host)[i]), host(Execute(p, a, host)[j]))
  {
    HostsOfSorted(p, a, host, Hosts(a, host));
    SortsHosts(p, Hosts(a, host));
  }

  /** Insertion sort, which sort.Sort uses for up to twelve elements: element `i` is on its way down at `j`. */
  function InsertFrom(n: nat, i: nat, j: nat): Program
    requires j <= i
    decreases if i < n then n - i else 0, j
  {
    if i >= n then Done
    else if j == 0 then InsertFrom(n, i + 1, i + 1)
    else Compare(j, j - 1, Swap(j, j - 1, InsertFrom(n, i, j - 1)), InsertFrom(n, i + 1, i + 1))
  }

  /** The first `i + 1` places are in order but for place `j`, whose element is at most those above it. */
  ghost predicate OrderedBut(a: seq<Bytes>, i: nat, j: nat)
    requires j <= i < |a|
  {
    && (forall x, y :: 0 <= x < y <= i && x != j && y != j ==> AtMost(a[x], a[y]))
    && (forall y :: j < y <= i ==> AtMost(a[j], a[y]))
  }

  /** What insertion at `j` may rely on, and what it has reached when all elements are in. */
  ghost predicate Inserting(a: seq<Bytes>, i: nat, j: nat)
    requires j <= i
  {
    if i < |a| then OrderedBut(a, i, j) else Ordered(a)
  }

  lemma SwapInserts(a: seq<Bytes>, i: nat, j: nat)
    requires 0 < j <= i < |a| && OrderedBut(a, i, j) && Before(a[j], a[j - 1])
    ensures OrderedBut(Swapped(a, j, j - 1), i, j - 1)
  {
    BeforeIsTotal(a[j], a[j - 1]);
  }

  lemma RestIsInserted(a: seq<Bytes>, i: nat, j: nat)
    requires j <= i < |a| && OrderedBut(a, i, j) && (0 < j ==> !Before(a[j], a[j - 1]))
    ensures Inserting(a, i + 1, i + 1)
  {
    forall x | 0 <= x < j ensures AtMost(a[x], a[j]) {
      BeforeIsTotal(a[j], a[j - 1]);
      if x < j - 1 {
        AtMostIsTransitive(a[x], a[j - 1], a[j]);
      }
    }
  }

  lemma {:induction false} InsertWithin(n: nat, i: nat, j: nat)
    requires j <= i
    ensures Within(InsertFrom(n, i, j), n)
    decreases if i < n then n - i else 0, j
  {
    if i < n {
      InsertWithin(n, i + 1, i + 1);
      if 0 < j {
        InsertWithin(n, i, j - 1);
      }
    }
  }

  lemma {:induction false} InsertSorts(n: nat, i: nat, j: nat, a: seq<Bytes>)
    requires j <= i && |a| == n && Inserting(a, i, j)
    ensures Within(InsertFrom(n, i, j), n)
    ensures Ordered(Execute(InsertFrom(n, i, j), a, Itself))
    decreases if i < n then n - i else 0, j
  {
    InsertWithin(n, i, j);
    if i < n {
      InsertWithin(n, i + 1, i + 1);
      if 0 < j && Before(a[j], a[j - 1]) {
        InsertWithin(n, i, j - 1);
        SwapInserts(a, i, j);
        InsertSorts(n, i, j - 1, Swapped(a, j, j - 1));
      } else {
        RestIsInserted(a, i, j);
        InsertSorts(n, i + 1, i + 1, a);
      }
    }
  }

  /** The contract can be met, for every length. */
  lemma InsertionSorts(n: nat)
    ensures Sorts(InsertFrom(n, 0, 0), n)
  {
    InsertWithin(n, 0, 0);
    forall hosts: seq<Bytes> | |hosts| == n ensures Ordered(Execute(InsertFrom(n, 0, 0), hosts, Itself)) {
      InsertSorts(n, 0, 0, hosts);
    }
  }
}
